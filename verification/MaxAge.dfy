/** The max-age directive of a response's Cache-Control, as the cache reads it (cache/cache.go:155-160). */
module MaxAgeLaws {
  import opened Text
  import opened CacheSpec

  lemma {:induction false} TrimRightKeeps(a: string, t: string, cut: string)
    requires t != "" && t[0] !in cut
    ensures exists n :: 0 < n <= |t| && TrimRight(a + t, cut) == a + t[..n]
    decreases |t|
  {
    var s := a + t;
    assert s[|s| - 1] == t[|t| - 1];
    if t[|t| - 1] in cut {
      assert s[..|s| - 1] == a + t[..|t| - 1];
      TrimRightKeeps(a, t[..|t| - 1], cut);
      var n :| 0 < n <= |t| - 1 && TrimRight(a + t[..|t| - 1], cut) == a + t[..|t| - 1][..n];
      assert t[..|t| - 1][..n] == t[..n];
    } else {
      assert a + t[..|t|] == s;
    }
  }

  lemma DigitsThenOther(n: nat, t: string)
    requires n < INT64_LIMIT && t != "" && DigitValue(t[0]) >= 10
    ensures ParseInt(Digits(n, 10) + t, 10) == Syntax
  {
    hide Digits;
    var d := Digits(n, 10);
    ScanOfDigits(n, 10);
    ScanAppend(d, t, 10, 0);
    assert d[0] in d;
    assert (d + t)[0] == d[0];
  }

  lemma BlankPrefix(tail: string, cut: string) returns (blank: string, rest: string)
    requires exists x :: x in tail && x !in cut
    ensures tail == blank + rest && rest != "" && rest[0] !in cut
  {
    TrimLeftSpec(tail, cut);
    rest := TrimLeft(tail, cut);
    blank := tail[..|tail| - |rest|];
    hide TrimLeft;
    assert forall x | x in blank :: x in cut;
    assert tail == blank + rest;
  }

  lemma FollowedByMore(n: nat, tail: string)
    requires n < INT64_LIMIT && tail != "" && DigitValue(tail[0]) >= 10
    requires exists x :: x in tail && x !in " ,;"
    ensures ParseInt(TrimRight(Digits(n, 10) + tail, " ,;"), 10) == Syntax
  {
    hide Digits, ParseInt, TrimRight, DigitValue;
    var blank, rest := BlankPrefix(tail, " ,;");
    var d := Digits(n, 10);
    TrimRightKeeps(d + blank, rest, " ,;");
    var m :| 0 < m <= |rest| && TrimRight(d + blank + rest, " ,;") == d + blank + rest[..m];
    var after := blank + rest[..m];
    Regroup(d, blank, rest);
    Regroup(d, blank, rest[..m]);
    assert after[0] == tail[0] by {
      if blank == "" { assert after[0] == rest[0]; } else { assert after[0] == blank[0]; }
    }
    DigitsThenOther(n, after);
  }

  lemma FollowedByBlanks(n: nat, tail: string)
    requires n < INT64_LIMIT && forall x | x in tail :: x in " ,;"
    ensures ParseInt(TrimRight(Digits(n, 10) + tail, " ,;"), 10) == Value(n)
  {
    hide Digits, ParseInt, TrimRight;
    var d := Digits(n, 10);
    assert forall c | c in d :: DigitValue(c) < 10;
    assert d[|d| - 1] in d;
    assert d[|d| - 1] !in " ,;";
    TrimRightAppend(d, tail, " ,;");
    ParseIntOfDigits(n, 10);
  }

  // ----- numbers, without reference to the parser -----

  predicate AllDigits(s: string) {
    forall c | c in s :: DigitValue(c) < 10
  }

  predicate Signed(sign: string, digits: string, n: nat) {
    && digits != "" && AllDigits(digits) && n == Magnitude(digits, 0) < INT64_LIMIT
    && (sign == "" || sign == "+" || (sign == "-" && n == 0))
  }

  lemma {:induction false} MagnitudeGrows(digits: string, acc: nat)
    ensures Magnitude(digits, acc) >= acc
  {
    if digits != "" { MagnitudeGrows(digits[1..], acc * 10 + DigitValue(digits[0])); }
  }

  lemma {:induction false} ScanIsMagnitude(s: string, acc: nat)
    requires acc < UINT64_LIMIT
    ensures ScanDigits(s, 10, acc).Value? <==> AllDigits(s) && Magnitude(s, acc) < UINT64_LIMIT
    ensures ScanDigits(s, 10, acc).Value? ==> ScanDigits(s, 10, acc).n == Magnitude(s, acc)
    ensures ScanDigits(s, 10, acc).OutOfRange? ==> ScanDigits(s, 10, acc).clamped == UINT64_LIMIT - 1
  {
    if s != "" {
      var next := acc * 10 + DigitValue(s[0]);
      assert s == [s[0]] + s[1..];
      MagnitudeGrows(s[1..], next);
      if DigitValue(s[0]) < 10 && next < UINT64_LIMIT {
        ScanIsMagnitude(s[1..], next);
      }
    }
  }

  lemma SignedParses(sign: string, digits: string, n: nat)
    requires Signed(sign, digits, n)
    ensures ParseInt(sign + digits, 10) == Value(n)
  {
    ScanIsMagnitude(digits, 0);
    assert digits[0] in digits;
    assert sign + digits == if sign == "" then digits else [sign[0]] + digits;
    assert sign != "" ==> (sign + digits)[1..] == digits;
    hide ScanDigits;
  }

  lemma ParsesSigned(text: string) returns (sign: string, digits: string)
    requires ParseInt(text, 10).Value? && ParseInt(text, 10).n >= 0
    ensures text == sign + digits && Signed(sign, digits, ParseInt(text, 10).n)
  {
    var marked := text[0] == '+' || text[0] == '-';
    sign, digits := if marked then [text[0]] else "", if marked then text[1..] else text;
    assert text == sign + digits && (sign == "" || sign == "+" || sign == "-");
    ScanIsMagnitude(digits, 0);
    hide Magnitude, AllDigits;
    var u := ScanDigits(digits, 10, 0);
    hide ScanDigits;
    assert digits != "" && u.Value?;
  }

  // ----- the directive -----

  predicate Blank(s: string) {
    forall x | x in s :: x in " ,;"
  }

  /** The first max-age= of cc is followed by a number and then only by blanks, commas and semicolons. */
  ghost predicate Asks(cc: string, pre: string, sign: string, digits: string, tail: string, n: nat) {
    && cc == pre + "max-age=" + sign + digits + tail && IndexOfText(cc, "max-age=") == |pre|
    && Signed(sign, digits, n) && Blank(tail)
  }

  lemma AsksHonoured(cc: string, pre: string, sign: string, digits: string, tail: string, n: nat, default: int)
    requires Asks(cc, pre, sign, digits, tail, n)
    ensures TtlOf(cc, default) == n * NS_PER_SECOND
  {
    hide IndexOfText, Magnitude, ParseInt, TrimRight;
    var text := sign + digits;
    assert digits[|digits| - 1] in digits;
    assert text[|text| - 1] == digits[|digits| - 1] && text[|text| - 1] !in " ,;";
    assert cc[|pre| + 8..] == text + tail;
    TrimRightAppend(text, tail, " ,;");
    SignedParses(sign, digits, n);
  }

  lemma HonouredAsks(cc: string) returns (pre: string, sign: string, digits: string, tail: string, n: nat)
    requires IndexOfText(cc, "max-age=") <= |cc|
    requires var num := ParseInt(TrimRight(cc[IndexOfText(cc, "max-age=") + 8..], " ,;"), 10); num.Value? && num.n >= 0
    ensures Asks(cc, pre, sign, digits, tail, n)
  {
    hide IndexOfText, Magnitude, ParseInt, TrimRight, Signed;
    var i := IndexOfText(cc, "max-age=");
    var rest := cc[i + 8..];
    var text := TrimRight(rest, " ,;");
    TrimRightSpec(rest, " ,;");
    sign, digits := ParsesSigned(text);
    pre, tail, n := cc[..i], rest[|text|..], ParseInt(text, 10).n;
    assert rest == text + tail;
    assert cc == cc[..i] + cc[i..i + 8] + rest;
  }

  /** For every Cache-Control value: its first max-age= sets the time to live if and only if a number follows it
      and nothing after the number but blanks, commas and semicolons; in every other case the default holds. */
  lemma MaxAgeExactly(cc: string, default: int)
    ensures forall pre, sign, digits, tail, n: nat ::
      Asks(cc, pre, sign, digits, tail, n) ==> TtlOf(cc, default) == n * NS_PER_SECOND
    ensures (forall pre, sign, digits, tail, n: nat :: !Asks(cc, pre, sign, digits, tail, n)) ==>
      TtlOf(cc, default) == default
  {
    hide Asks, Magnitude, ParseInt, TrimRight, IndexOfText;
    forall pre, sign, digits, tail, n: nat | Asks(cc, pre, sign, digits, tail, n)
      ensures TtlOf(cc, default) == n * NS_PER_SECOND
    {
      AsksHonoured(cc, pre, sign, digits, tail, n, default);
    }
    var i := IndexOfText(cc, "max-age=");
    if i <= |cc| {
      var num := ParseInt(TrimRight(cc[i + 8..], " ,;"), 10);
      if num.Value? && num.n >= 0 {
        var pre, sign, digits, tail, n := HonouredAsks(cc);
      }
    }
  }

  /** Hence a max-age that another directive follows is ignored, whatever comes before it. */
  lemma MaxAgeThenMore(pre: string, n: nat, tail: string, default: int)
    requires n < INT64_LIMIT && (tail == "" || DigitValue(tail[0]) >= 10)
    requires IndexOfText(pre + "max-age=" + Digits(n, 10) + tail, "max-age=") == |pre|
    ensures TtlOf(pre + "max-age=" + Digits(n, 10) + tail, default) == if Blank(tail) then n * NS_PER_SECOND else default
  {
    hide Digits, ParseInt, TrimRight, DigitValue, IndexOfText;
    var cc := pre + "max-age=" + Digits(n, 10) + tail;
    assert cc[|pre| + 8..] == Digits(n, 10) + tail;
    if Blank(tail) {
      FollowedByBlanks(n, tail);
    } else {
      FollowedByMore(n, tail);
    }
  }

  lemma SixtyDigits()
    ensures Digits(60, 10) == "60"
  {
    assert Digits(6, 10) == "6";
  }

  lemma {:induction false} IndexOfAppend(pre: string, cc: string)
    requires "max-age=" <= cc && 'm' !in pre
    ensures IndexOfText(pre + cc, "max-age=") == |pre|
  {
    var s := pre + cc;
    if pre == "" {
      assert s == cc;
    } else {
      assert s[0] == pre[0] && pre[0] in pre;
      assert s[1..] == pre[1..] + cc;
      IndexOfAppend(pre[1..], cc);
    }
  }

  /** The failure at one input: a minute is asked for and the default is used. */
  lemma PublicIsIgnored(default: int)
    ensures TtlOf("max-age=60, public", default) == default
  {
    hide IndexOfText, TtlOf, Digits;
    SixtyDigits();
    assert "" + "max-age=" + "60" + ", public" == "" + "max-age=60, public" == "max-age=60, public";
    IndexOfAppend("", "max-age=60, public");
    assert 'p' in ", public" && 'p' !in " ,;" by { assert ", public"[2] == 'p'; }
    MaxAgeThenMore("", 60, ", public", default);
  }

  /** In the other order it is granted. */
  lemma PublicFirstIsHonoured(default: int)
    ensures TtlOf("public, max-age=60", default) == 60 * NS_PER_SECOND
  {
    hide IndexOfText, TtlOf, Digits;
    SixtyDigits();
    assert "public, " + "max-age=" + "60" + "" == "public, " + "max-age=60" == "public, max-age=60";
    IndexOfAppend("public, ", "max-age=60");
    MaxAgeThenMore("public, ", 60, "", default);
  }
}

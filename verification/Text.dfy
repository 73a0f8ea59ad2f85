/** The parts of Go's strings, strconv, net/textproto and net/url packages that the protocol code calls,
    on ASCII text. A byte is a `char`. */
module Text {
  datatype Option<+T> = None | Some(value: T)

  const CRLF := "\r\n"
  const LF := '\n'
  // The cutset of strings.TrimSpace.
  const SPACES: string := " \t\n\U{0B}\U{0C}\r"
  const INT64_LIMIT := 0x8000_0000_0000_0000
  const UINT64_LIMIT := 0x1_0000_0000_0000_0000

  // ----- searching, cutting, splitting -----

  /** The first index of c in s, or |s|. */
  function IndexOf(s: string, c: char): (i: nat)
    ensures i <= |s| && (i < |s| ==> s[i] == c)
  {
    IndexFrom(s, c, 0)
  }

  function IndexFrom(s: string, c: char, from: nat): (i: nat)
    requires from <= |s|
    ensures from <= i <= |s| && (i < |s| ==> s[i] == c)
    decreases |s| - from
  {
    if from == |s| || s[from] == c then from else IndexFrom(s, c, from + 1)
  }

  lemma {:induction false} IndexFromIs(s: string, c: char, from: nat, i: nat)
    requires from <= i <= |s| && (i < |s| ==> s[i] == c)
    requires forall j :: from <= j < i ==> s[j] != c
    ensures IndexFrom(s, c, from) == i
    decreases i - from
  {
    if from < i { IndexFromIs(s, c, from + 1, i); }
  }

  lemma {:induction false} IndexFromSpec(s: string, c: char, from: nat)
    requires from <= |s|
    ensures forall j :: from <= j < IndexFrom(s, c, from) ==> s[j] != c
    decreases |s| - from
  {
    if from < |s| && s[from] != c { IndexFromSpec(s, c, from + 1); }
  }

  /** i is the first index of c, or the length when c does not occur. */
  lemma IndexIs(s: string, c: char, i: nat)
    requires i <= |s| && (i < |s| ==> s[i] == c)
    requires forall j :: 0 <= j < i ==> s[j] != c
    ensures IndexOf(s, c) == i
  {
    IndexFromIs(s, c, 0, i);
  }

  lemma IndexSpec(s: string, c: char)
    ensures forall j :: 0 <= j < IndexOf(s, c) ==> s[j] != c
  {
    IndexFromSpec(s, c, 0);
  }

  datatype Cutting = Cutting(before: string, after: string, found: bool)

  /** strings.Cut with a one-byte separator. */
  function Cut(s: string, c: char): Cutting {
    var i := IndexOf(s, c);
    if i < |s| then Cutting(s[..i], s[i + 1..], true) else Cutting(s, "", false)
  }

  lemma CutAt(a: string, c: char, b: string)
    requires c !in a
    ensures Cut(a + [c] + b, c) == Cutting(a, b, true)
  {
    var s := a + [c] + b;
    assert s[|a|] == c;
    assert forall j :: 0 <= j < |a| ==> s[j] == a[j] && a[j] in a;
    IndexIs(s, c, |a|);
    assert s[..|a|] == a && s[|a| + 1..] == b;
  }

  /** strings.Split with a one-byte separator. */
  function Split(s: string, c: char): (parts: seq<string>)
    ensures |parts| >= 1
    decreases |s|
  {
    var cut := Cut(s, c);
    if cut.found then [cut.before] + Split(cut.after, c) else [s]
  }

  lemma SplitAt(a: string, c: char, b: string)
    requires c !in a
    ensures Split(a + [c] + b, c) == [a] + Split(b, c)
  {
    CutAt(a, c, b);
  }

  lemma SplitNone(s: string, c: char)
    requires c !in s
    ensures Split(s, c) == [s]
  {
    IndexIs(s, c, |s|);
  }

  lemma {:induction false} SplitParts(s: string, c: char, k: nat)
    requires k < |Split(s, c)|
    ensures c !in Split(s, c)[k]
    ensures forall x | x in Split(s, c)[k] :: x in s
    decreases |s|
  {
    var cut := Cut(s, c);
    IndexSpec(s, c);
    if cut.found && k > 0 {
      SplitParts(cut.after, c, k - 1);
    }
  }

  // ----- trimming -----

  lemma Regroup(a: string, b: string, c: string)
    ensures a + b + c == a + (b + c)
  {
  }

  /** strings.TrimRight. */
  function TrimRight(s: string, cut: string): string {
    if s != "" && s[|s| - 1] in cut then TrimRight(s[..|s| - 1], cut) else s
  }

  /** strings.TrimLeft. */
  function TrimLeft(s: string, cut: string): string {
    if s != "" && s[0] in cut then TrimLeft(s[1..], cut) else s
  }

  /** TrimRight keeps a prefix that ends outside the cutset and drops cutset bytes only. */
  lemma {:induction false} TrimRightSpec(s: string, cut: string)
    ensures var r := TrimRight(s, cut);
      && r <= s && (r != "" ==> r[|r| - 1] !in cut)
      && forall j :: |r| <= j < |s| ==> s[j] in cut
  {
    if s != "" && s[|s| - 1] in cut {
      TrimRightSpec(s[..|s| - 1], cut);
    }
  }

  lemma {:induction false} TrimLeftSpec(s: string, cut: string)
    ensures var r := TrimLeft(s, cut);
      && |r| <= |s| && r == s[|s| - |r|..] && (r != "" ==> r[0] !in cut)
      && forall j :: 0 <= j < |s| - |r| ==> s[j] in cut
  {
    if s != "" && s[0] in cut {
      TrimLeftSpec(s[1..], cut);
      var r := TrimLeft(s, cut);
      assert forall j :: 1 <= j < |s| - |r| ==> s[j] == s[1..][j - 1];
    }
  }

  /** strings.Trim. */
  function Trim(s: string, cut: string): string {
    TrimRight(TrimLeft(s, cut), cut)
  }

  function TrimSpace(s: string): string {
    Trim(s, SPACES)
  }

  predicate Trimmed(s: string, cut: string) {
    s == "" || (s[0] !in cut && s[|s| - 1] !in cut)
  }

  lemma TrimIsTrimmed(s: string, cut: string)
    ensures Trimmed(Trim(s, cut), cut)
    ensures forall x | x in Trim(s, cut) :: x in s
  {
    var l := TrimLeft(s, cut);
    var r := TrimRight(l, cut);
    TrimLeftSpec(s, cut);
    TrimRightSpec(l, cut);
    if r != "" { assert r[0] == l[0]; }
    forall x | x in r ensures x in s {
      assert x in l;
    }
  }

  lemma TrimKeeps(s: string, cut: string)
    requires Trimmed(s, cut)
    ensures TrimLeft(s, cut) == s && TrimRight(s, cut) == s && Trim(s, cut) == s
  {
  }

  /** The value written after ": " is read back by TrimSpace. */
  lemma TrimDropsBlank(s: string)
    requires Trimmed(s, SPACES)
    ensures TrimSpace(" " + s) == s
  {
    assert (" " + s)[0] in SPACES && (" " + s)[1..] == s;
    TrimKeeps(s, SPACES);
  }

  lemma TrimRightAppend(s: string, t: string, cut: string)
    requires s == "" || s[|s| - 1] !in cut
    requires forall x | x in t :: x in cut
    ensures TrimRight(s + t, cut) == s
    decreases |t|
  {
    if t == "" {
      assert s + t == s;
    } else {
      assert (s + t)[..|s + t| - 1] == s + t[..|t| - 1];
      TrimRightAppend(s, t[..|t| - 1], cut);
    }
  }

  // ----- letter case -----

  function LowerChar(c: char): char {
    if 'A' <= c <= 'Z' then c + 32 as char else c
  }

  function UpperChar(c: char): char {
    if 'a' <= c <= 'z' then c - 32 as char else c
  }

  function ToLower(s: string): string {
    seq(|s|, i requires 0 <= i < |s| => LowerChar(s[i]))
  }

  function ToUpper(s: string): string {
    seq(|s|, i requires 0 <= i < |s| => UpperChar(s[i]))
  }

  predicate EqualFold(a: string, b: string) {
    ToLower(a) == ToLower(b)
  }

  // ----- net/textproto.CanonicalMIMEHeaderKey -----

  predicate IsTokenChar(c: char) {
    || 'a' <= c <= 'z' || 'A' <= c <= 'Z' || '0' <= c <= '9'
    || c == '!' || '#' <= c <= '\'' || c == '*' || c == '+' || c == '-' || c == '.'
    || '^' <= c <= '`' || c == '|' || c == '~'
  }

  /** Section 5.6.2 of RFC 9110: letters, digits and fifteen others. */
  lemma TokenChars(c: char)
    ensures IsTokenChar(c) <==>
      'a' <= c <= 'z' || 'A' <= c <= 'Z' || '0' <= c <= '9' || c in "!#$%&'*+-.^_`|~"
  {
    var others := "!#$%&'*+-.^_`|~";
    assert others[0] == '!' && others[1] == '#' && others[2] == '$' && others[3] == '%' && others[4] == '&';
    assert others[5] == '\'' && others[6] == '*' && others[7] == '+' && others[8] == '-' && others[9] == '.';
    assert others[10] == '^' && others[11] == '_' && others[12] == '`' && others[13] == '|' && others[14] == '~';
  }

  predicate IsToken(s: string) {
    forall i :: 0 <= i < |s| ==> IsTokenChar(s[i])
  }

  /** First letter and every letter after '-' in upper case, the others in lower case. */
  function Capitalize(s: string): string {
    seq(|s|, i requires 0 <= i < |s| => CapitalAt(s, i))
  }

  function CapitalAt(s: string, i: nat): char
    requires i < |s|
  {
    if i == 0 || s[i - 1] == '-' then UpperChar(s[i]) else LowerChar(s[i])
  }

  function Canonical(s: string): string {
    if IsToken(s) then Capitalize(s) else s
  }

  lemma CaseOfLower(c: char)
    ensures LowerChar(LowerChar(c)) == LowerChar(c) && UpperChar(LowerChar(c)) == UpperChar(c)
    ensures LowerChar(UpperChar(c)) == LowerChar(c) && UpperChar(UpperChar(c)) == UpperChar(c)
    ensures LowerChar(c) == '-' <==> c == '-'
    ensures UpperChar(c) == '-' <==> c == '-'
    ensures IsTokenChar(LowerChar(c)) <==> IsTokenChar(c)
    ensures IsTokenChar(UpperChar(c)) <==> IsTokenChar(c)
  {
  }

  lemma CanonicalIdempotent(s: string)
    ensures Canonical(Canonical(s)) == Canonical(s)
  {
    if IsToken(s) {
      var r := Capitalize(s);
      forall i | 0 <= i < |s| ensures IsTokenChar(r[i]) && Capitalize(r)[i] == r[i] {
        CaseOfLower(s[i]);
        if i > 0 { CaseOfLower(s[i - 1]); }
      }
      assert Capitalize(r) == r;
    }
  }

  /** Names of different lengths stay different. */
  lemma CanonicalLength(s: string)
    ensures |Canonical(s)| == |s|
  {
  }

  /** Capitalization, and being a token, depend on the lower-case form only. */
  lemma CapitalizeOfLower(s: string)
    ensures Capitalize(ToLower(s)) == Capitalize(s) && (IsToken(ToLower(s)) <==> IsToken(s))
  {
    forall i | 0 <= i < |s|
      ensures Capitalize(ToLower(s))[i] == Capitalize(s)[i]
      ensures IsTokenChar(ToLower(s)[i]) <==> IsTokenChar(s[i])
    {
      CaseOfLower(s[i]);
      if i > 0 { CaseOfLower(s[i - 1]); }
    }
  }

  /** Canonical names that agree up to letter case are equal, when they are tokens. */
  lemma CanonicalFold(s: string, t: string)
    requires EqualFold(s, t) && IsToken(t) && Canonical(s) == s && Canonical(t) == t
    ensures s == t
  {
    CapitalizeOfLower(s);
    CapitalizeOfLower(t);
  }

  // ----- strconv -----

  /** What ParseInt returns: a value, or an error with the number returned beside it. */
  datatype Num = Value(n: int) | Syntax | OutOfRange(clamped: int) {
    /** The number a caller sees that ignores the error. */
    function Ignoring(): int {
      match this
      case Value(n) => n
      case Syntax => 0
      case OutOfRange(n) => n
    }
  }

  /** The value of a digit, 36 for any other byte. */
  function DigitValue(c: char): nat {
    if '0' <= c <= '9' then c as nat - '0' as nat
    else if 'a' <= c <= 'z' then c as nat - 'a' as nat + 10
    else if 'A' <= c <= 'Z' then c as nat - 'A' as nat + 10
    else 36
  }

  /** ParseUint's digit loop: an overflow is reported before later bytes are looked at. */
  function ScanDigits(s: string, base: nat, acc: nat): (out: Num)
    ensures out.Ignoring() >= 0
  {
    if s == "" then Value(acc)
    else
      var d := DigitValue(s[0]);
      if d >= base then Syntax
      else if acc * base + d >= UINT64_LIMIT then OutOfRange(UINT64_LIMIT - 1)
      else ScanDigits(s[1..], base, acc * base + d)
  }

  /** strconv.ParseInt(s, base, 64). */
  function ParseInt(s: string, base: nat): Num {
    if s == "" then Syntax
    else
      var neg := s[0] == '-';
      var digits := if s[0] == '+' || s[0] == '-' then s[1..] else s;
      if digits == "" then Syntax
      else
        match ScanDigits(digits, base, 0)
        case Syntax => Syntax
        case u =>
          var n := u.Ignoring();
          if !neg && n >= INT64_LIMIT then OutOfRange(INT64_LIMIT - 1)
          else if neg && n > INT64_LIMIT then OutOfRange(-INT64_LIMIT)
          else Value(if neg then -n else n)
  }

  function DigitChar(d: nat): char
    requires d < 16
  {
    "0123456789abcdef"[d]
  }

  /** The digits of n, most significant first. */
  function Digits(n: nat, base: nat): (r: string)
    requires base == 10 || base == 16
    ensures r != "" && forall c | c in r :: DigitValue(c) < base
  {
    if n < base then [DigitChar(n)] else Digits(n / base, base) + [DigitChar(n % base)]
  }

  function Itoa(n: int): string {
    if n < 0 then "-" + Digits(-n, 10) else Digits(n, 10)
  }

  lemma {:induction false} ScanAppend(a: string, b: string, base: nat, acc: nat)
    requires ScanDigits(a, base, acc).Value?
    requires ScanDigits(a, base, acc).n >= 0
    ensures ScanDigits(a + b, base, acc) == ScanDigits(b, base, ScanDigits(a, base, acc).n)
  {
    if a == "" {
      assert a + b == b;
    } else {
      assert (a + b)[1..] == a[1..] + b;
      ScanAppend(a[1..], b, base, acc * base + DigitValue(a[0]));
    }
  }

  lemma DigitOfChar(d: nat)
    requires d < 16
    ensures DigitValue(DigitChar(d)) == d
  {
  }

  lemma ScanOne(d: nat, base: nat, acc: nat)
    requires d < base <= 16 && acc * base + d < UINT64_LIMIT
    ensures ScanDigits([DigitChar(d)], base, acc) == Value(acc * base + d)
  {
    DigitOfChar(d);
    assert ScanDigits([DigitChar(d)][1..], base, acc * base + d) == Value(acc * base + d);
  }

  lemma {:induction false} ScanOfDigits(n: nat, base: nat)
    requires base == 10 || base == 16
    requires n < UINT64_LIMIT
    ensures ScanDigits(Digits(n, base), base, 0) == Value(n)
  {
    if n < base {
      ScanOne(n, base, 0);
    } else {
      var q, d := n / base, n % base;
      assert q * base + d == n;
      ScanOfDigits(q, base);
      ScanAppend(Digits(q, base), [DigitChar(d)], base, 0);
      ScanOne(d, base, q);
    }
  }

  /** The value of decimal digits read behind acc. */
  function Magnitude(digits: string, acc: nat): nat {
    if digits == "" then acc else Magnitude(digits[1..], acc * 10 + DigitValue(digits[0]))
  }

  lemma {:induction false} MagnitudeSnoc(s: string, c: char, acc: nat)
    ensures Magnitude(s + [c], acc) == Magnitude(s, acc) * 10 + DigitValue(c)
    decreases |s|
  {
    if s == "" {
      assert [c][1..] == "" && s + [c] == [c];
    } else {
      assert (s + [c])[1..] == s[1..] + [c];
      MagnitudeSnoc(s[1..], c, acc * 10 + DigitValue(s[0]));
    }
  }

  lemma {:induction false} MagnitudeOfDigits(n: nat)
    ensures Magnitude(Digits(n, 10), 0) == n
  {
    DigitOfChar(n % 10);
    if n < 10 {
      assert [DigitChar(n)][1..] == "";
    } else {
      MagnitudeOfDigits(n / 10);
      MagnitudeSnoc(Digits(n / 10, 10), DigitChar(n % 10), 0);
    }
  }

  /** Different numbers are printed differently. */
  lemma ItoaInjective(m: int, n: int)
    requires Itoa(m) == Itoa(n)
    ensures m == n
  {
    var a, b := if m < 0 then -m else m, if n < 0 then -n else n;
    MagnitudeOfDigits(a);
    MagnitudeOfDigits(b);
    var x, y := Digits(a, 10), Digits(b, 10);
    assert x[0] in x && y[0] in y && x[0] != '-' && y[0] != '-';
    assert m < 0 ==> Itoa(m)[1..] == x;
    assert n < 0 ==> Itoa(n)[1..] == y;
  }

  /** Reading back what Itoa (base 10) or a hexadecimal size line wrote. */
  lemma ParseIntOfDigits(n: nat, base: nat)
    requires base == 10 || base == 16
    requires n < INT64_LIMIT
    ensures ParseInt(Digits(n, base), base) == Value(n)
  {
    ScanOfDigits(n, base);
    var s := Digits(n, base);
    assert s[0] in s;
  }

  lemma ParseIntOfItoa(n: int)
    requires -INT64_LIMIT <= n < INT64_LIMIT
    ensures ParseInt(Itoa(n), 10) == Value(n)
  {
    if n < 0 {
      var s := Itoa(n);
      ScanOfDigits(-n, 10);
      assert s[0] == '-' && s[1..] == Digits(-n, 10);
      hide Digits, ScanDigits, Itoa;
    } else {
      ParseIntOfDigits(n, 10);
    }
  }

  /** No byte that matters to the line framing occurs in a printed number. */
  lemma ItoaPlain(n: int)
    ensures Itoa(n) != "" && Trimmed(Itoa(n), SPACES)
    ensures forall c | c in Itoa(n) :: c == '-' || DigitValue(c) < 10
  {
    var s := Itoa(n);
    var d := Digits(if n < 0 then -n else n, 10);
    forall c | c in s ensures c == '-' || DigitValue(c) < 10 {
      assert c == '-' || c in d;
    }
    assert s[0] in s && s[|s| - 1] in s;
  }

  // ----- net/url -----

  /** url.PathUnescape, and url.QueryUnescape when plus is set. */
  function Unescape(s: string, plus: bool): Option<string> {
    if s == "" then Some("")
    else if s[0] == '%' then
      if |s| >= 3 && DigitValue(s[1]) < 16 && DigitValue(s[2]) < 16 then
        match Unescape(s[3..], plus)
        case None => None
        case Some(r) => Some([(16 * DigitValue(s[1]) + DigitValue(s[2])) as char] + r)
      else None
    else
      match Unescape(s[1..], plus)
      case None => None
      case Some(r) => Some([if plus && s[0] == '+' then ' ' else s[0]] + r)
  }

  type Query = map<string, seq<string>>

  /** url.ParseQuery, continuing from the pairs m already read. */
  function ParseQuery(q: string, m: Query): Option<Query>
    decreases |q|
  {
    if q == "" then Some(m)
    else
      var cut := Cut(q, '&');
      if ';' in cut.before then None
      else if cut.before == "" then ParseQuery(cut.after, m)
      else
        var pair := Cut(cut.before, '=');
        match (Unescape(pair.before, true), Unescape(pair.after, true))
        case (Some(k), Some(v)) =>
          ParseQuery(cut.after, m[k := (if k in m then m[k] else []) + [v]])
        case _ => None
  }
}

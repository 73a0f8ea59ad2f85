/** What strconv.ParseInt reads, for the lengths, sizes and statuses of the protocol. */
module NumberLaws {
  import opened Text

  predicate AllDigits(s: string, base: nat) {
    forall i :: 0 <= i < |s| ==> DigitValue(s[i]) < base
  }

  /** The number that digits stand for, read behind acc. */
  function Reading(digits: string, base: nat, acc: nat): nat {
    if digits == "" then acc else Reading(digits[1..], base, acc * base + DigitValue(digits[0]))
  }

  lemma Grows(acc: nat, base: nat, d: nat)
    requires base > 0
    ensures acc * base + d >= acc
  {
  }

  lemma {:induction false} ReadingGrows(digits: string, base: nat, acc: nat)
    requires base > 0
    ensures Reading(digits, base, acc) >= acc
    decreases |digits|
  {
    if digits != "" {
      Grows(acc, base, DigitValue(digits[0]));
      ReadingGrows(digits[1..], base, acc * base + DigitValue(digits[0]));
    }
  }

  lemma {:induction false} ScanExactly(s: string, base: nat, acc: nat)
    requires 0 < base <= 36 && acc < UINT64_LIMIT
    ensures var out := ScanDigits(s, base, acc);
      && (out.Value? <==> AllDigits(s, base) && Reading(s, base, acc) < UINT64_LIMIT)
      && (out.Value? ==> out.n == Reading(s, base, acc))
      && (out.OutOfRange? ==> out.clamped == UINT64_LIMIT - 1)
    decreases |s|
  {
    if s != "" {
      var next := acc * base + DigitValue(s[0]);
      assert AllDigits(s, base) <==> DigitValue(s[0]) < base && AllDigits(s[1..], base);
      if next < UINT64_LIMIT { ScanExactly(s[1..], base, next); } else { ReadingGrows(s[1..], base, next); }
    }
  }

  /** s is digits behind at most one sign, and stands for n. */
  ghost predicate Number(s: string, base: nat, sign: string, digits: string, n: int) {
    && sign in {"", "+", "-"} && s == sign + digits && digits != "" && AllDigits(digits, base)
    && n == if sign == "-" then -(Reading(digits, base, 0) as int) else Reading(digits, base, 0)
  }

  lemma SignIsNoDigit(s: string, base: nat)
    requires AllDigits(s, base) && base <= 36 && s != ""
    ensures s[0] != '+' && s[0] != '-'
  {
  }

  /** A text is read as n if and only if it is digits of the base behind at most one sign, that stand for n, and n fits
      an int64. */
  lemma ParseIntExactly(s: string, base: nat, n: int)
    requires 0 < base <= 36
    ensures ParseInt(s, base) == Value(n) <==>
      -INT64_LIMIT <= n < INT64_LIMIT && exists sign, digits :: Number(s, base, sign, digits, n)
  {
    if s != "" {
      var sign := if s[0] == '+' || s[0] == '-' then s[..1] else "";
      var digits := s[|sign|..];
      assert s == sign + digits;
      ScanExactly(digits, base, 0);
      forall sign', digits' | Number(s, base, sign', digits', n) ensures sign' == sign && digits' == digits {
        SignIsNoDigit(digits', base);
        assert sign' != "" ==> s[0] == sign'[0];
        assert digits' == s[|sign'|..];
      }
      hide ScanDigits, Reading;
      assert s[0] == '+' ==> sign == "+";
      assert s[0] == '-' ==> sign == "-";
      if ParseInt(s, base) == Value(n) {
        assert Number(s, base, sign, digits, n);
      }
    }
  }
}

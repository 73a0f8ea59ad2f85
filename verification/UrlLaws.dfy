/** What the decoding of a target means: percent-escapes piece by piece, and query strings pair by pair. */
module UrlLaws {
  import opened Text
  import RequestWire
  import RequestLaws

  // ----- escapes -----

  /** The piece p stands for the byte c. */
  predicate Spells(p: string, c: char, plus: bool) {
    || (|p| == 1 && p[0] != '%' && c == if plus && p[0] == '+' then ' ' else p[0])
    || (|p| == 3 && p[0] == '%' && DigitValue(p[1]) < 16 && DigitValue(p[2]) < 16
          && c as nat == 16 * DigitValue(p[1]) + DigitValue(p[2]))
  }

  predicate SpellsAll(ps: seq<string>, t: string, plus: bool) {
    |ps| == |t| && forall i :: 0 <= i < |ps| ==> Spells(ps[i], t[i], plus)
  }

  lemma {:induction false} PiecesDecode(ps: seq<string>, t: string, plus: bool)
    requires SpellsAll(ps, t, plus)
    ensures Unescape(RequestLaws.Joined(ps), plus) == Some(t)
  {
    if ps != [] {
      PiecesDecode(ps[1..], t[1..], plus);
      assert Spells(ps[0], t[0], plus);
      var rest := RequestLaws.Joined(ps[1..]);
      var s := ps[0] + rest;
      assert s[|ps[0]|..] == rest;
      assert t == [t[0]] + t[1..];
    }
  }

  lemma {:induction false} DecodedInPieces(s: string, plus: bool) returns (ps: seq<string>)
    requires Unescape(s, plus).Some?
    ensures RequestLaws.Joined(ps) == s && SpellsAll(ps, Unescape(s, plus).value, plus)
    decreases |s|
  {
    if s == "" {
      ps := [];
    } else {
      var n := if s[0] == '%' then 3 else 1;
      var more := DecodedInPieces(s[n..], plus);
      ps := [s[..n]] + more;
      assert ps[1..] == more && s == s[..n] + s[n..];
    }
  }

  /** A text decodes to t if and only if it is t spelt byte by byte: each byte as itself, or as a percent sign and two
      hexadecimal digits; in a query a plus sign stands for a blank. */
  lemma UnescapeExactly(s: string, plus: bool, t: string)
    ensures Unescape(s, plus) == Some(t) <==> exists ps :: RequestLaws.Joined(ps) == s && SpellsAll(ps, t, plus)
  {
    if Unescape(s, plus) == Some(t) {
      var ps := DecodedInPieces(s, plus);
    }
    if ps :| RequestLaws.Joined(ps) == s && SpellsAll(ps, t, plus) {
      PiecesDecode(ps, t, plus);
    }
  }

  // ----- queries -----

  function NameIn(part: string): Option<string> {
    Unescape(Cut(part, '=').before, true)
  }

  function ValueIn(part: string): Option<string> {
    Unescape(Cut(part, '=').after, true)
  }

  predicate PairOk(part: string) {
    part == "" || (';' !in part && NameIn(part).Some? && ValueIn(part).Some?)
  }

  /** The values that the pairs give the name, in order. */
  function ValuesIn(parts: seq<string>, name: string): seq<string> {
    if parts == [] then []
    else
      (if parts[0] != "" && NameIn(parts[0]) == Some(name) && ValueIn(parts[0]).Some? then [ValueIn(parts[0]).value] else [])
      + ValuesIn(parts[1..], name)
  }

  function ValuesFor(m: Query, name: string): seq<string> {
    if name in m then m[name] else []
  }

  predicate PartsOk(parts: seq<string>) {
    forall i :: 0 <= i < |parts| ==> PairOk(parts[i])
  }

  lemma ConsParts(part: string, parts: seq<string>, name: string)
    ensures PartsOk([part] + parts) <==> PairOk(part) && PartsOk(parts)
    ensures ValuesIn([part] + parts, name) == ValuesIn([part], name) + ValuesIn(parts, name)
  {
    hide PairOk, Unescape;
    var all := [part] + parts;
    assert all[1..] == parts && [part][1..] == [];
    assert forall i :: 0 <= i < |parts| ==> all[i + 1] == parts[i];
    if PartsOk(all) { assert PairOk(all[0]); }
  }

  /** A query is accepted if and only if all its parts between ampersands are in order: empty, or without a semicolon
      and with name and value that decode. Each name has then the values its parts give it, in their order. */
  lemma {:induction false} QueryExactly(q: string, m: Query, name: string)
    ensures ParseQuery(q, m).Some? <==> PartsOk(Split(q, '&'))
    ensures ParseQuery(q, m).Some? ==>
      ValuesFor(ParseQuery(q, m).value, name) == ValuesFor(m, name) + ValuesIn(Split(q, '&'), name)
    decreases |q|
  {
    hide *;
    var cut := Cut(q, '&');
    if q == "" {
      EmptyQuery(m, name);
    } else {
      SplitOnce(q);
      PairStep(q, m);
      ConsParts(cut.before, Split(cut.after, '&'), name);
      if PairOk(cut.before) {
        var next := if cut.before == "" then m else WithPair(m, cut.before);
        StepValues(m, cut.before, name);
        QueryExactly(cut.after, next, name);
        Grouped(ValuesFor(m, name), ValuesIn([cut.before], name), ValuesIn(Split(cut.after, '&'), name));
      }
    }
  }

  lemma EmptyQuery(m: Query, name: string)
    ensures ParseQuery("", m) == Some(m) && PartsOk(Split("", '&'))
    ensures ValuesFor(m, name) + ValuesIn(Split("", '&'), name) == ValuesFor(m, name)
  {
    LastPart(name);
    assert ValuesFor(m, name) + [] == ValuesFor(m, name);
  }

  lemma Grouped(a: seq<string>, b: seq<string>, c: seq<string>)
    ensures a + (b + c) == a + b + c
  {
  }

  lemma SplitOnce(q: string)
    requires q != ""
    ensures var cut := Cut(q, '&');
      && |cut.after| < |q|
      && (PartsOk(Split(q, '&')) <==> PartsOk([cut.before] + Split(cut.after, '&')))
      && forall name :: ValuesIn(Split(q, '&'), name) == ValuesIn([cut.before] + Split(cut.after, '&'), name)
  {
    var cut := Cut(q, '&');
    if !cut.found {
      LastPart("");
      hide PairOk;
      assert Split(q, '&') == [q] && Split(cut.after, '&') == [""];
      forall name ensures ValuesIn([q], name) == ValuesIn([q] + [""], name) {
        LastPart(name);
        assert ([q] + [""])[1..] == [""] && [q][1..] == [];
      }
      assert ([q] + [""])[0] == q && ([q] + [""])[1] == "";
    }
  }

  /** What a part adds to the values of a name. */
  lemma StepValues(m: Query, part: string, name: string)
    requires PairOk(part)
    ensures ValuesFor(if part == "" then m else WithPair(m, part), name) == ValuesFor(m, name) + ValuesIn([part], name)
  {
    hide Unescape;
    assert [part][1..] == [];
  }

  lemma LastPart(name: string)
    ensures ValuesIn([""], name) == [] && Split("", '&') == [""] && PairOk("") && ValuesIn([], name) == []
  {
    IndexIs("", '&', 0);
  }

  function WithPair(m: Query, part: string): Query
    requires part != "" && PairOk(part)
  {
    m[NameIn(part).value := ValuesFor(m, NameIn(part).value) + [ValueIn(part).value]]
  }

  lemma PairStep(q: string, m: Query)
    requires q != ""
    ensures var cut := Cut(q, '&');
      ParseQuery(q, m) ==
        if !PairOk(cut.before) then None
        else ParseQuery(cut.after, if cut.before == "" then m else WithPair(m, cut.before))
  {
    hide Unescape;
  }

  /** A target is a path and, behind its first question mark, a query: it is accepted if and only if both decode, and
      a request has that path and, under each name, those values. */
  lemma TargetExactly(before: string, after: string, marked: bool, name: string)
    requires '?' !in before
    ensures var out := RequestWire.Decompose(if marked then before + ['?'] + after else before);
      && (out.Some? <==> Unescape(before, false).Some? && (marked ==> PartsOk(Split(after, '&'))))
      && (out.Some? ==> Some(out.value.0) == Unescape(before, false))
      && (out.Some? ==> ValuesFor(out.value.1, name) == if marked then ValuesIn(Split(after, '&'), name) else [])
  {
    if marked { CutAt(before, '?', after); } else { IndexIs(before, '?', |before|); }
    QueryExactly(after, map[], name);
    EmptyQuery(map[], name);
    assert [] + ValuesIn(Split(after, '&'), name) == ValuesIn(Split(after, '&'), name);
    hide Unescape, ParseQuery, PartsOk, ValuesIn, Split;
    assert Cut(if marked then before + ['?'] + after else before, '?')
      == Cutting(before, if marked then after else "", marked);
  }
}

/** The insertion-ordered, case-insensitive header collection of httpcore/headers.go: first as a sequence of
    fields with operations on it, then the key list and value map that implement it. */
module HeaderFields {
  import opened Text

  datatype Field = Field(name: string, values: seq<string>)
  // Canonical names, in insertion order.
  type Fields = seq<Field>

  /** The place of a name, or |fs|. */
  function Find(fs: Fields, name: string): (i: nat)
    ensures i <= |fs| && (i < |fs| ==> fs[i].name == name)
  {
    FindFrom(fs, name, 0)
  }

  function FindFrom(fs: Fields, name: string, from: nat): (i: nat)
    requires from <= |fs|
    ensures from <= i <= |fs| && (i < |fs| ==> fs[i].name == name)
    decreases |fs| - from
  {
    if from == |fs| || fs[from].name == name then from else FindFrom(fs, name, from + 1)
  }

  lemma {:induction false} FindFromSpec(fs: Fields, name: string, from: nat)
    requires from <= |fs|
    ensures forall j :: from <= j < FindFrom(fs, name, from) ==> fs[j].name != name
    decreases |fs| - from
  {
    if from < |fs| && fs[from].name != name { FindFromSpec(fs, name, from + 1); }
  }

  lemma FindSpec(fs: Fields, name: string)
    ensures forall j :: 0 <= j < Find(fs, name) ==> fs[j].name != name
  {
    FindFromSpec(fs, name, 0);
  }

  lemma FindIs(fs: Fields, name: string, i: nat)
    requires i <= |fs| && (i < |fs| ==> fs[i].name == name)
    requires forall j :: 0 <= j < i ==> fs[j].name != name
    ensures Find(fs, name) == i
  {
    FindSpec(fs, name);
  }

  function ValuesAt(fs: Fields, name: string): seq<string> {
    var i := Find(fs, name);
    if i < |fs| then fs[i].values else []
  }

  function Put(fs: Fields, name: string, values: seq<string>): Fields {
    var i := Find(fs, name);
    if i < |fs| then fs[i := Field(name, values)] else fs + [Field(name, values)]
  }

  function Remove(fs: Fields, name: string): Fields {
    var i := Find(fs, name);
    if i < |fs| then fs[..i] + fs[i + 1..] else fs
  }

  predicate Has(fs: Fields, key: string) {
    Find(fs, Canonical(key)) < |fs|
  }

  function Values(fs: Fields, key: string): seq<string> {
    ValuesAt(fs, Canonical(key))
  }

  function Get(fs: Fields, key: string): string {
    var vs := Values(fs, key);
    if |vs| > 0 then vs[0] else ""
  }

  predicate ContainsToken(fs: Fields, key: string, token: string) {
    var vs := Values(fs, key);
    exists i :: 0 <= i < |vs| && HasToken(vs[i], token)
  }

  /** Some part of the comma-separated value is the token. */
  predicate HasToken(value: string, token: string) {
    var parts := Split(value, ',');
    exists j :: 0 <= j < |parts| && Matches(parts[j], token)
  }

  predicate Matches(part: string, token: string) {
    EqualFold(TrimSpace(part), token)
  }

  /** A comma-separated value has a token if and only if one of its parts, without the blanks around it, is the token
      up to letter case. */
  lemma {:induction false} TokenExactly(parts: seq<string>, value: string, token: string)
    requires Listed(parts, value)
    ensures HasToken(value, token) <==>
      exists i :: 0 <= i < |parts| && ToLower(TrimSpace(parts[i])) == ToLower(token)
  {
    ListedSplits(parts, value);
    hide ToLower, TrimSpace;
    if i :| 0 <= i < |parts| && ToLower(TrimSpace(parts[i])) == ToLower(token) {
      assert Matches(parts[i], token);
    }
  }

  lemma {:induction false} ListedSplits(parts: seq<string>, value: string)
    requires Listed(parts, value)
    ensures Split(value, ',') == parts
    decreases |parts|
  {
    if |parts| == 1 {
      SplitNone(value, ',');
    } else {
      var rest :| Listed(parts[1..], rest) && value == parts[0] + [','] + rest;
      SplitAt(parts[0], ',', rest);
      ListedSplits(parts[1..], rest);
      assert parts == [parts[0]] + parts[1..];
    }
  }

  /** The value is the parts with commas between them. */
  ghost predicate Listed(parts: seq<string>, value: string)
    decreases |parts|
  {
    if parts == [] then false
    else if |parts| == 1 then ',' !in parts[0] && value == parts[0]
    else ',' !in parts[0] && exists rest :: Listed(parts[1..], rest) && value == parts[0] + [','] + rest
  }

  function Set(fs: Fields, key: string, value: string): Fields {
    Put(fs, Canonical(key), [value])
  }

  function Add(fs: Fields, key: string, value: string): Fields {
    Put(fs, Canonical(key), Values(fs, key) + [value])
  }

  function Del(fs: Fields, key: string): Fields {
    Remove(fs, Canonical(key))
  }

  ghost predicate Distinct(fs: Fields) {
    forall i, j :: 0 <= i < j < |fs| ==> fs[i].name != fs[j].name
  }

  /** Distinct canonical names, each with a value. */
  ghost predicate WellFormed(fs: Fields) {
    && Distinct(fs)
    && forall i :: 0 <= i < |fs| ==> Canonical(fs[i].name) == fs[i].name && fs[i].values != []
  }

  lemma FindUnique(fs: Fields, i: nat)
    requires Distinct(fs) && i < |fs|
    ensures Find(fs, fs[i].name) == i
  {
    FindIs(fs, fs[i].name, i);
  }

  lemma PutLaw(fs: Fields, name: string, values: seq<string>, other: string)
    requires Distinct(fs)
    ensures Distinct(Put(fs, name, values))
    ensures ValuesAt(Put(fs, name, values), other) == if other == name then values else ValuesAt(fs, other)
    ensures Find(Put(fs, name, values), other) < |Put(fs, name, values)| <==> other == name || Find(fs, other) < |fs|
  {
    var i, j, r := Find(fs, name), Find(fs, other), Put(fs, name, values);
    FindSpec(fs, name);
    FindSpec(fs, other);
    assert forall k :: 0 <= k < |fs| ==> r[k].name == fs[k].name;
    FindIs(r, other, if other == name then i else if j < |fs| then j else |r|);
  }

  lemma RemoveLaw(fs: Fields, name: string, other: string)
    requires Distinct(fs)
    ensures Distinct(Remove(fs, name))
    ensures ValuesAt(Remove(fs, name), other) == if other == name then [] else ValuesAt(fs, other)
    ensures Find(Remove(fs, name), other) < |Remove(fs, name)| <==> other != name && Find(fs, other) < |fs|
  {
    var i, j, r := Find(fs, name), Find(fs, other), Remove(fs, name);
    FindSpec(fs, name);
    FindSpec(fs, other);
    hide Find;
    if i < |fs| {
      assert forall k :: 0 <= k < |r| ==> r[k] == fs[if k < i then k else k + 1];
      FindIs(r, other, if j == |fs| || j == i then |r| else if j < i then j else j - 1);
    }
  }

  /** Set, Add and Del as operations on the per-name value lists. */
  lemma SetLaw(fs: Fields, key: string, value: string, other: string)
    requires WellFormed(fs)
    ensures WellFormed(Set(fs, key, value))
    ensures Values(Set(fs, key, value), other) ==
            if Canonical(other) == Canonical(key) then [value] else Values(fs, other)
    ensures Has(Set(fs, key, value), other) <==> Canonical(other) == Canonical(key) || Has(fs, other)
  {
    CanonicalIdempotent(key);
    PutLaw(fs, Canonical(key), [value], Canonical(other));
  }

  lemma AddLaw(fs: Fields, key: string, value: string, other: string)
    requires WellFormed(fs)
    ensures WellFormed(Add(fs, key, value))
    ensures Values(Add(fs, key, value), other) ==
            if Canonical(other) == Canonical(key) then Values(fs, key) + [value] else Values(fs, other)
    ensures Has(Add(fs, key, value), other) <==> Canonical(other) == Canonical(key) || Has(fs, other)
  {
    CanonicalIdempotent(key);
    PutLaw(fs, Canonical(key), Values(fs, key) + [value], Canonical(other));
  }

  lemma DelLaw(fs: Fields, key: string, other: string)
    requires WellFormed(fs)
    ensures WellFormed(Del(fs, key))
    ensures Values(Del(fs, key), other) == if Canonical(other) == Canonical(key) then [] else Values(fs, other)
    ensures Has(Del(fs, key), other) <==> Canonical(other) != Canonical(key) && Has(fs, other)
  {
    RemoveLaw(fs, Canonical(key), Canonical(other));
    var i, r := Find(fs, Canonical(key)), Del(fs, key);
    assert forall k :: 0 <= k < |r| && i < |fs| ==> r[k] == fs[if k < i then k else k + 1];
  }

  // ----- wire form -----

  /** One header line, without its terminator. */
  datatype Header = Header(name: string, value: string) {
    function Text(): string { name + ": " + value }
    function Line(): string { Text() + CRLF }
  }

  /** The (key, value) calls that Range makes, in order. */
  function Flatten(fs: Fields): seq<Header>
    ensures fs == [] ==> Flatten(fs) == []
  {
    if fs == [] then [] else Spread(fs[0].name, fs[0].values) + Flatten(fs[1..])
  }

  function Spread(name: string, values: seq<string>): seq<Header> {
    seq(|values|, i requires 0 <= i < |values| => Header(name, values[i]))
  }

  /** The header block without its terminating blank line. */
  function Block(hs: seq<Header>): string {
    if hs == [] then "" else hs[0].Line() + Block(hs[1..])
  }

  lemma {:induction false} FlattenAppend(a: Fields, b: Fields)
    ensures Flatten(a + b) == Flatten(a) + Flatten(b)
  {
    if a == [] {
      assert a + b == b;
    } else {
      assert (a + b)[1..] == a[1..] + b;
      FlattenAppend(a[1..], b);
    }
  }

  lemma {:induction false} BlockAppend(a: seq<Header>, b: seq<Header>)
    ensures Block(a + b) == Block(a) + Block(b)
  {
    if a == [] {
      assert a + b == b;
    } else {
      assert (a + b)[1..] == a[1..] + b;
      BlockAppend(a[1..], b);
    }
  }

  lemma BlockSnoc(a: seq<Header>, h: Header)
    ensures Block(a + [h]) == Block(a) + h.Line()
  {
    BlockAppend(a, [h]);
    assert Block([h][1..]) == "";
  }

  lemma {:induction false} FlattenElements(fs: Fields, k: nat)
    requires k < |Flatten(fs)|
    ensures exists i :: 0 <= i < |fs| && Flatten(fs)[k].name == fs[i].name && Flatten(fs)[k].value in fs[i].values
  {
    var first := Spread(fs[0].name, fs[0].values);
    if k >= |first| {
      FlattenElements(fs[1..], k - |first|);
      var i :| 0 <= i < |fs[1..]| && Flatten(fs[1..])[k - |first|].name == fs[1..][i].name
               && Flatten(fs[1..])[k - |first|].value in fs[1..][i].values;
      assert fs[1..][i] == fs[i + 1];
    }
  }

  /** Adding header lines one by one, as the parser does. */
  function AddAll(fs: Fields, hs: seq<Header>): Fields
    decreases |hs|
  {
    if hs == [] then fs else AddAll(Add(fs, hs[0].name, hs[0].value), hs[1..])
  }

  lemma {:induction false} AddAllAppend(fs: Fields, a: seq<Header>, b: seq<Header>)
    ensures AddAll(fs, a + b) == AddAll(AddAll(fs, a), b)
    decreases |a|
  {
    if a == [] {
      assert a + b == b;
    } else {
      assert (a + b)[1..] == a[1..] + b;
      AddAllAppend(Add(fs, a[0].name, a[0].value), a[1..], b);
    }
  }

  lemma AddNew(pre: Fields, name: string, value: string)
    requires Canonical(name) == name && Find(pre, name) == |pre|
    ensures Add(pre, name, value) == pre + [Field(name, [value])]
  {
    assert Values(pre, name) + [value] == [value];
  }

  lemma AddLast(pre: Fields, name: string, got: seq<string>, value: string)
    requires Canonical(name) == name && Find(pre, name) == |pre|
    ensures Add(pre + [Field(name, got)], name, value) == pre + [Field(name, got + [value])]
  {
    var fs := pre + [Field(name, got)];
    assert fs[|pre|].name == name;
    assert forall i :: 0 <= i < |pre| ==> fs[i] == pre[i];
    FindSpec(pre, name);
    FindIs(fs, name, |pre|);
  }

  lemma {:induction false} AddAllSpread(pre: Fields, name: string, got: seq<string>, more: seq<string>)
    requires Canonical(name) == name && Find(pre, name) == |pre|
    ensures AddAll(pre + [Field(name, got)], Spread(name, more)) == pre + [Field(name, got + more)]
    decreases |more|
  {
    if more == [] {
      assert got + more == got;
    } else {
      AddLast(pre, name, got, more[0]);
      assert Spread(name, more)[1..] == Spread(name, more[1..]);
      AddAllSpread(pre, name, got + [more[0]], more[1..]);
      assert got + [more[0]] + more[1..] == got + more;
    }
  }

  lemma AddAllField(pre: Fields, f: Field)
    requires Canonical(f.name) == f.name && f.values != [] && Find(pre, f.name) == |pre|
    ensures AddAll(pre, Spread(f.name, f.values)) == pre + [f]
  {
    hide Add, Find, Canonical;
    var v, more := f.values[0], f.values[1..];
    var lines := Spread(f.name, f.values);
    assert lines[0] == Header(f.name, v) && lines[1..] == Spread(f.name, more);
    AddNew(pre, f.name, v);
    AddAllSpread(pre, f.name, [v], more);
    assert [v] + more == f.values;
  }

  lemma FindFresh(fs: Fields, i: nat)
    requires Distinct(fs) && i < |fs|
    ensures Find(fs[..i], fs[i].name) == i
  {
    FindIs(fs[..i], fs[i].name, i);
  }

  /** Reading the fields back line by line restores them, grouped and in order. */
  lemma {:induction false} AddAllFlatten(fs: Fields, i: nat)
    requires WellFormed(fs) && i <= |fs|
    ensures AddAll(fs[..i], Flatten(fs[i..])) == fs
    decreases |fs| - i
  {
    if i < |fs| {
      FindFresh(fs, i);
      AddAllField(fs[..i], fs[i]);
      assert fs[..i] + [fs[i]] == fs[..i + 1] && fs[i..][1..] == fs[i + 1..];
      AddAllAppend(fs[..i], Spread(fs[i].name, fs[i].values), Flatten(fs[i + 1..]));
      AddAllFlatten(fs, i + 1);
    } else {
      assert fs[..i] == fs;
    }
  }

  // ----- the key list and value map -----

  function Zip(keys: seq<string>, vals: map<string, seq<string>>): (fs: Fields)
    requires forall k | k in keys :: k in vals
  {
    seq(|keys|, i requires 0 <= i < |keys| => Field(keys[i], vals[keys[i]]))
  }

  /** The key list has no duplicates and is the map's domain. */
  ghost predicate Agree(keys: seq<string>, vals: map<string, seq<string>>) {
    && (forall i, j :: 0 <= i < j < |keys| ==> keys[i] != keys[j])
    && forall k :: k in keys <==> k in vals
  }

  ghost predicate Proper(vals: map<string, seq<string>>) {
    forall k :: k in vals ==> Canonical(k) == k && vals[k] != []
  }

  /** A key's place in the key list. */
  lemma Place(keys: seq<string>, vals: map<string, seq<string>>, k: string)
    requires Agree(keys, vals)
    ensures k in vals <==> Find(Zip(keys, vals), k) < |keys|
    ensures ValuesAt(Zip(keys, vals), k) == if k in vals then vals[k] else []
  {
    var fs := Zip(keys, vals);
    FindSpec(fs, k);
    if k in vals {
      var i :| 0 <= i < |keys| && keys[i] == k;
      assert fs[i].name == k;
    }
  }

  lemma KeyPut(keys: seq<string>, vals: map<string, seq<string>>, k: string, vs: seq<string>)
    requires Agree(keys, vals)
    ensures var keys' := if k in vals then keys else keys + [k];
      Agree(keys', vals[k := vs]) && Zip(keys', vals[k := vs]) == Put(Zip(keys, vals), k, vs)
  {
    Place(keys, vals, k);
    var keys' := if k in vals then keys else keys + [k];
    assert forall x :: x in keys' <==> x in vals[k := vs];
  }

  lemma KeyDropped(keys: seq<string>, i: nat, k: string)
    requires i < |keys| && forall a, b :: 0 <= a < b < |keys| ==> keys[a] != keys[b]
    ensures k in keys[..i] + keys[i + 1..] <==> k in keys && k != keys[i]
  {
    var rest := keys[..i] + keys[i + 1..];
    if k in keys && k != keys[i] {
      var j :| 0 <= j < |keys| && keys[j] == k;
      assert rest[if j < i then j else j - 1] == k;
    }
  }

  lemma FieldDropped(keys: seq<string>, vals: map<string, seq<string>>, i: nat)
    requires Agree(keys, vals) && i < |keys|
    requires forall k | k in keys[..i] + keys[i + 1..] :: k in vals - {keys[i]}
    ensures Zip(keys[..i] + keys[i + 1..], vals - {keys[i]}) == Remove(Zip(keys, vals), keys[i])
  {
    var rest, fs := keys[..i] + keys[i + 1..], Zip(keys, vals);
    assert fs[i].name == keys[i];
    FindUnique(fs, i);
    assert Zip(rest, vals - {keys[i]}) == fs[..i] + fs[i + 1..];
  }

  /** Dropping a key from the list and the map drops its field. */
  lemma KeyRemoval(keys: seq<string>, vals: map<string, seq<string>>, i: nat)
    requires Agree(keys, vals) && i < |keys|
    ensures Agree(keys[..i] + keys[i + 1..], vals - {keys[i]})
    ensures Zip(keys[..i] + keys[i + 1..], vals - {keys[i]}) == Remove(Zip(keys, vals), keys[i])
  {
    forall k ensures k in keys[..i] + keys[i + 1..] <==> k in vals - {keys[i]} {
      KeyDropped(keys, i, k);
    }
    FieldDropped(keys, vals, i);
  }

  class Headers {
    var keys: seq<string>
    var vals: map<string, seq<string>>

    ghost predicate Valid()
      reads this
    {
      Agree(keys, vals) && Proper(vals)
    }

    function Contents(): Fields
      requires Valid()
      reads this
    {
      Zip(keys, vals)
    }

    lemma ContentsWellFormed()
      requires Valid()
      ensures WellFormed(Contents())
    {
    }

    constructor ()
      ensures Valid() && Contents() == []
    {
      keys, vals := [], map[];
    }

    method SetKey(key: string, value: string)
      requires Valid()
      modifies this
      ensures Valid() && Contents() == Set(old(Contents()), key, value)
    {
      var ck := Canonical(key);
      CanonicalIdempotent(key);
      KeyPut(keys, vals, ck, [value]);
      if ck !in vals {
        keys := keys + [ck];
      }
      vals := vals[ck := [value]];
    }

    method AddKey(key: string, value: string)
      requires Valid()
      modifies this
      ensures Valid() && Contents() == Add(old(Contents()), key, value)
    {
      var ck := Canonical(key);
      CanonicalIdempotent(key);
      Place(keys, vals, ck);
      var vs := (if ck in vals then vals[ck] else []) + [value];
      KeyPut(keys, vals, ck, vs);
      if ck !in vals {
        keys := keys + [ck];
      }
      vals := vals[ck := vs];
    }

    method DelKey(key: string)
      requires Valid()
      modifies this
      ensures Valid() && Contents() == Del(old(Contents()), key)
    {
      var ck := Canonical(key);
      Place(keys, vals, ck);
      if ck !in vals {
        return;
      }
      var i := 0;
      while keys[i] != ck
        invariant 0 <= i < |keys| && ck in keys[i..]
        decreases |keys| - i
      {
        assert keys[i..] == [keys[i]] + keys[i + 1..];
        i := i + 1;
      }
      KeyRemoval(keys, vals, i);
      vals := vals - {ck};
      keys := keys[..i] + keys[i + 1..];
    }

    /** Range with the serializer's callback. */
    method WriteTo() returns (out: string)
      requires Valid()
      ensures out == Block(Flatten(Contents()))
    {
      out := "";
      ghost var fs := Contents();
      for i := 0 to |keys|
        invariant out == Block(Flatten(fs[..i]))
      {
        var k := keys[i];
        assert Spread(k, vals[k][..0]) == [] && Upto(fs, i, 0) == Flatten(fs[..i]);
        for j := 0 to |vals[k]|
          invariant out == Block(Upto(fs, i, j))
        {
          UptoNext(fs, i, j);
          out := out + Header(k, vals[k][j]).Line();
        }
        UptoAll(fs, i);
      }
      assert fs[..|keys|] == fs;
    }

    /** Has, on the value map alone. */
    method HasKey(key: string) returns (b: bool)
      requires Valid()
      ensures b == Has(Contents(), key)
    {
      Place(keys, vals, Canonical(key));
      b := Canonical(key) in vals;
    }

    method GetKey(key: string) returns (v: string)
      requires Valid()
      ensures v == Get(Contents(), key)
    {
      var ck := Canonical(key);
      Place(keys, vals, ck);
      v := if ck in vals && |vals[ck]| > 0 then vals[ck][0] else "";
    }

    method ContainsTokenIn(key: string, token: string) returns (b: bool)
      requires Valid()
      ensures b == ContainsToken(Contents(), key, token)
    {
      var ck := Canonical(key);
      Place(keys, vals, ck);
      var vs := if ck in vals then vals[ck] else [];
      for i := 0 to |vs|
        invariant forall n :: 0 <= n < i ==> !HasToken(vs[n], token)
      {
        var found := ScanParts(vs[i], token);
        if found {
          assert HasToken(Values(Contents(), key)[i], token);
          return true;
        }
      }
      b := false;
    }
  }

  method ScanParts(value: string, token: string) returns (b: bool)
    ensures b == HasToken(value, token)
  {
    var parts := Split(value, ',');
    for j := 0 to |parts|
      invariant forall n :: 0 <= n < j ==> !Matches(parts[n], token)
    {
      if Matches(parts[j], token) {
        return true;
      }
    }
    b := false;
  }

  /** The calls Range has made after i whole fields and j values of the next. */
  ghost function Upto(fs: Fields, i: nat, j: nat): seq<Header>
    requires i < |fs| && j <= |fs[i].values|
  {
    Flatten(fs[..i]) + Spread(fs[i].name, fs[i].values[..j])
  }

  lemma UptoNext(fs: Fields, i: nat, j: nat)
    requires i < |fs| && j < |fs[i].values|
    ensures Block(Upto(fs, i, j + 1)) == Block(Upto(fs, i, j)) + Header(fs[i].name, fs[i].values[j]).Line()
  {
    var h := Header(fs[i].name, fs[i].values[j]);
    assert Upto(fs, i, j + 1) == Upto(fs, i, j) + [h];
    BlockSnoc(Upto(fs, i, j), h);
  }

  lemma UptoAll(fs: Fields, i: nat)
    requires i < |fs|
    ensures Upto(fs, i, |fs[i].values|) == Flatten(fs[..i + 1])
  {
    assert fs[i].values[..|fs[i].values|] == fs[i].values;
    assert fs[..i + 1] == fs[..i] + [fs[i]];
    FlattenAppend(fs[..i], [fs[i]]);
    assert Flatten([fs[i]][1..]) == [];
  }
}

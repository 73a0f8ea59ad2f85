/** Looking names up in header fields that are put together or taken apart. */
module HeaderLookup {
  import opened HeaderFields

  function Names(fs: Fields): set<string> {
    set i | 0 <= i < |fs| :: fs[i].name
  }

  lemma DistinctTail(fs: Fields)
    requires Distinct(fs) && fs != []
    ensures Distinct(fs[1..]) && fs[0].name !in Names(fs[1..])
  {
  }

  lemma ConsDistinct(f: Field, fs: Fields)
    requires Distinct(fs) && f.name !in Names(fs)
    ensures Distinct([f] + fs)
  {
    assert forall i :: 0 <= i < |fs| ==> fs[i].name in Names(fs);
  }

  lemma ConsLookup(f: Field, fs: Fields, name: string)
    ensures ValuesAt([f] + fs, name) == if f.name == name then f.values else ValuesAt(fs, name)
    ensures Names([f] + fs) == {f.name} + Names(fs)
  {
    var all := [f] + fs;
    FindSpec(fs, name);
    FindIs(all, name, if f.name == name then 0 else Find(fs, name) + 1);
    forall n ensures n in Names(all) <==> n in {f.name} + Names(fs) {
      if n in Names(fs) {
        var i :| 0 <= i < |fs| && fs[i].name == n;
        assert all[i + 1].name == n;
      }
      if n == f.name { assert all[0].name == n; }
    }
  }

  lemma AppendLookup(a: Fields, b: Fields, name: string)
    ensures ValuesAt(a + b, name) == if name in Names(a) then ValuesAt(a, name) else ValuesAt(b, name)
    ensures Names(a + b) == Names(a) + Names(b)
    ensures Distinct(a) && Distinct(b) && Names(a) !! Names(b) ==> Distinct(a + b)
  {
    var all := a + b;
    FindSpec(a, name);
    FindSpec(b, name);
    if name in Names(a) {
      FindIs(all, name, Find(a, name));
    } else {
      assert forall i :: 0 <= i < |a| ==> a[i].name in Names(a);
      FindIs(all, name, |a| + Find(b, name));
    }
    forall n ensures n in Names(all) <==> n in Names(a) + Names(b) {
      if n in Names(b) {
        var i :| 0 <= i < |b| && b[i].name == n;
        assert all[|a| + i].name == n;
      }
      if n in Names(a) {
        var i :| 0 <= i < |a| && a[i].name == n;
        assert all[i].name == n;
      }
    }
    assert forall i :: 0 <= i < |a| ==> a[i].name in Names(a);
    assert forall i :: 0 <= i < |b| ==> b[i].name in Names(b);
  }

  lemma PairLookup(a: Field, b: Field, name: string)
    requires a.name != b.name
    ensures Distinct([a, b]) && Names([a, b]) == {a.name, b.name}
    ensures ValuesAt([a, b], name) == if name == a.name then a.values else if name == b.name then b.values else []
  {
    assert ValuesAt([], name) == [] && Names([]) == {};
    assert [b] + [] == [b] && [a] + [b] == [a, b];
    ConsLookup(b, [], name);
    ConsLookup(a, [b], name);
  }

  lemma NamedHasValues(fs: Fields, name: string)
    requires WellFormed(fs)
    ensures name in Names(fs) <==> ValuesAt(fs, name) != []
  {
    FindSpec(fs, name);
  }

  lemma FindIsNamed(fs: Fields, name: string)
    ensures Find(fs, name) < |fs| <==> name in Names(fs)
  {
    FindSpec(fs, name);
  }
}

/** Records as the contract builds them: JavaScript objects whose fields are
    strings, kept in the order they were set, and the key-sorting step that
    precedes every write. (JavaScript lists integer-like names first; no
    record the contract builds has one.) */
module Records {
  import opened Outcomes
  import Text

  datatype Field = Field(name: string, value: string)

  /** An object's own fields in the order they were set. */
  type Object = seq<Field>

  /** No two fields share a name, as in every object the contract builds. */
  predicate DistinctNames(o: Object) {
    forall i, j :: 0 <= i < j < |o| ==> o[i].name != o[j].name
  }

  /** Property lookup. When a parsed text repeats a name, the later field
      wins, as it does for `JSON.parse`. */
  function Get(o: Object, name: string): (r: Option<string>)
    ensures r.None? <==> forall i :: 0 <= i < |o| ==> o[i].name != name
    ensures r.Some? ==> Field(name, r.value) in o
  {
    if o == [] then None
    else if o[|o| - 1].name == name then Some(o[|o| - 1].value)
    else Get(o[..|o| - 1], name)
  }

  /** With distinct names a lookup finds exactly the field carrying the name. */
  lemma GetDistinct(o: Object, name: string, v: string)
    requires DistinctNames(o)
    ensures Get(o, name) == Some(v) <==> Field(name, v) in o
  {
    if Field(name, v) in o {
      var i :| 0 <= i < |o| && o[i] == Field(name, v);
      var r := Get(o, name);
      var k :| 0 <= k < |o| && o[k] == Field(name, r.value);
      assert k == i;
    }
  }

  /** Reordering the fields of an object does not change any lookup. */
  lemma GetPermutation(a: Object, b: Object, name: string)
    requires DistinctNames(a) && DistinctNames(b) && multiset(a) == multiset(b)
    ensures Get(a, name) == Get(b, name)
  {
    if Get(a, name).Some? {
      var v := Get(a, name).value;
      GetDistinct(a, name, v);
      assert Field(name, v) in multiset(b);
      GetDistinct(b, name, v);
    }
    if Get(b, name).Some? {
      var v := Get(b, name).value;
      GetDistinct(b, name, v);
      assert Field(name, v) in multiset(a);
      GetDistinct(a, name, v);
    }
  }

  /** Fields in strictly increasing name order. */
  predicate SortedByName(o: Object) {
    forall i, j :: 0 <= i < j < |o| ==> Text.Less(o[i].name, o[j].name)
  }

  lemma SortedIsDistinct(o: Object)
    requires SortedByName(o)
    ensures DistinctNames(o)
  {
    forall i, j | 0 <= i < j < |o|
      ensures o[i].name != o[j].name
    {
      Text.Irreflexive(o[i].name);
    }
  }

  /** Places `f` before the first field whose name it precedes. */
  function Insert(f: Field, o: Object): Object {
    if o == [] then [f]
    else if Text.Less(f.name, o[0].name) then [f] + o
    else [o[0]] + Insert(f, o[1..])
  }

  /** Inserting keeps every field and adds `f` once, and a field whose name
      is new keeps a sorted object sorted. */
  lemma {:induction false} InsertKeeps(f: Field, o: Object)
    ensures multiset(Insert(f, o)) == multiset(o) + multiset{f}
    ensures SortedByName(o) && (forall i :: 0 <= i < |o| ==> o[i].name != f.name) ==>
              SortedByName(Insert(f, o))
  {
    if o != [] {
      if Text.Less(f.name, o[0].name) {
        InsertFirst(f, o);
        assert o == [o[0]] + o[1..];
      } else {
        InsertKeeps(f, o[1..]);
        assert o == [o[0]] + o[1..];
        InsertLater(f, o, Insert(f, o[1..]));
      }
    }
  }

  lemma InsertFirst(f: Field, o: Object)
    requires o != [] && Text.Less(f.name, o[0].name)
    ensures SortedByName(o) ==> SortedByName([f] + o)
  {
    if SortedByName(o) {
      var r := [f] + o;
      forall i, j | 0 <= i < j < |r|
        ensures Text.Less(r[i].name, r[j].name)
      {
        if i == 0 {
          Text.Transitive(f.name, o[0].name, o[j - 1].name);
        } else {
          assert r[i] == o[i - 1] && r[j] == o[j - 1];
        }
      }
    }
  }

  lemma InsertLater(f: Field, o: Object, rest: Object)
    requires o != [] && !Text.Less(f.name, o[0].name)
    requires multiset(rest) == multiset(o[1..]) + multiset{f}
    requires SortedByName(o) && (forall i :: 0 <= i < |o| ==> o[i].name != f.name) ==> SortedByName(rest)
    ensures SortedByName(o) && (forall i :: 0 <= i < |o| ==> o[i].name != f.name) ==> SortedByName([o[0]] + rest)
  {
    if SortedByName(o) && (forall i :: 0 <= i < |o| ==> o[i].name != f.name) {
      Text.Total(f.name, o[0].name);
      forall j | 0 <= j < |rest|
        ensures Text.Less(o[0].name, rest[j].name)
      {
        assert rest[j] in multiset(rest);
        if rest[j] != f {
          assert rest[j] in multiset(o[1..]);
          var k :| 0 <= k < |o[1..]| && o[1..][k] == rest[j];
          assert o[k + 1] == rest[j];
        }
      }
    }
  }

  /** The key sort applied before a record is stored: insertion sort by name. */
  function SortFields(o: Object): Object {
    if o == [] then [] else Insert(o[0], SortFields(o[1..]))
  }

  /** The key sort is a permutation of the fields and, when the names are
      distinct, puts them in strictly ascending order. */
  lemma {:induction false} SortFieldsKeeps(o: Object)
    ensures multiset(SortFields(o)) == multiset(o)
    ensures DistinctNames(o) ==> SortedByName(SortFields(o))
  {
    if o != [] {
      var rest := SortFields(o[1..]);
      SortFieldsKeeps(o[1..]);
      assert o == [o[0]] + o[1..];
      SortFieldsStep(o, rest);
      InsertKeeps(o[0], rest);
    }
  }

  lemma SortFieldsStep(o: Object, rest: Object)
    requires o != [] && multiset(rest) == multiset(o[1..])
    requires DistinctNames(o[1..]) ==> SortedByName(rest)
    ensures DistinctNames(o) ==> SortedByName(rest) && forall i :: 0 <= i < |rest| ==> rest[i].name != o[0].name
  {
    if DistinctNames(o) {
      assert DistinctNames(o[1..]) by {
        forall i, j | 0 <= i < j < |o[1..]| ensures o[1..][i].name != o[1..][j].name {
          assert o[1..][i] == o[i + 1] && o[1..][j] == o[j + 1];
        }
      }
      forall i | 0 <= i < |rest|
        ensures rest[i].name != o[0].name
      {
        assert rest[i] in multiset(o[1..]);
        var k :| 0 <= k < |o[1..]| && o[1..][k] == rest[i];
        assert o[k + 1] == rest[i];
      }
    }
  }

  lemma SortedTail(o: Object)
    requires o != [] && SortedByName(o)
    ensures SortedByName(o[1..])
  {
    forall i, j | 0 <= i < j < |o[1..]|
      ensures Text.Less(o[1..][i].name, o[1..][j].name)
    {
      assert o[1..][i] == o[i + 1] && o[1..][j] == o[j + 1];
    }
  }

  /** The first field of a name-sorted object precedes all the others, so
      two sorted objects with the same fields start with the same field. */
  lemma SortedHeads(a: Object, b: Object)
    requires a != [] && b != []
    requires SortedByName(a) && SortedByName(b) && multiset(a) == multiset(b)
    ensures a[0] == b[0]
  {
    SortedHeadPrecedes(a, b[0]);
    SortedHeadPrecedes(b, a[0]);
    Text.Asymmetric(a[0].name, b[0].name);
  }

  lemma SortedHeadPrecedes(s: Object, x: Field)
    requires s != [] && SortedByName(s) && x in multiset(s)
    ensures x == s[0] || Text.Less(s[0].name, x.name)
  {
    var k :| 0 <= k < |s| && s[k] == x;
  }

  lemma TailMultiset(a: Object, b: Object)
    requires a != [] && b != [] && a[0] == b[0] && multiset(a) == multiset(b)
    ensures multiset(a[1..]) == multiset(b[1..])
  {
    assert a == [a[0]] + a[1..] && b == [b[0]] + b[1..];
    assert multiset(a[1..]) == multiset(a) - multiset{a[0]};
    assert multiset(b[1..]) == multiset(b) - multiset{b[0]};
  }

  /** Two name-sorted objects with the same fields are the same object. */
  lemma {:induction false} SortedUnique(a: Object, b: Object)
    requires SortedByName(a) && SortedByName(b) && multiset(a) == multiset(b)
    ensures a == b
  {
    assert |b| == |multiset(b)| == |multiset(a)| == |a|;
    if a != [] {
      SortedHeads(a, b);
      TailMultiset(a, b);
      SortedTail(a);
      SortedTail(b);
      SortedUnique(a[1..], b[1..]);
      assert a == [a[0]] + a[1..] && b == [b[0]] + b[1..];
    }
  }

  /** The key sort does not depend on the order fields were set: two objects with the
      same fields in any order sort to the same object. */
  lemma SortOrderInsensitive(a: Object, b: Object)
    requires DistinctNames(a) && DistinctNames(b) && multiset(a) == multiset(b)
    ensures SortFields(a) == SortFields(b)
  {
    SortFieldsKeeps(a);
    SortFieldsKeeps(b);
    SortedUnique(SortFields(a), SortFields(b));
  }

  /** Sorting keeps every lookup of an object whose names are distinct. */
  lemma SortKeepsLookups(o: Object, name: string)
    requires DistinctNames(o)
    ensures DistinctNames(SortFields(o))
    ensures Get(SortFields(o), name) == Get(o, name)
  {
    SortFieldsKeeps(o);
    SortedIsDistinct(SortFields(o));
    GetPermutation(SortFields(o), o, name);
  }
}

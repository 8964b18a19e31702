/** The ledger's world state as the contract sees it through `ctx.stub`:
    a flat map from key to stored text, single-key writes and deletes, and
    selector queries read through an iterator. */
module WorldState {
  import opened Outcomes
  import opened Records
  import Json

  type State = map<string, string>

  /** `getState`: the stored text, or the empty value for an absent key. */
  function GetState(st: State, key: string): (v: string)
    ensures v == "" <==> key !in st || st[key] == ""
    ensures v != "" ==> v == st[key]
  {
    if key in st then st[key] else ""
  }

  /** The key holds a value of non-zero length. */
  predicate HasValue(st: State, key: string) {
    |GetState(st, key)| > 0
  }

  /** A stored text decodes to an object whose field `name` is `v`. */
  predicate Holds(text: string, name: string, v: string) {
    var d := Json.Decode(text);
    d.Some? && Get(d.value, name) == Some(v)
  }

  /** A selector query's test: the stored text decodes to an object that
      agrees with every field of the selector. */
  predicate Matches(text: string, sel: Object)
    ensures sel == [] ==> (Matches(text, sel) <==> Json.Decode(text).Some?)
  {
    var d := Json.Decode(text);
    d.Some? && forall i :: 0 <= i < |sel| ==> Get(d.value, sel[i].name) == Some(sel[i].value)
  }

  /** A two-field selector matches exactly the texts holding both fields. */
  lemma MatchesPair(n1: string, v1: string, n2: string, v2: string)
    ensures forall text :: Matches(text, [Field(n1, v1), Field(n2, v2)]) <==>
              Holds(text, n1, v1) && Holds(text, n2, v2)
  {
    var sel := [Field(n1, v1), Field(n2, v2)];
    forall text
      ensures Matches(text, sel) <==> Holds(text, n1, v1) && Holds(text, n2, v2)
    {
      var d := Json.Decode(text);
      if d.Some? {
        assert sel[0] == Field(n1, v1) && sel[1] == Field(n2, v2);
        assert (forall i :: 0 <= i < |sel| ==> Get(d.value, sel[i].name) == Some(sel[i].value)) <==>
               Get(d.value, n1) == Some(v1) && Get(d.value, n2) == Some(v2);
      }
    }
  }

  /** A field of a record is found, with its value, in the record's stored
      text. */
  lemma StoredField(o: Object, name: string, v: string)
    requires DistinctNames(o) && Field(name, v) in o
    ensures forall w :: Holds(Json.Encode(o), name, w) <==> w == v
  {
    Json.DecodeEncode(o, name);
    GetDistinct(o, name, v);
  }

  /** A stored record matches a two-field selector exactly when the
      selector asks for the values the record holds. */
  lemma StoredPairMatch(o: Object, n1: string, v1: string, n2: string, v2: string, w1: string, w2: string)
    requires DistinctNames(o) && Field(n1, v1) in o && Field(n2, v2) in o
    ensures Matches(Json.Encode(o), [Field(n1, w1), Field(n2, w2)]) <==> w1 == v1 && w2 == v2
  {
    MatchesPair(n1, w1, n2, w2);
    StoredField(o, n1, v1);
    StoredField(o, n2, v2);
  }

  datatype Timestamp = Timestamp(seconds: int, nanos: int)

  /** An iterator element: a key and its value from a state query, or one
      change of a key from a history query. */
  datatype Entry =
    | KV(key: string, value: string)
    | KeyModification(txId: string, timestamp: Timestamp, value: string)

  function EntryKeys(items: seq<Entry>): set<string> {
    set i | 0 <= i < |items| && items[i].KV? :: items[i].key
  }

  lemma EntryKeysSnoc(items: seq<Entry>, k: string, v: string)
    ensures EntryKeys(items + [KV(k, v)]) == EntryKeys(items) + {k}
  {
    var ext := items + [KV(k, v)];
    assert ext[|items|] == KV(k, v);
    forall x | x in EntryKeys(ext)
      ensures x in EntryKeys(items) + {k}
    {
      var i :| 0 <= i < |ext| && ext[i].KV? && ext[i].key == x;
      if i < |items| {
        assert ext[i] == items[i];
      }
    }
    forall x | x in EntryKeys(items)
      ensures x in EntryKeys(ext)
    {
      var i :| 0 <= i < |items| && items[i].KV? && items[i].key == x;
      assert ext[i] == items[i];
    }
  }

  /** `items` lists, once each and in some order, exactly the entries of
      `st` whose stored text matches `sel`. */
  ghost predicate Selected(st: State, sel: Object, items: seq<Entry>) {
    && (forall i :: 0 <= i < |items| ==>
          items[i].KV? && items[i].key in st && items[i].value == st[items[i].key] &&
          Matches(items[i].value, sel))
    && (forall k :: k in st && Matches(st[k], sel) ==> k in EntryKeys(items))
    && (forall i, j :: 0 <= i < j < |items| ==> items[i].key != items[j].key)
  }

  /** The state database's evaluation of a selector: a scan over every key
      that keeps the entries whose text matches. The order of the scan is
      not fixed. */
  method Scan(st: State, sel: Object) returns (items: seq<Entry>)
    ensures Selected(st, sel, items)
  {
    items := [];
    var rest := st.Keys;
    while rest != {}
      invariant rest <= st.Keys
      invariant forall i :: 0 <= i < |items| ==>
                  items[i].KV? && items[i].key in st.Keys - rest &&
                  items[i].value == st[items[i].key] && Matches(items[i].value, sel)
      invariant forall k :: k in st.Keys - rest && Matches(st[k], sel) ==> k in EntryKeys(items)
      invariant forall i, j :: 0 <= i < j < |items| ==> items[i].key != items[j].key
      decreases rest
    {
      var k :| k in rest;
      if Matches(st[k], sel) {
        EntryKeysSnoc(items, k, st[k]);
        items := items + [KV(k, st[k])];
      }
      rest := rest - {k};
    }
  }

  /** A store-side cursor over the entries a query produced. */
  class QueryIterator {
    const items: seq<Entry>
    var pos: nat
    var closeCalls: nat

    predicate Valid()
      reads this
    {
      pos <= |items|
    }

    constructor (items: seq<Entry>)
      ensures this.items == items && pos == 0 && closeCalls == 0 && Valid()
    {
      this.items := items;
      pos := 0;
      closeCalls := 0;
    }

    /** `next()`: the following entry, or `None` once all were read
        (`done`). An iterator that was closed cannot be advanced. */
    method Next() returns (r: Option<Entry>)
      requires Valid() && closeCalls == 0
      modifies this`pos
      ensures Valid()
      ensures old(pos) < |items| ==> r == Some(items[old(pos)]) && pos == old(pos) + 1
      ensures old(pos) == |items| ==> r == None && pos == old(pos)
    {
      if pos < |items| {
        r := Some(items[pos]);
        pos := pos + 1;
      } else {
        r := None;
      }
    }

    /** `close()`: releases the store-side cursor. */
    method Close()
      modifies this`closeCalls
      ensures closeCalls == old(closeCalls) + 1
    {
      closeCalls := closeCalls + 1;
    }
  }

  /** The world state of one transaction. */
  class Stub {
    var state: State

    constructor (initial: State)
      ensures state == initial
    {
      state := initial;
    }

    /** `putState`: the key now holds `value`; no other key changes. */
    method PutState(key: string, value: string)
      modifies this
      ensures state == old(state)[key := value]
    {
      state := state[key := value];
    }

    /** `deleteState`: the key holds nothing; no other key changes. Deleting
        an absent key is not an error. */
    method DeleteState(key: string)
      modifies this
      ensures state == old(state) - {key}
    {
      state := state - {key};
    }

    /** `getQueryResult`: a fresh iterator over the matching entries. */
    method GetQueryResult(sel: Object) returns (it: QueryIterator)
      ensures fresh(it) && it.Valid() && it.pos == 0 && it.closeCalls == 0
      ensures Selected(state, sel, it.items)
    {
      var items := Scan(state, sel);
      it := new QueryIterator(items);
    }
  }
}

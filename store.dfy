/** The record store as the service runs it: one object owning the table
    and the next-id counter, with one method per request handler. Each
    method updates the fields in place and is proved to leave exactly the
    state that the corresponding function of module `Records` gives. */
module Store {
  import opened Records

  predicate Increasing(s: seq<int>) {
    forall i, j :: 0 <= i < j < |s| ==> s[i] < s[j]
  }

  /** The sequence with every occurrence of `x` dropped, the rest kept in
      order: what deleting a key does to a table's iteration order. */
  function Without(s: seq<int>, x: int): (r: seq<int>)
    ensures forall y :: y in r <==> y in s && y != x
    ensures Increasing(s) ==> Increasing(r)
  {
    if s == [] then []
    else
      var rest := Without(s[1..], x);
      var r := (if s[0] == x then [] else [s[0]]) + rest;
      assert forall y :: y in s <==> y == s[0] || y in s[1..] by {
        assert s == [s[0]] + s[1..];
      }
      assert Increasing(s) ==> Increasing(r) by {
        if Increasing(s) && s[0] != x {
          forall i, j | 0 <= i < j < |r|
            ensures r[i] < r[j]
          {
            assert r[j] == rest[j - 1] && r[j] in s[1..];
            if i > 0 {
              assert r[i] == rest[i - 1];
            }
          }
        }
      }
      r
  }

  /** Two increasing sequences with the same elements are the same sequence. */
  lemma {:induction false} IncreasingUnique(a: seq<int>, b: seq<int>)
    requires Increasing(a) && Increasing(b)
    requires forall x :: x in a <==> x in b
    ensures a == b
    decreases |a|
  {
    if a != [] {
      assert a[0] in a;
    }
    if b != [] {
      assert b[0] in b;
    }
    if a != [] && b != [] {
      assert a[0] == b[0] by {
        assert a[0] in b && b[0] in a;
      }
      assert forall x :: x in a[1..] <==> x in a && x != a[0];
      assert forall x :: x in b[1..] <==> x in b && x != b[0];
      IncreasingUnique(a[1..], b[1..]);
      assert a == [a[0]] + a[1..] && b == [b[0]] + b[1..];
    }
  }

  function IdsOf(rs: seq<Record>): (ids: seq<int>)
    ensures |ids| == |rs| && forall i :: 0 <= i < |rs| ==> ids[i] == rs[i].id
  {
    seq(|rs|, i requires 0 <= i < |rs| => rs[i].id)
  }

  /** The ids of the ascending-id listing of a valid table increase and are
      exactly the table's keys. */
  lemma ListingIds(s: State)
    requires Records.Valid(s)
    ensures var ids := IdsOf(ValuesInOrder(s.records, 1, s.nextId));
      Increasing(ids) && forall x :: x in ids <==> x in s.records
  {
    var rs := ValuesInOrder(s.records, 1, s.nextId);
    var ids := IdsOf(rs);
    forall x
      ensures x in ids <==> x in s.records
    {
      if x in s.records {
        assert s.records[x] in rs;
        var i :| 0 <= i < |rs| && rs[i] == s.records[x];
        assert ids[i] == x;
      }
    }
  }

  /** On a valid table, the ascending-id listing is the listing in the
      order given by any increasing sequence of exactly its keys. */
  lemma ListingFollowsOrder(s: State, order: seq<int>)
    requires Records.Valid(s) && Increasing(order)
    requires forall k :: k in s.records <==> k in order
    ensures var rs := ValuesInOrder(s.records, 1, s.nextId);
      |rs| == |order| && forall i :: 0 <= i < |order| ==> order[i] in s.records && rs[i] == s.records[order[i]]
  {
    var rs := ValuesInOrder(s.records, 1, s.nextId);
    ListingIds(s);
    IncreasingUnique(IdsOf(rs), order);
  }

  class RecordStore {
    var records: map<int, Record>
    var nextId: int
    /** The keys in the order the table iterates over them: insertion order,
        since a new key goes to the end, an overwrite keeps a key's place and
        a delete drops the key. */
    ghost var order: seq<int>

    /** The store's current contents as a value. */
    function Snapshot(): State
      reads this
    {
      State(records, nextId)
    }

    ghost predicate Valid()
      reads this
    {
      && Records.Valid(Snapshot())
      && Increasing(order)
      && forall k :: k in records <==> k in order
    }

    /** A fresh store: empty table, counter at 1. */
    constructor ()
      ensures Valid()
      ensures records == map[] && nextId == 1 && order == []
    {
      records := map[];
      nextId := 1;
      order := [];
    }

    /** Handler for creating a record. */
    method AddRecord(date: Date, demandGwh: real) returns (r: Record)
      requires Valid()
      modifies this
      ensures Valid()
      ensures (Snapshot(), r) == Add(old(Snapshot()), date, demandGwh)
      ensures r == Record(date, demandGwh, old(nextId))
      ensures records == old(records)[r.id := r] && nextId == old(nextId) + 1
      ensures order == old(order) + [r.id]
    {
      r := Record(date, demandGwh, nextId);
      forall i | 0 <= i < |order|
        ensures order[i] < nextId
      {
        assert order[i] in order;
      }
      records := records[nextId := r];
      order := order + [nextId];
      nextId := nextId + 1;
    }

    /** Handler for listing all records, in the table's iteration order. */
    method GetAllRecords() returns (rs: seq<Record>)
      requires Valid()
      ensures rs == ValuesInOrder(records, 1, nextId)
      ensures |rs| == |order|
      ensures forall i :: 0 <= i < |order| ==> order[i] in records && rs[i] == records[order[i]]
      ensures |rs| == |records|
      ensures forall k :: k in records ==> records[k] in rs
      ensures forall i :: 0 <= i < |rs| ==> rs[i].id in records && records[rs[i].id] == rs[i]
    {
      rs := [];
      var i := 1;
      while i < nextId
        invariant 1 <= i <= nextId
        invariant rs == ValuesInOrder(records, 1, i)
      {
        if i in records {
          rs := rs + [records[i]];
        }
        i := i + 1;
      }
      AllValuesCount(Snapshot());
      ListingFollowsOrder(Snapshot(), order);
    }

    /** Handler for reading one record. */
    method GetRecord(id: int) returns (r: Result<Record>)
      ensures r == Get(Snapshot(), id)
      ensures r.Ok? <==> id in records
      ensures r.Ok? ==> r.value == records[id]
    {
      if id !in records {
        return Err(NotFound);
      }
      r := Ok(records[id]);
    }

    /** Handler for replacing a record's date and demand. */
    method UpdateRecord(id: int, date: Date, demandGwh: real) returns (r: Result<Record>)
      requires Valid()
      modifies this
      ensures Valid()
      ensures (Snapshot(), r) == Replace(old(Snapshot()), id, date, demandGwh)
      ensures id !in old(records) ==> r == Err(NotFound) && unchanged(this)
      ensures id in old(records) ==>
        r == Ok(Record(date, demandGwh, id)) && records == old(records)[id := r.value]
      ensures nextId == old(nextId) && order == old(order)
    {
      if id !in records {
        return Err(NotFound);
      }
      records := records[id := Record(date, demandGwh, id)];
      r := Ok(records[id]);
    }

    /** Handler for the optional overwrite of a record's demand. */
    method PartialUpdateRecord(id: int, demandGwh: Option<real>) returns (r: Result<Record>)
      requires Valid()
      modifies this
      ensures Valid()
      ensures (Snapshot(), r) == Patch(old(Snapshot()), id, demandGwh)
      ensures id !in old(records) ==> r == Err(NotFound) && unchanged(this)
      ensures id in old(records) && demandGwh.None? ==> r == Ok(old(records)[id]) && unchanged(this)
      ensures id in old(records) && demandGwh.Some? ==>
        && r == Ok(old(records)[id].(demandGwh := demandGwh.value))
        && records == old(records)[id := r.value]
      ensures nextId == old(nextId) && order == old(order)
    {
      if id !in records {
        return Err(NotFound);
      }
      if demandGwh.Some? {
        records := records[id := records[id].(demandGwh := demandGwh.value)];
      }
      r := Ok(records[id]);
    }

    /** Handler for deleting a record; the counter is left alone. */
    method DeleteRecord(id: int) returns (r: Result<()>)
      requires Valid()
      modifies this
      ensures Valid()
      ensures (Snapshot(), r) == Delete(old(Snapshot()), id)
      ensures id !in old(records) ==> r == Err(NotFound) && unchanged(this)
      ensures id in old(records) ==> r == Ok(()) && records == old(records) - {id}
      ensures id in old(records) ==> order == Without(old(order), id)
      ensures nextId == old(nextId)
    {
      if id !in records {
        return Err(NotFound);
      }
      records := records - {id};
      order := Without(order, id);
      r := Ok(());
    }
  }

  /** The scenario of creating a record, deleting it and reading it back:
      the read fails with NotFound, and a later insert gets a new id. */
  method CreateDeleteGet(date: Date, demandGwh: real) returns (got: Result<Record>, next: Record)
    ensures got == Err(NotFound)
    ensures next.id == 2
  {
    var store := new RecordStore();
    var r := store.AddRecord(date, demandGwh);
    var _ := store.DeleteRecord(r.id);
    got := store.GetRecord(r.id);
    next := store.AddRecord(date, demandGwh);
  }
}

/** The energy-demand record store, stated on values.

    The service keeps a table from record id to record and a counter that
    gives the next id. This module states that table as a value (`State`),
    each store operation as a function from the old state to the new state
    and the caller's result, and proves what holds across any sequence of
    operations: ids are handed out consecutively, never reused, and a deleted
    record never comes back. The class in module `Store` is proved against
    these functions.
 */
module Records {

  /** A calendar date; dates compare chronologically, that is
      lexicographically on (year, month, day). */
  datatype Date = Date(year: int, month: int, day: int)

  predicate DateLt(a: Date, b: Date) {
    a.year < b.year ||
    (a.year == b.year && (a.month < b.month || (a.month == b.month && a.day < b.day)))
  }

  predicate DateLe(a: Date, b: Date) {
    !DateLt(b, a)
  }

  /** One stored data point; `id` is assigned by the store. */
  datatype Record = Record(date: Date, demandGwh: real, id: int)

  /** The two failures the service reports to its caller. */
  datatype Error = NotFound | InvalidYears

  datatype Result<T> = Ok(value: T) | Err(error: Error)

  datatype Option<T> = None | Some(value: T)

  /** The whole process-wide state: the table and the next-id counter. */
  datatype State = State(records: map<int, Record>, nextId: int)

  /** The state at process start. */
  const Empty: State := State(map[], 1)

  predicate IdsMatchKeys(m: map<int, Record>) {
    forall k :: k in m ==> m[k].id == k
  }

  /** The store invariant: ids start at 1, every key lies below the counter,
      and every stored record carries its own key as its id. */
  predicate Valid(s: State) {
    && s.nextId >= 1
    && IdsMatchKeys(s.records)
    && forall k :: k in s.records ==> 1 <= k < s.nextId
  }

  lemma EmptyIsValid()
    ensures Valid(Empty) && Empty.records == map[]
  {
  }

  // ---------------------------------------------------------------------
  // The operations, one function each
  // ---------------------------------------------------------------------

  /** Insert: the new record gets the current counter as its id, is stored
      under that key, and the counter moves on by one. */
  function Add(s: State, date: Date, demandGwh: real): (out: (State, Record))
    ensures out.1.date == date && out.1.demandGwh == demandGwh
    ensures out.1.id == s.nextId && out.0.nextId == s.nextId + 1
    ensures out.0.records.Keys == s.records.Keys + {out.1.id}
    ensures out.0.records[out.1.id] == out.1
    ensures forall k :: k in s.records && k != out.1.id ==> out.0.records[k] == s.records[k]
    ensures Valid(s) ==> out.1.id !in s.records && Valid(out.0)
  {
    var r := Record(date, demandGwh, s.nextId);
    (State(s.records[s.nextId := r], s.nextId + 1), r)
  }

  /** Lookup by id; an absent id is NotFound. */
  function Get(s: State, id: int): (r: Result<Record>)
    ensures r.Ok? <==> id in s.records
    ensures r.Ok? ==> r.value == s.records[id]
    ensures Valid(s) && r.Ok? ==> r.value.id == id
    ensures r.Err? ==> r.error == NotFound
  {
    if id !in s.records then Err(NotFound) else Ok(s.records[id])
  }

  /** Full replace: both fields are overwritten, the id stays the key. */
  function Replace(s: State, id: int, date: Date, demandGwh: real): (out: (State, Result<Record>))
    ensures id !in s.records ==> out == (s, Err(NotFound))
    ensures id in s.records ==>
      && out.1.Ok?
      && out.1.value.date == date && out.1.value.demandGwh == demandGwh && out.1.value.id == id
      && out.0.records.Keys == s.records.Keys
      && out.0.records[id] == out.1.value
    ensures forall k :: k in s.records && k != id ==> out.0.records[k] == s.records[k]
    ensures out.0.nextId == s.nextId
    ensures Valid(s) ==> Valid(out.0)
  {
    if id !in s.records then (s, Err(NotFound))
    else
      var r := Record(date, demandGwh, id);
      (State(s.records[id := r], s.nextId), Ok(r))
  }

  /** Partial update: an absent demand leaves the record as it is; a present
      one overwrites the demand figure only. */
  function Patch(s: State, id: int, demandGwh: Option<real>): (out: (State, Result<Record>))
    ensures id !in s.records ==> out == (s, Err(NotFound))
    ensures id in s.records && demandGwh.None? ==> out == (s, Ok(s.records[id]))
    ensures id in s.records && demandGwh.Some? ==>
      && out.1.Ok?
      && out.1.value.demandGwh == demandGwh.value
      && out.1.value.date == s.records[id].date
      && out.1.value.id == s.records[id].id
      && out.0.records.Keys == s.records.Keys
      && out.0.records[id] == out.1.value
    ensures forall k :: k in s.records && k != id ==> out.0.records[k] == s.records[k]
    ensures out.0.nextId == s.nextId
    ensures Valid(s) ==> Valid(out.0)
  {
    if id !in s.records then (s, Err(NotFound))
    else if demandGwh.None? then (s, Ok(s.records[id]))
    else
      var r := s.records[id].(demandGwh := demandGwh.value);
      (State(s.records[id := r], s.nextId), Ok(r))
  }

  /** Delete: removes exactly the one key; the counter is not touched. */
  function Delete(s: State, id: int): (out: (State, Result<()>))
    ensures id !in s.records ==> out == (s, Err(NotFound))
    ensures id in s.records ==> out.1 == Ok(()) && out.0.records.Keys == s.records.Keys - {id}
    ensures forall k :: k in out.0.records ==> k in s.records && out.0.records[k] == s.records[k]
    ensures out.0.nextId == s.nextId
    ensures Valid(s) ==> Valid(out.0)
  {
    if id !in s.records then (s, Err(NotFound))
    else (State(s.records - {id}, s.nextId), Ok(()))
  }

  /** The records with keys in [lo, hi), in ascending key order. Keys only
      ever enter the table in ascending order and an overwrite keeps a key's
      place, so this is also the table's insertion order. */
  function ValuesInOrder(m: map<int, Record>, lo: int, hi: int): (r: seq<Record>)
    requires IdsMatchKeys(m)
    ensures forall i :: 0 <= i < |r| ==> r[i].id in m && m[r[i].id] == r[i] && lo <= r[i].id < hi
    ensures forall i, j :: 0 <= i < j < |r| ==> r[i].id < r[j].id
    ensures forall k :: k in m && lo <= k < hi ==> m[k] in r
    decreases hi - lo
  {
    if hi <= lo then []
    else
      var prefix := ValuesInOrder(m, lo, hi - 1);
      if hi - 1 !in m then prefix
      else
        var r := prefix + [m[hi - 1]];
        assert forall k :: k in m && lo <= k < hi - 1 ==> m[k] in r by {
          assert forall i :: 0 <= i < |prefix| ==> r[i] == prefix[i];
        }
        r
  }

  function KeysBetween(m: map<int, Record>, lo: int, hi: int): set<int> {
    set k | k in m && lo <= k < hi
  }

  /** Extending the key range by one adds that key when it is present. */
  lemma KeysBetweenStep(m: map<int, Record>, lo: int, hi: int)
    requires lo < hi
    ensures |KeysBetween(m, lo, hi)| == |KeysBetween(m, lo, hi - 1)| + (if hi - 1 in m then 1 else 0)
  {
    var below := KeysBetween(m, lo, hi - 1);
    if hi - 1 in m {
      assert hi - 1 !in below;
      assert KeysBetween(m, lo, hi) == below + {hi - 1};
    } else {
      assert KeysBetween(m, lo, hi) == below;
    }
  }

  /** One value per key: the listing is exactly as long as the key range. */
  lemma {:induction false} ValuesInOrderCount(m: map<int, Record>, lo: int, hi: int)
    requires IdsMatchKeys(m)
    ensures |ValuesInOrder(m, lo, hi)| == |KeysBetween(m, lo, hi)|
    decreases hi - lo
  {
    if hi <= lo {
      assert KeysBetween(m, lo, hi) == {};
    } else {
      ValuesInOrderCount(m, lo, hi - 1);
      KeysBetweenStep(m, lo, hi);
    }
  }

  /** Listing all records of a valid store yields one record per key. */
  lemma AllValuesCount(s: State)
    requires Valid(s)
    ensures |ValuesInOrder(s.records, 1, s.nextId)| == |s.records|
  {
    ValuesInOrderCount(s.records, 1, s.nextId);
    assert KeysBetween(s.records, 1, s.nextId) == s.records.Keys;
  }

  // ---------------------------------------------------------------------
  // Properties relating several operations
  // ---------------------------------------------------------------------

  /** Insert then lookup of the returned id yields the inserted record. */
  lemma AddThenGet(s: State, date: Date, demandGwh: real)
    ensures var (s', r) := Add(s, date, demandGwh); Get(s', r.id) == Ok(r)
  {
  }

  /** Delete then lookup of the same id yields NotFound. */
  lemma DeleteThenGet(s: State, id: int)
    ensures Get(Delete(s, id).0, id) == Err(NotFound)
  {
  }

  /** A state-changing request, as the service receives them. */
  datatype Mutation =
    | Insert(date: Date, demandGwh: real)
    | Overwrite(id: int, date: Date, demandGwh: real)
    | SetDemand(id: int, demand: Option<real>)
    | Remove(id: int)

  /** Applies one request; the second component lists the id it assigned. */
  function Apply(s: State, op: Mutation): (State, seq<int>) {
    match op
    case Insert(d, g) => var (s', r) := Add(s, d, g); (s', [r.id])
    case Overwrite(id, d, g) => (Replace(s, id, d, g).0, [])
    case SetDemand(id, g) => (Patch(s, id, g).0, [])
    case Remove(id) => (Delete(s, id).0, [])
  }

  /** Applies a sequence of requests in order, collecting the assigned ids. */
  function Run(s: State, ops: seq<Mutation>): (State, seq<int>)
    decreases |ops|
  {
    if ops == [] then (s, [])
    else
      var (s1, ids1) := Apply(s, ops[0]);
      var (s2, ids2) := Run(s1, ops[1..]);
      (s2, ids1 + ids2)
  }

  /** Ids are handed out consecutively from the counter, the counter moves
      on by exactly the number of inserts, and the invariant is kept. */
  lemma {:induction false} RunAssignsConsecutiveIds(s: State, ops: seq<Mutation>)
    requires Valid(s)
    ensures Valid(Run(s, ops).0)
    ensures Run(s, ops).0.nextId == s.nextId + |Run(s, ops).1|
    ensures forall i :: 0 <= i < |Run(s, ops).1| ==> Run(s, ops).1[i] == s.nextId + i
    decreases |ops|
  {
    if ops != [] {
      var (s1, ids1) := Apply(s, ops[0]);
      RunAssignsConsecutiveIds(s1, ops[1..]);
      var (s2, ids2) := Run(s1, ops[1..]);
      assert Run(s, ops) == (s2, ids1 + ids2);
    }
  }

  /** Ids are unique and strictly increasing, none was ever a key of the
      starting table, and the counter never decreases. */
  lemma IdsStrictlyIncreaseAndAreFresh(s: State, ops: seq<Mutation>)
    requires Valid(s)
    ensures var (s', ids) := Run(s, ops);
      && s.nextId <= s'.nextId
      && (forall i, j :: 0 <= i < j < |ids| ==> ids[i] < ids[j])
      && (forall i :: 0 <= i < |ids| ==> s.nextId <= ids[i] < s'.nextId && ids[i] !in s.records)
  {
    RunAssignsConsecutiveIds(s, ops);
  }

  /** From process start the ids handed out are 1, 2, 3, ... */
  lemma IdsFromStartAreOneTwoThree(ops: seq<Mutation>)
    ensures forall i :: 0 <= i < |Run(Empty, ops).1| ==> Run(Empty, ops).1[i] == i + 1
  {
    RunAssignsConsecutiveIds(Empty, ops);
  }

  /** A key below the counter that is absent stays absent: no later request
      can bring it back. */
  lemma {:induction false} AbsentKeyStaysAbsent(s: State, ops: seq<Mutation>, k: int)
    requires Valid(s) && k < s.nextId && k !in s.records
    ensures k !in Run(s, ops).0.records
    decreases |ops|
  {
    if ops != [] {
      var (s1, ids1) := Apply(s, ops[0]);
      assert Valid(s1) && s.nextId <= s1.nextId && k !in s1.records;
      AbsentKeyStaysAbsent(s1, ops[1..], k);
    }
  }

  /** After a delete, the deleted id is never assigned again and a lookup of
      it fails with NotFound whatever requests follow. */
  lemma DeletedIdNeverReused(s: State, id: int, ops: seq<Mutation>)
    requires Valid(s) && id in s.records
    ensures var (s', ids) := Run(Delete(s, id).0, ops);
      id !in ids && Get(s', id) == Err(NotFound)
  {
    var d := Delete(s, id).0;
    RunAssignsConsecutiveIds(d, ops);
    AbsentKeyStaysAbsent(d, ops, id);
  }
}

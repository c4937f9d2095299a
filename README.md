# Energy demand record store and forecast, in Dafny

This project models the core of a small energy-demand web service. The
service keeps an in-memory table of demand records. Each record holds a date,
a demand figure in GWh and an id, and the table is keyed by that id. A
process-wide counter hands out the ids. Request handlers create, list, read,
replace, patch and delete records, and a forecast request projects the demand
of the most recent record a few years ahead.

- `records.dfy` (module `Records`) states the store as a value. `State` is the
  table plus the counter, and `Valid` is the store invariant: the counter is at
  least 1, every key is positive and below the counter, and every record's `id`
  equals its key. Each handler is a function from the old state to the new
  state and the caller's result (`Add`, `Get`, `Replace`, `Patch`, `Delete`).
  Lemmas cover any sequence of requests (`Run`): ids are consecutive, unique
  and never reused, and a deleted record never comes back.
- `store.dfy` (module `Store`) is the store as the service runs it: a class
  `RecordStore` whose fields `records` (a map) and `nextId` are updated in
  place by one method per handler. Each mutating method is proved to leave
  exactly the state that the matching function of `Records` gives, and to keep
  `Valid`. "Record not found" failures are `Err(NotFound)` results rather than
  exceptions.
- `forecast.dfy` (module `Forecasting`) is the forecast request, a pure
  function of the store's state. It rejects horizons outside 0..5, picks the
  base figure (the demand of a latest-dated record, or 500 on an empty store)
  and returns one entry per future year.

Dates are `(year, month, day)` triples ordered lexicographically, which is
chronological order. Demand figures are `real`. The store never does
arithmetic on them.

The table's iteration order matters twice: listing all records, and breaking
ties in the forecast's choice of base record. Python dictionaries iterate in
insertion order. A new key goes to the end, an overwrite keeps a key's place,
and a delete drops the key. `RecordStore` tracks this order in a ghost field
`order`. Its invariant says that `order` is increasing and holds exactly the
keys, and `GetAllRecords` is proved to list `records[order[i]]` in turn. So the
iteration order is ascending id order, which is what `ValuesInOrder` lists.
Python's `max` keeps the first maximal element in that order and replaces it
only with a strictly later date. `LatestIndex` does the same. So among records
with the latest date, the forecast uses the one with the lowest id.

## Model

| member | source | states |
|---|---|---|
| `Records.EmptyIsValid` | energy.py:12-13 | the store at process start is empty with counter 1 and satisfies the store invariant |
| `Records.Add` | energy.py:23-28 | insert gives the record the old counter as id; it is stored under that key with the given date and demand; the counter grows by exactly 1; the new key was not in use; the other entries are untouched; the invariant is kept |
| `Records.Get` | energy.py:35-38 | lookup succeeds exactly when the id is a key and then returns the stored record, whose id is the requested one; otherwise it fails with NotFound |
| `Records.Replace` | energy.py:41-45 | on an absent id it fails with NotFound and the state is unchanged; otherwise both fields are overwritten, the id stays the key, the key set, the other entries and the counter are unchanged, and the invariant is kept |
| `Records.Patch` | energy.py:48-53 | an absent id fails with NotFound and changes nothing; with no demand the record is returned and nothing changes; with a demand only that field changes (date and id kept) and all other entries and the counter are unchanged |
| `Records.Delete` | energy.py:56-60 | an absent id fails with NotFound and changes nothing; otherwise exactly that key is removed, every remaining entry is unchanged, and the counter is not touched |
| `Records.ValuesInOrder` | energy.py:31-32 | the listing holds only stored records (each at its own key), in strictly ascending id order, and contains every stored record |
| `Records.ValuesInOrderCount` | energy.py:31-32 | the listing has exactly one entry per key in the range |
| `Records.AllValuesCount` | energy.py:31-32 | listing a valid store yields as many records as there are keys |
| `Records.AddThenGet` | energy.py:25-28 | looking up the id that an insert returned yields the inserted record |
| `Records.DeleteThenGet` | energy.py:57-59 | looking up an id after deleting it fails with NotFound |
| `Records.RunAssignsConsecutiveIds` | energy.py:24-27 | over any sequence of inserts, replaces, patches and deletes, the invariant is kept, the i-th insert gets id counter+i, and the counter grows by exactly the number of inserts |
| `Records.IdsStrictlyIncreaseAndAreFresh` | energy.py:13 | the counter never decreases; assigned ids are strictly increasing and unique, at least the starting counter, and none was a key of the starting table |
| `Records.IdsFromStartAreOneTwoThree` | energy.py:12-13 | from process start the ids handed out are 1, 2, 3, ... |
| `Records.AbsentKeyStaysAbsent` | energy.py:26-27 | an absent key below the counter stays absent after any sequence of requests |
| `Records.DeletedIdNeverReused` | energy.py:59 | after a delete, no later insert gets the deleted id, and looking it up keeps failing with NotFound |
| `Store.Without` | energy.py:59 | deleting a key drops exactly that key from the iteration order and keeps the others in order, so an increasing order stays increasing |
| `Store.IncreasingUnique` | energy.py:32 | two increasing key sequences with the same elements are equal, so the iteration order of a valid table is determined by its keys |
| `Store.ListingFollowsOrder` | energy.py:31-32 | on a valid table, the ascending-id listing is the listing in iteration order: the same length, and entry i is the record at the i-th key |
| `Store.RecordStore.constructor` | energy.py:12-13 | a new store has an empty table, counter 1 and an empty iteration order, and satisfies the invariant |
| `Store.RecordStore.AddRecord` | energy.py:23-28 | returns the record with the old counter as id, stores it under that key, increments the counter by 1, appends the new id to the iteration order, and keeps the invariant (the state is that of `Records.Add`) |
| `Store.RecordStore.GetAllRecords` | energy.py:31-32 | returns the stored records in the table's iteration order (entry i is the record at the i-th key of `order`), which is ascending id order, one per key and every one of them |
| `Store.RecordStore.GetRecord` | energy.py:35-38 | succeeds exactly when the id is a key and returns the stored record; fails with NotFound otherwise; modifies nothing |
| `Store.RecordStore.UpdateRecord` | energy.py:41-45 | an absent id fails with NotFound and leaves the object unchanged; a present id is overwritten with the given fields and its own id as the only change; the iteration order is kept |
| `Store.RecordStore.PartialUpdateRecord` | energy.py:48-53 | an absent id fails and changes nothing; no demand returns the record unchanged; a demand overwrites only that field of that record; the iteration order is kept |
| `Store.RecordStore.DeleteRecord` | energy.py:56-60 | an absent id fails and changes nothing; a present id is removed, from the table and from the iteration order, and nothing else changes, the counter included |
| `Store.CreateDeleteGet` | energy.py:55-59 | creating a record, deleting it and reading it back fails with NotFound, and the next insert gets a new id (2) |
| `Forecasting.LatestIndex` | energy.py:66 | the chosen position holds a latest date, and every earlier position has a strictly earlier date (the first maximum wins) |
| `Forecasting.Latest` | energy.py:66 | the base record is stored at its own key, no stored record has a later date, and every record with a lower id has a strictly earlier date |
| `Forecasting.Base` | energy.py:66-67 | on an empty store the base is 500; otherwise it is the demand of a stored record whose date no stored record exceeds |
| `Forecasting.Projected` | energy.py:68-71 | exactly n entries; entry i is for year currentYear+i+1 with the projection of the base for i+1 years |
| `Forecasting.Forecast` | energy.py:63-71 | fails with InvalidYears exactly when years is below 0 or above 5; otherwise exactly `years` entries for years currentYear+1..currentYear+years, projected from 500 on an empty store and from the latest record's demand otherwise; the store is an input only |
| `Forecasting.ZeroHorizonIsEmpty` | energy.py:68-71 | a zero horizon yields an empty list whatever the store holds |
| `Forecasting.OutOfRangeHorizonFails` | energy.py:64-65 | horizons 6 and -1 fail with InvalidYears |
| `Forecasting.EmptyStoreOneYear` | energy.py:66-71 | on an empty store a one-year forecast is the single entry for next year projected from 500 |
| `Forecasting.TwoYearsFromLatest` | energy.py:66-71 | on a non-empty store a two-year forecast is the latest record's demand projected one and two years ahead |
| `Forecasting.LaterDateGivesBase` | energy.py:66-67 | after two inserts with different dates, the forecast starts from the later-dated record's demand, whichever was inserted first |

## Left out

- The web framework: app construction, route decorators, the `home` endpoint, HTTP status codes, and the forecast horizon's default of 1 from the query string. These are routing and response plumbing. The failures are modelled as `Err(NotFound)` and `Err(InvalidYears)`. The message text sent with each failure is not modelled.
- Schema validation and `.dict()` conversion of request bodies. These are library calls. A record is a plain datatype, and a date is any `(year, month, day)` triple: the validation layer, which is not modelled, rejects impossible calendar dates before they reach the store.
- The clock read for the current year. It is the parameter `currentYear`.
- Forecasting.Forecast: the yearly figure `round(base * 1.05 ** i, 1)` is floating-point arithmetic with rounding. It is the parameter `project(base, i)`, so the model does not state the 5% growth or the rounding to one decimal.
- Floating-point demand values are `real`. The store only copies them, so nothing depends on the difference.
- Aliasing: the handlers return the stored dictionary object itself, and patching mutates it in place. The framework serialises the response at once, so no caller observes the shared object. The model copies records as values.
- Concurrency: the handlers share the table and counter without synchronisation. The model treats each request as one atomic step.

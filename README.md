# BeeHive sensor pipeline — Dafny model

This project models the sensor-reading pipeline of the BeeHive monitor's `app.py`:

- **Ingestion.** The MQTT handler splits a topic such as `beehive/data/<mac>/<measurement>` on `/`. It silently drops topics with fewer than four segments. Otherwise it takes segment 2 as the MAC address and segment 3 as the measurement name. It parses the payload as a number, and a payload that does not parse is stored as NULL. Each kept message appends exactly one row.
- **The store.** `sensor_data` is an append-only table. Each row has an auto-increment `id`, `mac_address`, `measurement`, a nullable `value` and a store-assigned `timestamp`. It is modelled as a `Store` object holding a sequence of rows and the next id.
- **The queries.** The device list (`SELECT DISTINCT mac_address ... ORDER BY`), the measurement list of one device, and the history of one series. The history query selects the newest 50 rows by `id`, reverses them in place so the oldest comes first, and returns two aligned lists of timestamps and values.

Modules, one per concern:

| file | module | contents |
|---|---|---|
| wrappers.dfy | `Wrappers` | `Option` (SQL NULL, dropped topics) |
| topics.dfy | `Topics` | Python `str.split` on topics, its inverse `Join`, the four-segment guard |
| collation.dfy | `Collation` | SQLite's BINARY text order, `SELECT DISTINCT ... ORDER BY` as a strictly sorted listing |
| table.dfy | `Table` | the `Row` datatype and the `Store` class with `Insert` |
| ingestor.dfy | `Ingestor` | the message handler: `Decode` (pure) and `OnMessage` (appends to the store) |
| queries.dfy | `Queries` | `Devices`, `Measurements`, the history selection and the in-place reversal |
| scenarios.dfy | `Scenarios` | client methods that derive concrete outcomes from the contracts |

Modelling choices:

- The numeric type is a type parameter `V`. Python's `float(payload)` is the caller's function `parse: string -> Option<V>`, and its `None` stands for the `ValueError` the handler catches.
- `CURRENT_TIMESTAMP` is the wall clock, so the timestamp is an opaque string passed to `Insert`.
- SQLite's default text collation compares UTF-8 bytes. That order equals code-point order, which is Dafny's `char` order. `Collation.Below` is that lexicographic order, and it is proved a strict total order.
- AUTOINCREMENT on a table without deletes hands out 1, 2, 3, …. The store keeps that counter in `nextId`.
- `ORDER BY id DESC LIMIT 50` is modelled as the series reversed and cut at 50 (`NewestFirst`). `NewestFirstIsTopById` proves that this is the SQL selection whenever ids increase in storage order, which `Store.Valid` guarantees.
- app.py's history query takes no time window, and no handler in app.py returns a feed of recent readings; neither is modelled.

## Model

| member | source | states |
|---|---|---|
| `Topics.Split` | app.py:36 | `topic.split("/")` has at least one segment and no segment contains the separator |
| `Topics.SplitLength` | app.py:36-37 | the number of segments is the number of separators plus one |
| `Topics.JoinSplit` | app.py:36 | joining the segments with `/` gives back the topic |
| `Topics.SplitJoin` | app.py:36 | splitting a join of separator-free levels gives back the levels |
| `Topics.ParseTopic` | app.py:36-40 | the guard and field choice; the extracted MAC and measurement never contain `/`; `ParseTopicDrops` and `ParseTopicOfLevels` state when it drops a topic and which segments it takes |
| `Topics.ParseTopicDrops` | app.py:36-38 | a topic is dropped if and only if it has fewer than three `/` |
| `Topics.ParseTopicOfLevels` | app.py:36-40 | for a topic of four or more levels, the MAC is level 2 and the measurement level 3; later levels are ignored |
| `Collation.Below` | app.py:67 | SQLite's BINARY text order (code-point lexicographic, a proper prefix first), used by both `ORDER BY` clauses; the three lemmas below prove it a strict total order |
| `Collation.BelowIrreflexive` | app.py:67 | no string sorts before itself |
| `Collation.BelowTransitive` | app.py:67 | the text order is transitive |
| `Collation.BelowTotal` | app.py:67 | any two distinct strings are ordered one way or the other |
| `Collation.StrictlySortedDistinct` | app.py:83 | a strictly ascending listing has no duplicates |
| `Collation.InsertSorted` | app.py:67 | adding one value to a strictly ascending listing keeps it strictly ascending, with the value added to its elements |
| `Collation.SortedDistinct` | app.py:67 | `SELECT DISTINCT ... ORDER BY` gives a strictly ascending sequence of exactly the column's values |
| `Collation.SortedUnique` | app.py:67 | two strictly ascending sequences with the same elements are equal, so the listing is determined by the set |
| `Table.Row` | app.py:14-19 | one `sensor_data` row: id, MAC address, measurement, nullable value, timestamp |
| `Table.Store.Valid` | app.py:15 | the AUTOINCREMENT invariant: ids strictly increase in storage order, all below the next id, which is at least 1 |
| `Table.Store.constructor` | app.py:13-20 | the table as first created on a fresh database: empty and valid, with the first id 1 |
| `Table.Store.Insert` | app.py:25-33 | appends exactly one row whose id exceeds every stored id; earlier rows are unchanged and in order; ids stay strictly increasing |
| `Ingestor.Decode` | app.py:36-46 | no reading if and only if the topic has fewer than three `/`; otherwise the value is the parse outcome as is, NULL included |
| `Ingestor.DecodeLevels` | app.py:36-46 | a four-or-more-level topic yields level 2 as MAC, level 3 as measurement and the parsed payload |
| `Ingestor.OnMessage` | app.py:35-48 | a dropped topic leaves the store unchanged; any other message appends exactly one row with the decoded fields at the next id and advances the id counter by one |
| `Queries.MacColumn` | app.py:67 | the `mac_address` column holds exactly the MACs that have a row |
| `Queries.MeasurementColumn` | app.py:82-87 | the filtered `measurement` column holds exactly the measurements reported by that MAC |
| `Queries.Devices` | app.py:61-73 | strictly ascending, no duplicates, exactly the MACs present; empty for an empty table |
| `Queries.Measurements` | app.py:76-92 | strictly ascending, no duplicates, exactly the measurements of that MAC; empty for an unknown MAC |
| `Queries.DevicesDetermined` | app.py:67-72 | the device list depends only on the set of MACs present, not on row order or repetition |
| `Queries.MeasurementsDetermined` | app.py:82-91 | the measurement list depends only on the set of measurements of that MAC |
| `Queries.DevicesAfterAppend` | app.py:67-72 | after appending a row, the device list holds the old devices plus the row's MAC and nothing else |
| `Queries.Series` | app.py:105 | the rows of one series, never more than the table, each matching MAC and measurement |
| `Queries.SeriesIdsIncreasing` | app.py:105-106 | the series is drawn from the table and keeps the ids strictly increasing |
| `Queries.SeriesComplete` | app.py:105 | every row matching MAC and measurement is in the series |
| `Queries.SeriesAfterAppend` | app.py:105 | an appended row extends its own series and leaves every other series unchanged |
| `Queries.Reversed` | app.py:113 | reversal keeps the length |
| `Queries.ReversedAt` | app.py:113 | element k of the reversal is element n-1-k of the input |
| `Queries.NewestFirst` | app.py:102-109 | the selection has min(50, n) rows for an n-row series |
| `Queries.NewestFirstIsTopById` | app.py:106-107 | the selection is strictly id-descending, starts at the newest row, and every row left out is older than every row kept |
| `Queries.Chronological` | app.py:106-113 | the reversed selection is the contiguous suffix of the last min(50, n) rows of the series, in insertion order |
| `Queries.ChronologicalAfterAppend` | app.py:102-113 | a new row of the series becomes the last history entry after the newest older entries; a row of another series changes nothing |
| `Queries.ReverseRows` | app.py:113 | the in-place reversal leaves the array holding the reverse of its old contents |
| `Queries.History` | app.py:95-117 | two equal-length lists of at most 50 entries: the timestamps and values of the last min(50, n) rows of the series, oldest first, with NULL passed through |

## Left out

- Flask setup, routing, `jsonify` and static file serving are HTTP transport only.
- The MQTT client (broker connection, the `beehive/data/+/+` subscription, `loop_forever`) is network I/O. The handler is modelled for any topic string, not only topics matching that subscription.
- Threading and the concurrency between the ingestion loop and the HTTP handlers are not modelled. The store is a single sequential object.
- SQLite connections and commits are not modelled. The table is an in-memory sequence, and a failing database write is not modelled.
- `Table.Store.constructor` models `init_db` on a fresh database only. A restart over an existing `beehive.db` is not modelled: there `CREATE TABLE IF NOT EXISTS` keeps the stored rows and AUTOINCREMENT resumes from the stored sequence.
- `Ingestor.OnMessage`: the UTF-8 decoding of the payload is not modelled; the payload arrives as text. In the source a decode failure is raised before the `try`, so such a message inserts nothing.
- Float parsing is left to the `parse` parameter. The model does not reason about float values, nor about how the database stores special values such as NaN.
- `Table.Store.Insert`: the 2^63-1 limit of SQLite ids is not modelled; ids are unbounded.
- The value of `CURRENT_TIMESTAMP` is the wall clock. Timestamps are opaque parameters, so the model proves no ordering of timestamps, only of ids.

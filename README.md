# Shared word-count registry: a verified Dafny model

The application keeps one process-wide frequency table, `HashMap<String, u32>`,
behind an `Arc<Mutex<...>>` (src-tauri/src/main.rs:21, created empty at :88).
Four commands work on it:

- `push_to_hash_map` increments one word and returns a copy of the table;
- `create_threads` starts background producers, each of which, once a second,
  draws a number in 1..=10 and increments the key `"Number n"`;
- `get_hash_map_state` returns a copy of the table;
- `save_hash_map_to_csv` writes one `key,count` record per entry to a file and
  reports either `"Data saved to <path>"` or one of the three `MyError` variants.

Every increment, snapshot and export body runs while it holds the mutex, so
this model treats each such body as one atomic step. The table is the field `counts` of the class
`Registry.CounterRegistry`. Any interleaving of callers is then a sequence of
method calls, and `Counts.Replay` is that sequence as a value.

Modules, one file each:

- `Wrappers` (wrappers.dfy) holds `Option`.
- `Decimal` (decimal.dfy) holds `Text`, the decimal rendering used by
  `u32::to_string` and `format!`, and `Parse`, the reading direction it is
  proved against.
- `Counts` (counts.dfy) holds the table as a value: `Bump` is
  `*entry(k).or_insert(0) += 1`. It also has `Replay`, and `Total`, the sum of
  all counts.
- `Generator` (generator.dfy) holds the producer's key `Label(n) = "Number n"`,
  the ten-label universe, and the sum of the ten label counts.
- `Export` (export.dfy) holds `MyError` and the outcome of each library or I/O
  step as an input (`Environment`). It has `Classify`, the result rule, whose
  contract is an independent "first failing step" reading. It also has the records
  and `Decode`, a reader for them.
- `Registry` (registry.dfy) holds the class with `Push`, `Tick`, `Snapshot`
  and `SaveToCsv`, the record loop `WriteRecords`, and the statement that no
  update is lost.

Two behaviours of the code that the model keeps:

- In the export, a poisoned lock becomes the recoverable `IoError`
  (src-tauri/src/main.rs:59-61); the model carries that outcome as
  `Environment.lock`. By contrast, `push_to_hash_map`, `get_hash_map_state`
  and a producer's tick call `.expect`, which panics on a poisoned lock
  (src-tauri/src/main.rs:25, 43, 53). The model does not represent that panic
  path (see "Left out").
- The export holds the lock until it returns, file write included. It is one
  atomic step, not "snapshot, then write".

## Model

| member | source | states |
|---|---|---|
| Registry.CounterRegistry.constructor | src-tauri/src/main.rs:88 | the registry starts as the empty table, which satisfies the every-count-at-least-1 invariant |
| Registry.CounterRegistry.Push | src-tauri/src/main.rs:24-29 | the table becomes `Bump(old table, word)` and the count invariant is kept; the returned map equals the table right after this call's own update |
| Registry.CounterRegistry.Tick | src-tauri/src/main.rs:40-44 | for a draw 1..=10 the table becomes `Bump(old, "Number n")`; that key is in the ten-label universe; the sum of all counts and the sum of the ten label counts each rise by exactly 1 |
| Registry.CounterRegistry.Snapshot | src-tauri/src/main.rs:52-55 | returns a copy equal to the current table, all of whose counts are at least 1; nothing is modified |
| Registry.CounterRegistry.SaveToCsv | src-tauri/src/main.rs:58-84 | the result is exactly `Classify` of the step outcomes; the file write is reached exactly when every earlier step succeeds, and what it is given is an export of the table |
| Registry.WriteRecords | src-tauri/src/main.rs:63-68 | the loop stops at the first failing `write_record` and reports its message; otherwise it yields one faithful `[key, decimal count]` record per entry, keys distinct, as many records as entries |
| Registry.NoLostUpdates | src-tauri/src/main.rs:25-26 | for any sequence of pushes and ticks, every key's final count is its old count plus the number of calls that named it; the sum of counts grows by the number of calls |
| Registry.Run | src-tauri/src/main.rs:25-44 | a registry driven by any sequence of pushes and ticks, each atomic under the mutex, ends in the replayed table and keeps its invariant |
| Counts.Bump | src-tauri/src/main.rs:26 | a missing key enters with count 1; a present key rises by exactly 1; every other key keeps its count; the key set grows by at most that key |
| Counts.ReplayCounts | src-tauri/src/main.rs:26 | after any run of increments each key's count is its old count plus its number of occurrences in the run; the key set grows by exactly the keys named |
| Counts.ReplayNeverDecreases | src-tauri/src/main.rs:44 | increments never remove a key or lower a count |
| Counts.ReplayKeepsPositive | src-tauri/src/main.rs:26 | increments keep every present count at least 1 |
| Counts.RepeatedIncrement | src-tauri/src/main.rs:26 | `n` increments of one key add exactly `n` to it and leave every other entry alone |
| Counts.FromEmpty | src-tauri/src/main.rs:25-28 | `n >= 1` increments of one key on the empty table give the table `{key: n}` |
| Counts.BumpTotal | src-tauri/src/main.rs:26 | every increment raises the sum of all counts by exactly 1 |
| Counts.ReplayTotal | src-tauri/src/main.rs:44 | a run of increments raises the sum of all counts by its length |
| Decimal.Text | src-tauri/src/main.rs:65 | the rendering of a count is a non-empty digit string without a leading zero |
| Decimal.ParseText | src-tauri/src/main.rs:65 | reading the rendering of a count gives that count back |
| Decimal.TextInjective | src-tauri/src/main.rs:65 | distinct counts render as distinct text |
| Generator.Label | src-tauri/src/main.rs:42 | the key `format!("Number {}", n)`; its contract is given by `LabelRoundTrip` (the key names its draw) and `LabelInjective` (distinct draws, distinct keys) |
| Generator.LabelRoundTrip | src-tauri/src/main.rs:42 | the key `"Number n"` names the number it was built from |
| Generator.LabelInjective | src-tauri/src/main.rs:42 | different draws give different keys |
| Generator.UniverseIsTheTenLabels | src-tauri/src/main.rs:41-42 | the keys a producer can touch are exactly "Number 1" to "Number 10" |
| Generator.UniverseSize | src-tauri/src/main.rs:41-42 | those are ten distinct keys, one per possible draw |
| Generator.BumpLabelSum | src-tauri/src/main.rs:44 | an increment raises the ten-label sum by 1 exactly when its key is one of the ten labels, and leaves it unchanged otherwise |
| Registry.EventsRaiseLabelSum | src-tauri/src/main.rs:26-44 | over any interleaving of pushes and ticks the ten label counts grow by at least the number of ticks, since a push may also name a label |
| Generator.TicksRaiseLabelSum | src-tauri/src/main.rs:40-44 | after any run of draws in 1..=10 the ten-label sum has grown by exactly the number of ticks |
| Export.Describe | src-tauri/src/main.rs:12-19 | the `Display` text: the variant's prefix followed by its message; its contract is `DescribeInjective` |
| Export.DescribeInjective | src-tauri/src/main.rs:10-20 | the `Display` text of an error (not the serialized form the command returns) determines its variant and its message |
| Export.Classify | src-tauri/src/main.rs:59-83 | checked against an independent program-order list of the steps, the result is the error of the first failing step in program order: lock gives IoError; record, flush and `into_inner` give CsvError; UTF-8 gives Utf8Error; file write gives IoError; no failure gives `Ok("Data saved to " + path)` |
| Export.ClassifyOkIff | src-tauri/src/main.rs:59-83 | the export succeeds if and only if every step succeeds, and then returns "Data saved to " + path |
| Export.SavedMessage | src-tauri/src/main.rs:83 | the success text `format!("Data saved to {}", &file_path)`; `Classify` and `ClassifyOkIff` state when it is returned, namely exactly when every step succeeds |
| Export.RecordFor | src-tauri/src/main.rs:65 | the record `[key, &value.to_string()]` of one entry: its key is the entry's key, its count text reads back as the entry's count, and the record alone decodes to that entry; `ExportMembers` and `ExportRoundTrip` lift this to whole exports |
| Export.AppendRecord | src-tauri/src/main.rs:65 | appending the record of a key not yet written keeps the records faithful and adds exactly that key |
| Export.ExportSize | src-tauri/src/main.rs:63-68 | an export has exactly one record per table entry; an empty table gives zero records, and only an empty table does |
| Export.ExportRoundTrip | src-tauri/src/main.rs:63-68 | reading an export's records back gives exactly the table |
| Export.ExportMembers | src-tauri/src/main.rs:64-65 | a record is in an export exactly when it is `[key, decimal count]` for an entry of the table |
| Export.ExportsDifferOnlyInOrder | src-tauri/src/main.rs:64 | two exports of one table hold the same records, each once, and may differ only in order |

## Left out

- The host framework wiring is not modelled: `tauri::Builder`, `.manage`, `generate_handler!`, `State<...>` and the command attributes (src-tauri/src/main.rs:86-96).
- `create_threads` is not modelled (src-tauri/src/main.rs:32-49). It spawns `num_threads` tasks with `tokio::spawn`, each with a one-second `time::interval` and an endless loop, and always returns `Ok(())`. The model has only the body of one tick (`Tick`) and any interleaving of ticks (`Run`, `TicksRaiseLabelSum`). It does not model scheduling, timing or the number of live producers.
- The mutex is not modelled. Each lock-held body is one atomic call.
- `.expect` panics on a poisoned lock in push, tick and snapshot (src-tauri/src/main.rs:25, 43, 53). In a spawned producer this ends only that task. The model does not represent this path: those methods always run to completion. In the export, the lock outcome is the input `Environment.lock`.
- `rand::thread_rng().gen_range(1..=10)` is not modelled. The draw is the parameter of `Tick`, with precondition 1..=10.
- The `csv` crate's quoting, escaping, line terminators and byte layout are not modelled. The model stops at the sequence of `(key, count text)` records. In the model, what is handed to the file write (`payload` of `SaveToCsv`) is exactly those records.
- The outcomes of the lock, each `write_record`, `flush`, `into_inner`, `String::from_utf8` and `std::fs::write` are inputs, not computed. So are their error messages. A `write_record` outcome is indexed by position in the loop.
- `HashMap` iteration order is not modelled. The record loop takes keys in an unspecified order, and the export properties hold up to order (`ExportsDifferOnlyInOrder`).
- Registry.CounterRegistry.Push: counts are unbounded naturals. It does not model `u32` overflow of `+= 1` at 4294967295, which panics in debug builds and wraps in release builds.
- Registry.CounterRegistry.Tick: counts are unbounded naturals. It does not model `u32` overflow, for the same reason as `Push`.

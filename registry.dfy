/**
 * The shared registry `StringTauriState(Arc<Mutex<HashMap<String, u32>>>)`
 * (src-tauri/src/main.rs:21) and the operations that work on it. Each
 * increment, snapshot and export body runs while it holds the mutex, so each
 * is one atomic method call here; a run of calls from any mix of callers is a
 * sequence of such calls.
 */
module Registry {
  import opened Wrappers
  import Decimal
  import opened Counts
  import opened Generator
  import opened Export

  class CounterRegistry {
    var counts: Table

    /** Every key present has count at least 1. */
    ghost predicate Valid()
      reads this
    {
      AllPositive(counts)
    }

    /** The registry starts empty (src-tauri/src/main.rs:88). */
    constructor ()
      ensures Valid() && counts == map[]
    {
      counts := map[];
    }

    /**
     * `push_to_hash_map`: increments `word` and returns a copy of the whole
     * table as it stands right after this update.
     */
    method Push(word: string) returns (snapshot: Table)
      requires Valid()
      modifies this
      ensures Valid()
      ensures counts == Bump(old(counts), word)
      ensures snapshot == counts
    {
      var current := if word in counts then counts[word] else 0;
      counts := counts[word := current + 1];
      snapshot := counts;
    }

    /**
     * One tick of a background producer, given its draw `n` in 1..=10:
     * increments the label `"Number n"`, one of the ten labels.
     */
    method Tick(n: nat)
      requires Valid()
      requires 1 <= n <= 10
      modifies this
      ensures Valid()
      ensures counts == Bump(old(counts), Label(n)) && Label(n) in Universe
      ensures Total(counts) == Total(old(counts)) + 1
      ensures LabelSum(counts) == LabelSum(old(counts)) + 1
    {
      var key := Label(n);
      BumpTotal(counts, key);
      BumpLabelSum(counts, key);
      var current := if key in counts then counts[key] else 0;
      counts := counts[key := current + 1];
    }

    /** `get_hash_map_state`: a copy of the table; nothing changes. */
    method Snapshot() returns (snapshot: Table)
      requires Valid()
      ensures snapshot == counts && AllPositive(snapshot)
    {
      snapshot := counts;
    }

    /**
     * `save_hash_map_to_csv`: builds one record per entry, in whatever order
     * the table yields its keys, then flushes, converts and writes the file.
     * `payload` is what is handed to the file write, when that step is reached.
     */
    method SaveToCsv(path: string, env: Environment) returns (r: Result<string>, payload: Option<seq<Record>>)
      ensures r == Classify(env, |counts|, path)
      ensures payload.Some? <==> ReachesFileWrite(env, |counts|)
      ensures payload.Some? ==> IsExportOf(payload.value, counts)
    {
      if env.lock.Failed? {
        return Err(IoError(env.lock.message)), None;
      }
      var failure, buffer := WriteRecords(counts, env);
      if failure.Some? {
        return Err(CsvError(failure.value)), None;
      }
      if env.flush.Failed? {
        return Err(CsvError(env.flush.message)), None;
      }
      if env.intoInner.Failed? {
        return Err(CsvError(env.intoInner.message)), None;
      }
      if env.utf8.Failed? {
        return Err(Utf8Error(env.utf8.message)), None;
      }
      payload := Some(buffer);
      if env.fileWrite.Failed? {
        return Err(IoError(env.fileWrite.message)), payload;
      }
      r := Ok(SavedMessage(path));
    }
  }

  /**
   * The record loop of `save_hash_map_to_csv` (src-tauri/src/main.rs:63-68):
   * one `[key, count]` record per entry, keys taken in an unspecified order;
   * the first failing `write_record` stops the loop.
   */
  method WriteRecords(table: Table, env: Environment) returns (failure: Option<string>, buffer: seq<Record>)
    ensures failure == FirstWriteFailure(env, 0, |table|)
    ensures Faithful(buffer, table)
    ensures failure.None? ==> IsExportOf(buffer, table) && |buffer| == |table|
  {
    buffer := [];
    var remaining := table.Keys;
    var i := 0;
    while remaining != {}
      invariant remaining <= table.Keys
      invariant i == |buffer| && |buffer| + |remaining| == |table|
      invariant Faithful(buffer, table)
      invariant KeysOf(buffer) == table.Keys - remaining
      invariant FirstWriteFailure(env, 0, |table|) == FirstWriteFailure(env, i, |table|)
      decreases remaining
    {
      var key :| key in remaining;
      var outcome := WriteOutcome(env, i);
      if outcome.Failed? {
        return Some(outcome.message), buffer;
      }
      AppendRecord(buffer, table, key);
      buffer := buffer + [Record(key, Decimal.Text(table[key]))];
      remaining := remaining - {key};
      i := i + 1;
    }
    failure := None;
  }

  /** A command that increments: a manual push or a producer's tick with its draw. */
  datatype Event = PushWord(word: string) | TickDraw(n: nat)

  function KeyOf(e: Event): string {
    match e
    case PushWord(w) => w
    case TickDraw(n) => Label(n)
  }

  function KeysOfEvents(events: seq<Event>): (ks: seq<string>)
    ensures |ks| == |events| && forall i :: 0 <= i < |events| ==> ks[i] == KeyOf(events[i])
  {
    seq(|events|, i requires 0 <= i < |events| => KeyOf(events[i]))
  }

  /**
   * Whatever order the mutex lets calls through, every increment is kept:
   * each key's final count is its count before plus the number of calls that
   * named it, and the sum of all counts grows by the number of calls.
   */
  lemma NoLostUpdates(m: Table, events: seq<Event>)
    ensures forall k :: Count(Replay(m, KeysOfEvents(events)), k) == Count(m, k) + multiset(KeysOfEvents(events))[k]
    ensures Total(Replay(m, KeysOfEvents(events))) == Total(m) + |events|
  {
    ReplayCounts(m, KeysOfEvents(events));
    ReplayTotal(m, KeysOfEvents(events));
  }

  /** The number of producer ticks in a run of commands. */
  function TickCount(events: seq<Event>): nat
    decreases |events|
  {
    if events == [] then 0 else (if events[0].TickDraw? then 1 else 0) + TickCount(events[1..])
  }

  /**
   * Manual pushes may also name "Number n", so over any interleaving of pushes
   * and ticks the ten label counts grow by at least the number of ticks.
   */
  lemma {:induction false} EventsRaiseLabelSum(m: Table, events: seq<Event>)
    requires forall i :: 0 <= i < |events| ==> events[i].TickDraw? ==> 1 <= events[i].n <= 10
    ensures LabelSum(Replay(m, KeysOfEvents(events))) >= LabelSum(m) + TickCount(events)
    decreases |events|
  {
    if events != [] {
      var ks := KeysOfEvents(events);
      assert ks[1..] == KeysOfEvents(events[1..]);
      BumpLabelSum(m, ks[0]);
      if events[0].TickDraw? {
        assert ks[0] == Label(events[0].n) && ks[0] in Universe;
      }
      EventsRaiseLabelSum(Bump(m, ks[0]), events[1..]);
    }
  }

  /** A registry driven by any sequence of pushes and ticks ends in the replayed table. */
  method Run(reg: CounterRegistry, events: seq<Event>)
    requires reg.Valid()
    requires forall i :: 0 <= i < |events| ==> events[i].TickDraw? ==> 1 <= events[i].n <= 10
    modifies reg
    ensures reg.Valid()
    ensures reg.counts == Replay(old(reg.counts), KeysOfEvents(events))
  {
    ghost var ks := KeysOfEvents(events);
    ghost var start := reg.counts;
    var j := 0;
    while j < |events|
      invariant 0 <= j <= |events|
      invariant reg.Valid()
      invariant Replay(reg.counts, ks[j..]) == Replay(start, ks)
    {
      ghost var before := reg.counts;
      match events[j] {
        case PushWord(w) =>
          var _ := reg.Push(w);
        case TickDraw(n) =>
          reg.Tick(n);
      }
      ReplayStep(before, ks, j);
      j := j + 1;
    }
  }

  lemma ReplayStep(m: Table, ks: seq<string>, j: nat)
    requires j < |ks|
    ensures Replay(m, ks[j..]) == Replay(Bump(m, ks[j]), ks[j + 1..])
  {
    assert ks[j..][0] == ks[j] && ks[j..][1..] == ks[j + 1..];
  }
}

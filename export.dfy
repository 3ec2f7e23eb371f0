/**
 * The export command `save_hash_map_to_csv` (src-tauri/src/main.rs:58-84):
 * which error a failing step produces, the success message, and the records
 * written for a table. The outcome of every library or I/O step (taking the
 * lock, each `write_record`, `flush`, `into_inner`, `String::from_utf8`,
 * `std::fs::write`) is an input, carried by `Environment`.
 */
module Export {
  import opened Wrappers
  import Decimal
  import opened Counts

  /** `MyError` (src-tauri/src/main.rs:10-20); each variant carries the library's message. */
  datatype MyError = IoError(message: string) | CsvError(message: string) | Utf8Error(message: string)

  datatype Result<T> = Ok(value: T) | Err(error: MyError)

  /** The leading words of each variant's `#[error(...)]` text. */
  function Tag(e: MyError): string {
    match e
    case IoError(_) => "IO Error: "
    case CsvError(_) => "CSV Error: "
    case Utf8Error(_) => "UTF-8 Conversion Error: "
  }

  /**
   * The `Display` text given by the `#[error(...)]` attributes. The command
   * itself hands its caller the `serde::Serialize` form (variant and message),
   * which is `MyError` as it stands; this text is what printing the error shows.
   */
  function Describe(e: MyError): string {
    Tag(e) + e.message
  }

  /** The text of an error identifies both its kind and its message. */
  lemma DescribeInjective(e1: MyError, e2: MyError)
    ensures Describe(e1) == Describe(e2) ==> e1 == e2
  {
    if Describe(e1) == Describe(e2) {
      assert Tag(e1)[0] == Describe(e1)[0] == Describe(e2)[0] == Tag(e2)[0];
      assert Tag(e1) == Tag(e2);
      assert Describe(e1)[|Tag(e1)|..] == e1.message;
      assert Describe(e2)[|Tag(e2)|..] == e2.message;
    }
  }

  /** How one library or I/O step ended. */
  datatype Step = Done | Failed(message: string)

  /**
   * The answers of the outside world for one export. `writes[i]` is the
   * outcome of the i-th `write_record`; positions past its end succeed.
   */
  datatype Environment = Environment(
    lock: Step, writes: seq<Step>, flush: Step, intoInner: Step, utf8: Step, fileWrite: Step)

  function WriteOutcome(env: Environment, i: nat): Step {
    if i < |env.writes| then env.writes[i] else Done
  }

  /** The message of the first failing record write among positions from..n-1. */
  function FirstWriteFailure(env: Environment, from: nat, n: nat): Option<string>
    decreases n - from
  {
    if from >= n then None
    else if WriteOutcome(env, from).Failed? then Some(WriteOutcome(env, from).message)
    else FirstWriteFailure(env, from + 1, n)
  }

  const SavedPrefix: string := "Data saved to "

  /** The success text `format!("Data saved to {}", &file_path)`. */
  function SavedMessage(path: string): string {
    SavedPrefix + path
  }

  /** Whether the export gets as far as writing the file, for a table of `n` entries. */
  predicate ReachesFileWrite(env: Environment, n: nat) {
    env.lock.Done? && FirstWriteFailure(env, 0, n) == None
    && env.flush.Done? && env.intoInner.Done? && env.utf8.Done?
  }

  /**
   * The result of an export of a table of `n` entries to `path`. First failure
   * wins: the export fails with the variant of the first step, in program
   * order, that fails, and succeeds with the saved message when none fails.
   */
  function Classify(env: Environment, n: nat, path: string): (r: Result<string>)
    ensures r == match FirstError(Stages(env, n))
                 case None => Ok(SavedMessage(path))
                 case Some(e) => Err(e)
  {
    StagesFirstError(env, n);
    if env.lock.Failed? then Err(IoError(env.lock.message))
    else if FirstWriteFailure(env, 0, n).Some? then Err(CsvError(FirstWriteFailure(env, 0, n).value))
    else if env.flush.Failed? then Err(CsvError(env.flush.message))
    else if env.intoInner.Failed? then Err(CsvError(env.intoInner.message))
    else if env.utf8.Failed? then Err(Utf8Error(env.utf8.message))
    else if env.fileWrite.Failed? then Err(IoError(env.fileWrite.message))
    else Ok(SavedMessage(path))
  }

  // An independent reading of the same rule: list the steps in program order,
  // each with the variant its failure maps to, and take the first failure.

  datatype Kind = IoKind | CsvKind | Utf8Kind

  function Raise(kind: Kind, message: string): MyError {
    match kind
    case IoKind => IoError(message)
    case CsvKind => CsvError(message)
    case Utf8Kind => Utf8Error(message)
  }

  function WriteStages(env: Environment, from: nat, n: nat): seq<(Step, Kind)>
    decreases n - from
  {
    if from >= n then [] else [(WriteOutcome(env, from), CsvKind)] + WriteStages(env, from + 1, n)
  }

  /** The steps of an export of `n` records, in the order the code runs them. */
  function Stages(env: Environment, n: nat): seq<(Step, Kind)> {
    [(env.lock, IoKind)]
    + WriteStages(env, 0, n)
    + [(env.flush, CsvKind), (env.intoInner, CsvKind), (env.utf8, Utf8Kind), (env.fileWrite, IoKind)]
  }

  function FirstError(stages: seq<(Step, Kind)>): Option<MyError> {
    if stages == [] then None
    else if stages[0].0.Failed? then Some(Raise(stages[0].1, stages[0].0.message))
    else FirstError(stages[1..])
  }

  lemma {:induction false} FirstErrorAppend(a: seq<(Step, Kind)>, b: seq<(Step, Kind)>)
    ensures FirstError(a + b) == if FirstError(a).Some? then FirstError(a) else FirstError(b)
  {
    if a != [] {
      assert (a + b)[1..] == a[1..] + b;
      FirstErrorAppend(a[1..], b);
    } else {
      assert a + b == b;
    }
  }

  lemma {:induction false} WriteStagesFirstError(env: Environment, from: nat, n: nat)
    ensures FirstError(WriteStages(env, from, n)) ==
            match FirstWriteFailure(env, from, n)
            case None => None
            case Some(msg) => Some(CsvError(msg))
    decreases n - from
  {
    if from < n {
      WriteStagesFirstError(env, from + 1, n);
      assert WriteStages(env, from, n)[1..] == WriteStages(env, from + 1, n);
    }
  }

  /** The first failing stage, spelled out step by step in program order. */
  lemma StagesFirstError(env: Environment, n: nat)
    ensures FirstError(Stages(env, n)) ==
            if env.lock.Failed? then Some(IoError(env.lock.message))
            else if FirstWriteFailure(env, 0, n).Some? then Some(CsvError(FirstWriteFailure(env, 0, n).value))
            else if env.flush.Failed? then Some(CsvError(env.flush.message))
            else if env.intoInner.Failed? then Some(CsvError(env.intoInner.message))
            else if env.utf8.Failed? then Some(Utf8Error(env.utf8.message))
            else if env.fileWrite.Failed? then Some(IoError(env.fileWrite.message))
            else None
  {
    var head := [(env.lock, IoKind)];
    var writes := WriteStages(env, 0, n);
    var tail := [(env.flush, CsvKind), (env.intoInner, CsvKind), (env.utf8, Utf8Kind), (env.fileWrite, IoKind)];
    assert Stages(env, n) == head + writes + tail;
    FirstErrorAppend(head + writes, tail);
    FirstErrorAppend(head, writes);
    WriteStagesFirstError(env, 0, n);
    assert FirstError(head) == if env.lock.Failed? then Some(IoError(env.lock.message)) else None by {
      assert head[1..] == [];
    }
    assert FirstError(tail) ==
           if env.flush.Failed? then Some(CsvError(env.flush.message))
           else if env.intoInner.Failed? then Some(CsvError(env.intoInner.message))
           else if env.utf8.Failed? then Some(Utf8Error(env.utf8.message))
           else if env.fileWrite.Failed? then Some(IoError(env.fileWrite.message))
           else None
    by {
      var t3 := [(env.fileWrite, IoKind)];
      var t2 := [(env.utf8, Utf8Kind)] + t3;
      var t1 := [(env.intoInner, CsvKind)] + t2;
      assert t3[1..] == [];
      assert FirstError(t3) == if env.fileWrite.Failed? then Some(IoError(env.fileWrite.message)) else None;
      assert t2[1..] == t3;
      assert FirstError(t2) == if env.utf8.Failed? then Some(Utf8Error(env.utf8.message)) else FirstError(t3);
      assert t1[1..] == t2;
      assert FirstError(t1) == if env.intoInner.Failed? then Some(CsvError(env.intoInner.message)) else FirstError(t2);
      assert tail == [(env.flush, CsvKind)] + t1 && tail[1..] == t1;
    }
  }

  lemma {:induction false} NoWriteFailure(env: Environment, from: nat, n: nat)
    ensures FirstWriteFailure(env, from, n) == None <==>
            forall i :: from <= i < n ==> WriteOutcome(env, i).Done?
    decreases n - from
  {
    if from < n {
      NoWriteFailure(env, from + 1, n);
    }
  }

  /** An export of `n` records succeeds exactly when every one of its steps does. */
  lemma ClassifyOkIff(env: Environment, n: nat, path: string)
    ensures Classify(env, n, path).Ok? <==>
            env.lock.Done? && (forall i :: 0 <= i < n ==> WriteOutcome(env, i).Done?)
            && env.flush.Done? && env.intoInner.Done? && env.utf8.Done? && env.fileWrite.Done?
    ensures Classify(env, n, path).Ok? ==> Classify(env, n, path).value == SavedMessage(path)
  {
    NoWriteFailure(env, 0, n);
  }

  // The records: one `[key, count-as-text]` per table entry.

  datatype Record = Record(key: string, count: string)

  /** The record `[key, &value.to_string()]` of one entry; read back, it gives that entry. */
  function RecordFor(m: Table, k: string): (r: Record)
    requires k in m
    ensures r.key == k && Decimal.Parse(r.count) == Some(m[k])
    ensures Decode([r]) == Some(map[k := m[k]])
  {
    Decimal.ParseText(m[k]);
    assert [Record(k, Decimal.Text(m[k]))][..0] == [];
    Record(k, Decimal.Text(m[k]))
  }

  function KeysOf(rs: seq<Record>): set<string> {
    set i | 0 <= i < |rs| :: rs[i].key
  }

  predicate DistinctKeys(rs: seq<Record>) {
    forall i, j :: 0 <= i < j < |rs| ==> rs[i].key != rs[j].key
  }

  /** Each record is the record of its key's entry, and no key appears twice. */
  predicate Faithful(rs: seq<Record>, m: Table) {
    DistinctKeys(rs) && forall i :: 0 <= i < |rs| ==> rs[i].key in m && rs[i] == RecordFor(m, rs[i].key)
  }

  /** `rs` is an export of `m`: faithful records covering every key, in some order. */
  predicate IsExportOf(rs: seq<Record>, m: Table) {
    Faithful(rs, m) && KeysOf(rs) == m.Keys
  }

  /** Appending the record of a key not yet written keeps the records faithful. */
  lemma AppendRecord(rs: seq<Record>, m: Table, k: string)
    requires Faithful(rs, m) && k in m && k !in KeysOf(rs)
    ensures Faithful(rs + [RecordFor(m, k)], m)
    ensures KeysOf(rs + [RecordFor(m, k)]) == KeysOf(rs) + {k}
  {
    var b := rs + [RecordFor(m, k)];
    forall x ensures x in KeysOf(b) <==> x in KeysOf(rs) + {k} {
      if x in KeysOf(b) {
        var i :| 0 <= i < |b| && b[i].key == x;
        if i < |rs| { assert rs[i].key == x; }
      }
      if x in KeysOf(rs) {
        var i :| 0 <= i < |rs| && rs[i].key == x;
        assert b[i].key == x;
      }
      if x == k {
        assert b[|rs|].key == k;
      }
    }
  }

  lemma {:induction false} DistinctKeysCount(rs: seq<Record>)
    requires DistinctKeys(rs)
    ensures |KeysOf(rs)| == |rs|
    decreases |rs|
  {
    if rs != [] {
      var init := rs[..|rs| - 1];
      DistinctKeysCount(init);
      assert KeysOf(rs) == KeysOf(init) + {rs[|rs| - 1].key};
    }
  }

  /** An export holds exactly one record per table entry; an empty table gives none. */
  lemma ExportSize(rs: seq<Record>, m: Table)
    requires IsExportOf(rs, m)
    ensures |rs| == |m|
    ensures rs == [] <==> m == map[]
  {
    DistinctKeysCount(rs);
    assert |m.Keys| == |m|;
  }

  /**
   * Reads records back into a table, as a reader of the file would; a count
   * that is not decimal text or a repeated key is rejected.
   */
  function Decode(rs: seq<Record>): Option<Table>
    decreases |rs|
  {
    if rs == [] then Some(map[])
    else
      var last := rs[|rs| - 1];
      match (Decode(rs[..|rs| - 1]), Decimal.Parse(last.count))
      case (Some(t), Some(v)) => if last.key in t then None else Some(t[last.key := v])
      case _ => None
  }

  lemma {:induction false} DecodeFaithful(rs: seq<Record>, m: Table)
    requires Faithful(rs, m)
    ensures Decode(rs) == Some(map k | k in KeysOf(rs) :: m[k])
    decreases |rs|
  {
    if rs != [] {
      var init := rs[..|rs| - 1];
      var last := rs[|rs| - 1];
      DecodeFaithful(init, m);
      Decimal.ParseText(m[last.key]);
      assert Faithful(init, m);
      assert KeysOf(rs) == KeysOf(init) + {last.key};
      assert last.key !in KeysOf(init);
      var before := map k | k in KeysOf(init) :: m[k];
      assert before[last.key := m[last.key]] == map k | k in KeysOf(rs) :: m[k];
    } else {
      assert KeysOf(rs) == {};
    }
  }

  /** Reading an export back gives exactly the table it was made from. */
  lemma ExportRoundTrip(rs: seq<Record>, m: Table)
    requires IsExportOf(rs, m)
    ensures Decode(rs) == Some(m)
  {
    DecodeFaithful(rs, m);
    assert (map k | k in KeysOf(rs) :: m[k]) == m;
  }

  lemma {:induction false} DistinctMultiplicity(rs: seq<Record>, r: Record)
    requires DistinctKeys(rs)
    ensures multiset(rs)[r] == if r in rs then 1 else 0
    decreases |rs|
  {
    if rs != [] {
      var init := rs[..|rs| - 1];
      assert rs == init + [rs[|rs| - 1]];
      DistinctMultiplicity(init, r);
      if r == rs[|rs| - 1] {
        assert r !in init;
      }
    }
  }

  /** The records of an export are exactly the records of the table's entries. */
  lemma ExportMembers(rs: seq<Record>, m: Table, r: Record)
    requires IsExportOf(rs, m)
    ensures r in rs <==> r.key in m && r == RecordFor(m, r.key)
  {
    if r.key in m && r == RecordFor(m, r.key) {
      assert r.key in KeysOf(rs);
      var i :| 0 <= i < |rs| && rs[i].key == r.key;
      assert rs[i] == r;
    }
  }

  /**
   * The table fixes the records up to order: two exports of the same table
   * hold the same records, each once.
   */
  lemma ExportsDifferOnlyInOrder(a: seq<Record>, b: seq<Record>, m: Table)
    requires IsExportOf(a, m) && IsExportOf(b, m)
    ensures multiset(a) == multiset(b)
  {
    forall r ensures multiset(a)[r] == multiset(b)[r] {
      DistinctMultiplicity(a, r);
      DistinctMultiplicity(b, r);
      ExportMembers(a, m, r);
      ExportMembers(b, m, r);
    }
  }
}

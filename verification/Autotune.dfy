/** Benchmark records keyed by environment, backend, operation, data type and shape, and
    their projection into the routing table of one environment and shape. */
module Autotune {
  import opened Wrappers
  import opened Machine
  import opened Core

  datatype AutotuneError =
    | InvalidFingerprint(field: string)
    | InvalidShape
    | InvalidAlignment(alignment: u32)
    | ShapeOverflow
    | InvalidLatency(latency: Float)
    | ZeroSamples

  /** The code points with the Unicode property White_Space, which `trim` removes. */
  predicate IsWhitespace(c: char) {
    var point := c as int;
    || 0x09 <= point <= 0x0D || point == 0x20 || point == 0x85 || point == 0xA0 || point == 0x1680
    || 0x2000 <= point <= 0x200A || point == 0x2028 || point == 0x2029 || point == 0x202F || point == 0x205F
    || point == 0x3000
  }

  /** `value.trim().is_empty()` */
  predicate Blank(value: string) {
    forall c :: c in value ==> IsWhitespace(c)
  }

  datatype EnvironmentFingerprint = EnvironmentFingerprint(gpuArch: string, driverVersion: string,
                                                           runtimeVersion: string, pluginVersion: string)
  {
    function Validate(): Result<(), AutotuneError> {
      if Blank(gpuArch) then Err(InvalidFingerprint("gpu_arch"))
      else if Blank(driverVersion) then Err(InvalidFingerprint("driver_version"))
      else if Blank(runtimeVersion) then Err(InvalidFingerprint("runtime_version"))
      else if Blank(pluginVersion) then Err(InvalidFingerprint("plugin_version"))
      else Ok(())
    }
  }

  predicate IsPowerOfTwo(n: u32) {
    n == 1 || (n > 1 && n % 2 == 0 && IsPowerOfTwo(n / 2))
  }

  datatype WorkloadShape = WorkloadShape(dims: seq<u64>, alignment: u32)
  {
    function Validate(): Result<(), AutotuneError> {
      if dims == [] || 0 in dims then Err(InvalidShape)
      else if alignment == 0 || !IsPowerOfTwo(alignment) then Err(InvalidAlignment(alignment))
      else if CheckedProduct(dims).None? then Err(ShapeOverflow)
      else Ok(())
    }
  }

  datatype TuningKey = TuningKey(
    environment: EnvironmentFingerprint,
    backend: BackendId,
    operation: OperationKind,
    dataType: DataType,
    shape: WorkloadShape)
  {
    function Validate(): Result<(), AutotuneError> {
      var _ :- environment.Validate();
      shape.Validate()
    }

    predicate IsOf(environment: EnvironmentFingerprint, shape: WorkloadShape) {
      this.environment == environment && this.shape == shape
    }
  }

  datatype TuningRecord = TuningRecord(key: TuningKey, median: Float, samples: u32)
  {
    function Validate(): Result<(), AutotuneError> {
      var _ :- key.Validate();
      if !median.Usable() then Err(InvalidLatency(median))
      else if samples == 0 then Err(ZeroSamples)
      else Ok(())
    }

    function Row(): PerformanceRecord {
      PerformanceRecord(key.backend, key.operation, key.dataType, median, samples)
    }
  }

  /** A shape overflows exactly when its element count does: a partial product never
      overflows on its own, because zero dimensions are refused first. */
  lemma ShapeExact(shape: WorkloadShape)
    ensures shape.Validate().Ok? <==>
      shape.dims != [] && 0 !in shape.dims && IsPowerOfTwo(shape.alignment) && Product(shape.dims) < U64_LIMIT
    ensures shape.Validate() == Err(ShapeOverflow) <==>
      shape.dims != [] && 0 !in shape.dims && IsPowerOfTwo(shape.alignment) && Product(shape.dims) >= U64_LIMIT
  {
    if 0 !in shape.dims {
      forall i | 0 <= i < |shape.dims| ensures shape.dims[i] > 0 {
        assert shape.dims[i] in shape.dims;
      }
      CheckedProductExact(shape.dims);
    }
  }

  function TwoTo(e: nat): nat {
    if e == 0 then 1 else 2 * TwoTo(e - 1)
  }

  ghost predicate SomePower(n: nat) {
    exists e: nat :: n == TwoTo(e)
  }

  lemma {:induction false} PowersOfTwo(n: u32)
    ensures IsPowerOfTwo(n) <==> SomePower(n)
  {
    if SomePower(n) {
      var e: nat :| n == TwoTo(e);
      PowerIsPositive(e);
      if e > 0 {
        assert n / 2 == TwoTo(e - 1);
        assert SomePower(n / 2);
        PowersOfTwo(n / 2);
      }
    } else if n > 1 && n % 2 == 0 {
      PowersOfTwo(n / 2);
      if SomePower(n / 2) {
        var e: nat :| n / 2 == TwoTo(e);
        assert n == TwoTo(e + 1);
      }
    } else {
      assert TwoTo(0) == 1;
    }
  }

  lemma {:induction false} PowerIsPositive(e: nat)
    ensures TwoTo(e) > 0
    ensures e > 0 ==> TwoTo(e) % 2 == 0
  {
    if e > 0 { PowerIsPositive(e - 1); }
  }

  /** The code points of the Unicode property White_Space. */
  const WHITE_SPACE: seq<int> := [9, 10, 11, 12, 13, 32, 133, 160, 5760, 8192, 8193, 8194, 8195, 8196, 8197, 8198,
                                  8199, 8200, 8201, 8202, 8232, 8233, 8239, 8287, 12288]

  lemma BlankExactly(value: string)
    ensures Blank(value) <==> forall i :: 0 <= i < |value| ==> value[i] as int in WHITE_SPACE
  {
    forall i | 0 <= i < |value| ensures IsWhitespace(value[i]) <==> value[i] as int in WHITE_SPACE {
      WhitespaceExactly(value[i]);
    }
    assert forall i :: 0 <= i < |value| ==> value[i] in value;
  }

  lemma WhitespaceExactly(c: char)
    ensures IsWhitespace(c) <==> c as int in WHITE_SPACE
  {}

  /** The first reason against a record: a blank field of its environment, then its shape, its
      latency and its samples. */
  lemma RecordAnswers(record: TuningRecord)
    ensures var (environment, shape, answer) := (record.key.environment, record.key.shape, record.Validate());
      if Blank(environment.gpuArch) then answer == Err(InvalidFingerprint("gpu_arch"))
      else if Blank(environment.driverVersion) then answer == Err(InvalidFingerprint("driver_version"))
      else if Blank(environment.runtimeVersion) then answer == Err(InvalidFingerprint("runtime_version"))
      else if Blank(environment.pluginVersion) then answer == Err(InvalidFingerprint("plugin_version"))
      else if shape.dims == [] || 0 in shape.dims then answer == Err(InvalidShape)
      else if !SomePower(shape.alignment) then answer == Err(InvalidAlignment(shape.alignment))
      else if Product(shape.dims) >= U64_LIMIT then answer == Err(ShapeOverflow)
      else if !(record.median.Number? && record.median.value >= 0.0) then answer == Err(InvalidLatency(record.median))
      else if record.samples == 0 then answer == Err(ZeroSamples)
      else answer == Ok(())
  {
    ShapeExact(record.key.shape);
    PowersOfTwo(record.key.shape.alignment);
  }

  lemma ValidExactly(record: TuningRecord)
    ensures record.Validate().Ok? <==>
      var (environment, shape) := (record.key.environment, record.key.shape);
      && !Blank(environment.gpuArch) && !Blank(environment.driverVersion)
      && !Blank(environment.runtimeVersion) && !Blank(environment.pluginVersion)
      && shape.dims != [] && 0 !in shape.dims && IsPowerOfTwo(shape.alignment) && Product(shape.dims) < U64_LIMIT
      && record.median.Number? && record.median.value >= 0.0
      && record.samples > 0
  {
    ShapeExact(record.key.shape);
  }

  // The database ----------------------------------------------------------------------

  /** Replace the first record with the same key, or append. */
  function Inserted(records: seq<TuningRecord>, record: TuningRecord): seq<TuningRecord> {
    if records == [] then [record]
    else if records[0].key == record.key then [record] + records[1..]
    else [records[0]] + Inserted(records[1..], record)
  }

  /** `iter().find(|record| record.key == key)` */
  function Lookup(records: seq<TuningRecord>, key: TuningKey): Option<TuningRecord> {
    if records == [] then None
    else if records[0].key == key then Some(records[0])
    else Lookup(records[1..], key)
  }

  function LastWith(records: seq<TuningRecord>, key: TuningKey): Option<TuningRecord> {
    if records == [] then None
    else
      var last := |records| - 1;
      if records[last].key == key then Some(records[last]) else LastWith(records[..last], key)
  }

  /** The rows of one environment and shape, recorded in order into an empty table. */
  function Projected(records: seq<TuningRecord>, environment: EnvironmentFingerprint,
                     shape: WorkloadShape): seq<PerformanceRecord>
  {
    if records == [] then []
    else
      var last := |records| - 1;
      var table := Projected(records[..last], environment, shape);
      if records[last].key.IsOf(environment, shape) then Recorded(table, records[last].Row()) else table
  }

  /** The error of the first row of one environment and shape that is not valid. */
  function FirstInvalid(records: seq<TuningRecord>, environment: EnvironmentFingerprint,
                        shape: WorkloadShape): Option<AutotuneError>
  {
    if records == [] then None
    else
      var last := |records| - 1;
      var earlier := FirstInvalid(records[..last], environment, shape);
      if earlier.Some? then earlier
      else if records[last].key.IsOf(environment, shape) && records[last].Validate().Err? then
          Some(records[last].Validate().error)
      else None
  }

  /** Why a projection is refused: the environment, then the shape, then a row. */
  function Refusal(records: seq<TuningRecord>, environment: EnvironmentFingerprint,
                   shape: WorkloadShape): Option<AutotuneError>
  {
    match environment.Validate()
    case Err(error) => Some(error)
    case Ok(_) =>
      match shape.Validate()
      case Err(error) => Some(error)
      case Ok(_) => FirstInvalid(records, environment, shape)
  }

  lemma {:induction false} RecordedRow(table: seq<PerformanceRecord>, record: PerformanceRecord,
                                       row: PerformanceRecord)
    requires row in Recorded(table, record)
    ensures row in table || row == record
  {
    if table != [] && !table[0].IsFor(record.backend, record.operation, record.dataType) && row != table[0] {
      RecordedRow(table[1..], record, row);
    }
  }

  /** Every row of a projection is a record of that environment and shape, with its backend,
      operation, data type, median and sample count. */
  lemma {:induction false} ProjectedRow(records: seq<TuningRecord>, environment: EnvironmentFingerprint,
                                        shape: WorkloadShape, row: PerformanceRecord)
    requires row in Projected(records, environment, shape)
    ensures TuningRecord(TuningKey(environment, row.backend, row.operation, row.dataType, shape), row.median,
                         row.samples) in records
  {
    if records != [] {
      var last := |records| - 1;
      if records[last].key.IsOf(environment, shape) {
        RecordedRow(Projected(records[..last], environment, shape), records[last].Row(), row);
      }
      if row in Projected(records[..last], environment, shape) {
        ProjectedRow(records[..last], environment, shape, row);
      }
    }
  }

  class AutotuneDatabase {
    var records: seq<TuningRecord>

    constructor ()
      ensures records == []
    {
      records := [];
    }

    method Record(record: TuningRecord) returns (outcome: Result<(), AutotuneError>)
      modifies this
      ensures outcome == record.Validate()
      ensures records == AfterRecord(old(records), record)
    {
      outcome := record.Validate();
      if outcome.Err? {
        return;
      }
      for i := 0 to |records|
        invariant records == old(records)
        invariant Inserted(records, record) == records[..i] + Inserted(records[i..], record)
      {
        if records[i].key == record.key {
          assert records[i..][1..] == records[i + 1..];
          records := records[i := record];
          return;
        }
        assert records[i..][1..] == records[i + 1..];
        assert records[..i] + ([records[i]] + Inserted(records[i + 1..], record))
            == records[..i + 1] + Inserted(records[i + 1..], record);
      }
      records := records + [record];
    }

    method PerformanceTableFor(environment: EnvironmentFingerprint, shape: WorkloadShape)
      returns (table: Result<PerformanceTable, AutotuneError>)
      ensures table.Ok? ==> fresh(table.value) && table.value.records == Projected(records, environment, shape)
      ensures table.Err? <==> Refusal(records, environment, shape).Some?
      ensures table.Err? ==> Some(table.error) == Refusal(records, environment, shape)
    {
      var environmentValid, shapeValid := environment.Validate(), shape.Validate();
      if environmentValid.Err? {
        return Err(environmentValid.error);
      }
      if shapeValid.Err? {
        return Err(shapeValid.error);
      }
      var result := new PerformanceTable();
      for i := 0 to |records|
        invariant fresh(result) && records == old(records)
        invariant FirstInvalid(records[..i], environment, shape).None?
        invariant result.records == Projected(records[..i], environment, shape)
      {
        var record := records[i];
        assert records[..i + 1][..i] == records[..i];
        if record.key.IsOf(environment, shape) {
          var valid := record.Validate();
          if valid.Err? {
            InvalidStays(records, i + 1, environment, shape);
            return Err(valid.error);
          }
          result.Record(record.Row());
        }
      }
      assert records[..|records|] == records;
      return Ok(result);
    }
  }

  /** Later records do not change which invalid row comes first. */
  lemma {:induction false} InvalidStays(records: seq<TuningRecord>, i: nat,
                                        environment: EnvironmentFingerprint, shape: WorkloadShape)
    requires i <= |records| && FirstInvalid(records[..i], environment, shape).Some?
    ensures FirstInvalid(records, environment, shape) == FirstInvalid(records[..i], environment, shape)
  {
    var last := |records| - 1;
    if i <= last {
      assert records[..last][..i] == records[..i];
      InvalidStays(records[..last], i, environment, shape);
    } else {
      assert records[..i] == records;
    }
  }

  // Runs ----------------------------------------------------------------------------

  function AfterRecord(records: seq<TuningRecord>, record: TuningRecord): seq<TuningRecord> {
    if record.Validate().Ok? then Inserted(records, record) else records
  }

  /** The database after a run of `record` calls on an empty one. */
  function After(calls: seq<TuningRecord>): seq<TuningRecord> {
    if calls == [] then [] else AfterRecord(After(calls[..|calls| - 1]), calls[|calls| - 1])
  }

  /** What the run means: a finite map updated by every valid record. */
  function Meaning(calls: seq<TuningRecord>): map<TuningKey, TuningRecord> {
    if calls == [] then map[]
    else
      var before, call := Meaning(calls[..|calls| - 1]), calls[|calls| - 1];
      if call.Validate().Ok? then before[call.key := call] else before
  }

  predicate DifferentKeys(records: seq<TuningRecord>, i: nat, j: nat)
    requires i < |records| && j < |records|
  {
    records[i].key != records[j].key
  }

  predicate UniqueKeys(records: seq<TuningRecord>) {
    forall i, j :: 0 <= i < j < |records| ==> DifferentKeys(records, i, j)
  }

  predicate AllValid(records: seq<TuningRecord>) {
    forall r :: r in records ==> r.Validate().Ok?
  }

  lemma {:induction false} InsertedIsUpdate(records: seq<TuningRecord>, record: TuningRecord, key: TuningKey)
    ensures Lookup(Inserted(records, record), key) == if key == record.key then Some(record) else Lookup(records, key)
  {
    if records != [] && records[0].key != record.key {
      InsertedIsUpdate(records[1..], record, key);
      assert Inserted(records, record)[1..] == Inserted(records[1..], record);
    }
  }

  /** An insertion keeps every position's key and can only append a key that is new. */
  lemma {:induction false} InsertedKeys(records: seq<TuningRecord>, record: TuningRecord)
    ensures var after := Inserted(records, record);
      && |records| <= |after| <= |records| + 1
      && (forall i :: 0 <= i < |records| ==> after[i].key == records[i].key)
      && (|after| > |records| ==> after[|records|] == record && forall i ::
          0 <= i < |records| ==> records[i].key != record.key)
      && (forall r :: r in after ==> r in records || r == record)
  {
    if records != [] && records[0].key != record.key {
      InsertedKeys(records[1..], record);
      var after := Inserted(records, record);
      assert after == [records[0]] + Inserted(records[1..], record);
      forall i | 0 <= i < |records| ensures after[i].key == records[i].key {
        if i > 0 { assert after[i] == Inserted(records[1..], record)[i - 1] && records[i] == records[1..][i - 1]; }
      }
      forall i | |after| > |records| && 0 <= i < |records| ensures records[i].key != record.key {
        if i > 0 { assert records[i] == records[1..][i - 1]; }
      }
    }
  }

  lemma InsertedUnique(records: seq<TuningRecord>, record: TuningRecord)
    requires UniqueKeys(records)
    ensures UniqueKeys(Inserted(records, record))
  {
    InsertedKeys(records, record);
    var after := Inserted(records, record);
    forall i, j | 0 <= i < j < |after| ensures DifferentKeys(after, i, j) {
      if j < |records| { assert DifferentKeys(records, i, j); }
    }
  }

  /** Every run keeps keys unique and records valid, and looks up exactly what the map
      of its valid records holds. */
  lemma {:induction false} RunRefinesMap(calls: seq<TuningRecord>, key: TuningKey)
    ensures UniqueKeys(After(calls)) && AllValid(After(calls))
    ensures Lookup(After(calls), key) == if key in Meaning(calls) then Some(Meaning(calls)[key]) else None
  {
    if calls == [] {
    } else {
      var before, call := After(calls[..|calls| - 1]), calls[|calls| - 1];
      RunRefinesMap(calls[..|calls| - 1], key);
      if call.Validate().Ok? {
        InsertedUnique(before, call);
        InsertedKeys(before, call);
        InsertedIsUpdate(before, call, key);
      }
    }
  }

  // The projection ------------------------------------------------------------------

  function Median(record: Option<TuningRecord>): Option<Float> {
    if record.Some? then Some(record.value.median) else None
  }

  /** On any record list the projected table answers with the last record of a key. */
  lemma {:induction false} ProjectionAnswersLast(records: seq<TuningRecord>, key: TuningKey)
    ensures MedianUs(Projected(records, key.environment, key.shape), key.backend, key.operation, key.dataType)
        == Median(LastWith(records, key))
  {
    if records == [] {
    } else {
      var last := |records| - 1;
      ProjectionAnswersLast(records[..last], key);
      if records[last].key.IsOf(key.environment, key.shape) {
        var table := Projected(records[..last], key.environment, key.shape);
        RecordedIsUpdate(table, records[last].Row(), key.backend, key.operation, key.dataType);
      }
    }
  }

  lemma {:induction false} LookupFinds(records: seq<TuningRecord>, key: TuningKey, i: nat)
    requires UniqueKeys(records) && i < |records| && records[i].key == key
    ensures Lookup(records, key) == Some(records[i])
  {
    if i == 0 {
    } else {
      assert DifferentKeys(records, 0, i);
      var rest := records[1..];
      forall a, b | 0 <= a < b < |rest| ensures DifferentKeys(rest, a, b) {
        assert DifferentKeys(records, a + 1, b + 1);
      }
      LookupFinds(rest, key, i - 1);
    }
  }

  lemma {:induction false} LookupMisses(records: seq<TuningRecord>, key: TuningKey)
    requires forall i :: 0 <= i < |records| ==> records[i].key != key
    ensures Lookup(records, key) == None
  {
    if records == [] {
    } else {
      LookupMisses(records[1..], key);
    }
  }

  lemma {:induction false} LastIsSome(records: seq<TuningRecord>, key: TuningKey)
    ensures match LastWith(records, key)
      case Some(found) => exists i :: 0 <= i < |records| && records[i].key == key && records[i] == found
      case None => forall i :: 0 <= i < |records| ==> records[i].key != key
  {
    if records == [] {
    } else {
      var last := |records| - 1;
      LastIsSome(records[..last], key);
      if records[last].key == key {
        assert LastWith(records, key) == Some(records[last]);
      } else if LastWith(records[..last], key).Some? {
        var i :| 0 <= i < last && records[..last][i].key == key
            && records[..last][i] == LastWith(records[..last], key).value;
        assert records[i] == records[..last][i];
      }
    }
  }

  /** Duplicate keys, which only a file can bring in, are the one way to disagree. */
  lemma UniqueKeysAgree(records: seq<TuningRecord>, key: TuningKey)
    requires UniqueKeys(records)
    ensures LastWith(records, key) == Lookup(records, key)
  {
    LastIsSome(records, key);
    if LastWith(records, key).Some? {
      var i :| 0 <= i < |records| && records[i].key == key && records[i] == LastWith(records, key).value;
      LookupFinds(records, key, i);
    } else {
      LookupMisses(records, key);
    }
  }

  lemma {:induction false} NoneInvalid(records: seq<TuningRecord>,
                                       environment: EnvironmentFingerprint, shape: WorkloadShape)
    requires AllValid(records)
    ensures FirstInvalid(records, environment, shape).None?
  {
    if records == [] {
    } else {
      NoneInvalid(records[..|records| - 1], environment, shape);
    }
  }

  /** After any run of `record`, projecting succeeds for every valid environment and
      shape, and the table's median for every backend, operation and data type is the median
      that a lookup of the full key finds. */
  lemma ProjectionAgrees(calls: seq<TuningRecord>, key: TuningKey)
    ensures key.Validate().Ok? ==> Refusal(After(calls), key.environment, key.shape).None?
    ensures MedianUs(Projected(After(calls), key.environment, key.shape), key.backend, key.operation, key.dataType)
         == if key in Meaning(calls) then Some(Meaning(calls)[key].median) else None
    ensures Median(Lookup(After(calls), key)) == if key in Meaning(calls) then Some(Meaning(calls)[key].median)
      else None
  {
    RunRefinesMap(calls, key);
    ProjectionAnswersLast(After(calls), key);
    UniqueKeysAgree(After(calls), key);
    NoneInvalid(After(calls), key.environment, key.shape);
  }
}

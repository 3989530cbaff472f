/** The aggregation loop of `ChartDashboard.show`
    (src/views/chartDashboard.ts): it turns the remark list into a count per
    pass and remark type (`chartData`) and a per-function metrics snapshot
    (`metricsData`), and posts both with the remarks to the webview. The
    webview panel itself is not modelled: the posted message is the result. */
module ChartDashboard {
  import opened Wrappers
  import opened Remarks

  /** `chartData`: pass name to remark type to count. */
  type Chart = map<string, map<string, nat>>

  /** `metricsData`: function name to its latest metrics. */
  type MetricsTable = map<string, Metrics>

  /** The message posted to the webview. */
  datatype Payload = Payload(chartData: Chart, metricsData: MetricsTable, remarks: seq<OptimizationRemark>)

  // ---------------------------------------------------------------------
  // Specification of the two maps
  // ---------------------------------------------------------------------

  /** The two metrics fields, each tracked on its own. */
  datatype MetricField = InstructionsCount | StackSize

  function FieldOf(m: Metrics, field: MetricField): Option<int>
  {
    match field
    case InstructionsCount => m.instructionsCount
    case StackSize => m.stackSize
  }

  /** The chart after counting one more remark. */
  function CountRemark(chart: Chart, r: OptimizationRemark): (updated: Chart)
    ensures updated.Keys == chart.Keys + {r.Pass}
    ensures forall p, t :: Lookup(updated, p, t) ==
              Lookup(chart, p, t) + (if p == r.Pass && t == r.RemarkType then 1 else 0)
    ensures forall p | p in chart && p != r.Pass :: updated[p] == chart[p]
  {
    var row := if r.Pass in chart then chart[r.Pass] else map[];
    var count := if r.RemarkType in row then row[r.RemarkType] else 0;
    chart[r.Pass := row[r.RemarkType := count + 1]]
  }

  /** The snapshot after one more remark: a defined field overwrites. */
  function RecordMetrics(table: MetricsTable, r: OptimizationRemark): (updated: MetricsTable)
    ensures r.metrics.None? ==> updated == table
    ensures r.metrics.Some? ==> updated.Keys == table.Keys + {r.Function}
    ensures forall f | f in table && f != r.Function :: updated[f] == table[f]
    ensures r.metrics.Some? ==> forall field ::
              FieldOf(updated[r.Function], field) ==
                if FieldOf(r.metrics.value, field).Some? then FieldOf(r.metrics.value, field)
                else if r.Function in table then FieldOf(table[r.Function], field)
                else None
  {
    match r.metrics
    case None => table
    case Some(m) =>
      var prev := if r.Function in table then table[r.Function] else Metrics(None, None);
      table[r.Function := Metrics(
        if m.instructionsCount.Some? then m.instructionsCount else prev.instructionsCount,
        if m.stackSize.Some? then m.stackSize else prev.stackSize)]
  }

  /** One step of the loop over `rs[i]` stores the updated row back under
      its pass. */
  lemma ChartStep(rs: seq<OptimizationRemark>, i: nat, row: map<string, nat>)
    requires i < |rs|
    requires row == if rs[i].Pass in ChartOf(rs[..i]) then ChartOf(rs[..i])[rs[i].Pass] else map[]
    ensures ChartOf(rs[..i + 1]) ==
              ChartOf(rs[..i])[rs[i].Pass := row[rs[i].RemarkType := (if rs[i].RemarkType in row then row[rs[i].RemarkType] else 0) + 1]]
  {
    assert rs[..i + 1][..i] == rs[..i];
  }

  /** One step of the loop over `rs[i]` stores the updated entry back under
      its function, if the remark has metrics. */
  lemma MetricsStep(rs: seq<OptimizationRemark>, i: nat, entry: Metrics)
    requires i < |rs|
    requires entry == if rs[i].Function in MetricsOf(rs[..i]) then MetricsOf(rs[..i])[rs[i].Function] else Metrics(None, None)
    ensures rs[i].metrics.None? ==> MetricsOf(rs[..i + 1]) == MetricsOf(rs[..i])
    ensures rs[i].metrics.Some? ==>
              var m := rs[i].metrics.value;
              MetricsOf(rs[..i + 1]) == MetricsOf(rs[..i])[rs[i].Function := Metrics(
                if m.instructionsCount.Some? then m.instructionsCount else entry.instructionsCount,
                if m.stackSize.Some? then m.stackSize else entry.stackSize)]
  {
    assert rs[..i + 1][..i] == rs[..i];
  }

  /** `chartData` after the loop has seen `rs`. */
  function ChartOf(rs: seq<OptimizationRemark>): Chart
  {
    if rs == [] then map[] else CountRemark(ChartOf(rs[..|rs| - 1]), rs[|rs| - 1])
  }

  /** `metricsData` after the loop has seen `rs`. */
  function MetricsOf(rs: seq<OptimizationRemark>): MetricsTable
  {
    if rs == [] then map[] else RecordMetrics(MetricsOf(rs[..|rs| - 1]), rs[|rs| - 1])
  }

  // ---------------------------------------------------------------------
  // Reference definitions
  // ---------------------------------------------------------------------

  /** The number of remarks with pass `p` and type `t`. */
  function Count(rs: seq<OptimizationRemark>, p: string, t: string): nat
  {
    if rs == [] then 0
    else (if rs[0].Pass == p && rs[0].RemarkType == t then 1 else 0) + Count(rs[1..], p, t)
  }

  /** A chart entry, reading an absent entry as zero. */
  function Lookup(chart: Chart, p: string, t: string): nat
  {
    if p in chart && t in chart[p] then chart[p][t] else 0
  }

  /** Some remark has pass `p`. */
  predicate HasPass(rs: seq<OptimizationRemark>, p: string)
  {
    exists i :: 0 <= i < |rs| && rs[i].Pass == p
  }

  /** Some remark for function `f` has a `metrics` object. */
  predicate HasMetrics(rs: seq<OptimizationRemark>, f: string)
  {
    exists i :: 0 <= i < |rs| && rs[i].Function == f && rs[i].metrics.Some?
  }

  /** Remark `r` is for `f` and defines `field`. */
  predicate Defines(r: OptimizationRemark, f: string, field: MetricField)
  {
    r.Function == f && r.metrics.Some? && FieldOf(r.metrics.value, field).Some?
  }

  /** The value of `field` in the last remark for `f` that defines it. */
  function LastDefined(rs: seq<OptimizationRemark>, f: string, field: MetricField): Option<int>
  {
    if rs == [] then None
    else if Defines(rs[|rs| - 1], f, field) then FieldOf(rs[|rs| - 1].metrics.value, field)
    else LastDefined(rs[..|rs| - 1], f, field)
  }

  /** The sum of the values of a map. */
  ghost function SumValues(m: map<string, nat>): nat
    decreases |m|
  {
    if m == map[] then 0
    else
      assert exists k :: k in m by {
        var k :| k in m.Keys;
      }
      var k :| k in m;
      m[k] + SumValues(m - {k})
  }

  /** The sum of each row of a chart. */
  ghost function RowSums(chart: Chart): map<string, nat>
  {
    map p | p in chart :: SumValues(chart[p])
  }

  /** The sum of all counts of a chart. */
  ghost function Total(chart: Chart): nat
  {
    SumValues(RowSums(chart))
  }

  // ---------------------------------------------------------------------
  // Properties
  // ---------------------------------------------------------------------

  /** `LastDefined` is the value of the last remark for `f` that defines
      `field`: absent when no remark does, and otherwise taken from a remark
      after which no remark for `f` defines it. */
  lemma {:induction false} LastDefinedIsLastWriter(rs: seq<OptimizationRemark>, f: string, field: MetricField)
    ensures LastDefined(rs, f, field).None? <==> forall i :: 0 <= i < |rs| ==> !Defines(rs[i], f, field)
    ensures LastDefined(rs, f, field).Some? ==>
              exists i :: 0 <= i < |rs| && Defines(rs[i], f, field) &&
                FieldOf(rs[i].metrics.value, field) == LastDefined(rs, f, field) &&
                forall j :: i < j < |rs| ==> !Defines(rs[j], f, field)
  {
    if rs != [] {
      var prefix, last := rs[..|rs| - 1], |rs| - 1;
      LastDefinedIsLastWriter(prefix, f, field);
      assert forall i :: 0 <= i < |prefix| ==> prefix[i] == rs[i];
      if !Defines(rs[last], f, field) && LastDefined(prefix, f, field).Some? {
        var i :| 0 <= i < |prefix| && Defines(prefix[i], f, field) &&
                 FieldOf(prefix[i].metrics.value, field) == LastDefined(prefix, f, field) &&
                 forall j :: i < j < |prefix| ==> !Defines(prefix[j], f, field);
        assert Defines(rs[i], f, field);
      }
    }
  }

  /** Counting a remark at the end adds one to its own entry only. */
  lemma {:induction false} CountAppend(rs: seq<OptimizationRemark>, r: OptimizationRemark, p: string, t: string)
    ensures Count(rs + [r], p, t) == Count(rs, p, t) + (if r.Pass == p && r.RemarkType == t then 1 else 0)
  {
    if rs != [] {
      CountAppend(rs[1..], r, p, t);
      assert (rs + [r])[1..] == rs[1..] + [r];
    }
  }

  /** Every chart entry is the number of remarks with that pass and type;
      an absent entry means zero, and every present entry is positive. */
  lemma {:induction false} ChartCounts(rs: seq<OptimizationRemark>, p: string, t: string)
    ensures Lookup(ChartOf(rs), p, t) == Count(rs, p, t)
    ensures p in ChartOf(rs) && t in ChartOf(rs)[p] ==> ChartOf(rs)[p][t] > 0
  {
    if rs != [] {
      var prefix, r := rs[..|rs| - 1], rs[|rs| - 1];
      ChartCounts(prefix, p, t);
      CountAppend(prefix, r, p, t);
      assert prefix + [r] == rs;
    }
  }

  /** The chart has a row for pass `p` exactly when some remark has that pass. */
  lemma {:induction false} ChartRows(rs: seq<OptimizationRemark>, p: string)
    ensures p in ChartOf(rs) <==> HasPass(rs, p)
  {
    if rs != [] {
      var prefix := rs[..|rs| - 1];
      ChartRows(prefix, p);
      if HasPass(prefix, p) {
        var i :| 0 <= i < |prefix| && prefix[i].Pass == p;
        assert rs[i].Pass == p;
      }
      if HasPass(rs, p) && rs[|rs| - 1].Pass != p {
        var i :| 0 <= i < |rs| && rs[i].Pass == p;
        assert prefix[i].Pass == p;
      }
    }
  }

  /** Removing one key from a map removes its value from the sum, whichever
      key the sum happened to take first. */
  lemma SumValuesRemove(m: map<string, nat>, k: string)
    requires k in m
    ensures SumValues(m) == m[k] + SumValues(m - {k})
    decreases |m|
  {
    var k' :| k' in m && SumValues(m) == m[k'] + SumValues(m - {k'});
    if k' != k {
      SumValuesRemove(m - {k'}, k);
      SumValuesRemove(m - {k}, k');
      assert m - {k'} - {k} == m - {k} - {k'};
    }
  }

  /** Setting key `k` to `v` changes the sum by `v` minus the old value. */
  lemma SumValuesUpdate(m: map<string, nat>, k: string, v: nat)
    ensures SumValues(m[k := v]) == SumValues(m) - (if k in m then m[k] else 0) + v
  {
    SumValuesRemove(m[k := v], k);
    if k in m {
      SumValuesRemove(m, k);
      assert m[k := v] - {k} == m - {k};
    } else {
      assert m[k := v] - {k} == m;
    }
  }

  /** Replacing one row replaces only that row's sum. */
  lemma RowSumsUpdate(chart: Chart, p: string, row: map<string, nat>)
    ensures RowSums(chart[p := row]) == RowSums(chart)[p := SumValues(row)]
  {
  }

  /** Counting one remark adds one to the chart's total. */
  lemma CountRemarkTotal(chart: Chart, r: OptimizationRemark)
    ensures Total(CountRemark(chart, r)) == Total(chart) + 1
  {
    var row := if r.Pass in chart then chart[r.Pass] else map[];
    var count := if r.RemarkType in row then row[r.RemarkType] else 0;
    var row' := row[r.RemarkType := count + 1];
    assert CountRemark(chart, r) == chart[r.Pass := row'];
    SumValuesUpdate(row, r.RemarkType, count + 1);
    var sums := RowSums(chart);
    assert (if r.Pass in sums then sums[r.Pass] else 0) == SumValues(row);
    RowSumsUpdate(chart, r.Pass, row');
    SumValuesUpdate(sums, r.Pass, SumValues(row'));
  }

  /** The counts of the chart add up to the number of remarks. */
  lemma {:induction false} ChartTotal(rs: seq<OptimizationRemark>)
    ensures Total(ChartOf(rs)) == |rs|
  {
    if rs != [] {
      ChartTotal(rs[..|rs| - 1]);
      CountRemarkTotal(ChartOf(rs[..|rs| - 1]), rs[|rs| - 1]);
    }
  }

  /** The snapshot has an entry for `f` exactly when some remark for `f` has a
      `metrics` object (even one with both fields undefined), and each of its
      fields is the last defined value of that field for `f`, independently
      of the other field. */
  lemma {:induction false} MetricsSnapshot(rs: seq<OptimizationRemark>, f: string)
    ensures f in MetricsOf(rs) <==> HasMetrics(rs, f)
    ensures f in MetricsOf(rs) ==>
              MetricsOf(rs)[f].instructionsCount == LastDefined(rs, f, InstructionsCount) &&
              MetricsOf(rs)[f].stackSize == LastDefined(rs, f, StackSize)
    ensures f !in MetricsOf(rs) ==>
              LastDefined(rs, f, InstructionsCount).None? && LastDefined(rs, f, StackSize).None?
  {
    if rs != [] {
      var prefix := rs[..|rs| - 1];
      MetricsSnapshot(prefix, f);
      if HasMetrics(prefix, f) {
        var i :| 0 <= i < |prefix| && prefix[i].Function == f && prefix[i].metrics.Some?;
        assert rs[i] == prefix[i];
      }
      if HasMetrics(rs, f) && !(rs[|rs| - 1].Function == f && rs[|rs| - 1].metrics.Some?) {
        var i :| 0 <= i < |rs| && rs[i].Function == f && rs[i].metrics.Some?;
        assert prefix[i] == rs[i];
      }
    }
  }

  /** A remark without `metrics` leaves the snapshot unchanged, wherever it
      stands in the list. */
  lemma {:induction false} RemarkWithoutMetrics(front: seq<OptimizationRemark>, r: OptimizationRemark, back: seq<OptimizationRemark>)
    requires r.metrics.None?
    ensures MetricsOf(front + [r] + back) == MetricsOf(front + back)
    decreases |back|
  {
    if back == [] {
      assert front + [r] + back == front + [r];
      assert (front + [r])[..|front|] == front;
      assert front + back == front;
    } else {
      var b, last := back[..|back| - 1], back[|back| - 1];
      RemarkWithoutMetrics(front, r, b);
      assert (front + [r] + back)[..|front + [r] + back| - 1] == front + [r] + b;
      assert (front + back)[..|front + back| - 1] == front + b;
    }
  }

  // ---------------------------------------------------------------------
  // The snapshot as written, for names a plain object already answers
  // ---------------------------------------------------------------------

  /** Names under which a plain JavaScript object (`{}`) already holds a
      truthy member inherited from `Object.prototype`. */
  const InheritedMembers: set<string> :=
    {"constructor", "hasOwnProperty", "isPrototypeOf", "propertyIsEnumerable",
     "toLocaleString", "toString", "valueOf", "__proto__",
     "__defineGetter__", "__defineSetter__", "__lookupGetter__", "__lookupSetter__"}

  /** The inherited name under which a plain object answers with
      `Object.prototype` itself. */
  const ProtoKey := "__proto__"

  /** `Object.prototype` before any metrics field was set on it. */
  const CleanPrototype := Metrics(None, None)

  /** The metrics state as the source leaves it: the own entries of
      `metricsData`, which the posted message carries, and the
      `instructionsCount` and `stackSize` that writes through
      `metricsData["__proto__"]` put on `Object.prototype`. Every plain
      object inherits those two, each remark's `metrics` object included,
      and they outlive the call. */
  datatype AsWrittenState = AsWrittenState(table: MetricsTable, prototype: Metrics)

  /** `remark.metrics` as the source reads it: an own field, or else the one
      the object inherits from `Object.prototype`. */
  function ReadMetrics(m: Metrics, prototype: Metrics): Metrics
  {
    Metrics(if m.instructionsCount.Some? then m.instructionsCount else prototype.instructionsCount,
            if m.stackSize.Some? then m.stackSize else prototype.stackSize)
  }

  /** One step of the snapshot as the source writes it. For an inherited
      name `!metricsData[functionName]` is false although there is no own
      entry, so none is created. Under `__proto__` the fields are written
      onto `Object.prototype`; under any other inherited name they land on
      the inherited method, which nothing reads again. Every field is read
      through the prototype. */
  function RecordMetricsAsWritten(s: AsWrittenState, r: OptimizationRemark): (updated: AsWrittenState)
    ensures r.metrics.None? ==> updated == s
    ensures r.Function != ProtoKey ==> updated.prototype == s.prototype
    ensures r.metrics.Some? && r.Function == ProtoKey ==>
              updated.table == s.table &&
              forall field :: FieldOf(updated.prototype, field) ==
                if FieldOf(r.metrics.value, field).Some? then FieldOf(r.metrics.value, field)
                else FieldOf(s.prototype, field)
    ensures r.Function in InheritedMembers && r.Function != ProtoKey && r.Function !in s.table ==> updated == s
    ensures r.Function !in InheritedMembers && s.prototype == CleanPrototype ==> updated.table == RecordMetrics(s.table, r)
    ensures r.Function !in InheritedMembers && r.metrics.Some? ==>
              updated.table == RecordMetrics(s.table, r.(metrics := Some(ReadMetrics(r.metrics.value, s.prototype))))
  {
    match r.metrics
    case None => s
    case Some(m) =>
      var seen := ReadMetrics(m, s.prototype);
      if r.Function == ProtoKey then s.(prototype := seen)
      else if r.Function in InheritedMembers && r.Function !in s.table then s
      else s.(table := RecordMetrics(s.table, r.(metrics := Some(seen))))
  }

  /** The state as written after the loop has seen `rs`, starting from the
      prototype earlier calls left behind. */
  function MetricsOfAsWritten(rs: seq<OptimizationRemark>, prototype: Metrics): AsWrittenState
  {
    if rs == [] then AsWrittenState(map[], prototype)
    else RecordMetricsAsWritten(MetricsOfAsWritten(rs[..|rs| - 1], prototype), rs[|rs| - 1])
  }

  /** As written, a function named `toString` with metrics gets no entry,
      although the snapshot is meant to hold one for it. */
  lemma InheritedNameLosesMetrics()
    ensures var r := OptimizationRemark("Missed", "inline", "toString", "a.c", 10, 2, "", Some(Metrics(Some(42), None)));
            && HasMetrics([r], "toString")
            && "toString" !in MetricsOfAsWritten([r], CleanPrototype).table
            && MetricsOf([r])["toString"] == Metrics(Some(42), None)
  {
    var r := OptimizationRemark("Missed", "inline", "toString", "a.c", 10, 2, "", Some(Metrics(Some(42), None)));
    assert [r][..0] == [];
    assert [r][0].Function == "toString" && [r][0].metrics.Some?;
  }

  /** As written, a function named `__proto__` with metrics gets no entry,
      its field stays on `Object.prototype` after the call, and a later
      function whose metrics lack that field reads it as its own. */
  lemma PrototypeLeaksMetrics()
    ensures var p := OptimizationRemark("Missed", "inline", ProtoKey, "a.c", 10, 2, "", Some(Metrics(Some(42), None)));
            var q := OptimizationRemark("Missed", "inline", "foo", "a.c", 20, 2, "", Some(Metrics(None, Some(8))));
            var s := MetricsOfAsWritten([p, q], CleanPrototype);
            && ProtoKey !in s.table
            && s.prototype == Metrics(Some(42), None)
            && "foo" in s.table && s.table["foo"] == Metrics(Some(42), Some(8))
            && ProtoKey in MetricsOf([p, q]) && MetricsOf([p, q])[ProtoKey] == Metrics(Some(42), None)
            && "foo" in MetricsOf([p, q]) && MetricsOf([p, q])["foo"] == Metrics(None, Some(8))
  {
    var p := OptimizationRemark("Missed", "inline", ProtoKey, "a.c", 10, 2, "", Some(Metrics(Some(42), None)));
    var q := OptimizationRemark("Missed", "inline", "foo", "a.c", 20, 2, "", Some(Metrics(None, Some(8))));
    assert [p, q][..1] == [p];
    assert [p][..0] == [];
    assert MetricsOfAsWritten([], CleanPrototype) == AsWrittenState(map[], CleanPrototype);
    assert MetricsOfAsWritten([p], CleanPrototype) == AsWrittenState(map[], Metrics(Some(42), None));
    assert MetricsOf([p]) == map[ProtoKey := Metrics(Some(42), None)];
  }

  /** Each field that `Object.prototype` holds after the loop is the one the
      last `__proto__` remark defining it gave, or else the one it held
      before the call. */
  lemma {:induction false} PrototypeIsLastWrite(rs: seq<OptimizationRemark>, prototype: Metrics, field: MetricField)
    ensures FieldOf(MetricsOfAsWritten(rs, prototype).prototype, field) ==
              if LastDefined(rs, ProtoKey, field).Some? then LastDefined(rs, ProtoKey, field)
              else FieldOf(prototype, field)
  {
    if rs != [] {
      PrototypeIsLastWrite(rs[..|rs| - 1], prototype, field);
    }
  }

  /** With a clean prototype and no `__proto__` remark that defines a field,
      the snapshot as written and the intended one agree on every name not
      inherited from `Object.prototype`; as written an inherited name never
      gets an entry. */
  lemma {:induction false} AsWrittenAgreesOnOwnNames(rs: seq<OptimizationRemark>, f: string)
    ensures f in InheritedMembers ==> f !in MetricsOfAsWritten(rs, CleanPrototype).table
    ensures f !in InheritedMembers && LastDefined(rs, ProtoKey, InstructionsCount).None? &&
            LastDefined(rs, ProtoKey, StackSize).None? ==>
              var table := MetricsOfAsWritten(rs, CleanPrototype).table;
              (f in table <==> f in MetricsOf(rs)) &&
              (f in MetricsOf(rs) ==> table[f] == MetricsOf(rs)[f])
  {
    if rs != [] {
      var prefix, r := rs[..|rs| - 1], rs[|rs| - 1];
      AsWrittenAgreesOnOwnNames(prefix, f);
      if LastDefined(rs, ProtoKey, InstructionsCount).None? && LastDefined(rs, ProtoKey, StackSize).None? {
        PrototypeIsLastWrite(prefix, CleanPrototype, InstructionsCount);
        PrototypeIsLastWrite(prefix, CleanPrototype, StackSize);
        assert MetricsOfAsWritten(prefix, CleanPrototype).prototype == CleanPrototype;
        assert r.Function == ProtoKey && r.metrics.Some? ==> r.metrics.value == CleanPrototype;
      }
    }
  }

  // ---------------------------------------------------------------------
  // The loop
  // ---------------------------------------------------------------------

  /** The properties of the specified chart and snapshot, gathered for every
      pass, type and function at once. */
  lemma AggregateFacts(rs: seq<OptimizationRemark>)
    ensures forall p, t :: Lookup(ChartOf(rs), p, t) == Count(rs, p, t)
    ensures forall p :: p in ChartOf(rs) <==> HasPass(rs, p)
    ensures forall f :: f in MetricsOf(rs) <==> HasMetrics(rs, f)
    ensures forall f :: f in MetricsOf(rs) ==>
              MetricsOf(rs)[f].instructionsCount == LastDefined(rs, f, InstructionsCount) &&
              MetricsOf(rs)[f].stackSize == LastDefined(rs, f, StackSize)
  {
    forall p, t
      ensures Lookup(ChartOf(rs), p, t) == Count(rs, p, t)
    {
      ChartCounts(rs, p, t);
    }
    forall p
      ensures p in ChartOf(rs) <==> HasPass(rs, p)
    {
      ChartRows(rs, p);
    }
    forall f
      ensures f in MetricsOf(rs) <==> HasMetrics(rs, f)
      ensures f in MetricsOf(rs) ==>
                MetricsOf(rs)[f].instructionsCount == LastDefined(rs, f, InstructionsCount) &&
                MetricsOf(rs)[f].stackSize == LastDefined(rs, f, StackSize)
    {
      MetricsSnapshot(rs, f);
    }
  }

  /** The aggregation loop of `show` and the message it posts. It only reads
      the remarks, and posts the same list it was given. */
  method Show(remarks: seq<OptimizationRemark>) returns (payload: Payload)
    ensures payload.remarks == remarks
    ensures payload.chartData == ChartOf(remarks)
    ensures payload.metricsData == MetricsOf(remarks)
    ensures forall p, t :: Lookup(payload.chartData, p, t) == Count(remarks, p, t)
    ensures forall p :: p in payload.chartData <==> HasPass(remarks, p)
    ensures forall f :: f in payload.metricsData <==> HasMetrics(remarks, f)
    ensures forall f :: f in payload.metricsData ==>
              payload.metricsData[f].instructionsCount == LastDefined(remarks, f, InstructionsCount) &&
              payload.metricsData[f].stackSize == LastDefined(remarks, f, StackSize)
  {
    var chartData: Chart := map[];
    var metricsData: MetricsTable := map[];
    for i := 0 to |remarks|
      invariant chartData == ChartOf(remarks[..i])
      invariant metricsData == MetricsOf(remarks[..i])
    {
      var remark := remarks[i];
      var functionName := remark.Function;

      // The row and the entry are objects created when missing and updated
      // in place; here each is updated as a value and stored back.
      var pass := remark.Pass;
      var row: map<string, nat> := map[];
      if pass in chartData {
        row := chartData[pass];
      }
      ChartStep(remarks, i, row);
      var remarkType := remark.RemarkType;
      row := row[remarkType := (if remarkType in row then row[remarkType] else 0) + 1];
      chartData := chartData[pass := row];

      var entry := Metrics(None, None);
      if functionName in metricsData {
        entry := metricsData[functionName];
      }
      MetricsStep(remarks, i, entry);
      if remark.metrics.Some? {
        var m := remark.metrics.value;
        if m.instructionsCount.Some? {
          entry := entry.(instructionsCount := m.instructionsCount);
        }
        if m.stackSize.Some? {
          entry := entry.(stackSize := m.stackSize);
        }
        metricsData := metricsData[functionName := entry];
      }
    }
    assert remarks[..|remarks|] == remarks;
    payload := Payload(chartData, metricsData, remarks);
    AggregateFacts(remarks);
  }
}

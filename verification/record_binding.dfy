/**
 * Binding rows to records: a binding plan compiled once from the record's
 * field descriptors and the stream's index, then replayed on every row.
 */
module RecordBinding {
  import opened Wrappers
  import opened Tokenizer
  import opened FieldIndex
  import opened RowStream

  /** What reflection reveals about one struct field: string kind, exportedness and its `csv` tag ("" if absent). */
  datatype FieldDesc = FieldDesc(isString: bool, exported: bool, tag: string)

  /** The plan entry of a field that is never written. */
  const Unbound: int := -1

  /** A field the binder looks up in the index: an exported string field with a non-empty tag. */
  predicate Candidate(f: FieldDesc)
  {
    f.isString && f.exported && f.tag != ""
  }

  /** A field that gets a column: a candidate whose tag the index knows. */
  predicate Binds(f: FieldDesc, idx: map<string, nat>)
  {
    Candidate(f) && f.tag in idx
  }

  /** The plan entry for one field. */
  function Slot(idx: map<string, nat>, f: FieldDesc): int
  {
    if !f.isString || !f.exported then Unbound
    else if f.tag == "" then Unbound
    else if f.tag in idx then idx[f.tag]
    else Unbound
  }

  /** The binding plan: one entry per struct field, in declaration order. */
  function BuildPlan(idx: map<string, nat>, shape: seq<FieldDesc>): (plan: seq<int>)
    ensures |plan| == |shape|
    ensures forall i :: 0 <= i < |shape| ==> (plan[i] != Unbound <==> Binds(shape[i], idx))
    ensures forall i :: 0 <= i < |shape| && Binds(shape[i], idx) ==> plan[i] == idx[shape[i].tag]
    decreases |shape|
  {
    if |shape| == 0 then []
    else
      var init := shape[..|shape| - 1];
      assert forall i :: 0 <= i < |init| ==> init[i] == shape[i];
      BuildPlan(idx, init) + [Slot(idx, shape[|shape| - 1])]
  }

  /** Every bound entry of the plan names a column the record has. */
  predicate PlanFits(plan: seq<int>, record: seq<string>)
  {
    forall i :: 0 <= i < |plan| ==> plan[i] == Unbound || 0 <= plan[i] < |record|
  }

  /** Replays the plan on a record: bound fields take their column, the others keep their value. */
  function ApplyPlan(record: seq<string>, plan: seq<int>, v: seq<string>): (w: seq<string>)
    requires |plan| == |v|
    requires PlanFits(plan, record)
    ensures |w| == |v|
    ensures forall i :: 0 <= i < |v| ==> w[i] == (if plan[i] == Unbound then v[i] else record[plan[i]])
    decreases |plan|
  {
    if |plan| == 0 then []
    else
      var head := if plan[0] == Unbound then v[0] else record[plan[0]];
      var rest := ApplyPlan(record, plan[1..], v[1..]);
      assert forall i :: 1 <= i < |v| ==> ([head] + rest)[i] == rest[i - 1];
      [head] + rest
  }

  /** Replaying the plan overwrites every bound field, so an earlier replay leaves no trace. */
  lemma ApplyPlanOverwrites(a: seq<string>, b: seq<string>, plan: seq<int>, v: seq<string>)
    requires |plan| == |v| && PlanFits(plan, a) && PlanFits(plan, b)
    ensures ApplyPlan(b, plan, ApplyPlan(a, plan, v)) == ApplyPlan(b, plan, v)
  {
  }

  /** Every bound field's column exists in the row's record. */
  predicate BindingsFit(r: Row, shape: seq<FieldDesc>)
  {
    forall i :: 0 <= i < |shape| && Binds(shape[i], r.idx) ==> r.idx[shape[i].tag] < |r.record|
  }

  lemma BindingsFitPlan(r: Row, shape: seq<FieldDesc>)
    requires BindingsFit(r, shape)
    ensures PlanFits(BuildPlan(r.idx, shape), r.record)
  {
  }

  /** A row long enough for every lookup fits every binding. */
  lemma CoveredRowFits(r: Row, shape: seq<FieldDesc>)
    requires Covers(r)
    ensures BindingsFit(r, shape)
  {
  }

  /**
   * Scans one row into a record: a field whose tag names a column takes the
   * value `Field` gives for that name; every other field is left as it was.
   */
  function RowScan(r: Row, shape: seq<FieldDesc>, v: seq<string>): (w: seq<string>)
    requires |v| == |shape|
    requires BindingsFit(r, shape)
    ensures |w| == |v|
    ensures forall i :: 0 <= i < |shape| ==>
      w[i] == (if Binds(shape[i], r.idx) then Field(r, shape[i].tag) else v[i])
  {
    var plan := BuildPlan(r.idx, shape);
    BindingsFitPlan(r, shape);
    ApplyPlan(r.record, plan, v)
  }

  /**
   * Scan's loop over the elements of the row stream with a fixed plan and
   * the record threaded through: one `nil` per row, holding the record as
   * it stands after that row, or the error, after which the loop returns.
   * Each snapshot depends only on its own row and the starting record.
   */
  function ScanSteps(items: seq<Step<Row>>, plan: seq<int>, v: seq<string>): (out: seq<Step<seq<string>>>)
    requires |plan| == |v|
    requires forall i :: 0 <= i < |items| && items[i].Yielded? ==> PlanFits(plan, items[i].value.record)
    ensures Replayed(items, plan, v, out)
    decreases |items|
  {
    if |items| == 0 then []
    else
      match items[0]
      case Failed(e) => [Failed(e)]
      case Yielded(r) =>
        var w := ApplyPlan(r.record, plan, v);
        assert forall i :: 1 <= i < |items| ==> items[1..][i - 1] == items[i];
        var rest := ScanSteps(items[1..], plan, w);
        StopsAtErrorCons(r, items[1..], Yielded(w), rest);
        ReplaysRowsCons(r, items[1..], plan, v, rest);
        assert items == [Yielded(r)] + items[1..];
        [Yielded(w)] + rest
  }

  /**
   * The snapshots of Scan's loop: at most one per element, an error passed
   * through as the last one, every row giving the plan replayed on its
   * record over `v`, and nothing missing unless an error ended the loop.
   */
  ghost predicate Replayed(items: seq<Step<Row>>, plan: seq<int>, v: seq<string>, out: seq<Step<seq<string>>>)
    requires |plan| == |v|
    requires forall i :: 0 <= i < |items| && items[i].Yielded? ==> PlanFits(plan, items[i].value.record)
  {
    StopsAtError(items, out) && ReplaysRows(items, plan, v, out)
  }

  /** One snapshot per element up to and including the first error, which is passed through and ends the loop. */
  ghost predicate StopsAtError(items: seq<Step<Row>>, out: seq<Step<seq<string>>>)
  {
    && |out| <= |items|
    && (forall i :: 0 <= i < |out| && items[i].Failed? ==> out[i] == Failed(items[i].err) && i == |out| - 1)
    && (|out| < |items| ==> 0 < |out| && items[|out| - 1].Failed?)
  }

  /** Every row's snapshot is the plan replayed on its record over `v`. */
  ghost predicate ReplaysRows(items: seq<Step<Row>>, plan: seq<int>, v: seq<string>, out: seq<Step<seq<string>>>)
    requires |plan| == |v|
    requires forall i :: 0 <= i < |items| && items[i].Yielded? ==> PlanFits(plan, items[i].value.record)
  {
    forall i :: 0 <= i < |out| && i < |items| && items[i].Yielded? ==>
      out[i] == Yielded(ApplyPlan(items[i].value.record, plan, v))
  }

  /** A row's snapshot in front keeps the loop's shape. */
  lemma StopsAtErrorCons(head: Row, tail: seq<Step<Row>>, x: Step<seq<string>>, rest: seq<Step<seq<string>>>)
    requires StopsAtError(tail, rest)
    ensures StopsAtError([Yielded(head)] + tail, [x] + rest)
  {
    var items := [Yielded(head)] + tail;
    var out := [x] + rest;
    assert forall i :: 0 < i < |items| ==> items[i] == tail[i - 1];
    assert forall i :: 0 < i < |out| ==> out[i] == rest[i - 1];
  }

  /** The loop's step over a row: the record it leaves behind is overwritten by every later row. */
  lemma ReplaysRowsCons(head: Row, tail: seq<Step<Row>>, plan: seq<int>, v: seq<string>, rest: seq<Step<seq<string>>>)
    requires |plan| == |v| && PlanFits(plan, head.record)
    requires forall i :: 0 <= i < |tail| && tail[i].Yielded? ==> PlanFits(plan, tail[i].value.record)
    requires ReplaysRows(tail, plan, ApplyPlan(head.record, plan, v), rest)
    ensures var items := [Yielded(head)] + tail;
      && (forall i :: 0 <= i < |items| && items[i].Yielded? ==> PlanFits(plan, items[i].value.record))
      && ReplaysRows(items, plan, v, [Yielded(ApplyPlan(head.record, plan, v))] + rest)
  {
    var w := ApplyPlan(head.record, plan, v);
    var items := [Yielded(head)] + tail;
    var out := [Yielded(w)] + rest;
    assert forall i :: 0 < i < |items| ==> items[i] == tail[i - 1];
    forall i | 0 < i < |out| && i < |items| && items[i].Yielded?
      ensures out[i] == Yielded(ApplyPlan(items[i].value.record, plan, v))
    {
      assert out[i] == rest[i - 1];
      ApplyPlanOverwrites(head.record, items[i].value.record, plan, v);
    }
  }

  /**
   * The stream may be scanned without a panic: a leading error comes with
   * no candidate field (the plan is built from a nil row, which is only
   * safe when no lookup happens), and every row fits every binding.
   */
  ghost predicate ScanSafe(items: seq<Step<Row>>, shape: seq<FieldDesc>)
  {
    && (|items| > 0 && items[0].Failed? ==> forall i :: 0 <= i < |shape| ==> !Candidate(shape[i]))
    && forall i :: 0 <= i < |items| && items[i].Yielded? ==> BindingsFit(items[i].value, shape)
  }

  /** Each scanned element is its row scanned into `v`, or the same error. */
  ghost predicate ScansOf(items: seq<Step<Row>>, scans: seq<Step<seq<string>>>, shape: seq<FieldDesc>, v: seq<string>)
    requires |v| == |shape|
    requires forall i :: 0 <= i < |items| && items[i].Yielded? ==> BindingsFit(items[i].value, shape)
  {
    && |scans| == |items|
    && (forall i :: 0 <= i < |items| && items[i].Failed? ==> scans[i] == Failed(items[i].err))
    && (forall i :: 0 <= i < |items| && items[i].Yielded? ==> scans[i] == Yielded(RowScan(items[i].value, shape, v)))
  }

  /**
   * The elements `Scan` hands to its consumer, starting from record `v`:
   * one per element of the row stream, a row becoming the record as
   * `RowScan` leaves it and an error passing through; the reads are the
   * row stream's.
   */
  function Scan(o: Options, tokenize: Tokenize, shape: seq<FieldDesc>, v: seq<string>, c: Consumer): (s: Trace<seq<string>>)
    requires |v| == |shape|
    requires ScanSafe(Rows(o, tokenize, c).items, shape)
    ensures s.readCount == Rows(o, tokenize, c).readCount
    ensures ScansOf(Rows(o, tokenize, c).items, s.items, shape, v)
  {
    var t := Rows(o, tokenize, c);
    RowsShareIndex(o, tokenize, c);
    var idx := PlanIndex(t.items);
    SharedPlanFits(t.items, idx, shape);
    ScanStepsScans(t.items, idx, shape, v);
    Trace(ScanSteps(t.items, BuildPlan(idx, shape), v), t.readCount)
  }

  /**
   * The index Scan builds its plan from: the first row's. With a leading
   * error the row is nil; under ScanSafe no index lookup then happens, so
   * the plan is the one an empty index gives.
   */
  function PlanIndex(items: seq<Step<Row>>): map<string, nat>
  {
    if |items| > 0 && items[0].Yielded? then items[0].value.idx else map[]
  }

  /** Only the last element of the row stream can be an error, and every row has the first row's index. */
  lemma RowsShareIndex(o: Options, tokenize: Tokenize, c: Consumer)
    ensures var items := Rows(o, tokenize, c).items;
      && (forall i :: 0 <= i < |items| - 1 ==> items[i].Yielded?)
      && (forall i :: 0 <= i < |items| && items[i].Yielded? ==> items[i].value.idx == PlanIndex(items))
  {
    RowsShape(o, tokenize, c);
  }

  /** A plan built from the rows' shared index fits every row whose bindings fit. */
  lemma SharedPlanFits(items: seq<Step<Row>>, idx: map<string, nat>, shape: seq<FieldDesc>)
    requires forall i :: 0 <= i < |items| && items[i].Yielded? ==> items[i].value.idx == idx
    requires forall i :: 0 <= i < |items| && items[i].Yielded? ==> BindingsFit(items[i].value, shape)
    ensures forall i :: 0 <= i < |items| && items[i].Yielded? ==> PlanFits(BuildPlan(idx, shape), items[i].value.record)
  {
    forall i | 0 <= i < |items| && items[i].Yielded?
      ensures PlanFits(BuildPlan(idx, shape), items[i].value.record)
    {
      BindingsFitPlan(items[i].value, shape);
    }
  }

  /** Replaying the shared plan over the row stream scans each row into `v` and passes the one error through. */
  lemma ScanStepsScans(items: seq<Step<Row>>, idx: map<string, nat>, shape: seq<FieldDesc>, v: seq<string>)
    requires |v| == |shape|
    requires forall i :: 0 <= i < |items| - 1 ==> items[i].Yielded?
    requires forall i :: 0 <= i < |items| && items[i].Yielded? ==> items[i].value.idx == idx
    requires forall i :: 0 <= i < |items| && items[i].Yielded? ==> BindingsFit(items[i].value, shape)
    requires forall i :: 0 <= i < |items| && items[i].Yielded? ==> PlanFits(BuildPlan(idx, shape), items[i].value.record)
    ensures ScansOf(items, ScanSteps(items, BuildPlan(idx, shape), v), shape, v)
  {
    var plan := BuildPlan(idx, shape);
    var out := ScanSteps(items, plan, v);
    assert |out| == |items|;
    forall i | 0 <= i < |items| && items[i].Yielded?
      ensures out[i] == Yielded(RowScan(items[i].value, shape, v))
    {
      assert BuildPlan(items[i].value.idx, shape) == plan;
    }
  }

  /** The record Go's `var v T` starts from ("" stands in for the zero value of non-string fields, which are never written). */
  function Zero(shape: seq<FieldDesc>): (v: seq<string>)
    ensures |v| == |shape|
  {
    seq(|shape|, _ => "")
  }

  /**
   * Scans every row into a fresh record. Once the header is settled, the
   * result is an error exactly when the first non-record read is an error;
   * otherwise it holds, per record in order, the zero record with the bound
   * fields filled from that record.
   */
  function ScanAll(o: Options, tokenize: Tokenize, shape: seq<FieldDesc>): (r: Result<seq<seq<string>>, ReadError>)
    requires ScanSafe(Rows(o, tokenize, Exhaust).items, shape)
    ensures ScannedBatch(r, Resolve(o, Source(o, tokenize)), Source(o, tokenize), shape)
  {
    var src := Source(o, tokenize);
    var t := Rows(o, tokenize, Exhaust);
    var s := Scan(o, tokenize, shape, Zero(shape), Exhaust);
    ScannedRows(t, s.items, Resolve(o, src), src, shape);
    Collect(s.items)
  }

  /**
   * The records scanned after header `h`: nothing without data, the header's
   * own error, or else, for the records after the header, the error that
   * ended them if there was one and otherwise, per record in order, the zero
   * record with the bound fields filled from that record.
   */
  ghost predicate ScannedBatch(r: Result<seq<seq<string>>, ReadError>, h: Header, src: seq<ReadResult>, shape: seq<FieldDesc>)
  {
    && (h.NoData? ==> r == Success([]))
    && (h.HeaderFailed? ==> r == Failure(h.err))
    && (h.Ready? ==>
          var recs := DataRecords(src, h.start);
          var last := ReadAt(src, h.start + |recs|);
          && (r.Failure? <==> last.Fail?)
          && (r.Failure? ==> r.error == last.err)
          && (r.Success? ==> |r.value| == |recs|)
          && (r.Success? ==> forall i :: 0 <= i < |recs| ==>
                BindingsFit(Row(h.idx, recs[i]), shape)
                && r.value[i] == RowScan(Row(h.idx, recs[i]), shape, Zero(shape))))
  }

  /** The collected scans of a drained stream, by the cases of its header. */
  lemma ScannedRows(t: Trace<Row>, scans: seq<Step<seq<string>>>, h: Header, src: seq<ReadResult>, shape: seq<FieldDesc>)
    requires RowsFrom(t, h, src, Exhaust)
    requires ScanSafe(t.items, shape)
    requires ScansOf(t.items, scans, shape, Zero(shape))
    ensures ScannedBatch(Collect(scans), h, src, shape)
  {
    if h.Ready? {
      var recs := DataRecords(src, h.start);
      DrainedStreamShape(t, h, src);
      ScannedDrainedStream(t.items, scans, h.idx, recs, ReadAt(src, h.start + |recs|), shape);
    } else if h.NoData? {
      assert scans == [];
    } else {
      assert scans[0] == Failed(h.err);
      CollectAtError(scans, 0, h.err);
    }
  }

  /** ScanAll's result in terms of the records read, once the data-row loop has run to its end. */
  lemma ScannedDrainedStream(items: seq<Step<Row>>, scans: seq<Step<seq<string>>>, idx: map<string, nat>,
                             recs: seq<seq<string>>, last: ReadResult, shape: seq<FieldDesc>)
    requires DrainedShape(items, idx, recs, last)
    requires ScanSafe(items, shape)
    requires ScansOf(items, scans, shape, Zero(shape))
    ensures var r := Collect(scans);
      && (r.Failure? <==> last.Fail?)
      && (r.Failure? ==> r.error == last.err)
      && (r.Success? ==> |r.value| == |recs|)
      && (r.Success? ==> forall i :: 0 <= i < |recs| ==>
            BindingsFit(Row(idx, recs[i]), shape)
            && r.value[i] == RowScan(Row(idx, recs[i]), shape, Zero(shape)))
  {
    if last.Fail? {
      assert forall i :: 0 <= i < |recs| ==> scans[i].Yielded?;
      CollectAtError(scans, |recs|, last.err);
    } else {
      ScansOfRecords(items, scans, idx, recs, shape);
    }
  }

  /** Rows alone: ScanAll returns one scanned record per data record. */
  lemma ScansOfRecords(items: seq<Step<Row>>, scans: seq<Step<seq<string>>>, idx: map<string, nat>,
                       recs: seq<seq<string>>, shape: seq<FieldDesc>)
    requires RowsOf(items, |recs|, idx, recs) && |items| == |recs|
    requires ScanSafe(items, shape)
    requires ScansOf(items, scans, shape, Zero(shape))
    ensures var r := Collect(scans);
      && r.Success? && |r.value| == |recs|
      && forall i :: 0 <= i < |recs| ==>
           BindingsFit(Row(idx, recs[i]), shape) && r.value[i] == RowScan(Row(idx, recs[i]), shape, Zero(shape))
  {
    assert forall i :: 0 <= i < |scans| ==> scans[i].Yielded?;
    var r := Collect(scans);
    forall i | 0 <= i < |recs|
      ensures BindingsFit(Row(idx, recs[i]), shape) && r.value[i] == RowScan(Row(idx, recs[i]), shape, Zero(shape))
    {
      assert items[i] == Yielded(Row(idx, recs[i]));
    }
  }

  /** A field that no column binds keeps its zero value in every record ScanAll returns: nothing leaks between rows. */
  lemma ScanAllUnboundStayZero(o: Options, tokenize: Tokenize, shape: seq<FieldDesc>, i: nat, f: nat)
    requires ScanSafe(Rows(o, tokenize, Exhaust).items, shape)
    requires ScanAll(o, tokenize, shape).Success?
    requires i < |ScanAll(o, tokenize, shape).value|
    requires f < |shape| && !Candidate(shape[f])
    ensures ScanAll(o, tokenize, shape).value[i][f] == ""
  {
    var src := Source(o, tokenize);
    var r := ScanAll(o, tokenize, shape);
    match Resolve(o, src)
    case Ready(idx, start) =>
      var recs := DataRecords(src, start);
      assert r.value[i] == RowScan(Row(idx, recs[i]), shape, Zero(shape));
    case _ =>
  }
}

/**
 * The row stream: header resolution, the pull loop over the tokenizer,
 * early stop by the consumer, and the all-or-nothing batch read.
 */
module RowStream {
  import opened Wrappers
  import opened Tokenizer
  import opened FieldIndex

  /** One element handed to the consumer: `(row, nil)` or `(nil, err)`. */
  datatype Step<T> = Yielded(value: T) | Failed(err: ReadError)

  /** The elements handed to the consumer and the number of tokenizer Read calls made. */
  datatype Trace<T> = Trace(items: seq<Step<T>>, readCount: nat)

  /**
   * The consumer's `yield`: it either always answers true, or answers false
   * when handed data row number `k` (0-based).
   */
  datatype Consumer = Exhaust | StopAt(k: nat)

  /** What `yield` answers for data row number `j`. */
  predicate Continues(c: Consumer, j: nat)
  {
    !(c.StopAt? && c.k <= j)
  }

  /** The records returned by the reads from `pos` on, up to the first read that is not a record. */
  function DataRecords(src: seq<ReadResult>, pos: nat): (recs: seq<seq<string>>)
    ensures forall i :: 0 <= i < |recs| ==> ReadAt(src, pos + i) == Rec(recs[i])
    ensures !ReadAt(src, pos + |recs|).Rec?
    decreases |src| - pos
  {
    match ReadAt(src, pos)
    case Rec(record) =>
      var rest := DataRecords(src, pos + 1);
      assert forall i :: 1 <= i <= |rest| ==> ([record] + rest)[i] == rest[i - 1];
      [record] + rest
    case _ => []
  }

  /** The first `n` items are the rows of the first `n` records, in order, all under `idx`. */
  ghost predicate RowsOf(items: seq<Step<Row>>, n: nat, idx: map<string, nat>, recs: seq<seq<string>>)
  {
    && n <= |items|
    && n <= |recs|
    && forall i :: 0 <= i < n ==> items[i] == Yielded(Row(idx, recs[i]))
  }

  /**
   * The full characterisation of the data-row loop started at read `pos`,
   * with `j` rows already handed to the consumer. If the consumer declines a
   * row before the records run out, exactly the rows up to that one are
   * yielded and nothing more is read. Otherwise every record up to the first
   * non-record read is yielded, followed by that read's error if it was one
   * (end of stream adds nothing), and reading stops right after it.
   */
  ghost predicate Streamed(t: Trace<Row>, idx: map<string, nat>, src: seq<ReadResult>, pos: nat, c: Consumer, j: nat)
  {
    var recs := DataRecords(src, pos);
    var last := ReadAt(src, pos + |recs|);
    if c.StopAt? && c.k - j < |recs| then
      && |t.items| == c.k - j + 1
      && RowsOf(t.items, |t.items|, idx, recs)
      && t.readCount == pos + |t.items|
    else
      && RowsOf(t.items, |recs|, idx, recs)
      && (if last.Fail?
          then |t.items| == |recs| + 1 && t.items[|recs|] == Failed(last.err)
          else |t.items| == |recs|)
      && t.readCount == pos + |recs| + 1
  }

  /** The data-row loop: read, stop silently on end of stream, yield an error once and stop, or yield the row. */
  function Stream(idx: map<string, nat>, src: seq<ReadResult>, pos: nat, c: Consumer, j: nat): (t: Trace<Row>)
    requires c.StopAt? ==> j <= c.k
    ensures Streamed(t, idx, src, pos, c, j)
    decreases |src| - pos
  {
    match ReadAt(src, pos)
    case EOF => Trace([], pos + 1)
    case Fail(e) => Trace([Failed(e)], pos + 1)
    case Rec(record) =>
      var item := Yielded(Row(idx, record));
      if !Continues(c, j) then Trace([item], pos + 1)
      else
        var rest := Stream(idx, src, pos + 1, c, j + 1);
        StreamedStep(idx, src, pos, c, j, record, rest);
        Trace([item] + rest.items, rest.readCount)
  }

  /** One accepted row in front of the rest of the loop. */
  lemma StreamedStep(idx: map<string, nat>, src: seq<ReadResult>, pos: nat, c: Consumer, j: nat,
                     record: seq<string>, rest: Trace<Row>)
    requires ReadAt(src, pos) == Rec(record) && Continues(c, j)
    requires c.StopAt? ==> j + 1 <= c.k
    requires Streamed(rest, idx, src, pos + 1, c, j + 1)
    ensures Streamed(Trace([Yielded(Row(idx, record))] + rest.items, rest.readCount), idx, src, pos, c, j)
  {
    var recs := DataRecords(src, pos + 1);
    assert DataRecords(src, pos) == [record] + recs;
    var items := [Yielded(Row(idx, record))] + rest.items;
    assert forall i :: 1 <= i < |items| ==> items[i] == rest.items[i - 1];
  }

  /** How the field names are settled before the first data row. */
  datatype Header = NoData | HeaderFailed(err: ReadError) | Ready(idx: map<string, nat>, start: nat)

  /** Explicit names are used as given; otherwise the first read supplies them. */
  function Resolve(o: Options, src: seq<ReadResult>): Header
  {
    match o.fieldNames
    case Some(names) => Ready(BuildIndex(names), 0)
    case None =>
      match ReadAt(src, 0)
      case EOF => NoData
      case Fail(e) => HeaderFailed(e)
      case Rec(header) => Ready(BuildIndex(header), 1)
  }

  /** The number of reads spent on the header: one unless names were given. */
  function HeaderReads(o: Options): nat
  {
    if o.fieldNames.None? then 1 else 0
  }

  /** The trace of `Rows` once the header is settled: nothing, the header's error alone, or the data-row loop. */
  ghost predicate RowsFrom(t: Trace<Row>, h: Header, src: seq<ReadResult>, c: Consumer)
  {
    match h
    case NoData => t == Trace([], 1)
    case HeaderFailed(e) => t == Trace([Failed(e)], 1)
    case Ready(idx, start) => Streamed(t, idx, src, start, c, 0)
  }

  /** The elements `Rows` hands to the consumer and the reads it makes. */
  function Rows(o: Options, tokenize: Tokenize, c: Consumer): (t: Trace<Row>)
    ensures RowsFrom(t, Resolve(o, Source(o, tokenize)), Source(o, tokenize), c)
  {
    var src := Source(o, tokenize);
    match Resolve(o, src)
    case NoData => Trace([], 1)
    case HeaderFailed(e) => Trace([Failed(e)], 1)
    case Ready(idx, start) => Stream(idx, src, start, c, 0)
  }

  /**
   * Header handling: without names, the first read is the header and is
   * never yielded; its end of stream yields nothing and its error is
   * yielded alone. With names, no header is read and the first record is
   * row one.
   */
  lemma HeaderHandling(o: Options, tokenize: Tokenize, c: Consumer)
    ensures var t := Rows(o, tokenize, c); var src := Source(o, tokenize);
      && (o.fieldNames.None? && ReadAt(src, 0).EOF? ==> t.items == [] && t.readCount == 1)
      && (o.fieldNames.None? && ReadAt(src, 0).Fail? ==> t.items == [Failed(ReadAt(src, 0).err)] && t.readCount == 1)
      && (o.fieldNames.None? && ReadAt(src, 0).Rec? ==>
            Streamed(t, BuildIndex(ReadAt(src, 0).fields), src, 1, c, 0))
      && (o.fieldNames.Some? ==> Streamed(t, BuildIndex(o.fieldNames.value), src, 0, c, 0))
  {
  }

  /**
   * The rows are the records after the header, in source order, all under
   * the one index built before the first row; an error can only come last.
   */
  lemma RowsShape(o: Options, tokenize: Tokenize, c: Consumer)
    ensures var t := Rows(o, tokenize, c); var src := Source(o, tokenize);
      && (forall i :: 0 <= i < |t.items| - 1 ==> t.items[i].Yielded?)
      && match Resolve(o, src)
         case Ready(idx, start) =>
           var recs := DataRecords(src, start);
           forall i :: 0 <= i < |t.items| && t.items[i].Yielded? ==> i < |recs| && t.items[i].value == Row(idx, recs[i])
         case _ => forall i :: 0 <= i < |t.items| ==> t.items[i].Failed?
  {
    var t := Rows(o, tokenize, c);
    var src := Source(o, tokenize);
    match Resolve(o, src)
    case Ready(idx, start) =>
      assert Streamed(t, idx, src, start, c, 0);
    case _ =>
  }

  /**
   * A consumer that stops after row `k` sees a prefix of what a draining
   * consumer sees, and once row `k` has been handed over no further read
   * is made.
   */
  lemma EarlyStopIsPrefix(o: Options, tokenize: Tokenize, k: nat)
    ensures var full := Rows(o, tokenize, Exhaust); var part := Rows(o, tokenize, StopAt(k));
      && |part.items| <= k + 1
      && part.items == full.items[..if |full.items| < k + 1 then |full.items| else k + 1]
      && part.readCount <= full.readCount
      && (|part.items| == k + 1 && part.items[k].Yielded? ==> part.readCount == HeaderReads(o) + k + 1)
  {
    var full := Rows(o, tokenize, Exhaust);
    var part := Rows(o, tokenize, StopAt(k));
    var src := Source(o, tokenize);
    match Resolve(o, src)
    case Ready(idx, start) =>
      assert Streamed(full, idx, src, start, Exhaust, 0);
      assert Streamed(part, idx, src, start, StopAt(k), 0);
      if k < |DataRecords(src, start)| {
        assert part.items == full.items[..k + 1];
      } else {
        assert part.items == full.items;
      }
    case _ =>
  }

  /** When every read from `pos` to the end is a record, those are the data records. */
  lemma {:induction false} DataRecordsOfCleanInput(src: seq<ReadResult>, pos: nat, data: seq<seq<string>>)
    requires pos + |data| == |src|
    requires forall i :: 0 <= i < |data| ==> src[pos + i] == Rec(data[i])
    ensures DataRecords(src, pos) == data
    decreases |data|
  {
    if |data| > 0 {
      assert src[pos + 0] == Rec(data[0]);
      forall i | 0 <= i < |data[1..]|
        ensures src[pos + 1 + i] == Rec(data[1..][i])
      {
        assert src[pos + (i + 1)] == Rec(data[i + 1]);
      }
      DataRecordsOfCleanInput(src, pos + 1, data[1..]);
      assert data == [data[0]] + data[1..];
    }
  }

  /**
   * A header followed by N records and the end of the stream yields exactly
   * the N rows, in order, under the header's index, with no trailing error;
   * the reads are the header, the N records and the final end of stream.
   */
  lemma AllRowsOfCleanInput(o: Options, tokenize: Tokenize, header: seq<string>, data: seq<seq<string>>)
    requires o.fieldNames.None?
    requires var src := Source(o, tokenize);
      && |src| == |data| + 1 && src[0] == Rec(header)
      && forall i :: 0 <= i < |data| ==> src[1 + i] == Rec(data[i])
    ensures var t := Rows(o, tokenize, Exhaust);
      && |t.items| == |data|
      && t.readCount == |data| + 2
      && forall i :: 0 <= i < |data| ==> t.items[i] == Yielded(Row(BuildIndex(header), data[i]))
  {
    var src := Source(o, tokenize);
    DataRecordsOfCleanInput(src, 1, data);
    assert Streamed(Rows(o, tokenize, Exhaust), BuildIndex(header), src, 1, Exhaust, 0);
  }

  /**
   * With explicit names and only records in the input, each long enough for
   * the names, ReadAll returns one snapshot per record, in order.
   */
  lemma ReadAllOfCleanInput(o: Options, tokenize: Tokenize, data: seq<seq<string>>)
    requires o.fieldNames.Some?
    requires var src := Source(o, tokenize);
      |src| == |data| && forall i :: 0 <= i < |data| ==> src[i] == Rec(data[i])
    requires forall i :: 0 <= i < |data| ==> |o.fieldNames.value| <= |data[i]|
    ensures RowsCovered(Rows(o, tokenize, Exhaust).items)
    ensures var r := ReadAll(o, tokenize); var idx := BuildIndex(o.fieldNames.value);
      && r.Success? && |r.value| == |data|
      && forall i :: 0 <= i < |data| ==> Covers(Row(idx, data[i])) && r.value[i] == Fields(Row(idx, data[i]))
  {
    var src := Source(o, tokenize);
    var idx := BuildIndex(o.fieldNames.value);
    DataRecordsOfCleanInput(src, 0, data);
    forall i | 0 <= i < |data|
      ensures Covers(Row(idx, data[i]))
    {
      IndexCoversIff(o.fieldNames.value, data[i]);
    }
    var h := Resolve(o, src);
    assert h == Ready(idx, 0);
    DrainedStreamShape(Rows(o, tokenize, Exhaust), h, src);
    assert ReadAt(src, |data|) == EOF;
  }

  /** Every row handed over is long enough for every index lookup. */
  predicate RowsCovered(items: seq<Step<Row>>)
  {
    forall i :: 0 <= i < |items| && items[i].Yielded? ==> Covers(items[i].value)
  }

  /** All-or-nothing collection: every value in order, or the first error and nothing else. */
  function Collect<T>(items: seq<Step<T>>): (r: Result<seq<T>, ReadError>)
    ensures r.Success? <==> forall i :: 0 <= i < |items| ==> items[i].Yielded?
    ensures r.Success? ==> |r.value| == |items| && forall i :: 0 <= i < |items| ==> r.value[i] == items[i].value
    ensures r.Failure? ==>
      exists i :: 0 <= i < |items| && items[i] == Failed(r.error) && forall p :: 0 <= p < i ==> items[p].Yielded?
    decreases |items|
  {
    if |items| == 0 then Success([])
    else
      match items[0]
      case Failed(e) => Failure(e)
      case Yielded(v) =>
        var rest := Collect(items[1..]);
        assert forall i :: 1 <= i < |items| ==> items[1..][i - 1] == items[i];
        match rest
        case Failure(e) =>
          var w :| 0 <= w < |items[1..]| && items[1..][w] == Failed(e)
                   && forall p :: 0 <= p < w ==> items[1..][p].Yielded?;
          assert items[w + 1] == Failed(e);
          Failure(e)
        case Success(vs) => Success([v] + vs)
  }

  /** The `Fields` snapshot of each row, errors passed along. */
  function SnapshotAll(items: seq<Step<Row>>): (out: seq<Step<map<string, string>>>)
    requires RowsCovered(items)
    ensures |out| == |items|
    ensures forall i :: 0 <= i < |items| ==>
      (items[i].Yielded? ==> out[i] == Yielded(Fields(items[i].value)))
      && (items[i].Failed? ==> out[i] == Failed(items[i].err))
    decreases |items|
  {
    if |items| == 0 then []
    else
      var head := match items[0]
        case Yielded(r) => Yielded(Fields(r))
        case Failed(e) => Failed(e);
      [head] + SnapshotAll(items[1..])
  }

  /**
   * Reads every row into a name-to-value map. Once the header is settled,
   * the result is an error exactly when the first non-record read is an
   * error, and is that error; otherwise it holds one snapshot per record, in
   * order.
   */
  function ReadAll(o: Options, tokenize: Tokenize): (r: Result<seq<map<string, string>>, ReadError>)
    requires RowsCovered(Rows(o, tokenize, Exhaust).items)
    ensures Batch(r, Resolve(o, Source(o, tokenize)), Source(o, tokenize))
  {
    var src := Source(o, tokenize);
    var t := Rows(o, tokenize, Exhaust);
    CollectedRows(t, Resolve(o, src), src);
    Collect(SnapshotAll(t.items))
  }

  /**
   * The batch read after header `h`: nothing without data, the header's own
   * error, or else, for the records after the header, the error that ended
   * them if there was one and otherwise one snapshot per record, in order.
   */
  ghost predicate Batch(r: Result<seq<map<string, string>>, ReadError>, h: Header, src: seq<ReadResult>)
  {
    && (h.NoData? ==> r == Success([]))
    && (h.HeaderFailed? ==> r == Failure(h.err))
    && (h.Ready? ==>
          var recs := DataRecords(src, h.start);
          var last := ReadAt(src, h.start + |recs|);
          && (r.Failure? <==> last.Fail?)
          && (r.Failure? ==> r.error == last.err)
          && (r.Success? ==> |r.value| == |recs|)
          && (r.Success? ==> forall i :: 0 <= i < |recs| ==>
                Covers(Row(h.idx, recs[i])) && r.value[i] == Fields(Row(h.idx, recs[i]))))
  }

  /** Snapshots of a drained stream, by the cases of its header. */
  lemma CollectedRows(t: Trace<Row>, h: Header, src: seq<ReadResult>)
    requires RowsFrom(t, h, src, Exhaust)
    requires RowsCovered(t.items)
    ensures Batch(Collect(SnapshotAll(t.items)), h, src)
  {
    if h.Ready? {
      var recs := DataRecords(src, h.start);
      DrainedStreamShape(t, h, src);
      SnapshotsOfDrainedStream(t.items, h.idx, recs, ReadAt(src, h.start + |recs|));
    } else if h.NoData? {
      NothingCollected(t.items);
    } else {
      HeaderErrorCollected(t.items, h.err);
    }
  }

  /** No elements collect to the empty result. */
  lemma NothingCollected(items: seq<Step<Row>>)
    requires items == []
    ensures RowsCovered(items) && Collect(SnapshotAll(items)) == Success([])
  {
  }

  /** A lone header error is what ReadAll returns. */
  lemma HeaderErrorCollected(items: seq<Step<Row>>, e: ReadError)
    requires items == [Failed(e)]
    ensures RowsCovered(items) && Collect(SnapshotAll(items)) == Failure(e)
  {
    CollectAtError(SnapshotAll(items), 0, e);
  }

  /** Drained stream in terms of the records read: the error that ended them, or one snapshot each. */
  lemma SnapshotsOfDrainedStream(items: seq<Step<Row>>, idx: map<string, nat>, recs: seq<seq<string>>, last: ReadResult)
    requires DrainedShape(items, idx, recs, last)
    requires RowsCovered(items)
    ensures var r := Collect(SnapshotAll(items));
      && (r.Failure? <==> last.Fail?)
      && (r.Failure? ==> r.error == last.err)
      && (r.Success? ==> |r.value| == |recs|)
      && (r.Success? ==> forall i :: 0 <= i < |recs| ==>
            Covers(Row(idx, recs[i])) && r.value[i] == Fields(Row(idx, recs[i])))
  {
    if last.Fail? {
      SnapshotsUpToError(items, idx, recs, last.err);
    } else {
      SnapshotsOfRecords(items, idx, recs);
    }
  }

  /** What an exhausting consumer receives once the header is in hand: every record's row, then the error if reading failed. */
  ghost predicate DrainedShape(items: seq<Step<Row>>, idx: map<string, nat>, recs: seq<seq<string>>, last: ReadResult)
  {
    && RowsOf(items, |recs|, idx, recs)
    && (if last.Fail?
        then |items| == |recs| + 1 && items[|recs|] == Failed(last.err)
        else |items| == |recs|)
  }

  /** A drained stream after a good header has the drained shape. */
  lemma DrainedStreamShape(t: Trace<Row>, h: Header, src: seq<ReadResult>)
    requires h.Ready? && RowsFrom(t, h, src, Exhaust)
    ensures var recs := DataRecords(src, h.start);
      DrainedShape(t.items, h.idx, recs, ReadAt(src, h.start + |recs|))
  {
  }

  /** Values up to an error: the collection is that error. */
  lemma CollectAtError<T>(items: seq<Step<T>>, n: nat, e: ReadError)
    requires n < |items| && items[n] == Failed(e)
    requires forall i :: 0 <= i < n ==> items[i].Yielded?
    ensures Collect(items) == Failure(e)
  {
    var r := Collect(items);
    assert !items[n].Yielded?;
    var w :| 0 <= w < |items| && items[w] == Failed(r.error) && forall p :: 0 <= p < w ==> items[p].Yielded?;
    assert !(w < n) && !(n < w);
  }

  /** Rows followed by an error: the batch read is that error. */
  lemma SnapshotsUpToError(items: seq<Step<Row>>, idx: map<string, nat>, recs: seq<seq<string>>, e: ReadError)
    requires RowsOf(items, |recs|, idx, recs) && |items| == |recs| + 1 && items[|recs|] == Failed(e)
    requires RowsCovered(items)
    ensures Collect(SnapshotAll(items)) == Failure(e)
  {
    var snaps := SnapshotAll(items);
    assert forall i :: 0 <= i < |recs| ==> snaps[i].Yielded?;
    CollectAtError(snaps, |recs|, e);
  }

  /** Rows alone: the batch read is one snapshot per record. */
  lemma SnapshotsOfRecords(items: seq<Step<Row>>, idx: map<string, nat>, recs: seq<seq<string>>)
    requires RowsOf(items, |recs|, idx, recs) && |items| == |recs|
    requires RowsCovered(items)
    ensures var r := Collect(SnapshotAll(items));
      && r.Success? && |r.value| == |recs|
      && forall i :: 0 <= i < |recs| ==> Covers(Row(idx, recs[i])) && r.value[i] == Fields(Row(idx, recs[i]))
  {
    var snaps := SnapshotAll(items);
    assert forall i :: 0 <= i < |snaps| ==> snaps[i].Yielded?;
    var r := Collect(snaps);
    forall i | 0 <= i < |recs|
      ensures Covers(Row(idx, recs[i])) && r.value[i] == Fields(Row(idx, recs[i]))
    {
      assert items[i] == Yielded(Row(idx, recs[i]));
    }
  }
}

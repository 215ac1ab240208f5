/**
 * The package's documented scenarios, restated over an abstract tokenizer
 * and for any records of three fields (first name, last name, username);
 * the documentation uses Rob Pike, Ken Thompson and Robert Griesemer.
 */
module Examples {
  import opened Wrappers
  import opened Tokenizer
  import opened FieldIndex
  import opened RowStream
  import opened RecordBinding

  const Names: seq<string> := ["first_name", "last_name", "username"]

  /** The index the three names build. */
  const NamesIndex: map<string, nat> := map["first_name" := 0, "last_name" := 1, "username" := 2]

  lemma IndexOfNames()
    ensures BuildIndex(Names) == NamesIndex
  {
    assert Names[..2] == ["first_name", "last_name"];
    assert Names[..2][..1] == ["first_name"];
    assert Names[..2][..1][..0] == [];
  }

  /** Default options: ',' separator, no comment character, header read from the input. */
  const HeaderOptions: Options := Options(0, 0, false, false, None)

  /** Explicit names, ';' separator and '#' comments. */
  const SemicolonOptions: Options := Options(';' as int, '#' as int, false, false, Some(Names))

  /** Records of three fields each. */
  predicate Triples(data: seq<seq<string>>)
  {
    forall i :: 0 <= i < |data| ==> |data[i]| == 3
  }

  /** The reads of an input holding the header line and then the records. */
  predicate HeaderThen(src: seq<ReadResult>, data: seq<seq<string>>)
  {
    && |src| == |data| + 1
    && src[0] == Rec(Names)
    && forall i :: 0 <= i < |data| ==> src[1 + i] == Rec(data[i])
  }

  /** The reads of an input holding only the records. */
  predicate RecordsOnly(src: seq<ReadResult>, data: seq<seq<string>>)
  {
    && |src| == |data|
    && forall i :: 0 <= i < |data| ==> src[i] == Rec(data[i])
  }

  /** Header mode: one row per record, in order, and `Field("username")` reads the third column. */
  lemma HeaderModeExample(tokenize: Tokenize, data: seq<seq<string>>)
    requires Triples(data) && HeaderThen(Source(HeaderOptions, tokenize), data)
    ensures var t := Rows(HeaderOptions, tokenize, Exhaust);
      && |t.items| == |data|
      && t.readCount == |data| + 2
      && forall i :: 0 <= i < |data| ==>
           t.items[i] == Yielded(Row(NamesIndex, data[i])) && Field(t.items[i].value, "username") == data[i][2]
  {
    AllRowsOfCleanInput(HeaderOptions, tokenize, Names, data);
    IndexOfNames();
  }

  /** Stopping after the first row leaves the other records unread. */
  lemma EarlyStopExample(tokenize: Tokenize, data: seq<seq<string>>)
    requires 0 < |data| && HeaderThen(Source(HeaderOptions, tokenize), data)
    ensures var t := Rows(HeaderOptions, tokenize, StopAt(0));
      && |t.items| == 1
      && t.readCount == 2
  {
    AllRowsOfCleanInput(HeaderOptions, tokenize, Names, data);
    EarlyStopIsPrefix(HeaderOptions, tokenize, 0);
  }

  /** The map ReadAll gives for one record. */
  function Snapshot(record: seq<string>): map<string, string>
    requires |record| == 3
  {
    map["first_name" := record[0], "last_name" := record[1], "username" := record[2]]
  }

  lemma SnapshotOfRecord(record: seq<string>)
    requires |record| == 3
    ensures Fields(Row(NamesIndex, record)) == Snapshot(record)
  {
    var m := Fields(Row(NamesIndex, record));
    assert m.Keys == Snapshot(record).Keys;
  }

  /** No header is consumed: ReadAll returns one map per record. */
  lemma ExplicitNamesExample(tokenize: Tokenize, data: seq<seq<string>>)
    requires Triples(data) && RecordsOnly(Source(SemicolonOptions, tokenize), data)
    ensures RowsCovered(Rows(SemicolonOptions, tokenize, Exhaust).items)
    ensures var r := ReadAll(SemicolonOptions, tokenize);
      && r.Success?
      && |r.value| == |data|
      && forall i :: 0 <= i < |data| ==> r.value[i] == Snapshot(data[i])
  {
    ReadAllOfCleanInput(SemicolonOptions, tokenize, data);
    IndexOfNames();
    forall i | 0 <= i < |data|
      ensures Fields(Row(NamesIndex, data[i])) == Snapshot(data[i])
    {
      SnapshotOfRecord(data[i]);
    }
  }

  /** A malformed second record: the row before it, then the error once, and ReadAll keeps nothing. */
  lemma MalformedRowExample(tokenize: Tokenize, first: seq<string>, later: seq<string>, e: ReadError)
    requires |first| == 3
    requires Source(HeaderOptions, tokenize) == [Rec(Names), Rec(first), Fail(e), Rec(later)]
    ensures Rows(HeaderOptions, tokenize, Exhaust).items == [Yielded(Row(BuildIndex(Names), first)), Failed(e)]
    ensures RowsCovered(Rows(HeaderOptions, tokenize, Exhaust).items)
    ensures ReadAll(HeaderOptions, tokenize) == Failure(e)
  {
    var src := Source(HeaderOptions, tokenize);
    var h := Resolve(HeaderOptions, src);
    assert h == Ready(BuildIndex(Names), 1);
    assert DataRecords(src, 2) == [];
    assert DataRecords(src, 1) == [first];
    var t := Rows(HeaderOptions, tokenize, Exhaust);
    DrainedStreamShape(t, h, src);
    assert t.items == [Yielded(Row(BuildIndex(Names), first)), Failed(e)];
    IndexCoversIff(Names, first);
  }

  /** `struct { Username, First, Last string }` with `csv` tags. */
  const User: seq<FieldDesc> := [
    FieldDesc(true, true, "username"),
    FieldDesc(true, true, "first_name"),
    FieldDesc(true, true, "last_name")]

  lemma ScanUser(record: seq<string>)
    requires |record| == 3
    ensures BindingsFit(Row(NamesIndex, record), User)
    ensures RowScan(Row(NamesIndex, record), User, Zero(User)) == [record[2], record[0], record[1]]
  {
    var w := RowScan(Row(NamesIndex, record), User, Zero(User));
    assert w[0] == record[2] && w[1] == record[0] && w[2] == record[1];
  }

  /** Scan fills the tagged fields from each row. */
  lemma ScanExample(tokenize: Tokenize, data: seq<seq<string>>)
    requires Triples(data) && HeaderThen(Source(HeaderOptions, tokenize), data)
    ensures ScanSafe(Rows(HeaderOptions, tokenize, Exhaust).items, User)
    ensures var s := Scan(HeaderOptions, tokenize, User, Zero(User), Exhaust);
      && |s.items| == |data|
      && forall i :: 0 <= i < |data| ==> s.items[i] == Yielded([data[i][2], data[i][0], data[i][1]])
  {
    var t := Rows(HeaderOptions, tokenize, Exhaust);
    AllRowsOfCleanInput(HeaderOptions, tokenize, Names, data);
    IndexOfNames();
    forall i | 0 <= i < |data|
      ensures BindingsFit(t.items[i].value, User)
      ensures RowScan(t.items[i].value, User, Zero(User)) == [data[i][2], data[i][0], data[i][1]]
    {
      ScanUser(data[i]);
    }
  }
}

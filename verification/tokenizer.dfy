/** The reader options and the abstract encoding/csv tokenizer they configure. */
module Tokenizer {
  import opened Wrappers

  /** A Go rune: a signed 32-bit code point. */
  type Rune = r: int | -0x8000_0000 <= r < 0x8000_0000

  /** The sentinel for `comma` that selects a 0x00 field separator. */
  const NULL: Rune := -1

  /** The separator encoding/csv uses when none is set: ','. */
  const DefaultComma: Rune := 0x2C

  /** What the caller configures. The input stream itself is the tokenizer argument of the operations. */
  datatype Options = Options(
    comma: Rune,
    comment: Rune,
    lazyQuotes: bool,
    trimLeadingSpace: bool,
    fieldNames: Option<seq<string>>)

  /** The settings handed to the tokenizer. */
  datatype ReaderConfig = ReaderConfig(
    comma: Rune,
    comment: Rune,
    lazyQuotes: bool,
    trimLeadingSpace: bool)

  datatype ReadError = ReadError(message: string)

  /** One call to the tokenizer's Read: a record, an error other than end of stream, or end of stream. */
  datatype ReadResult = Rec(fields: seq<string>) | Fail(err: ReadError) | EOF

  /** The tokenizer over a fixed input: for each configuration, the results of its successive Read calls. */
  type Tokenize = ReaderConfig -> seq<ReadResult>

  /** The result of Read call number `pos` (0-based); a drained reader keeps reporting end of stream. */
  function ReadAt(src: seq<ReadResult>, pos: nat): ReadResult
  {
    if pos < |src| then src[pos] else EOF
  }

  /** The separator the tokenizer is given for the `comma` option. */
  function ResolveComma(comma: Rune): (d: Rune)
    ensures d != NULL
    ensures d == 0 <==> comma == NULL
    ensures comma == 0 ==> d == DefaultComma
    ensures comma != NULL && comma != 0 ==> d == comma
  {
    if comma == NULL then 0
    else if comma != 0 then comma
    else DefaultComma
  }

  /** The tokenizer configuration built from the options. */
  function Configure(o: Options): (cfg: ReaderConfig)
    ensures cfg.comma != NULL
    ensures cfg.comma == 0 <==> o.comma == NULL
    ensures o.comma != NULL && o.comma != 0 ==> cfg.comma == o.comma
    ensures o.comma == 0 ==> cfg.comma == DefaultComma
    ensures cfg.comment == o.comment
    ensures cfg.lazyQuotes == o.lazyQuotes && cfg.trimLeadingSpace == o.trimLeadingSpace
  {
    ReaderConfig(ResolveComma(o.comma), o.comment, o.lazyQuotes, o.trimLeadingSpace)
  }

  /** The read results the configured tokenizer produces. */
  function Source(o: Options, tokenize: Tokenize): seq<ReadResult>
  {
    tokenize(Configure(o))
  }
}

/** The CSV tokenizer as the dialog sees it. The tokenizer itself is not part of
    this model: a parse of a file is given by the rows it delivers, in order,
    and by how it ends. */
module CsvParse {

  /** CSVParser::ParserResult. */
  datatype ParserResult = Success | Cancelled | Error

  /** The results a parse reports once the row function has returned false: the parse
      stops short of the end of the file, so it never reports success; importCsv rolls
      back the whole file on either of them. */
  type RefusalResult = r: ParserResult | r != Success witness Cancelled

  /** One parsed record: its fields as text, 0-indexed by position. */
  type Row = seq<string>

  /** What parsing one file yields.
      rows:      the records the tokenizer delivers to the row function, row number k being rows[k];
      outcome:   the result when the row function accepts every row (Cancelled when the
                 progress dialog was cancelled, Error when the stream is malformed);
      onRefusal: the result the tokenizer reports when the row function returns false. */
  datatype ParseInput = ParseInput(rows: seq<Row>, outcome: ParserResult, onRefusal: RefusalResult)

  /** The row cap of the bounded scan that infers a field list. */
  const SampleSize: nat := 20

  /** The rows a scan capped at SampleSize delivers: the first ones, at most SampleSize. */
  function Sample(rows: seq<Row>): (r: seq<Row>)
    ensures |r| == if |rows| < SampleSize then |rows| else SampleSize
    ensures r <= rows
  {
    if |rows| <= SampleSize then rows else rows[..SampleSize]
  }
}

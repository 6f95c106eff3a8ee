/** `save_to_files`: one processed question fans out to the three output
    sinks of the `dset_generator` directory (`output.csv`, `output.txt`,
    `output.json`). Files are values here: each sink is the sequence of what
    has been appended to it, and nothing is ever removed. */
module Records {

  /** The `data_row` dictionary built for each answered question. */
  datatype DataRow = DataRow(timestamp: string, question: string, thoughts: string, finalAnswer: string)

  /** The column names handed to `csv.DictWriter`, in order. */
  const FieldNames: seq<string> := ["timestamp", "question", "thoughts", "final_answer"]

  /** `data_row[key]` for the four keys the dictionary has. */
  function Get(d: DataRow, key: string): string
    requires key in FieldNames
  {
    if key == "timestamp" then d.timestamp
    else if key == "question" then d.question
    else if key == "thoughts" then d.thoughts
    else d.finalAnswer
  }

  /** `writer.writerow(data_row)`: DictWriter emits the values in the order of
      its field names. */
  function CsvLine(d: DataRow): (r: seq<string>)
    ensures r == [d.timestamp, d.question, d.thoughts, d.finalAnswer]
    ensures |r| == |FieldNames| && RowOfCsv(r) == d
  {
    seq(|FieldNames|, k requires 0 <= k < |FieldNames| => Get(d, FieldNames[k]))
  }

  /** Reads a CSV data line back under the header. */
  function RowOfCsv(line: seq<string>): DataRow
    requires |line| == |FieldNames|
  {
    DataRow(line[0], line[1], line[2], line[3])
  }

  /** The `-` * 50 separator. */
  function Dashes(n: nat): (r: string)
    ensures |r| == n && forall k :: 0 <= k < n ==> r[k] == '-'
  {
    if n == 0 then "" else Dashes(n - 1) + "-"
  }

  const Separator: string := Dashes(50) + "\n\n"

  const TxtLabels: seq<string> := ["Timestamp: ", "Question: ", "Thought Process: ", "Final Answer: "]

  /** The five `txtfile.write` calls for one question, in order. */
  function TxtBlock(d: DataRow): (r: seq<string>)
    ensures |r| == 5 && r[4] == Separator
  {
    [TxtLabels[0] + Get(d, "timestamp") + "\n",
     TxtLabels[1] + Get(d, "question") + "\n",
     TxtLabels[2] + Get(d, "thoughts") + "\n",
     TxtLabels[3] + Get(d, "final_answer") + "\n",
     Separator]
  }

  /** The value written on a labelled line of the text sink. */
  function TxtValue(line: string, prefix: string): string
    requires |prefix| + 1 <= |line|
  {
    line[|prefix|..|line| - 1]
  }

  datatype Metadata = Metadata(timestamp: string, question: string)
  datatype Response = Response(reasoning: string, answer: string)

  /** The nested object passed to `json.dumps`; its serialisation is not modelled. */
  datatype JsonRecord = JsonRecord(metadata: Metadata, response: Response)

  function RowOfJson(j: JsonRecord): DataRow
  {
    DataRow(j.metadata.timestamp, j.metadata.question, j.response.reasoning, j.response.answer)
  }

  /** The nested record passed to `json.dumps`: `metadata.timestamp` and
      `metadata.question` carry the `timestamp` and `question` values,
      `response.reasoning` and `response.answer` the `thoughts` and
      `final_answer` values, so the data row can be read back from it. */
  function JsonOf(d: DataRow): (r: JsonRecord)
    ensures RowOfJson(r) == d
  {
    JsonRecord(Metadata(Get(d, "timestamp"), Get(d, "question")),
               Response(Get(d, "thoughts"), Get(d, "final_answer")))
  }

  /** The output directory: whether `output.csv` exists, and the lines of the
      CSV sink, the writes made to the text sink and the lines of the JSON sink. */
  datatype Outputs = Outputs(csvExists: bool, csv: seq<seq<string>>, txt: seq<string>, json: seq<JsonRecord>)

  /** `save_to_files(d)`: the header goes to `output.csv` only when the file did
      not exist before this call. */
  function SaveToFiles(o: Outputs, d: DataRow): (r: Outputs)
    ensures r.csvExists && o.csv <= r.csv && o.txt <= r.txt && o.json <= r.json
    ensures |r.csv| == |o.csv| + (if o.csvExists then 1 else 2) && r.csv[|r.csv| - 1] == CsvLine(d)
    ensures !o.csvExists ==> r.csv[|o.csv|] == FieldNames
    ensures |r.txt| == |o.txt| + 5
    ensures |r.json| == |o.json| + 1 && RowOfJson(r.json[|r.json| - 1]) == d
  {
    Outputs(true,
            o.csv + (if o.csvExists then [] else [FieldNames]) + [CsvLine(d)],
            o.txt + TxtBlock(d),
            o.json + [JsonOf(d)])
  }

  /** The sinks after `save_to_files` has been called on each of `ds` in turn. */
  function SaveAll(o: Outputs, ds: seq<DataRow>): (r: Outputs)
    ensures r.csvExists == (o.csvExists || ds != [])
  {
    if ds == [] then o else SaveToFiles(SaveAll(o, ds[..|ds| - 1]), ds[|ds| - 1])
  }

  function CsvLines(ds: seq<DataRow>): (r: seq<seq<string>>)
    ensures |r| == |ds| && forall k :: 0 <= k < |ds| ==> r[k] == CsvLine(ds[k])
  {
    if ds == [] then [] else CsvLines(ds[..|ds| - 1]) + [CsvLine(ds[|ds| - 1])]
  }

  function TxtBlocks(ds: seq<DataRow>): (r: seq<string>)
    ensures |r| == 5 * |ds|
  {
    if ds == [] then [] else TxtBlocks(ds[..|ds| - 1]) + TxtBlock(ds[|ds| - 1])
  }

  function JsonLines(ds: seq<DataRow>): (r: seq<JsonRecord>)
    ensures |r| == |ds| && forall k :: 0 <= k < |ds| ==> r[k] == JsonOf(ds[k])
  {
    if ds == [] then [] else JsonLines(ds[..|ds| - 1]) + [JsonOf(ds[|ds| - 1])]
  }

  /** The `k`-th block of five writes in the text sink is the block of the
      `k`-th row. */
  lemma {:induction false} TxtBlocksAt(ds: seq<DataRow>, k: nat)
    requires k < |ds|
    ensures |TxtBlocks(ds)| == 5 * |ds| && TxtBlocks(ds)[5 * k..5 * k + 5] == TxtBlock(ds[k])
  {
    var init := ds[..|ds| - 1];
    var pre := TxtBlocks(init);
    assert TxtBlocks(ds) == pre + TxtBlock(ds[|ds| - 1]);
    if k == |ds| - 1 {
      assert 5 * k == |pre|;
    } else {
      TxtBlocksAt(init, k);
      assert 5 * k + 5 <= |pre|;
      assert TxtBlocks(ds)[5 * k..5 * k + 5] == pre[5 * k..5 * k + 5];
    }
  }

  /** The text block is four labelled lines, each holding one of the row's
      values, then fifty dashes and an empty line. */
  lemma TxtBlockShape(d: DataRow)
    ensures |TxtBlock(d)| == 5
    ensures forall k :: 0 <= k < 4 ==>
      |TxtLabels[k]| + 1 <= |TxtBlock(d)[k]| &&
      TxtBlock(d)[k][..|TxtLabels[k]|] == TxtLabels[k] &&
      TxtBlock(d)[k][|TxtBlock(d)[k]| - 1] == '\n'
    ensures TxtValue(TxtBlock(d)[0], TxtLabels[0]) == d.timestamp
    ensures TxtValue(TxtBlock(d)[1], TxtLabels[1]) == d.question
    ensures TxtValue(TxtBlock(d)[2], TxtLabels[2]) == d.thoughts
    ensures TxtValue(TxtBlock(d)[3], TxtLabels[3]) == d.finalAnswer
    ensures |TxtBlock(d)[4]| == 52 && TxtBlock(d)[4][50..] == "\n\n"
    ensures forall k :: 0 <= k < 50 ==> TxtBlock(d)[4][k] == '-'
  {
    var b := TxtBlock(d);
    assert b[4] == Dashes(50) + "\n\n";
    assert b[0] == TxtLabels[0] + d.timestamp + "\n";
    assert b[1] == TxtLabels[1] + d.question + "\n";
    assert b[2] == TxtLabels[2] + d.thoughts + "\n";
    assert b[3] == TxtLabels[3] + d.finalAnswer + "\n";
  }

  /** The CSV sink gains one line per row, in order, after the header, which
      is written once and only if `output.csv` did not exist beforehand. */
  lemma {:induction false} SaveAllCsv(o: Outputs, ds: seq<DataRow>)
    ensures SaveAll(o, ds).csvExists == (o.csvExists || ds != [])
    ensures SaveAll(o, ds).csv ==
      o.csv + (if o.csvExists || ds == [] then [] else [FieldNames]) + CsvLines(ds)
  {
    if ds != [] {
      var init := ds[..|ds| - 1];
      var last := ds[|ds| - 1];
      SaveAllCsv(o, init);
      assert CsvLines(ds) == CsvLines(init) + [CsvLine(last)];
      if init == [] {
        assert CsvLines(init) == [];
      }
    }
  }

  /** The text sink gains one five-write block per row, in order. */
  lemma {:induction false} SaveAllTxt(o: Outputs, ds: seq<DataRow>)
    ensures SaveAll(o, ds).txt == o.txt + TxtBlocks(ds)
  {
    if ds != [] {
      SaveAllTxt(o, ds[..|ds| - 1]);
    }
  }

  /** The JSON sink gains one line per row, in order. */
  lemma {:induction false} SaveAllJson(o: Outputs, ds: seq<DataRow>)
    ensures SaveAll(o, ds).json == o.json + JsonLines(ds)
  {
    if ds != [] {
      SaveAllJson(o, ds[..|ds| - 1]);
    }
  }

  /** Calling `save_to_files` on each of `ds` appends exactly one CSV line, one
      five-write text block and one JSON line per row, in order; the CSV header
      is written once, and only if `output.csv` did not exist beforehand. */
  lemma SaveAllAppends(o: Outputs, ds: seq<DataRow>)
    ensures SaveAll(o, ds).csvExists == (o.csvExists || ds != [])
    ensures SaveAll(o, ds).csv ==
      o.csv + (if o.csvExists || ds == [] then [] else [FieldNames]) + CsvLines(ds)
    ensures SaveAll(o, ds).txt == o.txt + TxtBlocks(ds)
    ensures SaveAll(o, ds).json == o.json + JsonLines(ds)
  {
    SaveAllCsv(o, ds);
    SaveAllTxt(o, ds);
    SaveAllJson(o, ds);
  }
}

/** Post-processing around the language model in
    utils/gemini_analyser_async.py: the articles are split into one chunk per
    publish date, each chunk is sent article by article through its own chat
    session, successful replies are stamped with the article's date and link,
    the chunks' results are concatenated in chunk order with their token
    counts summed, and finally every answer column (`Q…`) is rewritten into
    readable text. The model and the two parsers (`json.loads` of a reply,
    `ast.literal_eval` of a string cell) are parameters. */
module Analysis {
  import opened Common
  import opened Grouping
  import Pipeline

  type Row = Pipeline.Row

  /** A cell of the result table. `Missing` is pandas' NaN, which a record
      gets in every column it does not carry itself. */
  datatype Cell =
    | Text(s: string)
    | Number(n: int)
    | Day(d: int)
    | Fields(fields: map<string, string>)
    | Missing

  type Record = map<string, Cell>

  /** What `ast.literal_eval` makes of a string cell: a dictionary, some other
      literal, or one of the two exceptions it raises on malformed input. */
  datatype Literal = Dict(entries: map<string, string>) | OtherLiteral | MalformedValue | MalformedSyntax

  /** An exception nothing catches: the whole analysis fails. */
  datatype Failure = Uncaught

  const NotAvailable: string := "N/A"
  const InvalidFormat: string := "Invalid data format"

  /** `data_dict.get(key, 'N/A')`. */
  function FieldOr(d: map<string, string>, key: string): string {
    if key in d then d[key] else NotAvailable
  }

  // ----------------------------------------------------------- Q formatting

  /** The readable form of one answer: both parts missing give `N/A`, a
      missing text gives the category alone, otherwise category and text on
      two lines. */
  function Collapse(d: map<string, string>): (r: string)
    ensures r == NotAvailable <==>
      FieldOr(d, "categorical") == NotAvailable && FieldOr(d, "text") == NotAvailable
    ensures FieldOr(d, "text") == NotAvailable ==> r == FieldOr(d, "categorical")
    ensures FieldOr(d, "text") != NotAvailable ==>
      r == FieldOr(d, "categorical") + "\n" + FieldOr(d, "text")
  {
    var categorical := FieldOr(d, "categorical");
    var text := FieldOr(d, "text");
    if categorical == NotAvailable && text == NotAvailable then NotAvailable
    else if text == NotAvailable then categorical
    else
      var r := categorical + "\n" + text;
      assert r[|categorical|] == '\n';
      assert r != NotAvailable by {
        if |r| == 3 {
          assert NotAvailable[|categorical|] != '\n';
        }
      }
      r
  }

  /** The position of the first line break, or the length when there is none. */
  function LineBreak(s: string): (k: nat)
    ensures k <= |s|
    ensures forall i :: 0 <= i < k ==> s[i] != '\n'
    ensures k < |s| ==> s[k] == '\n'
  {
    if |s| == 0 || s[0] == '\n' then 0 else 1 + LineBreak(s[1..])
  }

  /** Reads a formatted answer back into its category and text. */
  function SplitAnswer(s: string): (string, string) {
    var k := LineBreak(s);
    if k == |s| then (s, NotAvailable) else (s[..k], s[k + 1..])
  }

  /** The formatting loses nothing: for a category without a line break, the
      category and the text can be read back from the formatted answer. */
  lemma CollapseRoundTrip(d: map<string, string>)
    requires '\n' !in FieldOr(d, "categorical")
    ensures SplitAnswer(Collapse(d)) == (FieldOr(d, "categorical"), FieldOr(d, "text"))
  {
    var categorical := FieldOr(d, "categorical");
    var text := FieldOr(d, "text");
    var r := Collapse(d);
    var k := LineBreak(r);
    if text != NotAvailable {
      assert r == categorical + "\n" + text;
      assert r[|categorical|] == '\n';
      assert k == |categorical|;
      assert r[..k] == categorical;
      assert r[k + 1..] == text;
    }
  }

  /** `format_q_value`. A string is parsed first; a dictionary (parsed or
      given) is collapsed; a `ValueError` while parsing gives the fixed
      message. A `SyntaxError`, a literal that is not a dictionary, and a NaN
      or numeric cell all raise on the way to `.get`, uncaught. A `Day` cell
      never gets here, since only the `Q` columns are formatted; it is put
      with the other non-string cells only to make the function total. */
  function FormatQValue(v: Cell, literalEval: string -> Literal): (r: Result<string, Failure>)
    ensures v.Fields? ==> r == Ok(Collapse(v.fields))
    ensures v.Text? && literalEval(v.s).Dict? ==> r == Ok(Collapse(literalEval(v.s).entries))
    ensures v.Text? && literalEval(v.s).MalformedValue? ==> r == Ok(InvalidFormat)
    ensures r.Err? <==>
      v.Missing? || v.Number? || v.Day? ||
      (v.Text? && (literalEval(v.s).OtherLiteral? || literalEval(v.s).MalformedSyntax?))
  {
    match v
    case Fields(d) => Ok(Collapse(d))
    case Text(s) =>
      (match literalEval(s)
       case Dict(d) => Ok(Collapse(d))
       case MalformedValue => Ok(InvalidFormat)
       case OtherLiteral => Err(Uncaught)
       case MalformedSyntax => Err(Uncaught))
    case _ => Err(Uncaught)
  }

  // ------------------------------------------------------------- one article

  /** One reply of the model, with its token usage, or an exception. */
  datatype Reply = Replied(text: string, promptTokens: nat, candidateTokens: nat) | CallFailed

  /** The model behind a chunk's chat session (the reply to an article may
      depend on every article sent earlier in the same session) and the JSON
      parser (`None`: the text is not a JSON object). */
  datatype Llm = Llm(ask: (seq<Row>, Row) -> Reply, parse: string -> Option<Record>)

  /** What `process_article` returns: the record or `None`, and the tokens. */
  datatype Outcome = Outcome(result: Option<Record>, inTokens: nat, outTokens: nat)

  /** The `ResolvedLink` cell of an article row. */
  function LinkCell(row: Row): Cell {
    if row.resolved.Some? then Text(row.resolved.value) else Missing
  }

  /** `process_article`: the parsed reply stamped with the article's
      `Published_Date` and `ResolvedLink`; any exception gives `(None, 0, 0)`. */
  function ProcessArticle(row: Row, earlier: seq<Row>, llm: Llm): (o: Outcome)
    ensures o.result.Some? <==>
      llm.ask(earlier, row).Replied? && llm.parse(llm.ask(earlier, row).text).Some?
    ensures o.result.Some? ==>
      "date" in o.result.value && o.result.value["date"] == Day(row.article.date) &&
      "link" in o.result.value && o.result.value["link"] == LinkCell(row)
    ensures o.result.Some? ==>
      var fields := llm.parse(llm.ask(earlier, row).text).value;
      o.result.value.Keys == fields.Keys + {"date", "link"} &&
      forall k :: k in fields && k != "date" && k != "link" ==> o.result.value[k] == fields[k]
    ensures o.result.Some? ==>
      o.inTokens == llm.ask(earlier, row).promptTokens &&
      o.outTokens == llm.ask(earlier, row).candidateTokens
    ensures o.result.None? ==> o.inTokens == 0 && o.outTokens == 0
  {
    var reply := llm.ask(earlier, row);
    if reply.CallFailed? then Outcome(None, 0, 0)
    else
      match llm.parse(reply.text)
      case None => Outcome(None, 0, 0)
      case Some(fields) =>
        Outcome(Some(fields["date" := Day(row.article.date)]["link" := LinkCell(row)]),
                reply.promptTokens, reply.candidateTokens)
  }

  /** `if result:` — a dictionary is truthy when it is not empty. */
  predicate Truthy(o: Outcome) {
    o.result.Some? && o.result.value != map[]
  }

  // --------------------------------------------------------------- a chunk

  /** The outcome of each article of a chunk, in order, each asked in the
      session that has seen the articles before it. */
  function ChunkOutcomes(chunk: seq<Row>, llm: Llm): (os: seq<Outcome>)
    ensures |os| == |chunk|
    ensures forall i :: 0 <= i < |chunk| ==> os[i] == ProcessArticle(chunk[i], chunk[..i], llm)
  {
    seq(|chunk|, i requires 0 <= i < |chunk| => ProcessArticle(chunk[i], chunk[..i], llm))
  }

  /** The truthy results, in order. */
  function Kept(os: seq<Outcome>): seq<Record> {
    if |os| == 0 then []
    else
      var o := os[|os| - 1];
      Kept(os[..|os| - 1]) + (if Truthy(o) then [o.result.value] else [])
  }

  function SumIn(os: seq<Outcome>): nat {
    if |os| == 0 then 0 else SumIn(os[..|os| - 1]) + os[|os| - 1].inTokens
  }

  function SumOut(os: seq<Outcome>): nat {
    if |os| == 0 then 0 else SumOut(os[..|os| - 1]) + os[|os| - 1].outTokens
  }

  /** The number of articles whose reply was parsed. */
  function Successes(os: seq<Outcome>): nat {
    if |os| == 0 then 0
    else Successes(os[..|os| - 1]) + (if os[|os| - 1].result.Some? then 1 else 0)
  }

  /** `process_chunk`: results in article order, token counts summed over all
      articles. */
  method ProcessChunk(chunk: seq<Row>, llm: Llm) returns (results: seq<Record>, inTokens: nat, outTokens: nat)
    ensures results == Kept(ChunkOutcomes(chunk, llm))
    ensures inTokens == SumIn(ChunkOutcomes(chunk, llm))
    ensures outTokens == SumOut(ChunkOutcomes(chunk, llm))
  {
    var os := ChunkOutcomes(chunk, llm);
    results, inTokens, outTokens := [], 0, 0;
    for i := 0 to |chunk|
      invariant results == Kept(os[..i])
      invariant inTokens == SumIn(os[..i])
      invariant outTokens == SumOut(os[..i])
    {
      var o := ProcessArticle(chunk[i], chunk[..i], llm);
      assert os[..i + 1][..i] == os[..i];
      if Truthy(o) {
        results := results + [o.result.value];
      }
      inTokens := inTokens + o.inTokens;
      outTokens := outTokens + o.outTokens;
    }
    assert os[..|chunk|] == os;
  }

  /** No successful reply is lost to the truthiness test (stamping makes every
      record non-empty), and a failed article costs no tokens. */
  lemma {:induction false} EverySuccessIsKept(llm: Llm, os: seq<Outcome>)
    requires forall i :: 0 <= i < |os| ==> exists row, e :: os[i] == ProcessArticle(row, e, llm)
    ensures |Kept(os)| == Successes(os)
    ensures Successes(os) == 0 ==> SumIn(os) == 0 && SumOut(os) == 0
    decreases |os|
  {
    if |os| > 0 {
      var o := os[|os| - 1];
      var row, e :| o == ProcessArticle(row, e, llm);
      if o.result.Some? {
        assert "date" in o.result.value;
      }
      EverySuccessIsKept(llm, os[..|os| - 1]);
    }
  }

  /** Every record a chunk yields is stamped with the date and link of one of
      the chunk's articles. */
  lemma {:induction false} KeptRecordsComeFromArticles(chunk: seq<Row>, llm: Llm, n: nat)
    requires n <= |chunk|
    ensures forall rec :: rec in Kept(ChunkOutcomes(chunk, llm)[..n]) ==>
      "date" in rec && "link" in rec &&
      exists row :: row in chunk && rec["date"] == Day(row.article.date) && rec["link"] == LinkCell(row)
    decreases n
  {
    if n > 0 {
      var os := ChunkOutcomes(chunk, llm);
      assert os[..n][..n - 1] == os[..n - 1];
      KeptRecordsComeFromArticles(chunk, llm, n - 1);
      var o := os[n - 1];
      if Truthy(o) {
        assert chunk[n - 1] in chunk;
      }
    }
  }

  // ---------------------------------------------------------- all the chunks

  /** The concatenated results of the chunks, in chunk order. */
  function AllKept(chunks: seq<seq<Row>>, llm: Llm): seq<Record> {
    if |chunks| == 0 then []
    else AllKept(chunks[..|chunks| - 1], llm) + Kept(ChunkOutcomes(chunks[|chunks| - 1], llm))
  }

  function AllIn(chunks: seq<seq<Row>>, llm: Llm): nat {
    if |chunks| == 0 then 0
    else AllIn(chunks[..|chunks| - 1], llm) + SumIn(ChunkOutcomes(chunks[|chunks| - 1], llm))
  }

  function AllOut(chunks: seq<seq<Row>>, llm: Llm): nat {
    if |chunks| == 0 then 0
    else AllOut(chunks[..|chunks| - 1], llm) + SumOut(ChunkOutcomes(chunks[|chunks| - 1], llm))
  }

  /** `process_all_chunks`: the chunks run concurrently in separate chat
      sessions, but `gather` hands their results back in chunk order, where
      they are concatenated and their tokens summed. */
  method ProcessAllChunks(chunks: seq<seq<Row>>, llm: Llm)
    returns (results: seq<Record>, inTokens: nat, outTokens: nat)
    ensures results == AllKept(chunks, llm)
    ensures inTokens == AllIn(chunks, llm)
    ensures outTokens == AllOut(chunks, llm)
  {
    results, inTokens, outTokens := [], 0, 0;
    for k := 0 to |chunks|
      invariant results == AllKept(chunks[..k], llm)
      invariant inTokens == AllIn(chunks[..k], llm)
      invariant outTokens == AllOut(chunks[..k], llm)
    {
      var chunkResults, chunkIn, chunkOut := ProcessChunk(chunks[k], llm);
      assert chunks[..k + 1][..k] == chunks[..k];
      results := results + chunkResults;
      inTokens := inTokens + chunkIn;
      outTokens := outTokens + chunkOut;
    }
    assert chunks[..|chunks|] == chunks;
  }

  /** Concatenation commutes with splitting the chunk list: the results of a
      run over `a + b` are those of `a` followed by those of `b`. */
  lemma {:induction false} AllKeptSplits(a: seq<seq<Row>>, b: seq<seq<Row>>, llm: Llm)
    ensures AllKept(a + b, llm) == AllKept(a, llm) + AllKept(b, llm)
    ensures AllIn(a + b, llm) == AllIn(a, llm) + AllIn(b, llm)
    decreases |b|
  {
    if |b| == 0 {
      assert a + b == a;
    } else {
      assert (a + b)[..|a + b| - 1] == a + b[..|b| - 1];
      AllKeptSplits(a, b[..|b| - 1], llm);
    }
  }

  // -------------------------------------------------------- date grouping

  function RowDate(row: Row): int {
    row.article.date
  }

  /** `[group for _, group in df.groupby("Published_Date")]`: one chunk per
      publication day, earliest day first. */
  function GroupByDate(rows: seq<Row>): seq<seq<Row>> {
    GroupBy(rows, RowDate)
  }

  // ---------------------------------------------------------- answer columns

  /** `col.startswith('Q')`: an answer column. */
  predicate IsQColumn(c: string) {
    |c| > 0 && c[0] == 'Q'
  }

  /** The columns of `pd.DataFrame(records)`: every key some record carries. */
  function Columns(records: seq<Record>): set<string> {
    set i, c | 0 <= i < |records| && c in records[i] :: c
  }

  /** A record's cell in a column, NaN when it does not carry the column. */
  function CellAt(rec: Record, c: string): Cell {
    if c in rec then rec[c] else Missing
  }

  /** Every answer cell of the table can be formatted. */
  predicate AnswersFormat(records: seq<Record>, literalEval: string -> Literal) {
    forall i, c :: 0 <= i < |records| && c in Columns(records) && IsQColumn(c) ==>
      FormatQValue(CellAt(records[i], c), literalEval).Ok?
  }

  /** The final step of `process_articles`: `format_q_value` applied to every
      cell of every column whose name starts with `Q`. */
  function FormatQColumns(records: seq<Record>, literalEval: string -> Literal): (r: Result<seq<Record>, Failure>)
    ensures r.Ok? <==> AnswersFormat(records, literalEval)
    ensures r.Ok? ==> |r.value| == |records|
    ensures r.Ok? ==> forall i :: 0 <= i < |records| ==> r.value[i].Keys == Columns(records)
    ensures r.Ok? ==> forall i, c :: 0 <= i < |records| && c in records[i] && !IsQColumn(c) ==>
      r.value[i][c] == records[i][c]
    ensures r.Ok? ==> forall i, c :: 0 <= i < |records| && c in Columns(records) && IsQColumn(c) ==>
      r.value[i][c] == Text(FormatQValue(CellAt(records[i], c), literalEval).value)
  {
    if AnswersFormat(records, literalEval) then
      Ok(seq(|records|, i requires 0 <= i < |records| =>
        map c | c in Columns(records) ::
          if IsQColumn(c) then Text(FormatQValue(CellAt(records[i], c), literalEval).value)
          else CellAt(records[i], c)))
    else Err(Uncaught)
  }

  /** `process_articles`: group, process, format. */
  method ProcessArticles(rows: seq<Row>, llm: Llm, literalEval: string -> Literal)
    returns (r: Result<seq<Record>, Failure>)
    ensures r == FormatQColumns(AllKept(GroupByDate(rows), llm), literalEval)
  {
    var results, inTokens, outTokens := ProcessAllChunks(GroupByDate(rows), llm);
    r := FormatQColumns(results, literalEval);
  }

  /** Every analysed record carries the date and link of one of the input
      articles. */
  lemma {:induction false} AnalysedRecordsComeFromArticles(chunks: seq<seq<Row>>, llm: Llm)
    ensures forall rec :: rec in AllKept(chunks, llm) ==>
      "date" in rec && "link" in rec &&
      exists i, row :: 0 <= i < |chunks| && row in chunks[i] &&
        rec["date"] == Day(row.article.date) && rec["link"] == LinkCell(row)
    decreases |chunks|
  {
    if |chunks| > 0 {
      var n := |chunks| - 1;
      AnalysedRecordsComeFromArticles(chunks[..n], llm);
      var chunk := chunks[n];
      KeptRecordsComeFromArticles(chunk, llm, |chunk|);
      assert ChunkOutcomes(chunk, llm)[..|chunk|] == ChunkOutcomes(chunk, llm);
      forall rec | rec in AllKept(chunks, llm)
        ensures "date" in rec && "link" in rec
        ensures exists i, row :: (0 <= i < |chunks| && row in chunks[i] &&
          rec["date"] == Day(row.article.date) && rec["link"] == LinkCell(row))
      {
        if rec in AllKept(chunks[..n], llm) {
          var i: int, row: Row :| 0 <= i < n && row in chunks[..n][i] &&
            rec["date"] == Day(row.article.date) && rec["link"] == LinkCell(row);
          assert chunks[i] == chunks[..n][i];
        }
      }
    }
  }

  /** Each outcome yields at most one record. */
  lemma {:induction false} KeptAtMostOutcomes(os: seq<Outcome>)
    ensures |Kept(os)| <= |os|
    decreases |os|
  {
    if |os| > 0 {
      KeptAtMostOutcomes(os[..|os| - 1]);
    }
  }

  /** The chunks together yield no more records than they hold articles. */
  lemma {:induction false} AnalysedRecordsAtMostArticles(chunks: seq<seq<Row>>, llm: Llm)
    ensures |AllKept(chunks, llm)| <= |Flatten(chunks)|
    decreases |chunks|
  {
    if |chunks| > 0 {
      var n := |chunks| - 1;
      AnalysedRecordsAtMostArticles(chunks[..n], llm);
      KeptAtMostOutcomes(ChunkOutcomes(chunks[n], llm));
      assert chunks == chunks[..n] + [chunks[n]];
      FlattenSnoc(chunks[..n], chunks[n]);
    }
  }

  /** End to end: no more analysed records than input articles, since the date
      chunks hold every article exactly once. */
  lemma AtMostOneRecordPerArticle(rows: seq<Row>, llm: Llm)
    ensures |AllKept(GroupByDate(rows), llm)| <= |rows|
  {
    AnalysedRecordsAtMostArticles(GroupByDate(rows), llm);
    GroupingIsPermutation(rows, RowDate);
    assert |multiset(Flatten(GroupByDate(rows)))| == |multiset(rows)|;
  }

  /** Formatting leaves a cell outside the answer columns as it was. */
  lemma FormattingKeepsOtherCell(records: seq<Record>, literalEval: string -> Literal, k: int, c: string)
    requires FormatQColumns(records, literalEval).Ok?
    requires 0 <= k < |records| && c in records[k] && !IsQColumn(c)
    ensures c in FormatQColumns(records, literalEval).value[k]
    ensures FormatQColumns(records, literalEval).value[k][c] == records[k][c]
  {
    assert c in Columns(records);
  }

  /** Formatting leaves a record's `date` and `link` cells as they were:
      neither column name starts with `Q`. */
  lemma FormattingKeepsDateAndLink(records: seq<Record>, literalEval: string -> Literal, k: int)
    requires FormatQColumns(records, literalEval).Ok?
    requires 0 <= k < |records| && "date" in records[k] && "link" in records[k]
    ensures "date" in FormatQColumns(records, literalEval).value[k]
    ensures "link" in FormatQColumns(records, literalEval).value[k]
    ensures FormatQColumns(records, literalEval).value[k]["date"] == records[k]["date"]
    ensures FormatQColumns(records, literalEval).value[k]["link"] == records[k]["link"]
  {
    assert !IsQColumn("date") && !IsQColumn("link");
    FormattingKeepsOtherCell(records, literalEval, k, "date");
    FormattingKeepsOtherCell(records, literalEval, k, "link");
  }

  /** End to end: on success, each output record keeps the `date` and `link`
      of an input article. */
  lemma ProcessedRecordsKeepDateAndLink(rows: seq<Row>, llm: Llm, literalEval: string -> Literal, k: int)
    requires FormatQColumns(AllKept(GroupByDate(rows), llm), literalEval).Ok?
    requires 0 <= k < |FormatQColumns(AllKept(GroupByDate(rows), llm), literalEval).value|
    ensures var out := FormatQColumns(AllKept(GroupByDate(rows), llm), literalEval).value;
      "date" in out[k] && "link" in out[k] &&
      exists row :: row in rows && out[k]["date"] == Day(row.article.date) && out[k]["link"] == LinkCell(row)
  {
    var groups := GroupByDate(rows);
    var records := AllKept(groups, llm);
    AnalysedRecordsComeFromArticles(groups, llm);
    GroupsShareKey(rows, RowDate);
    assert records[k] in records;
    var i: int, row: Row :| 0 <= i < |groups| && row in groups[i] &&
      records[k]["date"] == Day(row.article.date) && records[k]["link"] == LinkCell(row);
    FormattingKeepsDateAndLink(records, literalEval, k);
  }
}

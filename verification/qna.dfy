/** `extract_qna_data` of utils/QnA_extractor.py: the answer columns of the
    analysed table are flattened into a four-column table (`Question`,
    `Date`, `Link`, `Answer`) holding, for each known question, one header
    row followed by one row per usable answer. */
module QnA {
  import opened Common
  import opened Grouping
  import opened Analysis

  /** A table as `extract_qna_data` reads it: its column names in order and
      one record per row. */
  datatype Frame = Frame(columns: seq<string>, rows: seq<Record>)

  /** A row of the output table. */
  datatype OutRow = OutRow(question: Cell, date: Cell, link: Cell, answer: Cell)

  /** The fixed question texts, keyed by answer column. */
  const Questions: map<string, string> := map[
    "Q1" := "Are there any regulatory or legal issues faced by the Company or its subsidiaries?",
    "Q2" := "Are there any legal issues faced by the promoters of the Company?",
    "Q3" := "Has the Company faced employee attrition in the past and has the key management team changed in the past 2 years?",
    "Q4" := "Is the industry in which Company operates facing a slowdown?",
    "Q5" := "Is the Company overvalued as compared to its peers?",
    "Q6" := "Are there any significant upcoming events or product launches that could impact the company’s performance?",
    "Q7" := "Has the Company's revenues, operating profit margins, net profit margins grown year on year for past 3 years and are these better than industry growth rate?",
    "Q8" := "Has the Company's debt increased or decreased over past 3 years?",
    "Q9" := "Has the Company capacity utilization increased or decreased over past 3 years and how much capacity has the Company added in past 3 years?",
    "Q10" := "Has the promoter stake in the Company increased or decreased in the past?",
    "Q11" := "Has the institution stake in the Company increased or decreased in the past?",
    "Q12" := "How many analysts are tracking the Company's stock and what is the percentage upside on target price given by the analysts?"
  ]

  // ------------------------------------------------------------ whitespace

  /** The ASCII characters Python's `str.strip` removes. */
  predicate IsSpace(c: char) {
    c == ' ' || '\t' <= c <= '\r' || '\U{1C}' <= c <= '\U{1F}'
  }

  function TrimStart(s: string): (r: string)
    ensures |r| <= |s| && r == s[|s| - |r|..]
    ensures forall i :: 0 <= i < |s| - |r| ==> IsSpace(s[i])
    ensures r == [] || !IsSpace(r[0])
  {
    if |s| > 0 && IsSpace(s[0]) then TrimStart(s[1..]) else s
  }

  function TrimEnd(s: string): (r: string)
    ensures |r| <= |s| && r == s[..|r|]
    ensures forall i :: |r| <= i < |s| ==> IsSpace(s[i])
    ensures r == [] || !IsSpace(r[|r| - 1])
  {
    if |s| > 0 && IsSpace(s[|s| - 1]) then TrimEnd(s[..|s| - 1]) else s
  }

  /** `str.strip()`. */
  function Strip(s: string): string {
    TrimEnd(TrimStart(s))
  }

  lemma TrimStartKeeps(s: string)
    requires s == [] || !IsSpace(s[0])
    ensures TrimStart(s) == s
  {
  }

  lemma TrimEndKeeps(s: string)
    requires s == [] || !IsSpace(s[|s| - 1])
    ensures TrimEnd(s) == s
  {
  }

  /** Stripping twice is stripping once. */
  lemma StripIsIdempotent(s: string)
    ensures Strip(Strip(s)) == Strip(s)
  {
    var t := TrimStart(s);
    var u := TrimEnd(t);
    if u != [] {
      assert u[0] == t[0];
    }
    TrimStartKeeps(u);
    TrimEndKeeps(u);
  }

  /** A prefix that neither begins nor ends with whitespace survives
      stripping. */
  lemma StripKeepsPrefix(s: string, p: string)
    requires StartsWith(s, p) && |p| > 0
    requires !IsSpace(p[0]) && !IsSpace(p[|p| - 1])
    ensures StartsWith(Strip(s), p)
  {
    assert s[0] == p[0];
    assert TrimStart(s) == s;
    var r := TrimEnd(s);
    assert s[|p| - 1] == p[|p| - 1];
    assert |p| <= |r|;
    assert r[..|p|] == s[..|p|];
  }

  // --------------------------------------------------------------- columns

  function Length(c: string): int {
    |c|
  }

  /** `question_cols`: the columns whose name starts with `Q`, sorted by
      name length; columns of equal length keep their table order, so `Q10`
      comes after every one-digit question. */
  function QuestionColumns(columns: seq<string>): (cols: seq<string>)
    ensures SortedBy(cols, Length)
    ensures multiset(cols) == multiset(Filter(columns, IsQColumn))
    ensures forall n :: Filter(cols, KeyIs(Length, n)) == Filter(Filter(columns, IsQColumn), KeyIs(Length, n))
  {
    var qs := Filter(columns, IsQColumn);
    StableSortIsSorted(qs, Length);
    GroupingIsPermutation(qs, Length);
    forall n ensures Filter(StableSortBy(qs, Length), KeyIs(Length, n)) == Filter(qs, KeyIs(Length, n)) {
      StableSortIsStable(qs, Length, n);
    }
    StableSortBy(qs, Length)
  }

  /** `questions.get(col)` is truthy. The question table is a parameter of
      the flattening; `ExtractQnA` passes the fixed one. */
  predicate IsKnown(questions: map<string, string>, col: string) {
    col in questions && questions[col] != ""
  }

  function Known(questions: map<string, string>): string -> bool {
    (col: string) => IsKnown(questions, col)
  }

  // ----------------------------------------------------------------- rows

  /** `row.get(c, "")`: the row's cell when the table has the column (NaN
      included), the empty string otherwise. */
  function Lookup(df: Frame, row: Record, c: string): Cell {
    if c in df.columns then CellAt(row, c) else Text("")
  }

  /** A string answer that reads `N/A` once surrounding whitespace is gone. */
  predicate IsNotApplicable(answer: Cell) {
    answer.Text? && StartsWith(Strip(answer.s), NotAvailable)
  }

  /** A row survives `dropna(subset=[col])` and the `N/A` test. Only strings
      are tested for `N/A`; any other non-null value is kept. */
  predicate KeepsAnswer(col: string, row: Record) {
    !CellAt(row, col).Missing? && !IsNotApplicable(CellAt(row, col))
  }

  /** The row announcing a question; other columns' placeholder for the
      headers of unknown columns, which are never emitted. */
  function Header(questions: map<string, string>, col: string): OutRow {
    OutRow(Text(if col in questions then questions[col] else ""), Text(""), Text(""), Text(""))
  }

  function HeaderOf(questions: map<string, string>): string -> OutRow {
    (col: string) => Header(questions, col)
  }

  function AnswerRow(df: Frame, row: Record, col: string): OutRow {
    OutRow(Text(""), Lookup(df, row, "date"), Lookup(df, row, "link"), CellAt(row, col))
  }

  function Keeps(col: string): Record -> bool {
    (row: Record) => KeepsAnswer(col, row)
  }

  function AnswerOf(df: Frame, col: string): Record -> OutRow {
    (row: Record) => AnswerRow(df, row, col)
  }

  /** The answer rows of one question column, in table order: one per table
      row whose answer is kept. */
  function Answers(df: Frame, col: string): (r: seq<OutRow>)
    ensures |r| <= |df.rows|
    ensures |r| == |Filter(df.rows, Keeps(col))|
    ensures IsSubsequence(r, MapSeq(df.rows, AnswerOf(df, col)))
    ensures forall o :: o in r ==>
      exists row :: row in df.rows && KeepsAnswer(col, row) && o == AnswerRow(df, row, col)
    ensures forall row :: row in df.rows && KeepsAnswer(col, row) ==> AnswerRow(df, row, col) in r
    ensures forall o :: o in r ==> o.question == Text("") && !o.answer.Missing? && !IsNotApplicable(o.answer)
  {
    var kept := Filter(df.rows, Keeps(col));
    var r := MapSeq(kept, AnswerOf(df, col));
    FilterIsSubsequence(df.rows, Keeps(col));
    MapSeqKeepsSubsequence(kept, df.rows, AnswerOf(df, col));
    forall o | o in r
      ensures exists row :: row in df.rows && KeepsAnswer(col, row) && o == AnswerRow(df, row, col)
    {
      var i :| 0 <= i < |r| && r[i] == o;
      assert kept[i] in kept;
    }
    forall row | row in df.rows && KeepsAnswer(col, row) ensures AnswerRow(df, row, col) in r {
      assert row in kept;
      var i :| 0 <= i < |kept| && kept[i] == row;
      assert r[i] == AnswerRow(df, row, col);
    }
    r
  }

  /** The rows one question column contributes: nothing for a column without
      a known question, otherwise its header and then its answers. */
  function RowsFor(df: Frame, questions: map<string, string>, col: string): (r: seq<OutRow>)
    ensures !IsKnown(questions, col) ==> r == []
    ensures IsKnown(questions, col) ==>
      |r| == 1 + |Answers(df, col)| && r[0] == Header(questions, col) && r[0].question != Text("")
    ensures forall i :: 1 <= i < |r| ==> r[i].question == Text("")
  {
    if IsKnown(questions, col) then
      var answers := Answers(df, col);
      HeaderThenAnswers(Header(questions, col), answers);
      [Header(questions, col)] + answers
    else []
  }

  /** Rows after a header that all name no question name none at any position. */
  lemma HeaderThenAnswers(h: OutRow, answers: seq<OutRow>)
    requires forall o :: o in answers ==> o.question == Text("")
    ensures forall i :: 1 <= i < |[h] + answers| ==> ([h] + answers)[i].question == Text("")
  {
    forall i | 1 <= i < |[h] + answers| ensures ([h] + answers)[i].question == Text("") {
      assert ([h] + answers)[i] == answers[i - 1] && answers[i - 1] in answers;
    }
  }

  /** The rows of several columns, in column order. */
  function Emit(df: Frame, questions: map<string, string>, cols: seq<string>): seq<OutRow> {
    if |cols| == 0 then []
    else Emit(df, questions, cols[..|cols| - 1]) + RowsFor(df, questions, cols[|cols| - 1])
  }

  /** `extract_qna_data`. */
  function ExtractQnA(df: Frame): seq<OutRow> {
    Emit(df, Questions, QuestionColumns(df.columns))
  }

  // ----------------------------------------------------------- properties

  /** The number of table rows whose answer is kept, summed over the known
      question columns. */
  function KeptAnswers(df: Frame, questions: map<string, string>, cols: seq<string>): nat {
    if |cols| == 0 then 0
    else
      var c := cols[|cols| - 1];
      KeptAnswers(df, questions, cols[..|cols| - 1]) + (if IsKnown(questions, c) then |Filter(df.rows, Keeps(c))| else 0)
  }

  /** Output size: one header per known question column plus one row per
      kept answer. */
  lemma {:induction false} RowCount(df: Frame, questions: map<string, string>, cols: seq<string>)
    ensures |Emit(df, questions, cols)| == |Filter(cols, Known(questions))| + KeptAnswers(df, questions, cols)
    decreases |cols|
  {
    if |cols| > 0 {
      RowCount(df, questions, cols[..|cols| - 1]);
    }
  }

  predicate IsHeader(o: OutRow) {
    o.question != Text("")
  }

  /** Within one column's rows, the header is the only header row. */
  lemma HeadersOfColumn(df: Frame, questions: map<string, string>, col: string)
    ensures Filter(RowsFor(df, questions, col), IsHeader) ==
      if IsKnown(questions, col) then [Header(questions, col)] else []
  {
    var r := RowsFor(df, questions, col);
    if IsKnown(questions, col) {
      var answers := r[1..];
      assert r == [r[0]] + answers;
      forall i | 0 <= i < |answers| ensures !IsHeader(answers[i]) {
        assert answers[i] == r[i + 1];
      }
      FilterConcat([r[0]], answers, IsHeader);
      FilterSingleton(r[0], IsHeader);
      FilterKeepsNone(answers, IsHeader);
    }
  }

  /** The header rows of the output are exactly the known question columns'
      headers, one each, in column order. */
  lemma {:induction false} HeadersFollowColumns(df: Frame, questions: map<string, string>, cols: seq<string>)
    ensures Filter(Emit(df, questions, cols), IsHeader) ==
      MapSeq(Filter(cols, Known(questions)), HeaderOf(questions))
    decreases |cols|
  {
    if |cols| > 0 {
      var cols' := cols[..|cols| - 1];
      var c := cols[|cols| - 1];
      HeadersFollowColumns(df, questions, cols');
      FilterConcat(Emit(df, questions, cols'), RowsFor(df, questions, c), IsHeader);
      HeadersOfColumn(df, questions, c);
      var known' := Filter(cols', Known(questions));
      if IsKnown(questions, c) {
        assert Filter(cols, Known(questions)) == known' + [c];
        MapSeqSnoc(known', c, HeaderOf(questions));
      } else {
        assert Filter(cols, Known(questions)) == known';
      }
    }
  }

  /** A cell of the analysed table whose category is `N/A` (given or
      defaulted) never becomes an answer row: its formatted text starts with
      `N/A`. */
  lemma NotApplicableCategoryIsDropped(d: map<string, string>, row: Record, col: string)
    requires FieldOr(d, "categorical") == NotAvailable
    requires col in row && row[col] == Text(Collapse(d))
    ensures !KeepsAnswer(col, row)
  {
    var s := Collapse(d);
    assert StartsWith(s, NotAvailable) by {
      if FieldOr(d, "text") != NotAvailable {
        assert s[..3] == NotAvailable;
      }
    }
    StripKeepsPrefix(s, NotAvailable);
  }

  /** A non-string answer is never dropped by the `N/A` test: only a null
      removes it. */
  lemma NonTextAnswersAreKept(df: Frame, col: string, row: Record)
    requires row in df.rows && col in row
    requires row[col].Number? || row[col].Day? || row[col].Fields?
    ensures AnswerRow(df, row, col) in Answers(df, col)
  {
  }
}

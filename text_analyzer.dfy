/**
  `AnalyzeText` and the check-box tests of the text analyzer window: the five
  statistics, the report built from them line by line, and the report as the
  text `StringBuilder.AppendLine` produces.
 */
module TextAnalyzer {
  import opened Wrappers
  import opened TextStatistics

  /** A WPF check box's `IsChecked`, a `bool?` whose `null` is the
      indeterminate state. */
  datatype CheckState = Checked | Unchecked | Indeterminate

  /** `IsChecked == true`: the indeterminate state does not count. */
  predicate IsOn(box: CheckState) {
    box == Checked
  }

  /** The five analysis check boxes. */
  datatype AnalysisBoxes = AnalysisBoxes(characters: CheckState, words: CheckState, sentences: CheckState,
                                         questions: CheckState, exclamations: CheckState)

  /** The two output check boxes. */
  datatype OutputBoxes = OutputBoxes(screen: CheckState, file: CheckState)

  /** `IsAnyAnalysisOptionSelected`. */
  predicate IsAnyAnalysisOptionSelected(boxes: AnalysisBoxes) {
    IsOn(boxes.characters) || IsOn(boxes.words) || IsOn(boxes.sentences)
    || IsOn(boxes.questions) || IsOn(boxes.exclamations)
  }

  /** `IsAnyOutputOptionSelected`. */
  predicate IsAnyOutputOptionSelected(boxes: OutputBoxes) {
    IsOn(boxes.screen) || IsOn(boxes.file)
  }

  /** The five things the analyzer can count, in report order. */
  datatype Measure = Characters | Words | Sentences | Questions | Exclamations

  /** The position of a measure's line among the count lines. */
  function Rank(m: Measure): nat {
    match m
    case Characters => 0
    case Words => 1
    case Sentences => 2
    case Questions => 3
    case Exclamations => 4
  }

  /** The `include…` arguments of `AnalyzeText`. */
  datatype Selection = Selection(characters: bool, words: bool, sentences: bool, questions: bool, exclamations: bool)

  function Selected(sel: Selection, m: Measure): bool {
    match m
    case Characters => sel.characters
    case Words => sel.words
    case Sentences => sel.sentences
    case Questions => sel.questions
    case Exclamations => sel.exclamations
  }

  /** The flags the run reads from the boxes, each `IsChecked == true`. */
  function SelectionOf(boxes: AnalysisBoxes): (sel: Selection)
    ensures forall m :: Selected(sel, m) ==> IsAnyAnalysisOptionSelected(boxes)
  {
    Selection(IsOn(boxes.characters), IsOn(boxes.words), IsOn(boxes.sentences),
              IsOn(boxes.questions), IsOn(boxes.exclamations))
  }

  /** The five numbers `AnalyzeText` computes. */
  datatype Counts = Counts(characters: nat, words: nat, sentences: nat, questions: nat, exclamations: nat)

  function Value(c: Counts, m: Measure): nat {
    match m
    case Characters => c.characters
    case Words => c.words
    case Sentences => c.sentences
    case Questions => c.questions
    case Exclamations => c.exclamations
  }

  /** The counts: the length, then the match counts of `\b\w+\b`, `[.!?]+`,
      `\?` and `!`. */
  function Statistics(text: string, isWordChar: WordClass): (c: Counts)
    ensures c.characters == |text|
    ensures c.words <= |text| && c.sentences <= |text| && c.questions <= |text| && c.exclamations <= |text|
  {
    Counts(|text|,
           CountMatches(text, WordPattern, isWordChar),
           CountMatches(text, SentencePattern, isWordChar),
           CountMatches(text, QuestionPattern, isWordChar),
           CountMatches(text, ExclamationPattern, isWordChar))
  }

  /** A character of the sentence pattern's class `[.!?]`. */
  predicate IsTerminator(c: char) {
    c in SentencePattern.chars
  }

  /** The word count is the number of maximal runs of word characters, and
      at most the length of the text. */
  lemma WordCount(text: string, isWordChar: WordClass)
    ensures Statistics(text, isWordChar).words == RunStartsFrom(text, WordPattern, isWordChar, 0)
    ensures Statistics(text, isWordChar).words <= |text|
  {
    MatchesAreMaximalRuns(text, WordPattern, isWordChar);
  }

  /** The sentence count is the number of maximal runs of `.`, `!` and `?`;
      it is positive exactly when the text holds one of them, and at most
      the number of them. */
  lemma SentenceCount(text: string, isWordChar: WordClass)
    ensures Statistics(text, isWordChar).sentences == RunStartsFrom(text, SentencePattern, isWordChar, 0)
    ensures Statistics(text, isWordChar).sentences > 0 <==> exists k :: 0 <= k < |text| && IsTerminator(text[k])
    ensures Statistics(text, isWordChar).sentences <= ClassCountFrom(text, SentencePattern, isWordChar, 0)
  {
    MatchesAreMaximalRuns(text, SentencePattern, isWordChar);
    RunCountBounds(text, SentencePattern, isWordChar);
    assert forall c :: InClass(SentencePattern, isWordChar, c) <==> IsTerminator(c);
  }

  /** The character count is the length; the question and exclamation
      counts are the numbers of `?` and `!`. */
  lemma CharacterAndMarkCounts(text: string, isWordChar: WordClass)
    ensures Statistics(text, isWordChar).characters == |text|
    ensures Statistics(text, isWordChar).questions == multiset(text)['?']
    ensures Statistics(text, isWordChar).exclamations == multiset(text)['!']
  {
    LiteralCount(text, '?', isWordChar);
    LiteralCount(text, '!', isWordChar);
  }

  /** One line of the report. */
  datatype ReportLine = Header | Blank | Count(measure: Measure, value: nat)

  /** The position of a line in the report order: header, empty line, then
      the counts in their fixed order. */
  function LineRank(l: ReportLine): nat {
    match l
    case Header => 0
    case Blank => 1
    case Count(m, _) => 2 + Rank(m)
  }

  /** The lines `AnalyzeText` appends: the header, an empty line, then one
      line per selected count. */
  function Report(c: Counts, sel: Selection): (r: seq<ReportLine>)
    ensures 2 <= |r| <= 2 + |ReportOrder| && r[0] == Header && r[1] == Blank
  {
    [Header, Blank]
    + (if sel.characters then [Count(Characters, c.characters)] else [])
    + (if sel.words then [Count(Words, c.words)] else [])
    + (if sel.sentences then [Count(Sentences, c.sentences)] else [])
    + (if sel.questions then [Count(Questions, c.questions)] else [])
    + (if sel.exclamations then [Count(Exclamations, c.exclamations)] else [])
  }

  /** The order of the count lines. */
  const ReportOrder: seq<Measure> := [Characters, Words, Sentences, Questions, Exclamations]

  /** Every measure has its place in the order. */
  lemma EveryMeasureIsReported(m: Measure)
    ensures Rank(m) < |ReportOrder| && ReportOrder[Rank(m)] == m
    ensures m in ReportOrder
  {
  }

  /** The count lines of the selected measures among `ms`, in the order of `ms`. */
  function CountLines(c: Counts, sel: Selection, ms: seq<Measure>): seq<ReportLine>
    decreases |ms|
  {
    if ms == [] then []
    else (if Selected(sel, ms[0]) then [Count(ms[0], Value(c, ms[0]))] else []) + CountLines(c, sel, ms[1..])
  }

  /** `ms` lists measures in strictly increasing report order. */
  predicate InReportOrder(ms: seq<Measure>) {
    forall i, j :: 0 <= i < j < |ms| ==> Rank(ms[i]) < Rank(ms[j])
  }

  /** The lines over a list of measures are count lines of selected
      measures from the list, each with its value. */
  lemma {:induction false} CountLinesContents(c: Counts, sel: Selection, ms: seq<Measure>)
    ensures forall a :: 0 <= a < |CountLines(c, sel, ms)| ==>
              CountLines(c, sel, ms)[a].Count? && CountLines(c, sel, ms)[a].measure in ms
              && Selected(sel, CountLines(c, sel, ms)[a].measure)
              && CountLines(c, sel, ms)[a].value == Value(c, CountLines(c, sel, ms)[a].measure)
    decreases |ms|
  {
    if ms != [] {
      var rest := CountLines(c, sel, ms[1..]);
      var lines := CountLines(c, sel, ms);
      CountLinesContents(c, sel, ms[1..]);
      if Selected(sel, ms[0]) {
        assert forall a :: 0 < a < |lines| ==> lines[a] == rest[a - 1];
      }
    }
  }

  /** Over a list in report order the lines come in strictly increasing order. */
  lemma {:induction false} CountLinesOrdered(c: Counts, sel: Selection, ms: seq<Measure>)
    requires InReportOrder(ms)
    ensures forall a, b :: 0 <= a < b < |CountLines(c, sel, ms)| ==>
              LineRank(CountLines(c, sel, ms)[a]) < LineRank(CountLines(c, sel, ms)[b])
    decreases |ms|
  {
    if ms != [] {
      var rest := CountLines(c, sel, ms[1..]);
      var lines := CountLines(c, sel, ms);
      CountLinesOrdered(c, sel, ms[1..]);
      if Selected(sel, ms[0]) {
        CountLinesContents(c, sel, ms[1..]);
        assert forall a :: 0 < a < |lines| ==> lines[a] == rest[a - 1];
        forall b | 0 < b < |lines|
          ensures LineRank(lines[0]) < LineRank(lines[b])
        {
          var k :| 0 <= k < |ms[1..]| && ms[1..][k] == lines[b].measure;
          assert ms[1..][k] == ms[k + 1];
        }
      }
    }
  }

  /** Every selected measure of the list has a line. */
  lemma {:induction false} CountLinesComplete(c: Counts, sel: Selection, ms: seq<Measure>, m: Measure)
    requires m in ms && Selected(sel, m)
    ensures exists a :: 0 <= a < |CountLines(c, sel, ms)| && CountLines(c, sel, ms)[a] == Count(m, Value(c, m))
    decreases |ms|
  {
    var lines := CountLines(c, sel, ms);
    if ms[0] == m {
      assert lines[0] == Count(m, Value(c, m));
    } else {
      var rest := CountLines(c, sel, ms[1..]);
      CountLinesComplete(c, sel, ms[1..], m);
      var a :| 0 <= a < |rest| && rest[a] == Count(m, Value(c, m));
      if Selected(sel, ms[0]) {
        assert lines[a + 1] == rest[a];
      } else {
        assert lines == rest;
      }
    }
  }

  /** The five conditional appends are the count lines over the report
      order. */
  lemma ReportIsCountLines(c: Counts, sel: Selection)
    ensures Report(c, sel) == [Header, Blank] + CountLines(c, sel, ReportOrder)
  {
    var e := if sel.exclamations then [Count(Exclamations, c.exclamations)] else [];
    var q := if sel.questions then [Count(Questions, c.questions)] else [];
    var n := if sel.sentences then [Count(Sentences, c.sentences)] else [];
    var w := if sel.words then [Count(Words, c.words)] else [];
    var h := if sel.characters then [Count(Characters, c.characters)] else [];
    assert CountLines(c, sel, [Exclamations]) == e by { assert [Exclamations][1..] == []; }
    assert CountLines(c, sel, [Questions, Exclamations]) == q + e by {
      assert [Questions, Exclamations][1..] == [Exclamations];
    }
    assert CountLines(c, sel, [Sentences, Questions, Exclamations]) == n + (q + e) by {
      assert [Sentences, Questions, Exclamations][1..] == [Questions, Exclamations];
    }
    assert CountLines(c, sel, [Words, Sentences, Questions, Exclamations]) == w + (n + (q + e)) by {
      assert [Words, Sentences, Questions, Exclamations][1..] == [Sentences, Questions, Exclamations];
    }
    assert CountLines(c, sel, ReportOrder) == h + (w + (n + (q + e))) by {
      assert ReportOrder[1..] == [Words, Sentences, Questions, Exclamations];
    }
    Associate([Header, Blank], h, w, n, q, e);
  }

  /** Regrouping the six parts of the report. */
  lemma Associate<T>(x: seq<T>, h: seq<T>, w: seq<T>, n: seq<T>, q: seq<T>, e: seq<T>)
    ensures x + h + w + n + q + e == x + (h + (w + (n + (q + e))))
  {
  }

  /** The report opens with the header and an empty line; every later line
      is the count of a selected measure with its value; the lines follow the
      fixed order strictly; and every selected measure has its line. So
      there is exactly one line per selected measure, in order. */
  lemma ReportStructure(c: Counts, sel: Selection)
    ensures |Report(c, sel)| >= 2 && Report(c, sel)[0] == Header && Report(c, sel)[1] == Blank
    ensures forall a :: 2 <= a < |Report(c, sel)| ==>
              Report(c, sel)[a].Count? && Selected(sel, Report(c, sel)[a].measure)
              && Report(c, sel)[a].value == Value(c, Report(c, sel)[a].measure)
    ensures forall a, b :: 0 <= a < b < |Report(c, sel)| ==> LineRank(Report(c, sel)[a]) < LineRank(Report(c, sel)[b])
    ensures forall m :: Selected(sel, m) ==> exists a :: 2 <= a < |Report(c, sel)| && Report(c, sel)[a] == Count(m, Value(c, m))
  {
    ReportIsCountLines(c, sel);
    ReportCountLines(c, sel);
    ReportOrdered(c, sel);
    forall m | Selected(sel, m)
      ensures exists a :: 2 <= a < |Report(c, sel)| && Report(c, sel)[a] == Count(m, Value(c, m))
    {
      ReportHasLine(c, sel, m);
    }
  }

  lemma ReportCountLines(c: Counts, sel: Selection)
    ensures forall a :: 2 <= a < |Report(c, sel)| ==>
              Report(c, sel)[a].Count? && Selected(sel, Report(c, sel)[a].measure)
              && Report(c, sel)[a].value == Value(c, Report(c, sel)[a].measure)
  {
    var r := Report(c, sel);
    var lines := CountLines(c, sel, ReportOrder);
    ReportIsCountLines(c, sel);
    CountLinesContents(c, sel, ReportOrder);
    assert forall a :: 2 <= a < |r| ==> r[a] == lines[a - 2];
  }

  lemma ReportOrdered(c: Counts, sel: Selection)
    ensures forall a, b :: 0 <= a < b < |Report(c, sel)| ==> LineRank(Report(c, sel)[a]) < LineRank(Report(c, sel)[b])
  {
    var lines := CountLines(c, sel, ReportOrder);
    ReportIsCountLines(c, sel);
    assert InReportOrder(ReportOrder);
    CountLinesContents(c, sel, ReportOrder);
    CountLinesOrdered(c, sel, ReportOrder);
    HeaderFirst(lines);
  }

  /** Count lines in order stay in order behind the header and the empty line. */
  lemma HeaderFirst(lines: seq<ReportLine>)
    requires forall a :: 0 <= a < |lines| ==> lines[a].Count?
    requires forall a, b :: 0 <= a < b < |lines| ==> LineRank(lines[a]) < LineRank(lines[b])
    ensures forall a, b :: 0 <= a < b < |[Header, Blank] + lines| ==>
              LineRank(([Header, Blank] + lines)[a]) < LineRank(([Header, Blank] + lines)[b])
  {
    var r := [Header, Blank] + lines;
    forall a, b | 0 <= a < b < |r|
      ensures LineRank(r[a]) < LineRank(r[b])
    {
      if b >= 2 {
        assert r[b] == lines[b - 2];
      }
      if a >= 2 {
        assert r[a] == lines[a - 2];
      }
    }
  }

  lemma ReportHasLine(c: Counts, sel: Selection, m: Measure)
    requires Selected(sel, m)
    ensures exists a :: 2 <= a < |Report(c, sel)| && Report(c, sel)[a] == Count(m, Value(c, m))
  {
    var r := Report(c, sel);
    var lines := CountLines(c, sel, ReportOrder);
    ReportIsCountLines(c, sel);
    EveryMeasureIsReported(m);
    CountLinesComplete(c, sel, ReportOrder, m);
    var a :| 0 <= a < |lines| && lines[a] == Count(m, Value(c, m));
    assert r[a + 2] == lines[a];
  }

  /** With no count selected the report is the header alone; it has a count
      line exactly when some analysis box is checked. */
  lemma HeaderOnlyWhenNothingSelected(c: Counts, boxes: AnalysisBoxes)
    ensures |Report(c, SelectionOf(boxes))| > 2 <==> IsAnyAnalysisOptionSelected(boxes)
    ensures !IsAnyAnalysisOptionSelected(boxes) ==> Report(c, SelectionOf(boxes)) == [Header, Blank]
  {
  }

  /** `Environment.NewLine` on Windows, which `AppendLine` appends. */
  const NewLine: string := "\r\n"

  const HeaderText: string := "Результати аналізу:"

  /** The label before each count. */
  function Label(m: Measure): string {
    match m
    case Characters => "Символів: "
    case Words => "Слів: "
    case Sentences => "Речень: "
    case Questions => "Питальних речень: "
    case Exclamations => "Окличних речень: "
  }

  function Digit(d: nat): char
    requires d < 10
  {
    "0123456789"[d]
  }

  /** `Int32.ToString()` of a non-negative value: its decimal digits. */
  function DecimalString(n: nat): (s: string)
    ensures |s| > 0 && forall k :: 0 <= k < |s| ==> '0' <= s[k] <= '9'
    ensures s[0] == '0' ==> n == 0
  {
    if n < 10 then [Digit(n)] else DecimalString(n / 10) + [Digit(n % 10)]
  }

  /** The value of a string of decimal digits, or `None` for any other string. */
  function ParseDecimal(s: string): (r: Option<nat>)
    ensures r.Some? ==> |s| > 0
  {
    if s == [] then None
    else
      var last := s[|s| - 1];
      if !('0' <= last <= '9') then None
      else if |s| == 1 then Some(last as int - '0' as int)
      else
        match ParseDecimal(s[..|s| - 1])
        case None => None
        case Some(v) => Some(v * 10 + (last as int - '0' as int))
  }

  /** Reading the digits back gives the number. */
  lemma {:induction false} DecimalRoundTrip(n: nat)
    ensures ParseDecimal(DecimalString(n)) == Some(n)
  {
    var s := DecimalString(n);
    if n >= 10 {
      DecimalRoundTrip(n / 10);
      assert s[..|s| - 1] == DecimalString(n / 10);
    }
  }

  /** A line's text, without its line break. */
  function LineText(l: ReportLine): string {
    match l
    case Header => HeaderText
    case Blank => ""
    case Count(m, v) => Label(m) + DecimalString(v)
  }

  /** The builder's contents after `AppendLine` of each line in turn. */
  function Render(lines: seq<ReportLine>): string {
    if lines == [] then "" else LineText(lines[0]) + NewLine + Render(lines[1..])
  }

  /** `AnalyzeText`. */
  function AnalyzeText(text: string, includeCharCount: bool, includeWordCount: bool, includeSentenceCount: bool,
                       includeQuestionCount: bool, includeExclaimCount: bool, isWordChar: WordClass): string
  {
    Render(Report(Statistics(text, isWordChar),
                  Selection(includeCharCount, includeWordCount, includeSentenceCount,
                            includeQuestionCount, includeExclaimCount)))
  }

  /** Where the first line of `s` ends: its first carriage return, or its end. */
  function LineEnd(s: string): (i: nat)
    ensures i <= |s| && (i == |s| || s[i] == '\r')
    ensures forall k :: 0 <= k < i ==> s[k] != '\r'
  {
    if s == [] || s[0] == '\r' then 0 else 1 + LineEnd(s[1..])
  }

  /** Reads one line's text back. */
  function ParseLine(t: string): Option<ReportLine> {
    match ParseCountLine(t, ReportOrder)
    case Some(l) => Some(l)
    case None =>
      if t == HeaderText then Some(Header)
      else if t == "" then Some(Blank)
      else None
  }

  /** Reads a count line whose label is one of `ms`. */
  function ParseCountLine(t: string, ms: seq<Measure>): Option<ReportLine>
    decreases |ms|
  {
    if ms == [] then None
    else
      var lead := Label(ms[0]);
      if |lead| <= |t| && t[..|lead|] == lead then
        match ParseDecimal(t[|lead|..])
        case Some(v) => Some(Count(ms[0], v))
        case None => None
      else ParseCountLine(t, ms[1..])
  }

  /** Splits the text into lines at each `"\r\n"` and reads each back. */
  function ParseReport(s: string): Option<seq<ReportLine>>
    decreases |s|
  {
    if s == [] then Some([])
    else
      var i := LineEnd(s);
      if i + 1 < |s| && s[i + 1] == '\n' then
        match ParseLine(s[..i])
        case None => None
        case Some(l) =>
          match ParseReport(s[i + 2..])
          case None => None
          case Some(rest) => Some([l] + rest)
      else None
  }

  /** No line's text holds a carriage return. */
  lemma LineTextHasNoReturn(l: ReportLine)
    ensures '\r' !in LineText(l)
  {
    match l
    case Header =>
    case Blank =>
    case Count(m, v) =>
      assert '\r' !in Label(m);
      assert '\r' !in DecimalString(v);
  }

  /** The first two characters of the labels tell the measures apart. */
  lemma LabelsDiffer(m1: Measure, m2: Measure)
    requires m1 != m2
    ensures |Label(m1)| >= 2 && |Label(m2)| >= 2
    ensures Label(m1)[0] != Label(m2)[0] || Label(m1)[1] != Label(m2)[1]
  {
  }

  /** A count line is read back by the first label of `ms` it starts with,
      which is its own. */
  lemma {:induction false} ParseCountLineFinds(m: Measure, v: nat, ms: seq<Measure>)
    requires m in ms
    ensures ParseCountLine(Label(m) + DecimalString(v), ms) == Some(Count(m, v))
    decreases |ms|
  {
    var t := Label(m) + DecimalString(v);
    var lead := Label(ms[0]);
    if ms[0] == m {
      assert t[..|lead|] == lead;
      assert t[|lead|..] == DecimalString(v);
      DecimalRoundTrip(v);
    } else {
      LabelsDiffer(ms[0], m);
      if |lead| <= |t| && t[..|lead|] == lead {
        assert false;
      }
      ParseCountLineFinds(m, v, ms[1..]);
    }
  }

  /** The header starts with no label. */
  lemma {:induction false} HeaderIsNoCountLine(ms: seq<Measure>)
    ensures ParseCountLine(HeaderText, ms) == None
    decreases |ms|
  {
    if ms != [] {
      var lead := Label(ms[0]);
      assert |lead| > 2 && (HeaderText[0] != lead[0] || HeaderText[2] != lead[2]);
      HeaderIsNoCountLine(ms[1..]);
    }
  }

  /** Each line's text reads back as that line. */
  lemma ParseLineText(l: ReportLine)
    ensures ParseLine(LineText(l)) == Some(l)
  {
    match l
    case Header =>
      HeaderIsNoCountLine(ReportOrder);
    case Blank =>
      assert ParseCountLine("", ReportOrder) == None by {
        assert |Label(ReportOrder[0])| > 0;
      }
    case Count(m, v) =>
      EveryMeasureIsReported(m);
      ParseCountLineFinds(m, v, ReportOrder);
  }

  /** The rendered report reads back as its lines: the text determines the
      lines, header, order and values included. */
  lemma {:induction false} ReportRoundTrip(lines: seq<ReportLine>)
    ensures ParseReport(Render(lines)) == Some(lines)
  {
    if lines != [] {
      var t := LineText(lines[0]);
      LineTextHasNoReturn(lines[0]);
      assert Render(lines) == t + "\r\n" + Render(lines[1..]);
      ParseReportCons(t, Render(lines[1..]));
      ParseLineText(lines[0]);
      ReportRoundTrip(lines[1..]);
      assert [lines[0]] + lines[1..] == lines;
    }
  }

  /** A line without carriage returns, its line break and more text: the
      parser reads the line, then the rest. */
  lemma ParseReportCons(t: string, rest: string)
    requires '\r' !in t
    ensures ParseReport(t + "\r\n" + rest)
            == match ParseLine(t)
               case None => None
               case Some(l) =>
                 match ParseReport(rest)
                 case None => None
                 case Some(ls) => Some([l] + ls)
  {
    var s := t + "\r\n" + rest;
    assert s == t + ("\r\n" + rest);
    LineEndAfter(t, "\r\n" + rest);
    assert s[..|t|] == t;
    assert s[|t| + 2..] == rest;
  }

  /** A first line with no carriage return ends where the return follows it. */
  lemma {:induction false} LineEndAfter(t: string, u: string)
    requires '\r' !in t
    requires u != [] && u[0] == '\r'
    ensures LineEnd(t + u) == |t|
    decreases |t|
  {
    if t != [] {
      assert (t + u)[1..] == t[1..] + u;
      LineEndAfter(t[1..], u);
    }
  }

  /** The text `AnalyzeText` returns reads back as the report's lines. */
  lemma AnalyzeTextReadsBack(text: string, includeCharCount: bool, includeWordCount: bool,
                             includeSentenceCount: bool, includeQuestionCount: bool,
                             includeExclaimCount: bool, isWordChar: WordClass)
    ensures ParseReport(AnalyzeText(text, includeCharCount, includeWordCount, includeSentenceCount,
                                    includeQuestionCount, includeExclaimCount, isWordChar))
            == Some(Report(Statistics(text, isWordChar),
                           Selection(includeCharCount, includeWordCount, includeSentenceCount,
                                     includeQuestionCount, includeExclaimCount)))
  {
    ReportRoundTrip(Report(Statistics(text, isWordChar),
                           Selection(includeCharCount, includeWordCount, includeSentenceCount,
                                     includeQuestionCount, includeExclaimCount)));
  }
}

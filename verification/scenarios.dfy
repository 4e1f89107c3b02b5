/** Worked examples of the whole pipeline on concrete log lines: a limit order
    followed by its fully filled execution report, with `^A` delimiters and
    the trailing newline each line keeps when the log is read. */
module Scenarios {
  import opened Wrappers
  import opened Text
  import opened FixDecoder
  import opened Correlation

  /** `35=D^A40=2^A11=1^A60=T1^A55=XYZ^A54=1^A38=100^A44=10.50` */
  const OrderFields: seq<(string, string)> :=
    [("35", "D"), ("40", "2"), ("11", "1"), ("60", "T1"), ("55", "XYZ"), ("54", "1"), ("38", "100"), ("44", "10.50")]

  /** `35=8^A150=2^A39=2^A40=2^A11=1^A60=T2^A6=10.40^A30=NYSE` */
  const ReportFields: seq<(string, string)> :=
    [("35", "8"), ("150", "2"), ("39", "2"), ("40", "2"), ("11", "1"), ("60", "T2"), ("6", "10.40"), ("30", "NYSE")]

  /** The order as a log line with `^A` delimiters, after any colon-free prefix,
      ending in the newline that `readlines()` keeps. */
  function OrderLine(prefix: string): string {
    prefix + ":" + SohToCaretA(EncodeBody(OrderFields)) + "\n"
  }

  /** The report as a log line with `^A` delimiters, after any colon-free prefix,
      ending in the newline that `readlines()` keeps. */
  function ReportLine(prefix: string): string {
    prefix + ":" + SohToCaretA(EncodeBody(ReportFields)) + "\n"
  }

  /** The fill the two lines correlate into. */
  const ExpectedFill: Fill := Fill("1", "T1", "T2", "XYZ", "1", "100", "10.50", "10.40", "NYSE")

  /** Digits, capital letters and the decimal point: the only characters the
      example messages use. */
  predicate Alphanumeric(s: string) {
    forall k :: 0 <= k < |s| ==> ('0' <= s[k] <= '9') || ('A' <= s[k] <= 'Z') || s[k] == '.'
  }

  /** None of those characters is a delimiter, a caret or whitespace. */
  lemma AlphanumericIsPlain(s: string)
    requires Alphanumeric(s)
    ensures Plain(s)
  {
  }

  lemma OrderFieldsEncodable()
    ensures Encodable(OrderFields)
  {
    forall i | 0 <= i < |OrderFields| ensures Plain(OrderFields[i].0) && Plain(OrderFields[i].1) {
      AlphanumericIsPlain(OrderFields[i].0);
      AlphanumericIsPlain(OrderFields[i].1);
    }
  }

  lemma ReportFieldsEncodable()
    ensures Encodable(ReportFields)
  {
    forall i | 0 <= i < |ReportFields| ensures Plain(ReportFields[i].0) && Plain(ReportFields[i].1) {
      AlphanumericIsPlain(ReportFields[i].0);
      AlphanumericIsPlain(ReportFields[i].1);
    }
  }

  /** The decoded order line. */
  const OrderMessage: FieldMap :=
    map["35" := "D", "40" := "2", "11" := "1", "60" := "T1", "55" := "XYZ", "54" := "1", "38" := "100", "44" := "10.50"]

  /** The decoded report line. */
  const ReportMessage: FieldMap :=
    map["35" := "8", "150" := "2", "39" := "2", "40" := "2", "11" := "1", "60" := "T2", "6" := "10.40", "30" := "NYSE"]

  /** The state after the order line. */
  const AfterOrder: State := State(map["1" := Order("1", "T1", "XYZ", "1", "100", "10.50")], [])

  lemma OrderLineDecodes(prefix: string)
    requires ':' !in prefix
    ensures Parse(OrderLine(prefix)) == OrderMessage
  {
    OrderFieldsEncodable();
    ParseEncoded(prefix, OrderFields);
    ParseTrailingSpace(prefix + ":" + SohToCaretA(EncodeBody(OrderFields)), '\n');
  }

  lemma ReportLineDecodes(prefix: string)
    requires ':' !in prefix
    ensures Parse(ReportLine(prefix)) == ReportMessage
  {
    ReportFieldsEncodable();
    ParseEncoded(prefix, ReportFields);
    ParseTrailingSpace(prefix + ":" + SohToCaretA(EncodeBody(ReportFields)), '\n');
  }

  lemma OrderStep(st: State)
    ensures Step(st, OrderMessage) == Success(st.(orders := st.orders["1" := AfterOrder.orders["1"]]))
  {
  }

  lemma ReportStep(st: State)
    requires "1" in st.orders && st.orders["1"] == AfterOrder.orders["1"]
    ensures Step(st, ReportMessage) == Success(st.(fills := st.fills + [ExpectedFill]))
  {
  }

  lemma ReportStepUnmatched(st: State)
    requires "1" !in st.orders
    ensures Step(st, ReportMessage) == Success(st)
  {
  }

  lemma RunCons(st: State, line: string, rest: seq<string>, next: State)
    requires Step(st, Parse(line)) == Success(next)
    ensures RunFrom(st, [line] + rest) == RunFrom(next, rest)
  {
    assert ([line] + rest)[0] == line && ([line] + rest)[1..] == rest;
  }

  lemma OutputOfRun(lines: seq<string>, last: State)
    requires RunFrom(Initial, lines) == Success(last)
    ensures Output(lines) == Success(last.fills)
  {
  }

  lemma RunEnd(st: State)
    ensures RunFrom(st, []) == Success(st)
  {
  }

  /** The state after the order line and one report. */
  const Once: State := AfterOrder.(fills := [ExpectedFill])

  /** An order line followed by its fully filled report yields exactly one fill
      carrying the order's fields and the report's time, price and market. */
  lemma OrderThenFill(a: string, b: string)
    requires ':' !in a && ':' !in b
    ensures Output([OrderLine(a), ReportLine(b)]) == Success([ExpectedFill])
  {
    var lines := [OrderLine(a), ReportLine(b)];
    OrderLineDecodes(a);
    ReportLineDecodes(b);
    OrderStep(Initial);
    assert RunFrom(Initial, lines) == RunFrom(AfterOrder, lines[1..]);
    ReportStep(AfterOrder);
    assert RunFrom(AfterOrder, lines[1..]) == RunFrom(Once, lines[1..][1..]);
    assert lines[1..][1..] == [];
  }

  lemma RunTwoLines(st: State, first: string, second: string, mid: State, last: State)
    requires Step(st, Parse(first)) == Success(mid)
    requires Step(mid, Parse(second)) == Success(last)
    ensures RunFrom(st, [first, second]) == Success(last)
  {
    assert [first, second][1..] == [second] && [second][1..] == [];
    assert RunFrom(last, []) == Success(last);
    assert RunFrom(mid, [second]) == RunFrom(last, []);
    assert RunFrom(st, [first, second]) == RunFrom(mid, [second]);
  }

  /** Two copies of the report line, once order 1 is stored, append the
      expected fill twice. */
  lemma ReportLineTwice(st: State, b: string)
    requires ':' !in b
    requires "1" in st.orders && st.orders["1"] == AfterOrder.orders["1"]
    ensures RunFrom(st, [ReportLine(b), ReportLine(b)]) == Success(st.(fills := st.fills + [ExpectedFill, ExpectedFill]))
  {
    var once := st.(fills := st.fills + [ExpectedFill]);
    var twice := once.(fills := once.fills + [ExpectedFill]);
    ReportLineStep(st, b);
    ReportLineStep(once, b);
    RunTwoLines(st, ReportLine(b), ReportLine(b), once, twice);
    AppendTwice(st.fills, ExpectedFill);
  }

  lemma ReportLineStep(st: State, b: string)
    requires ':' !in b
    requires "1" in st.orders && st.orders["1"] == AfterOrder.orders["1"]
    ensures Step(st, Parse(ReportLine(b))) == Success(st.(fills := st.fills + [ExpectedFill]))
  {
    ReportLineDecodes(b);
    ReportStep(st);
  }

  lemma AppendTwice<T>(s: seq<T>, x: T)
    ensures s + [x] + [x] == s + [x, x]
  {
  }

  /** The same report line twice yields two identical fills. */
  lemma DuplicateReport(a: string, b: string)
    requires ':' !in a && ':' !in b
    ensures Output([OrderLine(a), ReportLine(b), ReportLine(b)]) == Success([ExpectedFill, ExpectedFill])
  {
    var lines := [OrderLine(a), ReportLine(b), ReportLine(b)];
    OrderLineDecodes(a);
    OrderStep(Initial);
    assert RunFrom(Initial, lines) == RunFrom(AfterOrder, lines[1..]);
    assert lines[1..] == [ReportLine(b), ReportLine(b)];
    ReportLineTwice(AfterOrder, b);
  }

  /** The report alone matches no stored order: no fill and no abort. */
  lemma UnmatchedReport(b: string)
    requires ':' !in b
    ensures Output([ReportLine(b)]) == Success([])
  {
    assert RunFrom(Initial, [ReportLine(b)]) == Success(Initial) by {
      ReportLineDecodes(b);
      ReportStepUnmatched(Initial);
      RunCons(Initial, ReportLine(b), [], Initial);
      RunEnd(Initial);
      assert [ReportLine(b)] + [] == [ReportLine(b)];
    }
    OutputOfRun([ReportLine(b)], Initial);
  }
}

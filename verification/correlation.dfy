/** The order/fill correlation loop of `fix_to_csv.py`: a state machine over
    decoded messages that remembers New-Order-Single limit orders by client
    order id and appends one fill record per fully filled limit execution
    report for a known order. A required tag that is absent aborts the run. */
module Correlation {
  import opened Wrappers
  import opened FixDecoder

  /** The FIX tags the loop reads. */
  datatype Tag =
    | ClOrdID      // 11
    | MsgType      // 35
    | OrderQty     // 38
    | OrdStatus    // 39
    | OrdType      // 40
    | Price        // 44
    | Side         // 54
    | Symbol       // 55
    | TransactTime // 60
    | AvgPx        // 6
    | LastMkt      // 30
    | ExecType     // 150

  /** The tag number as it appears in a message. */
  function Key(t: Tag): string {
    match t
    case ClOrdID => "11"
    case MsgType => "35"
    case OrderQty => "38"
    case OrdStatus => "39"
    case OrdType => "40"
    case Price => "44"
    case Side => "54"
    case Symbol => "55"
    case TransactTime => "60"
    case AvgPx => "6"
    case LastMkt => "30"
    case ExecType => "150"
  }

  /** Why a run stops: the `KeyError` raised by reading an absent tag. */
  datatype Abort = MissingTag(tag: Tag)

  /** A stored New-Order-Single limit order. */
  datatype Order = Order(
    orderId: string,
    transactTime: string,
    symbol: string,
    side: string,
    orderQty: string,
    limitPrice: string)

  /** One correlated fill, the unit of output. */
  datatype Fill = Fill(
    orderId: string,
    orderTransactTime: string,
    executionTransactTime: string,
    symbol: string,
    side: string,
    orderQty: string,
    limitPrice: string,
    avgPx: string,
    lastMkt: string)

  /** What the loop carries from one line to the next. */
  datatype State = State(orders: map<string, Order>, fills: seq<Fill>)

  const Initial: State := State(map[], [])

  /** `fix[key]`: the value of a tag, or the abort naming it. */
  function Get(fix: FieldMap, t: Tag): (r: Result<string, Abort>)
    ensures r.Success? <==> Key(t) in fix
    ensures r.Success? ==> r.value == fix[Key(t)]
    ensures r.Failure? ==> r.error == MissingTag(t)
  {
    if Key(t) in fix then Success(fix[Key(t)]) else Failure(MissingTag(t))
  }

  /** `fix.get(key) == v`: true only when the tag is present with value `v`. */
  predicate Is(fix: FieldMap, t: Tag, v: string) {
    Key(t) in fix && fix[Key(t)] == v
  }

  // ---------------------------------------------------------------------------
  // One message.
  // ---------------------------------------------------------------------------

  /** One iteration of the loop: dispatch on MsgType (35). */
  function Step(st: State, fix: FieldMap): (r: Result<State, Abort>)
    ensures r.Failure? ==> Key(r.error.tag) !in fix
    ensures r.Success? ==> st.orders.Keys <= r.value.orders.Keys
    ensures r.Success? ==> |st.fills| <= |r.value.fills| <= |st.fills| + 1
    ensures r.Success? ==> r.value.fills[..|st.fills|] == st.fills
    ensures r.Success? && r.value.fills != st.fills ==> r.value.orders == st.orders
    ensures r.Success? && "" !in st.orders ==> "" !in r.value.orders
  {
    if Is(fix, MsgType, "D") then
      var ordType :- Get(fix, OrdType);
      if ordType == "2" then NewOrder(st, fix) else Success(st)
    else if Is(fix, MsgType, "8") then
      ExecutionReport(st, fix)
    else
      Success(st)
  }

  /** A New-Order-Single limit order: store it under its non-empty ClOrdID,
      replacing whatever was stored there and leaving every other order and
      the fills alone; an empty ClOrdID changes nothing. */
  function NewOrder(st: State, fix: FieldMap): (r: Result<State, Abort>)
    ensures r.Failure? ==> Key(r.error.tag) !in fix
    ensures r.Success? ==> Key(ClOrdID) in fix && r.value.fills == st.fills
    ensures r.Success? && fix["11"] == "" ==> r.value == st
    ensures r.Success? && fix["11"] != "" ==>
              && r.value.orders.Keys == st.orders.Keys + {fix["11"]}
              && r.value.orders[fix["11"]].orderId == fix["11"]
              && (forall id :: id in st.orders && id != fix["11"] ==> r.value.orders[id] == st.orders[id])
  {
    var id :- Get(fix, ClOrdID);
    if id == "" then Success(st)
    else
      var time :- Get(fix, TransactTime);
      var symbol :- Get(fix, Symbol);
      var side :- Get(fix, Side);
      var qty :- Get(fix, OrderQty);
      var price :- Get(fix, Price);
      Success(st.(orders := st.orders[id := Order(id, time, symbol, side, qty, price)]))
  }

  /** An execution report: a fully filled limit order (150=2, 39=2, 40=2, read
      in that order and only as far as needed) for a known ClOrdID appends a
      fill built from the stored order and the report. */
  function ExecutionReport(st: State, fix: FieldMap): (r: Result<State, Abort>)
    ensures r.Failure? ==> Key(r.error.tag) !in fix
    ensures r.Success? ==> r.value.orders == st.orders
    ensures r.Success? && r.value.fills != st.fills ==>
              && Is(fix, ExecType, "2") && Is(fix, OrdStatus, "2") && Is(fix, OrdType, "2")
              && Key(ClOrdID) in fix && fix["11"] in st.orders
              && |r.value.fills| == |st.fills| + 1 && r.value.fills[..|st.fills|] == st.fills
              && Copies(r.value.fills[|st.fills|], fix["11"], st.orders[fix["11"]])
  {
    var execType :- Get(fix, ExecType);
    if execType != "2" then Success(st)
    else
      var status :- Get(fix, OrdStatus);
      if status != "2" then Success(st)
      else
        var ordType :- Get(fix, OrdType);
        if ordType != "2" then Success(st)
        else
          var id :- Get(fix, ClOrdID);
          if id !in st.orders then Success(st)
          else
            var order := st.orders[id];
            var execTime :- Get(fix, TransactTime);
            var avgPx :- Get(fix, AvgPx);
            var lastMkt :- Get(fix, LastMkt);
            Success(st.(fills := st.fills + [
              Fill(id, order.transactTime, execTime, order.symbol, order.side,
                   order.orderQty, order.limitPrice, avgPx, lastMkt)]))
  }

  /** A fill carries the report's ClOrdID and the stored order's transaction
      time, symbol, side, quantity and limit price. */
  predicate Copies(f: Fill, id: string, order: Order) {
    && f.orderId == id
    && f.orderTransactTime == order.transactTime
    && f.symbol == order.symbol
    && f.side == order.side
    && f.orderQty == order.orderQty
    && f.limitPrice == order.limitPrice
  }

  // ---------------------------------------------------------------------------
  // The effect of one message, case by case.
  // ---------------------------------------------------------------------------

  /** The first of `tags` absent from `fix`, if any: the tag a sequence of
      reads in this order aborts on. */
  function FirstMissing(fix: FieldMap, tags: seq<Tag>): (r: Option<Tag>)
    ensures r.None? <==> forall i :: 0 <= i < |tags| ==> Key(tags[i]) in fix
    ensures r.Some? ==> exists i :: 0 <= i < |tags| && tags[i] == r.value && Key(r.value) !in fix
                                    && forall i' :: 0 <= i' < i ==> Key(tags[i']) in fix
  {
    if |tags| == 0 then None
    else if Key(tags[0]) !in fix then Some(tags[0])
    else
      var r := FirstMissing(fix, tags[1..]);
      assert r.Some? ==> exists i :: 0 <= i < |tags| && tags[i] == r.value && Key(r.value) !in fix
                                    && forall i' :: 0 <= i' < i ==> Key(tags[i']) in fix by {
        if r.Some? {
          var i :| 0 <= i < |tags[1..]| && tags[1..][i] == r.value && Key(r.value) !in fix
                    && forall i' :: 0 <= i' < i ==> Key(tags[1..][i']) in fix;
          assert tags[i + 1] == r.value;
          forall i' | 0 <= i' < i + 1 ensures Key(tags[i']) in fix {
            if i' > 0 {
              assert tags[i'] == tags[1..][i' - 1];
            }
          }
        }
      }
      assert r.None? ==> forall i :: 0 <= i < |tags| ==> Key(tags[i]) in fix by {
        if r.None? {
          forall i | 0 <= i < |tags| ensures Key(tags[i]) in fix {
            if i > 0 {
              assert tags[i] == tags[1..][i - 1];
            }
          }
        }
      }
      r
  }

  /** The order fields a New-Order-Single reads, in the order it reads them. */
  const OrderTags: seq<Tag> := [TransactTime, Symbol, Side, OrderQty, Price]

  /** The report fields a matched execution report reads, in order. */
  const FillTags: seq<Tag> := [TransactTime, AvgPx, LastMkt]

  /** The order a complete New-Order-Single describes. */
  function OrderFrom(fix: FieldMap): Order
    requires Key(ClOrdID) in fix
    requires FirstMissing(fix, OrderTags).None?
  {
    assert forall i :: 0 <= i < |OrderTags| ==> Key(OrderTags[i]) in fix;
    assert Key(OrderTags[0]) in fix && Key(OrderTags[1]) in fix && Key(OrderTags[2]) in fix
        && Key(OrderTags[3]) in fix && Key(OrderTags[4]) in fix;
    Order(fix["11"], fix["60"], fix["55"], fix["54"], fix["38"], fix["44"])
  }

  /** A New-Order-Single (35=D) limit order (40=2) with a non-empty ClOrdID
      and all its fields stores the order under that id, replacing any order
      stored there before; fills are unchanged. Any missing order field
      aborts on the first one in read order. An empty ClOrdID changes nothing. */
  lemma NewOrderStores(st: State, fix: FieldMap)
    requires Is(fix, MsgType, "D") && Is(fix, OrdType, "2") && Key(ClOrdID) in fix
    ensures fix["11"] == "" ==> Step(st, fix) == Success(st)
    ensures fix["11"] != "" ==>
              match FirstMissing(fix, OrderTags)
              case None =>
                && Step(st, fix).Success?
                && Step(st, fix).value.orders == st.orders[fix["11"] := OrderFrom(fix)]
                && Step(st, fix).value.fills == st.fills
              case Some(t) => Step(st, fix) == Failure(MissingTag(t))
  {
    var m := FirstMissing(fix, OrderTags);
    if fix["11"] != "" && m.Some? {
      var i :| 0 <= i < |OrderTags| && OrderTags[i] == m.value && Key(m.value) !in fix
                && forall i' :: 0 <= i' < i ==> Key(OrderTags[i']) in fix;
      if i > 0 { assert Key(OrderTags[0]) in fix; }
      if i > 1 { assert Key(OrderTags[1]) in fix; }
      if i > 2 { assert Key(OrderTags[2]) in fix; }
      if i > 3 { assert Key(OrderTags[3]) in fix; }
    } else if m.None? {
      assert Key(OrderTags[0]) in fix && Key(OrderTags[1]) in fix && Key(OrderTags[2]) in fix
          && Key(OrderTags[3]) in fix && Key(OrderTags[4]) in fix;
    }
  }

  /** The fill a matched execution report produces: the report's ClOrdID,
      the stored order's time, symbol, side, quantity and limit price, and the
      report's TransactTime, AvgPx and LastMkt. */
  function FillFrom(id: string, order: Order, fix: FieldMap): Fill
    requires FirstMissing(fix, FillTags).None?
  {
    assert Key(FillTags[0]) in fix && Key(FillTags[1]) in fix && Key(FillTags[2]) in fix;
    Fill(id, order.transactTime, fix["60"], order.symbol, order.side,
         order.orderQty, order.limitPrice, fix["6"], fix["30"])
  }

  /** A fully filled limit execution report (35=8, 150=2, 39=2, 40=2) for a
      stored ClOrdID appends exactly one fill, at the end, and leaves the
      stored orders as they are; a missing report field aborts on the first
      one in read order. */
  lemma ExecutionReportAppends(st: State, fix: FieldMap)
    requires Is(fix, MsgType, "8") && Is(fix, ExecType, "2") && Is(fix, OrdStatus, "2") && Is(fix, OrdType, "2")
    requires Key(ClOrdID) in fix && fix["11"] in st.orders
    ensures match FirstMissing(fix, FillTags)
            case None =>
              Step(st, fix) == Success(State(st.orders, st.fills + [FillFrom(fix["11"], st.orders[fix["11"]], fix)]))
            case Some(t) => Step(st, fix) == Failure(MissingTag(t))
  {
    var m := FirstMissing(fix, FillTags);
    if m.Some? {
      var i :| 0 <= i < |FillTags| && FillTags[i] == m.value && Key(m.value) !in fix
                && forall i' :: 0 <= i' < i ==> Key(FillTags[i']) in fix;
      if i > 0 { assert Key(FillTags[0]) in fix; }
      if i > 1 { assert Key(FillTags[1]) in fix; }
    } else {
      assert Key(FillTags[0]) in fix && Key(FillTags[1]) in fix && Key(FillTags[2]) in fix;
      var id := fix["11"];
      var order := st.orders[id];
      assert ExecutionReport(st, fix) == Success(st.(fills := st.fills + [
        Fill(id, order.transactTime, fix["60"], order.symbol, order.side,
             order.orderQty, order.limitPrice, fix["6"], fix["30"])]));
    }
  }

  /** A message produces a fill exactly when it is a fully filled limit
      execution report for a stored ClOrdID that carries TransactTime, AvgPx
      and LastMkt. */
  lemma FillIff(st: State, fix: FieldMap)
    ensures (Step(st, fix).Success? && |Step(st, fix).value.fills| == |st.fills| + 1) <==>
              && Is(fix, MsgType, "8") && Is(fix, ExecType, "2") && Is(fix, OrdStatus, "2") && Is(fix, OrdType, "2")
              && Key(ClOrdID) in fix && fix["11"] in st.orders
              && Key(TransactTime) in fix && Key(AvgPx) in fix && Key(LastMkt) in fix
  {
  }

  /** Messages the loop ignores leave orders and fills alone: no MsgType, a
      MsgType other than D or 8, a New-Order-Single that is not a limit order,
      and an execution report that fails the 150/39/40 filter or names an
      order never stored. */
  lemma IgnoredMessages(st: State, fix: FieldMap)
    ensures Key(MsgType) !in fix ==> Step(st, fix) == Success(st)
    ensures Key(MsgType) in fix && fix["35"] != "D" && fix["35"] != "8" ==> Step(st, fix) == Success(st)
    ensures Is(fix, MsgType, "D") && Key(OrdType) in fix && fix["40"] != "2" ==> Step(st, fix) == Success(st)
    ensures Is(fix, MsgType, "8") && Key(ExecType) in fix && fix["150"] != "2" ==> Step(st, fix) == Success(st)
    ensures (Is(fix, MsgType, "8") && Is(fix, ExecType, "2") && Key(OrdStatus) in fix && fix["39"] != "2")
              ==> Step(st, fix) == Success(st)
    ensures (&& Is(fix, MsgType, "8") && Is(fix, ExecType, "2") && Is(fix, OrdStatus, "2")
             && Key(OrdType) in fix && fix["40"] != "2")
              ==> Step(st, fix) == Success(st)
    ensures (&& Is(fix, MsgType, "8") && Is(fix, ExecType, "2") && Is(fix, OrdStatus, "2") && Is(fix, OrdType, "2")
             && Key(ClOrdID) in fix && fix["11"] !in st.orders)
              ==> Step(st, fix) == Success(st)
  {
  }

  /** Once a branch is entered, the tags that decide it are read in the order
      the code reads them, and the first one absent is the abort: a
      New-Order-Single always reads 40, then 11 if it is a limit order; an
      execution report reads 150, then 39 only if 150 is 2, then 40 only if
      39 is 2, then 11 only if 40 is 2. */
  lemma AbortOrder(st: State, fix: FieldMap)
    ensures Is(fix, MsgType, "D") && Key(OrdType) !in fix ==> Step(st, fix) == Failure(MissingTag(OrdType))
    ensures (Is(fix, MsgType, "D") && Is(fix, OrdType, "2") && Key(ClOrdID) !in fix)
              ==> Step(st, fix) == Failure(MissingTag(ClOrdID))
    ensures Is(fix, MsgType, "8") && Key(ExecType) !in fix ==> Step(st, fix) == Failure(MissingTag(ExecType))
    ensures (Is(fix, MsgType, "8") && Is(fix, ExecType, "2") && Key(OrdStatus) !in fix)
              ==> Step(st, fix) == Failure(MissingTag(OrdStatus))
    ensures (Is(fix, MsgType, "8") && Is(fix, ExecType, "2") && Is(fix, OrdStatus, "2") && Key(OrdType) !in fix)
              ==> Step(st, fix) == Failure(MissingTag(OrdType))
    ensures (&& Is(fix, MsgType, "8") && Is(fix, ExecType, "2") && Is(fix, OrdStatus, "2") && Is(fix, OrdType, "2")
             && Key(ClOrdID) !in fix)
              ==> Step(st, fix) == Failure(MissingTag(ClOrdID))
  {
  }

  /** A message that carries every tag the loop reads never aborts. */
  lemma CompleteMessageNeverAborts(st: State, fix: FieldMap)
    requires forall t: Tag :: Key(t) in fix
    ensures Step(st, fix).Success?
  {
    assert Key(ClOrdID) in fix && Key(OrdType) in fix && Key(ExecType) in fix && Key(OrdStatus) in fix;
    assert Key(TransactTime) in fix && Key(Symbol) in fix && Key(Side) in fix && Key(OrderQty) in fix;
    assert Key(Price) in fix && Key(AvgPx) in fix && Key(LastMkt) in fix;
  }

  /** A stored order is never consumed: the same fully filled report twice in
      a row yields two identical fills. */
  lemma RepeatedReportRepeatsFill(st: State, fix: FieldMap)
    requires Is(fix, MsgType, "8") && Is(fix, ExecType, "2") && Is(fix, OrdStatus, "2") && Is(fix, OrdType, "2")
    requires Key(ClOrdID) in fix && fix["11"] in st.orders
    requires Key(TransactTime) in fix && Key(AvgPx) in fix && Key(LastMkt) in fix
    ensures Step(st, fix).Success?
    ensures Step(Step(st, fix).value, fix).Success?
    ensures var fills := Step(Step(st, fix).value, fix).value.fills;
            |fills| == |st.fills| + 2 && fills[..|st.fills|] == st.fills && fills[|st.fills|] == fills[|st.fills| + 1]
  {
    var once := Step(st, fix).value;
    assert once.orders == st.orders;
  }

  // ---------------------------------------------------------------------------
  // The whole run.
  // ---------------------------------------------------------------------------

  /** The loop over the log's lines: decode each line and step, stopping at
      the first abort. Fills are only ever appended, at most one per line, and
      stored orders are only ever added or replaced. */
  function RunFrom(st: State, lines: seq<string>): (r: Result<State, Abort>)
    ensures r.Success? ==> st.orders.Keys <= r.value.orders.Keys
    ensures r.Success? ==> |st.fills| <= |r.value.fills| <= |st.fills| + |lines|
    ensures r.Success? ==> r.value.fills[..|st.fills|] == st.fills
    decreases |lines|
  {
    if |lines| == 0 then Success(st)
    else
      var next :- Step(st, Parse(lines[0]));
      var r := RunFrom(next, lines[1..]);
      assert r.Success? ==> r.value.fills[..|st.fills|] == st.fills by {
        if r.Success? {
          assert r.value.fills[..|st.fills|] == r.value.fills[..|next.fills|][..|st.fills|];
        }
      }
      r
  }

  /** `main`'s loop, starting with no orders and no fills. A completed run
      has at most one fill per line, and its state is well formed: every fill
      names an order the run stored. */
  function Run(lines: seq<string>): (r: Result<State, Abort>)
    ensures r.Success? ==> |r.value.fills| <= |lines|
    ensures r.Success? ==> Consistent(r.value)
  {
    RunKeepsConsistent(Initial, lines);
    RunFrom(Initial, lines)
  }

  /** What the program hands to the CSV writer: the fills of a completed run,
      or the abort, in which case nothing is written. */
  function Output(lines: seq<string>): (r: Result<seq<Fill>, Abort>)
    ensures r.Success? <==> Run(lines).Success?
    ensures r.Success? ==> |r.value| <= |lines|
  {
    match Run(lines)
    case Success(st) => Success(st.fills)
    case Failure(e) => Failure(e)
  }

  /** Running a log in two parts is running the second part from the state
      the first part leaves, unless the first part already aborted. */
  lemma {:induction false} RunAppend(st: State, xs: seq<string>, ys: seq<string>)
    ensures RunFrom(st, xs + ys) ==
              match RunFrom(st, xs)
              case Success(mid) => RunFrom(mid, ys)
              case Failure(e) => Failure(e)
    decreases |xs|
  {
    if |xs| == 0 {
      assert xs + ys == ys;
    } else {
      assert (xs + ys)[0] == xs[0];
      assert (xs + ys)[1..] == xs[1..] + ys;
      match Step(st, Parse(xs[0]))
      case Failure(_) =>
      case Success(next) => RunAppend(next, xs[1..], ys);
    }
  }

  /** The run past a line that steps to `next` is the run from `next`. */
  lemma RunPastLine(st: State, lines: seq<string>, next: State)
    requires |lines| > 0 && Step(st, Parse(lines[0])) == Success(next)
    ensures RunFrom(st, lines) == RunFrom(next, lines[1..])
  {
  }

  /** A run whose first line aborts stops there with that line's error. */
  lemma RunStopsAtLine(st: State, lines: seq<string>, e: Abort)
    requires |lines| > 0 && Step(st, Parse(lines[0])) == Failure(e)
    ensures RunFrom(st, lines) == Failure(e)
  {
  }

  lemma SplitAt<T>(s: seq<T>, i: nat)
    requires i <= |s|
    ensures s[..i] + s[i..] == s
  {
  }

  /** An abort is final: once line `i` aborts after the lines before it ran,
      the whole run aborts with that tag, whatever follows; no fill of the
      run reaches the output. */
  lemma AbortIsFinal(st: State, lines: seq<string>, i: nat, e: Abort)
    requires i < |lines|
    requires RunFrom(st, lines[..i]).Success?
    requires Step(RunFrom(st, lines[..i]).value, Parse(lines[i])) == Failure(e)
    ensures RunFrom(st, lines) == Failure(e)
  {
    var mid := RunFrom(st, lines[..i]).value;
    RunAppend(st, lines[..i], lines[i..]);
    SplitAt(lines, i);
    assert lines[i..][0] == lines[i];
    RunStopsAtLine(mid, lines[i..], e);
  }

  /** Conversely, an aborted run has a first aborting line: the lines before
      it ran, and the abort is that line's missing tag. */
  lemma {:induction false} AbortHasCause(st: State, lines: seq<string>)
    requires RunFrom(st, lines).Failure?
    ensures exists i :: && 0 <= i < |lines|
                        && RunFrom(st, lines[..i]).Success?
                        && Step(RunFrom(st, lines[..i]).value, Parse(lines[i])) == Failure(RunFrom(st, lines).error)
    decreases |lines|
  {
    assert |lines| > 0;
    var first := Step(st, Parse(lines[0]));
    assert lines[..0] == [];
    assert RunFrom(st, lines[..0]) == Success(st);
    if first.Failure? {
      RunStopsAtLine(st, lines, first.error);
    } else {
      var next := first.value;
      var rest := lines[1..];
      RunPastLine(st, lines, next);
      AbortHasCause(next, rest);
      var i :| && 0 <= i < |rest|
               && RunFrom(next, rest[..i]).Success?
               && Step(RunFrom(next, rest[..i]).value, Parse(rest[i])) == Failure(RunFrom(next, rest).error);
      var prefix := lines[..i + 1];
      assert prefix[0] == lines[0] && prefix[1..] == rest[..i];
      RunPastLine(st, prefix, next);
      assert lines[i + 1] == rest[i];
    }
  }

  /** The state the loop keeps is well formed: no order is stored under the
      empty id, each stored order carries its own id, and every fill names a
      stored order, so no fill is ever made for an order the run has not seen. */
  ghost predicate Consistent(st: State) {
    && "" !in st.orders
    && (forall id :: id in st.orders ==> st.orders[id].orderId == id)
    && (forall i :: 0 <= i < |st.fills| ==> st.fills[i].orderId in st.orders)
  }

  lemma StepKeepsConsistent(st: State, fix: FieldMap)
    requires Consistent(st)
    ensures Step(st, fix).Success? ==> Consistent(Step(st, fix).value)
  {
    var r := Step(st, fix);
    if r.Success? {
      var next := r.value;
      forall i | 0 <= i < |next.fills| ensures next.fills[i].orderId in next.orders {
        if i < |st.fills| {
          assert next.fills[i] == next.fills[..|st.fills|][i] == st.fills[i];
        }
      }
    }
  }

  lemma {:induction false} RunKeepsConsistent(st: State, lines: seq<string>)
    requires Consistent(st)
    ensures RunFrom(st, lines).Success? ==> Consistent(RunFrom(st, lines).value)
    decreases |lines|
  {
    if |lines| > 0 {
      StepKeepsConsistent(st, Parse(lines[0]));
      match Step(st, Parse(lines[0]))
      case Failure(_) =>
      case Success(next) => RunKeepsConsistent(next, lines[1..]);
    }
  }
}

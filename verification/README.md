# FIX log to filled-orders model

`fix_to_csv.py` reads a text log of FIX messages and writes a CSV with one row
per fully filled limit execution report for an order seen earlier in the log.
It does this in two stages:

1. **Decoding** (`parse_fix_line`). Each line is cut at its first colon. In the
   text after the colon, `^A` is rewritten to SOH (0x01) and surrounding
   whitespace is stripped. The rest is split on SOH, and every `tag=value`
   segment is cut at its first `=` and stored in a map. A line without a colon
   decodes to the empty map. When a tag appears twice, the later value wins.
2. **Correlation** (the loop in `main`):
   - A New-Order-Single (35=D) limit order (40=2) with a non-empty ClOrdID (11)
     is stored under that ClOrdID. It keeps its TransactTime (60), Symbol (55),
     Side (54), OrderQty (38) and Price (44).
   - A fully filled limit execution report (35=8, 150=2, 39=2, 40=2) whose
     ClOrdID names a stored order appends one fill. The fill combines the
     stored order with the report's TransactTime (60), AvgPx (6) and
     LastMkt (30).
   - Reading a tag the message lacks raises `KeyError`. That aborts the whole
     run, and no CSV is written.

The model is split into four modules:

- `Wrappers`: `Option` and a failure-compatible `Result`.
- `Text`: the Python string operations with their exact semantics:
  `split(c, 1)`, `replace("^A", "\x01")`, `strip()`, and `split(c)` with its
  inverse `Join`.
- `FixDecoder`: `parse_fix_line` as `Parse`, plus its properties. These are
  which segment each entry comes from, last-write-wins, delimiter equivalence,
  a round trip from written fields, and insensitivity to field order.
- `Correlation`:
  - the tags the loop reads;
  - `Order`, `Fill` and the loop `State`;
  - one loop iteration as `Step`, returning `Failure(MissingTag(t))` for a
    `KeyError`;
  - the whole loop as `RunFrom`/`Run`, and the CSV input as `Output`;
  - lemmas on dispatch, abort order, abort finality and consistency of the
    stored state.

A fifth module, `Scenarios`, states what the whole pipeline yields for concrete log lines.

Four behaviours of the code that are easy to misread:

- In a fully filled limit report, the ClOrdID is read with `fix['11']`. If it is
  absent, the run aborts with a missing-tag error; the report is not skipped
  (`fix_to_csv.py:77`).
- A stored order is never removed when it is filled. A second identical
  report appends a second identical fill (`fix_to_csv.py:78-90`).
- A limit New-Order-Single whose ClOrdID is present but empty is skipped
  without reading any other tag (`fix_to_csv.py:62-63`).
- A New-Order-Single without OrdType (40) aborts, because `fix['40']` is read
  whenever 35=D (`fix_to_csv.py:61`).

## Model

| member | source | states |
|---|---|---|
| Text.Cut | fix_to_csv.py:24-26 | `None` exactly when the separator is absent (the `IndexError` case); otherwise the input is the part before, the separator, and the part after, and the part before holds no separator |
| Text.CutAtFirst | fix_to_csv.py:24 | the cut is made at the first separator: everything after it, later separators included, goes to the second part |
| Text.CaretAToSoh | fix_to_csv.py:29 | replacing `^A` never lengthens the text, and shortens it whenever it holds `^A` |
| Text.NoCaretAAfterNormalising | fix_to_csv.py:29 | after the replacement no `^A` is left: scanning left to right without overlap cannot create a new one |
| Text.CaretAFreeIsUnchanged | fix_to_csv.py:29 | text without `^A` is unchanged by the replacement |
| Text.NormalisingIsIdempotent | fix_to_csv.py:29 | applying the replacement twice is the same as applying it once |
| Text.SohToCaretA | fix_to_csv.py:28-29 | writing SOH as `^A` leaves no SOH in the text |
| Text.SohToCaretALength | fix_to_csv.py:28-29 | writing SOH as `^A` adds exactly one character per SOH |
| Text.SohSpellingsAgree | fix_to_csv.py:28-29 | a text written with `^A` and the same text written with SOH normalise to the same string |
| Text.CaretAToSohAppend | fix_to_csv.py:29 | a character other than `A` appended to the text passes through the replacement unchanged and cannot complete a `^A` |
| Text.Strip | fix_to_csv.py:30 | the result is a slice of the input; everything cut off on either side is whitespace; a non-empty result neither starts nor ends with whitespace |
| Text.StripTrailingSpace | fix_to_csv.py:30 | appending a whitespace character does not change the stripped text |
| Text.Split | fix_to_csv.py:30 | at least one piece, and no piece contains the delimiter |
| Text.JoinSplit | fix_to_csv.py:30 | joining the pieces with the delimiter gives back the original text |
| Text.SplitJoin | fix_to_csv.py:30 | splitting the join of a non-empty list of delimiter-free pieces recovers exactly that list |
| FixDecoder.Collect | fix_to_csv.py:31-35 | the loop only adds keys, and every key it adds is a field's tag, which holds no `=` |
| FixDecoder.Segments | fix_to_csv.py:28-30 | there is at least one segment, no segment holds SOH, and joined with SOH the segments are exactly the normalised, stripped body |
| FixDecoder.ParseBody | fix_to_csv.py:28-36 | a tag is a key exactly when some segment is a field with that tag; no key holds `=` |
| FixDecoder.FieldOf | fix_to_csv.py:33-34 | a segment is a field exactly when it contains `=`; the tag holds no `=`; tag, `=` and value make up the whole segment |
| FixDecoder.Parse | fix_to_csv.py:23-36 | a line without a colon decodes to the empty map; no decoded tag contains `=` |
| FixDecoder.ParseAfterFirstColon | fix_to_csv.py:23-26 | only the text after the first colon is decoded; later colons are part of the body |
| FixDecoder.ParseBodyEntries | fix_to_csv.py:31-36 | a tag is decoded exactly when some segment is a field with that tag; its value is the value of the last such segment |
| FixDecoder.CollectKeys | fix_to_csv.py:32-35 | the keys after the loop are the keys before it plus the tags of the field segments |
| FixDecoder.CollectLastWriteWins | fix_to_csv.py:35 | when segment `j` is the last one that sets a tag, the tag ends up with segment `j`'s value |
| FixDecoder.CollectUnset | fix_to_csv.py:32-35 | a tag that no segment sets keeps its value from before the loop |
| FixDecoder.DelimiterEquivalence | fix_to_csv.py:28-30 | a body decodes the same whether its delimiters are SOH or `^A` |
| FixDecoder.LineDelimiterEquivalence | fix_to_csv.py:23-30 | the same holds for whole log lines |
| FixDecoder.CollectAppend | fix_to_csv.py:32-35 | decoding a concatenation of segments is decoding the second part on top of the first |
| FixDecoder.SwapSegments | fix_to_csv.py:32-35 | swapping two neighbouring segments that do not set the same tag does not change the decoded map |
| FixDecoder.CollectFieldTexts | fix_to_csv.py:33-35 | decoding written-out `tag=value` segments performs the same dictionary assignments in the same order |
| FixDecoder.ParseEncoded | fix_to_csv.py:23-36 | round trip: a line whose body lists plain fields (no SOH, caret or whitespace anywhere in a tag or value, and no `=` in a tag) decodes to the map built by assigning them in order, with either delimiter spelling |
| FixDecoder.ParseBodyTrailingSpace | fix_to_csv.py:29-30 | a trailing whitespace character, such as the newline `readlines()` keeps, does not change what a body decodes to |
| FixDecoder.ParseTrailingSpace | fix_to_csv.py:23-36 | the same for whole lines: a line with and without its trailing newline decodes to the same map |
| Correlation.Get | fix_to_csv.py:61-90 | `fix[key]` succeeds exactly when the tag is present, gives its value, and otherwise aborts naming that tag |
| Correlation.Step | fix_to_csv.py:55-90 | an abort names a tag the message lacks; stored order ids only grow; at most one fill is appended and earlier fills are kept; a step that appends a fill does not touch the orders; the empty id is never stored |
| Correlation.NewOrder | fix_to_csv.py:62-71 | an abort names a tag the message lacks; success means the ClOrdID was present and the fills are untouched; an empty ClOrdID changes nothing; otherwise the order is stored under its ClOrdID, carrying that id, and every other stored order is kept |
| Correlation.ExecutionReport | fix_to_csv.py:76-90 | an abort names a tag the message lacks; the orders are never touched; when a fill is appended the report has 150=2, 39=2 and 40=2, its ClOrdID names a stored order, exactly one fill is added after the earlier ones, and it carries that id and the stored order's time, symbol, side, quantity and limit price |
| Correlation.FirstMissing | fix_to_csv.py:64-71 | `None` exactly when every listed tag is present; otherwise it gives one of the listed tags, and that tag is absent |
| Correlation.NewOrderStores | fix_to_csv.py:61-71 | a limit New-Order-Single with an empty ClOrdID changes nothing; otherwise it aborts on the first missing order tag in read order (60, 55, 54, 38, 44), or stores the order under its ClOrdID, replacing any earlier one, and leaves the fills alone |
| Correlation.ExecutionReportAppends | fix_to_csv.py:74-90 | a fully filled limit report for a stored order aborts on the first missing tag among 60, 6, 30, or appends the fill made from the stored order and the report, leaving the orders alone |
| Correlation.FillIff | fix_to_csv.py:74-90 | a message appends a fill exactly when it is a fully filled limit report for a stored order that carries 60, 6 and 30 |
| Correlation.IgnoredMessages | fix_to_csv.py:58-78 | no MsgType, another MsgType, a non-limit order, a report whose 150, 39 or 40 is not 2, or a report for an unknown order leaves the state unchanged |
| Correlation.AbortOrder | fix_to_csv.py:61-77 | the tags that decide a branch are read in order, with short-circuiting: 35=D aborts on a missing 40 and then on a missing 11; 35=8 aborts on a missing 150, then 39 (only if 150 is 2), then 40 (only if 39 is 2), then 11 (only if 40 is 2) |
| Correlation.CompleteMessageNeverAborts | fix_to_csv.py:61-90 | a message carrying every tag the loop reads never aborts |
| Correlation.RepeatedReportRepeatsFill | fix_to_csv.py:78-90 | the order is not consumed: the same fully filled report twice appends two identical fills |
| Correlation.RunFrom | fix_to_csv.py:53-90 | over the whole log, stored order ids only grow, earlier fills are kept, and at most one fill is added per line |
| Correlation.Output | fix_to_csv.py:93-107 | the CSV rows exist exactly when the run completes, and there are at most as many rows as lines |
| Correlation.RunAppend | fix_to_csv.py:55-90 | running a log in two parts is running the second part from the state the first leaves, unless the first part aborted |
| Correlation.AbortIsFinal | fix_to_csv.py:101-107 | once a line aborts after the lines before it have run, the whole run aborts with that error, whatever follows |
| Correlation.AbortHasCause | fix_to_csv.py:101-107 | an aborted run has a first aborting line: the lines before it ran, and the error is that line's |
| Correlation.StepKeepsConsistent | fix_to_csv.py:62-90 | a step preserves the well-formedness of the state: no order under the empty id, each order stored under its own id, every fill naming a stored order |
| Correlation.RunKeepsConsistent | fix_to_csv.py:53-90 | the whole loop preserves that well-formedness |
| Correlation.Run | fix_to_csv.py:53-90 | starting with no orders and no fills, a completed run has at most one fill per line and a well-formed state, so every fill names an order the run stored |
| Scenarios.OrderLineDecodes | fix_to_csv.py:23-36 | a concrete `^A`-delimited New-Order-Single line decodes to its eight fields |
| Scenarios.ReportLineDecodes | fix_to_csv.py:23-36 | a concrete `^A`-delimited execution report line decodes to its eight fields |
| Scenarios.OrderThenFill | fix_to_csv.py:53-97 | an order line and then its fully filled report give exactly one CSV row, carrying the order's fields and the report's time, price and market |
| Scenarios.DuplicateReport | fix_to_csv.py:78-90 | the order line and then the same report twice give two identical rows |
| Scenarios.UnmatchedReport | fix_to_csv.py:78 | a report for an order never seen gives no row and no abort |

## Left out

- Reading the input file, `argparse`, `print` and `sys.exit` are not modelled. A run takes the file's lines as a sequence of strings. An abort is the `Failure` value of `Output`; the model does not produce the stderr message or the exit status 1.
- Building the `pandas` DataFrame and writing the CSV are not modelled. `Output` gives the fill records in append order. Each `Fill` lists its fields in the CSV's column order, but no CSV text is produced. The case with no fills is included in this.
- `calc_execution_metrics.py` is a separate script and is not part of this model.
- Text.Strip: the whitespace set is Python's `str.isspace` written out as a fixed list of code points. It is not derived from a Unicode database.
- Characters are Dafny `char`s, which are Unicode scalar values. Decoding the file's bytes into text is not modelled.
- FixDecoder.ParseEncoded: the round trip covers only fields with no SOH, caret or whitespace anywhere in a tag or value. A value with an inner space, which the decoder keeps, is outside it.
- Correlation.Output: only the number of rows is bounded in the contract. The row contents are stated by Correlation.FillIff, Correlation.ExecutionReportAppends and the scenario lemmas, not by Output itself.

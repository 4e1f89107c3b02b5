/** The FIX line decoder, `parse_fix_line`: one log line becomes a map from
    tag to value. It never fails; malformed input only yields fewer fields. */
module FixDecoder {
  import opened Wrappers
  import opened Text

  /** Tag (as written, e.g. "35") to value, for one message. */
  type FieldMap = map<string, string>

  /** One body segment read as a `tag=value` field, cut at its first `=`;
      a segment without `=` is not a field. */
  function FieldOf(segment: string): (r: Option<(string, string)>)
    ensures r.None? <==> '=' !in segment
    ensures r.Some? ==> '=' !in r.value.0 && segment == r.value.0 + "=" + r.value.1
  {
    Cut(segment, '=')
  }

  /** The loop over segments: each field is stored under its tag, a later
      field overwriting an earlier one with the same tag. Keys are only ever
      added, and every added key is the tag of a field, so it holds no `=`. */
  function Collect(acc: FieldMap, segments: seq<string>): (r: FieldMap)
    ensures forall tag :: tag in acc ==> tag in r
    ensures forall tag :: tag in r ==> tag in acc || '=' !in tag
    decreases |segments|
  {
    if |segments| == 0 then acc
    else match FieldOf(segments[0])
      case None => Collect(acc, segments[1..])
      case Some((tag, value)) => Collect(acc[tag := value], segments[1..])
  }

  /** The segments of a message body: `^A` normalised to SOH, surrounding
      whitespace stripped, then split on SOH. There is always at least one,
      none holds SOH, and together they are the whole normalised, stripped body. */
  function Segments(body: string): (r: seq<string>)
    ensures |r| >= 1
    ensures forall i :: 0 <= i < |r| ==> Soh !in r[i]
    ensures Join(r, Soh) == Strip(CaretAToSoh(body))
  {
    JoinSplit(Strip(CaretAToSoh(body)), Soh);
    Split(Strip(CaretAToSoh(body)), Soh)
  }

  /** The fields of a message body (everything after the line's first colon):
      a tag is a key exactly when some segment is a field with that tag. */
  function ParseBody(body: string): (r: FieldMap)
    ensures forall tag :: tag in r <==> exists j :: Sets(Segments(body), j, tag)
    ensures forall tag :: tag in r ==> '=' !in tag
  {
    var segments := Segments(body);
    assert forall tag :: tag in Collect(map[], segments) <==> exists j :: Sets(segments, j, tag) by {
      forall tag
        ensures tag in Collect(map[], segments) <==> exists j :: Sets(segments, j, tag)
      {
        CollectKeys(map[], segments, tag);
      }
    }
    Collect(map[], segments)
  }

  /** `parse_fix_line`: a line without a colon decodes to the empty map;
      otherwise the text after the first colon is decoded as a body. */
  function Parse(line: string): (r: FieldMap)
    ensures ':' !in line ==> r == map[]
    ensures forall tag :: tag in r ==> '=' !in tag
  {
    match Cut(line, ':')
    case None => map[]
    case Some((_, body)) => ParseBody(body)
  }

  // ---------------------------------------------------------------------------
  // Which segment an entry comes from.
  // ---------------------------------------------------------------------------

  /** Segment `j` is a field whose tag is `tag`. */
  ghost predicate Sets(segments: seq<string>, j: int, tag: string) {
    0 <= j < |segments| && FieldOf(segments[j]).Some? && FieldOf(segments[j]).value.0 == tag
  }

  /** Segment `j` is the last segment that is a field with tag `tag`. */
  ghost predicate LastSets(segments: seq<string>, j: int, tag: string) {
    Sets(segments, j, tag) && forall j' :: j < j' < |segments| ==> !Sets(segments, j', tag)
  }

  lemma SetsShift(segments: seq<string>, j: int, tag: string)
    requires |segments| > 0 && j >= 0
    ensures Sets(segments[1..], j, tag) <==> Sets(segments, j + 1, tag)
  {
    if 0 <= j < |segments| - 1 {
      assert segments[1..][j] == segments[j + 1];
    }
  }

  /** The keys of the result are the keys already present and the tags of the
      field segments; nothing else. */
  lemma {:induction false} CollectKeys(acc: FieldMap, segments: seq<string>, tag: string)
    ensures tag in Collect(acc, segments) <==> tag in acc || exists j :: Sets(segments, j, tag)
    decreases |segments|
  {
    if |segments| > 0 {
      var rest := segments[1..];
      forall j | j >= 0 ensures Sets(rest, j, tag) <==> Sets(segments, j + 1, tag) {
        SetsShift(segments, j, tag);
      }
      match FieldOf(segments[0])
      case None =>
        CollectKeys(acc, rest, tag);
        if exists j :: Sets(segments, j, tag) {
          var j :| Sets(segments, j, tag);
          assert Sets(rest, j - 1, tag);
        }
      case Some((t, v)) =>
        CollectKeys(acc[t := v], rest, tag);
        if exists j :: Sets(segments, j, tag) {
          var j :| Sets(segments, j, tag);
          if j > 0 {
            assert Sets(rest, j - 1, tag);
          }
        }
        if tag == t {
          assert Sets(segments, 0, tag);
        }
    }
  }

  /** Last write wins: the value stored under a tag is the value of the last
      field segment with that tag. */
  lemma {:induction false} CollectLastWriteWins(acc: FieldMap, segments: seq<string>, j: int, tag: string)
    requires LastSets(segments, j, tag)
    ensures tag in Collect(acc, segments)
    ensures Collect(acc, segments)[tag] == FieldOf(segments[j]).value.1
    decreases |segments|
  {
    var rest := segments[1..];
    var acc' := match FieldOf(segments[0]) case None => acc case Some((t, v)) => acc[t := v];
    assert Collect(acc, segments) == Collect(acc', rest);
    if j == 0 {
      assert acc' == acc[tag := FieldOf(segments[0]).value.1];
      forall j' | j' >= 0 ensures !Sets(rest, j', tag) {
        SetsShift(segments, j', tag);
      }
      CollectUnset(acc', rest, tag);
    } else {
      assert LastSets(rest, j - 1, tag) by {
        SetsShift(segments, j - 1, tag);
        forall j' | j - 1 < j' < |rest| ensures !Sets(rest, j', tag) {
          SetsShift(segments, j', tag);
        }
      }
      CollectLastWriteWins(acc', rest, j - 1, tag);
    }
  }

  /** A tag no field segment carries keeps the value it had before. */
  lemma {:induction false} CollectUnset(acc: FieldMap, segments: seq<string>, tag: string)
    requires forall j :: !Sets(segments, j, tag)
    ensures tag in Collect(acc, segments) <==> tag in acc
    ensures tag in acc ==> Collect(acc, segments)[tag] == acc[tag]
    decreases |segments|
  {
    if |segments| > 0 {
      var rest := segments[1..];
      forall j | j >= 0 ensures !Sets(rest, j, tag) {
        SetsShift(segments, j, tag);
      }
      assert !Sets(segments, 0, tag);
      match FieldOf(segments[0])
      case None => CollectUnset(acc, rest, tag);
      case Some((t, v)) => CollectUnset(acc[t := v], rest, tag);
    }
  }

  /** Among the field segments with a given tag there is a last one. */
  lemma {:induction false} LastSetterExists(segments: seq<string>, j: int, tag: string)
    requires Sets(segments, j, tag)
    ensures exists last :: LastSets(segments, last, tag)
    decreases |segments| - j
  {
    if exists j' :: j < j' < |segments| && Sets(segments, j', tag) {
      var j' :| j < j' < |segments| && Sets(segments, j', tag);
      LastSetterExists(segments, j', tag);
    } else {
      assert LastSets(segments, j, tag);
    }
  }

  /** Every entry of a decoded body comes from a field segment: the tag is the
      text before that segment's first `=` (so it holds no `=`), the value the
      text after it, and the segment is the last one with this tag. A tag is a
      key exactly when some segment is a field with that tag; segments without
      `=` contribute nothing. */
  lemma ParseBodyEntries(body: string)
    ensures forall tag :: tag in ParseBody(body) <==> exists j :: Sets(Segments(body), j, tag)
    ensures forall tag :: tag in ParseBody(body) ==>
              && '=' !in tag
              && exists j :: LastSets(Segments(body), j, tag)
                            && Segments(body)[j] == tag + "=" + ParseBody(body)[tag]
  {
    var segments := Segments(body);
    forall tag
      ensures tag in ParseBody(body) <==> exists j :: Sets(segments, j, tag)
    {
      CollectKeys(map[], segments, tag);
    }
    forall tag | tag in ParseBody(body)
      ensures '=' !in tag
      ensures exists j :: LastSets(segments, j, tag) && segments[j] == tag + "=" + ParseBody(body)[tag]
    {
      var j0 :| Sets(segments, j0, tag);
      LastSetterExists(segments, j0, tag);
      var j :| LastSets(segments, j, tag);
      CollectLastWriteWins(map[], segments, j, tag);
    }
  }

  // ---------------------------------------------------------------------------
  // Properties of the whole decoder.
  // ---------------------------------------------------------------------------

  /** Only the text after the first colon is decoded; colons after it stay
      inside the body, and so inside values. */
  lemma ParseAfterFirstColon(prefix: string, body: string)
    requires ':' !in prefix
    ensures Parse(prefix + ":" + body) == ParseBody(body)
  {
    CutAtFirst(prefix, ':', body);
  }

  /** Delimiter equivalence: a body written with SOH delimiters and the same
      body with every SOH spelled `^A` decode to the same fields. */
  lemma DelimiterEquivalence(body: string)
    ensures ParseBody(SohToCaretA(body)) == ParseBody(body)
  {
    SohSpellingsAgree(body);
  }

  /** The same, for whole log lines. */
  lemma LineDelimiterEquivalence(prefix: string, body: string)
    requires ':' !in prefix
    ensures Parse(prefix + ":" + SohToCaretA(body)) == Parse(prefix + ":" + body)
  {
    ParseAfterFirstColon(prefix, body);
    ParseAfterFirstColon(prefix, SohToCaretA(body));
    DelimiterEquivalence(body);
  }

  /** Trailing whitespace, such as the newline `readlines()` keeps at the end
      of every line, does not change what a body decodes to. */
  lemma ParseBodyTrailingSpace(body: string, c: char)
    requires IsSpace(c)
    ensures ParseBody(body + [c]) == ParseBody(body)
  {
    CaretAToSohAppend(body, c);
    StripTrailingSpace(CaretAToSoh(body), c);
  }

  /** The same for whole lines: a line and the line with a trailing newline
      decode to the same fields. */
  lemma ParseTrailingSpace(line: string, c: char)
    requires IsSpace(c)
    ensures Parse(line + [c]) == Parse(line)
  {
    match Cut(line, ':')
    case None =>
      assert ':' !in line + [c];
    case Some((before, after)) =>
      assert line + [c] == before + [':'] + (after + [c]);
      CutAtFirst(before, ':', after + [c]);
      ParseBodyTrailingSpace(after, c);
  }

  /** Collecting a concatenation is collecting the second part on top of the first. */
  lemma {:induction false} CollectAppend(acc: FieldMap, xs: seq<string>, ys: seq<string>)
    ensures Collect(acc, xs + ys) == Collect(Collect(acc, xs), ys)
    decreases |xs|
  {
    if |xs| == 0 {
      assert xs + ys == ys;
    } else {
      assert (xs + ys)[0] == xs[0];
      assert (xs + ys)[1..] == xs[1..] + ys;
      match FieldOf(xs[0])
      case None => CollectAppend(acc, xs[1..], ys);
      case Some((t, v)) => CollectAppend(acc[t := v], xs[1..], ys);
    }
  }

  /** Field order does not matter apart from repeated tags: exchanging two
      neighbouring segments that do not set the same tag leaves the result
      unchanged. */
  lemma SwapSegments(acc: FieldMap, xs: seq<string>, p: string, q: string, ys: seq<string>)
    requires FieldOf(p).None? || FieldOf(q).None? || FieldOf(p).value.0 != FieldOf(q).value.0
    ensures Collect(acc, xs + [p, q] + ys) == Collect(acc, xs + [q, p] + ys)
  {
    var m := Collect(acc, xs);
    CollectAppend(acc, xs + [p, q], ys);
    CollectAppend(acc, xs + [q, p], ys);
    CollectAppend(acc, xs, [p, q]);
    CollectAppend(acc, xs, [q, p]);
    assert [p, q][1..] == [q] && [q, p][1..] == [p] && [p][1..] == [] && [q][1..] == [];
    assert Collect(m, [p, q]) == Collect(m, [q, p]) by {
      var mp := match FieldOf(p) case None => m case Some((t, v)) => m[t := v];
      var mq := match FieldOf(q) case None => m case Some((t, v)) => m[t := v];
      var mpq := match FieldOf(q) case None => mp case Some((t, v)) => mp[t := v];
      var mqp := match FieldOf(p) case None => mq case Some((t, v)) => mq[t := v];
      assert Collect(m, [p, q]) == Collect(mp, [q]) == Collect(mpq, []) == mpq;
      assert Collect(m, [q, p]) == Collect(mq, [p]) == Collect(mqp, []) == mqp;
      assert mpq == mqp;
    }
  }

  // ---------------------------------------------------------------------------
  // Round trip: decoding a message written out field by field.
  // ---------------------------------------------------------------------------

  /** A field as written in a message: `tag=value`. */
  function FieldText(tag: string, value: string): string {
    tag + "=" + value
  }

  function FieldTexts(fields: seq<(string, string)>): (r: seq<string>)
    ensures |r| == |fields|
    ensures forall i :: 0 <= i < |fields| ==> r[i] == FieldText(fields[i].0, fields[i].1)
  {
    if |fields| == 0 then [] else [FieldText(fields[0].0, fields[0].1)] + FieldTexts(fields[1..])
  }

  /** A message body written with SOH between its fields. */
  function EncodeBody(fields: seq<(string, string)>): string {
    Join(FieldTexts(fields), Soh)
  }

  /** The dictionary that assigning the pairs one after another builds: a
      later pair overwrites an earlier one with the same tag. */
  function Assign(acc: FieldMap, fields: seq<(string, string)>): FieldMap
    decreases |fields|
  {
    if |fields| == 0 then acc else Assign(acc[fields[0].0 := fields[0].1], fields[1..])
  }

  /** Text with no SOH, no caret and no whitespace anywhere in it, not only at
      its ends, so that writing it into a body cannot create a delimiter or be
      trimmed away. The round trip below covers only fields of this kind: a
      value with an inner space, which the decoder itself keeps, is outside it. */
  predicate Plain(s: string) {
    forall i :: 0 <= i < |s| ==> s[i] != Soh && s[i] != '^' && !IsSpace(s[i])
  }

  /** Fields whose tags and values are plain and whose tags hold no `=`. */
  predicate Encodable(fields: seq<(string, string)>) {
    forall i :: 0 <= i < |fields| ==> Plain(fields[i].0) && Plain(fields[i].1) && '=' !in fields[i].0
  }

  /** Text with neither carets nor whitespace. */
  predicate NoCaretOrSpace(s: string) {
    forall i :: 0 <= i < |s| ==> s[i] != '^' && !IsSpace(s[i])
  }

  lemma ConcatNoCaretOrSpace(a: string, b: string)
    requires NoCaretOrSpace(a) && NoCaretOrSpace(b)
    ensures NoCaretOrSpace(a + b)
  {
    forall i | 0 <= i < |a + b| ensures (a + b)[i] != '^' && !IsSpace((a + b)[i]) {
      if i >= |a| {
        assert (a + b)[i] == b[i - |a|];
      }
    }
  }

  lemma {:induction false} JoinNoCaretOrSpace(parts: seq<string>)
    requires forall i :: 0 <= i < |parts| ==> NoCaretOrSpace(parts[i])
    ensures NoCaretOrSpace(Join(parts, Soh))
    decreases |parts|
  {
    if |parts| > 1 {
      JoinNoCaretOrSpace(parts[1..]);
      assert NoCaretOrSpace(parts[0]) && NoCaretOrSpace([Soh]);
      ConcatNoCaretOrSpace(parts[0], [Soh]);
      ConcatNoCaretOrSpace(parts[0] + [Soh], Join(parts[1..], Soh));
    } else if |parts| == 1 {
      assert NoCaretOrSpace(parts[0]);
    }
  }

  /** Collecting written-out fields performs the same assignments. */
  lemma {:induction false} CollectFieldTexts(acc: FieldMap, fields: seq<(string, string)>)
    requires forall i :: 0 <= i < |fields| ==> '=' !in fields[i].0
    ensures Collect(acc, FieldTexts(fields)) == Assign(acc, fields)
    decreases |fields|
  {
    if |fields| > 0 {
      var (tag, value) := fields[0];
      CutAtFirst(tag, '=', value);
      assert FieldOf(FieldTexts(fields)[0]) == Some((tag, value));
      assert FieldTexts(fields)[1..] == FieldTexts(fields[1..]);
      CollectFieldTexts(acc[tag := value], fields[1..]);
    }
  }

  /** Text that neither starts nor ends with whitespace is not changed by stripping. */
  lemma StripUnpadded(s: string)
    requires |s| > 0 ==> !IsSpace(s[0]) && !IsSpace(s[|s| - 1])
    ensures Strip(s) == s
  {
  }

  /** Round trip: a line whose body lists plain `tag=value` fields, delimited
      by SOH or by `^A`, decodes to the dictionary those assignments build. */
  lemma ParseEncoded(prefix: string, fields: seq<(string, string)>)
    requires ':' !in prefix
    requires Encodable(fields)
    ensures Parse(prefix + ":" + EncodeBody(fields)) == Assign(map[], fields)
    ensures Parse(prefix + ":" + SohToCaretA(EncodeBody(fields))) == Assign(map[], fields)
  {
    var body := EncodeBody(fields);
    var texts := FieldTexts(fields);
    forall i | 0 <= i < |texts| ensures NoCaretOrSpace(texts[i]) && Soh !in texts[i] {
      var (tag, value) := fields[i];
      assert Plain(tag) && Plain(value);
      assert NoCaretOrSpace(tag) && NoCaretOrSpace(value) && NoCaretOrSpace("=");
      ConcatNoCaretOrSpace(tag, "=");
      ConcatNoCaretOrSpace(tag + "=", value);
      assert texts[i] == tag + "=" + value;
      forall k | 0 <= k < |texts[i]| ensures texts[i][k] != Soh {
        if k < |tag| {
          assert texts[i][k] == tag[k];
        } else if k > |tag| {
          assert texts[i][k] == value[k - |tag| - 1];
        }
      }
    }
    JoinNoCaretOrSpace(texts);
    assert !HasCaretA(body);
    CaretAFreeIsUnchanged(body);
    StripUnpadded(body);
    assert Segments(body) == Split(body, Soh);
    if |fields| == 0 {
      assert body == [];
      assert Segments(body) == [[]];
      assert FieldOf([]) == None;
      assert ParseBody(body) == Collect(map[], [[]]) == Collect(map[], []);
    } else {
      SplitJoin(texts, Soh);
      CollectFieldTexts(map[], fields);
    }
    ParseAfterFirstColon(prefix, body);
    LineDelimiterEquivalence(prefix, body);
  }
}

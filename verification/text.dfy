/** The handful of string operations the decoder is built from, with the
    semantics of the corresponding Python `str` methods:
    `split(c, 1)`, `replace("^A", "\x01")`, `strip()` and `split(c)`. */
module Text {
  import opened Wrappers

  /** The FIX field delimiter, Start Of Header (0x01). */
  const Soh: char := '\U{1}'

  // ---------------------------------------------------------------------------
  // Cutting at the first occurrence of a separator: `s.split(c, 1)`.
  // ---------------------------------------------------------------------------

  /** The text before and after the first `c` in `s`, or `None` when `s`
      has no `c` (the case in which `s.split(c, 1)` yields one piece). */
  function Cut(s: string, c: char): (r: Option<(string, string)>)
    ensures r.None? <==> c !in s
    ensures r.Some? ==> s == r.value.0 + [c] + r.value.1 && c !in r.value.0
  {
    if |s| == 0 then None
    else if s[0] == c then Some(([], s[1..]))
    else match Cut(s[1..], c)
      case None => None
      case Some((before, after)) => Some(([s[0]] + before, after))
  }

  /** Cutting is determined by the first separator alone: whatever follows
      it, separators included, ends up in the second part. */
  lemma {:induction false} CutAtFirst(before: string, c: char, after: string)
    requires c !in before
    ensures Cut(before + [c] + after, c) == Some((before, after))
  {
    var s := before + [c] + after;
    if |before| == 0 {
      assert s[0] == c && s[1..] == after;
    } else {
      assert s[0] == before[0] != c;
      assert s[1..] == before[1..] + [c] + after;
      CutAtFirst(before[1..], c, after);
      assert [s[0]] + before[1..] == before;
    }
  }

  // ---------------------------------------------------------------------------
  // Caret-A normalisation: `s.replace("^A", "\x01")`.
  // ---------------------------------------------------------------------------

  /** Does `s` contain the two-character sequence `^A`? */
  predicate HasCaretA(s: string) {
    exists i :: 0 <= i < |s| - 1 && s[i] == '^' && s[i + 1] == 'A'
  }

  /** Every `^A` replaced by SOH, scanning left to right without overlap
      as Python's `str.replace` does. */
  function CaretAToSoh(s: string): (r: string)
    ensures |r| <= |s|
    ensures |r| < |s| <== HasCaretA(s)
  {
    if |s| == 0 then []
    else if |s| >= 2 && s[0] == '^' && s[1] == 'A' then [Soh] + CaretAToSoh(s[2..])
    else
      assert HasCaretA(s) ==> HasCaretA(s[1..]) by {
        if HasCaretA(s) {
          var i :| 0 <= i < |s| - 1 && s[i] == '^' && s[i + 1] == 'A';
          assert i != 0;
          assert s[1..][i - 1] == '^' && s[1..][i] == 'A';
        }
      }
      [s[0]] + CaretAToSoh(s[1..])
  }

  /** The opposite rewriting: every SOH written as the two characters `^A`. */
  function SohToCaretA(s: string): (r: string)
    ensures Soh !in r
  {
    if |s| == 0 then []
    else if s[0] == Soh then "^A" + SohToCaretA(s[1..]) else [s[0]] + SohToCaretA(s[1..])
  }

  /** The rewriting adds exactly one character per SOH. */
  lemma {:induction false} SohToCaretALength(s: string)
    ensures |SohToCaretA(s)| == |s| + multiset(s)[Soh]
  {
    if |s| > 0 {
      SohToCaretALength(s[1..]);
      assert s == [s[0]] + s[1..];
    }
  }

  /** After normalisation no `^A` is left: a `^` that survives is followed by
      neither an `A` of the input nor an `A` produced by the rewriting. */
  lemma {:induction false} NoCaretAAfterNormalising(s: string)
    ensures !HasCaretA(CaretAToSoh(s))
  {
    if |s| == 0 {
    } else if |s| >= 2 && s[0] == '^' && s[1] == 'A' {
      var rest := CaretAToSoh(s[2..]);
      NoCaretAAfterNormalising(s[2..]);
      var r := [Soh] + rest;
      forall i | 0 <= i < |r| - 1 ensures !(r[i] == '^' && r[i + 1] == 'A') {
        if i > 0 {
          assert r[i] == rest[i - 1] && r[i + 1] == rest[i];
        }
      }
    } else {
      var rest := CaretAToSoh(s[1..]);
      NoCaretAAfterNormalising(s[1..]);
      var r := [s[0]] + rest;
      forall i | 0 <= i < |r| - 1 ensures !(r[i] == '^' && r[i + 1] == 'A') {
        if i > 0 {
          assert r[i] == rest[i - 1] && r[i + 1] == rest[i];
        } else if s[0] == '^' {
          assert |s| >= 2 && s[1] != 'A';
          CaretAToSohHead(s[1..]);
        }
      }
    }
  }

  /** The first character after normalisation: SOH when the text starts with
      `^A`, the first character otherwise. */
  lemma CaretAToSohHead(s: string)
    requires |s| > 0
    ensures |CaretAToSoh(s)| > 0
    ensures CaretAToSoh(s)[0] == if |s| >= 2 && s[0] == '^' && s[1] == 'A' then Soh else s[0]
  {
  }

  /** Text without `^A` is left as it is; with the lemma above this makes
      normalisation idempotent. */
  lemma {:induction false} CaretAFreeIsUnchanged(s: string)
    requires !HasCaretA(s)
    ensures CaretAToSoh(s) == s
  {
    if |s| > 0 {
      assert |s| >= 2 ==> !(s[0] == '^' && s[0 + 1] == 'A');
      forall i | 0 <= i < |s[1..]| - 1 ensures !(s[1..][i] == '^' && s[1..][i + 1] == 'A') {
        assert s[1..][i] == s[i + 1] && s[1..][i + 1] == s[(i + 1) + 1];
      }
      CaretAFreeIsUnchanged(s[1..]);
      assert s == [s[0]] + s[1..];
    }
  }

  lemma NormalisingIsIdempotent(s: string)
    ensures CaretAToSoh(CaretAToSoh(s)) == CaretAToSoh(s)
  {
    NoCaretAAfterNormalising(s);
    CaretAFreeIsUnchanged(CaretAToSoh(s));
  }

  /** A character other than `A` appended after the text cannot complete a
      `^A`, so it passes through normalisation unchanged. */
  lemma {:induction false} CaretAToSohAppend(s: string, c: char)
    requires c != 'A'
    ensures CaretAToSoh(s + [c]) == CaretAToSoh(s) + [c]
  {
    var t := s + [c];
    if |s| == 0 {
      assert t == [c] && t[1..] == [];
    } else if |s| >= 2 && s[0] == '^' && s[1] == 'A' {
      assert t[0] == '^' && t[1] == 'A' && t[2..] == s[2..] + [c];
      CaretAToSohAppend(s[2..], c);
    } else {
      assert t[0] == s[0] && t[1..] == s[1..] + [c];
      assert |s| >= 2 ==> t[1] == s[1];
      assert |s| == 1 ==> t[1] == c;
      CaretAToSohAppend(s[1..], c);
    }
  }

  /** Delimiter equivalence: writing every SOH as `^A` does not change the
      normalised text, so both spellings of a delimiter reach the split as SOH. */
  lemma {:induction false} SohSpellingsAgree(s: string)
    ensures CaretAToSoh(SohToCaretA(s)) == CaretAToSoh(s)
  {
    if |s| == 0 {
    } else if s[0] == Soh {
      SohSpellingsAgree(s[1..]);
      AgreeAfterSoh(s);
    } else if s[0] == '^' && |s| >= 2 && s[1] == 'A' {
      SohSpellingsAgree(s[2..]);
      AgreeAfterCaretA(s);
    } else if s[0] == '^' && |s| >= 2 && s[1] == Soh {
      SohSpellingsAgree(s[2..]);
      AgreeAfterCaretSoh(s);
    } else {
      SohSpellingsAgree(s[1..]);
      AgreeAfterOther(s);
    }
  }

  /** Inductive step when the text starts with SOH. */
  lemma AgreeAfterSoh(s: string)
    requires |s| > 0 && s[0] == Soh
    requires CaretAToSoh(SohToCaretA(s[1..])) == CaretAToSoh(s[1..])
    ensures CaretAToSoh(SohToCaretA(s)) == CaretAToSoh(s)
  {
    var u := SohToCaretA(s);
    assert |u| >= 2 && u[0] == '^' && u[1] == 'A' && u[2..] == SohToCaretA(s[1..]) by {
      assert u == "^A" + SohToCaretA(s[1..]);
    }
    assert CaretAToSoh(u) == [Soh] + CaretAToSoh(u[2..]);
    assert CaretAToSoh(s) == [Soh] + CaretAToSoh(s[1..]);
  }

  /** Inductive step when the text starts with `^A`. */
  lemma AgreeAfterCaretA(s: string)
    requires |s| >= 2 && s[0] == '^' && s[1] == 'A'
    requires CaretAToSoh(SohToCaretA(s[2..])) == CaretAToSoh(s[2..])
    ensures CaretAToSoh(SohToCaretA(s)) == CaretAToSoh(s)
  {
    var u := SohToCaretA(s);
    assert |u| >= 2 && u[0] == '^' && u[1] == 'A' && u[2..] == SohToCaretA(s[2..]) by {
      var v := SohToCaretA(s[1..]);
      assert s[1..][0] == 'A' && s[1..][1..] == s[2..];
      assert v == "A" + SohToCaretA(s[2..]);
      assert u == "^" + v;
    }
    assert CaretAToSoh(u) == [Soh] + CaretAToSoh(u[2..]);
    assert CaretAToSoh(s) == [Soh] + CaretAToSoh(s[2..]);
  }

  /** Inductive step when the text starts with `^` and then SOH: the rewritten
      text reads `^^A`, whose first `^` is not followed by `A`. */
  lemma AgreeAfterCaretSoh(s: string)
    requires |s| >= 2 && s[0] == '^' && s[1] == Soh
    requires CaretAToSoh(SohToCaretA(s[2..])) == CaretAToSoh(s[2..])
    ensures CaretAToSoh(SohToCaretA(s)) == CaretAToSoh(s)
  {
    var u := SohToCaretA(s);
    var v := u[1..];
    assert |u| >= 3 && u[0] == '^' && v[0] == '^' && v[1] == 'A' && v[2..] == SohToCaretA(s[2..]) by {
      assert s[1..][0] == Soh && s[1..][1..] == s[2..];
      assert SohToCaretA(s[1..]) == "^A" + SohToCaretA(s[2..]);
      assert u == "^" + SohToCaretA(s[1..]);
    }
    assert CaretAToSoh(v) == [Soh] + CaretAToSoh(v[2..]);
    assert CaretAToSoh(u) == ['^'] + CaretAToSoh(v);
    var w := s[1..];
    assert w[0] == Soh && w[1..] == s[2..];
    assert CaretAToSoh(w) == [Soh] + CaretAToSoh(w[1..]);
    assert CaretAToSoh(s) == ['^'] + CaretAToSoh(w);
  }

  /** Inductive step when the first character is neither SOH nor the start of
      `^A` or `^` SOH. */
  lemma AgreeAfterOther(s: string)
    requires |s| > 0 && s[0] != Soh
    requires !(s[0] == '^' && |s| >= 2 && (s[1] == 'A' || s[1] == Soh))
    requires CaretAToSoh(SohToCaretA(s[1..])) == CaretAToSoh(s[1..])
    ensures CaretAToSoh(SohToCaretA(s)) == CaretAToSoh(s)
  {
    var u := SohToCaretA(s);
    assert |u| >= 1 && u[0] == s[0] && u[1..] == SohToCaretA(s[1..]) by {
      assert u == [s[0]] + SohToCaretA(s[1..]);
    }
    if s[0] == '^' && |s| >= 2 {
      assert s[1..][0] == s[1];
      assert |u| >= 2 && u[1] == s[1];
    }
    assert CaretAToSoh(u) == [s[0]] + CaretAToSoh(u[1..]);
    assert CaretAToSoh(s) == [s[0]] + CaretAToSoh(s[1..]);
  }

  // ---------------------------------------------------------------------------
  // Whitespace trimming: `s.strip()`.
  // ---------------------------------------------------------------------------

  /** The characters Python's `str.strip()` removes: Unicode space separators
      and the characters whose bidirectional class is WS, B or S. */
  predicate IsSpace(c: char) {
    c in {'\t', '\n', '\U{B}', '\U{C}', '\r', '\U{1C}', '\U{1D}', '\U{1E}', '\U{1F}', ' ',
          '\U{85}', '\U{A0}', '\U{1680}', '\U{2000}', '\U{2001}', '\U{2002}', '\U{2003}',
          '\U{2004}', '\U{2005}', '\U{2006}', '\U{2007}', '\U{2008}', '\U{2009}', '\U{200A}',
          '\U{2028}', '\U{2029}', '\U{202F}', '\U{205F}', '\U{3000}'}
  }

  /** `s` with its leading whitespace removed. */
  function TrimStart(s: string): (r: string)
    ensures |r| <= |s| && r == s[|s| - |r|..]
    ensures forall k :: 0 <= k < |s| - |r| ==> IsSpace(s[k])
    ensures |r| > 0 ==> !IsSpace(r[0])
  {
    if |s| > 0 && IsSpace(s[0]) then TrimStart(s[1..]) else s
  }

  /** `s` with its trailing whitespace removed. */
  function TrimEnd(s: string): (r: string)
    ensures |r| <= |s| && r == s[..|r|]
    ensures forall k :: |r| <= k < |s| ==> IsSpace(s[k])
    ensures |r| > 0 ==> !IsSpace(r[|r| - 1])
  {
    if |s| > 0 && IsSpace(s[|s| - 1]) then TrimEnd(s[..|s| - 1]) else s
  }

  /** `r` is the slice `s[i..j]` and everything outside it is whitespace. */
  predicate TrimmedTo(s: string, r: string, i: int, j: int) {
    && 0 <= i <= j <= |s| && r == s[i..j]
    && (forall k :: 0 <= k < i ==> IsSpace(s[k]))
    && (forall k :: j <= k < |s| ==> IsSpace(s[k]))
  }

  /** Python's `s.strip()`: the slice of `s` left after dropping whitespace at
      both ends; it neither starts nor ends with whitespace, and only
      whitespace was dropped. */
  function Strip(s: string): (r: string)
    ensures exists i, j :: TrimmedTo(s, r, i, j)
    ensures |r| > 0 ==> !IsSpace(r[0]) && !IsSpace(r[|r| - 1])
  {
    var front := TrimStart(s);
    var r := TrimEnd(front);
    TrimmedSlice(s, front, r);
    assert TrimmedTo(s, r, |s| - |front|, |s| - |front| + |r|);
    assert |r| > 0 ==> r[0] == front[0];
    r
  }

  /** Trimming the end of a suffix leaves a slice of the whole text, with only
      whitespace after it. */
  lemma TrimmedSlice(s: string, front: string, r: string)
    requires |front| <= |s| && front == s[|s| - |front|..]
    requires |r| <= |front| && r == front[..|r|]
    requires forall k :: |r| <= k < |front| ==> IsSpace(front[k])
    ensures r == s[|s| - |front|..|s| - |front| + |r|]
    ensures forall k :: |s| - |front| + |r| <= k < |s| ==> IsSpace(s[k])
  {
    var i := |s| - |front|;
    forall k | i + |r| <= k < |s| ensures IsSpace(s[k]) {
      assert s[k] == front[k - i];
    }
  }

  /** Trailing whitespace, such as the newline `readlines()` leaves on a
      line, is stripped away with the rest. */
  lemma StripTrailingSpace(s: string, c: char)
    requires IsSpace(c)
    ensures Strip(s + [c]) == Strip(s)
  {
    TrimStartTrailingSpace(s, c);
    var front := TrimStart(s);
    if front != [] {
      TrimEndTrailingSpace(front, c);
    }
  }

  lemma {:induction false} TrimStartTrailingSpace(s: string, c: char)
    requires IsSpace(c)
    ensures TrimStart(s + [c]) == if TrimStart(s) == [] then [] else TrimStart(s) + [c]
  {
    var t := s + [c];
    if |s| == 0 {
      assert t[1..] == [];
    } else if IsSpace(s[0]) {
      assert t[0] == s[0] && t[1..] == s[1..] + [c];
      TrimStartTrailingSpace(s[1..], c);
    } else {
      assert t[0] == s[0];
    }
  }

  lemma TrimEndTrailingSpace(s: string, c: char)
    requires IsSpace(c)
    ensures TrimEnd(s + [c]) == TrimEnd(s)
  {
    var t := s + [c];
    assert t[|t| - 1] == c && t[..|t| - 1] == s;
  }

  // ---------------------------------------------------------------------------
  // Splitting on a delimiter: `s.split(d)`, and its inverse.
  // ---------------------------------------------------------------------------

  /** The pieces of `s` between occurrences of `d`; like Python's `split`
      with an explicit separator there is always at least one piece, and an
      empty text gives one empty piece. */
  function Split(s: string, d: char): (r: seq<string>)
    ensures |r| >= 1
    ensures forall i :: 0 <= i < |r| ==> d !in r[i]
  {
    if |s| == 0 then [[]]
    else
      var rest := Split(s[1..], d);
      if s[0] == d then [[]] + rest
      else
        assert forall i :: 1 <= i < |rest| ==> d !in rest[i];
        [[s[0]] + rest[0]] + rest[1..]
  }

  /** The pieces glued back together with `d` between neighbours. */
  function Join(parts: seq<string>, d: char): string
  {
    if |parts| == 0 then []
    else if |parts| == 1 then parts[0]
    else parts[0] + [d] + Join(parts[1..], d)
  }

  /** Splitting loses nothing: joining the pieces gives the text back. */
  lemma {:induction false} JoinSplit(s: string, d: char)
    ensures Join(Split(s, d), d) == s
  {
    if |s| > 0 {
      var rest := Split(s[1..], d);
      JoinSplit(s[1..], d);
      if s[0] == d {
        assert ([[]] + rest)[1..] == rest;
        assert s == [d] + s[1..];
      } else {
        var r := [[s[0]] + rest[0]] + rest[1..];
        if |rest| == 1 {
          assert r == [[s[0]] + rest[0]];
          assert s == [s[0]] + s[1..];
        } else {
          assert r[1..] == rest[1..];
          assert Join(rest, d) == rest[0] + [d] + Join(rest[1..], d);
          assert s == [s[0]] + s[1..];
        }
      }
    }
  }

  /** Split recovers any non-empty list of delimiter-free pieces from their join. */
  lemma {:induction false} SplitJoin(parts: seq<string>, d: char)
    requires |parts| >= 1
    requires forall i :: 0 <= i < |parts| ==> d !in parts[i]
    ensures Split(Join(parts, d), d) == parts
  {
    if |parts| == 1 {
      SplitWithoutDelimiter(parts[0], d);
    } else {
      SplitJoin(parts[1..], d);
      SplitAfterPiece(parts[0], d, Join(parts[1..], d));
    }
  }

  lemma {:induction false} SplitWithoutDelimiter(p: string, d: char)
    requires d !in p
    ensures Split(p, d) == [p]
  {
    if |p| > 0 {
      SplitWithoutDelimiter(p[1..], d);
      assert p == [p[0]] + p[1..];
    }
  }

  lemma {:induction false} SplitAfterPiece(p: string, d: char, tail: string)
    requires d !in p
    ensures Split(p + [d] + tail, d) == [p] + Split(tail, d)
  {
    var s := p + [d] + tail;
    if |p| == 0 {
      assert s[0] == d && s[1..] == tail;
    } else {
      assert s[0] == p[0] && s[1..] == p[1..] + [d] + tail;
      SplitAfterPiece(p[1..], d, tail);
      assert p == [p[0]] + p[1..];
    }
  }
}

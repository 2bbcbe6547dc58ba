/** The occurrence scanner of the highlight engine: the literal,
    case-sensitive, global search for the selected text in the whole
    document text, and the decoration ranges it produces.

    The source builds `new RegExp(escapeStringRegexp(selectedText), 'g')`.
    Because every special character is escaped, the pattern matches exactly
    the selected characters, so one `exec` is modelled as a literal
    substring search starting at the expression's `lastIndex`. */
module Scanner {

  import opened Wrappers

  /** A half-open range [start, end) of character offsets into the document.
      Decoration ranges are kept as offsets; see README. */
  datatype Span = Span(start: nat, end: nat)

  /** The selected text occurs literally at offset `i` of the text. */
  predicate MatchesAt(text: string, sel: string, i: int)
  {
    0 <= i && i + |sel| <= |text| && text[i..i + |sel|] == sel
  }

  /** No occurrence starts at an offset in [lo, hi). With hi = |text| + 1
      this says there is none at or after lo. */
  ghost predicate NoMatchIn(text: string, sel: string, lo: int, hi: int)
  {
    forall j :: lo <= j < hi ==> !MatchesAt(text, sel, j)
  }

  /** One `regex.exec(text)` with `lastIndex == from`: the leftmost
      occurrence at or after `from`, or nothing. */
  function NextMatch(text: string, sel: string, from: nat): (r: Option<nat>)
    decreases |text| - from
    ensures r.Some? ==> from <= r.value && r.value + |sel| <= |text|
  {
    if from + |sel| > |text| then None
    else if text[from..from + |sel|] == sel then Some(from)
    else NextMatch(text, sel, from + 1)
  }

  /** The search finds the leftmost occurrence at or after `from`: what it
      reports is an occurrence with none between `from` and it, and when
      it reports nothing there is no occurrence at or after `from`. */
  lemma {:induction false} NextMatchSound(text: string, sel: string, from: nat)
    decreases |text| - from
    ensures var r := NextMatch(text, sel, from);
            && (r.Some? ==> MatchesAt(text, sel, r.value) && NoMatchIn(text, sel, from, r.value))
            && (r.None? ==> NoMatchIn(text, sel, from, |text| + 1))
  {
    if from + |sel| <= |text| && text[from..from + |sel|] != sel {
      NextMatchSound(text, sel, from + 1);
    }
  }

  /** The offsets the source's `while ((match = regex.exec(text)))` loop
      reports when the expression starts with `lastIndex == from`: after a
      match at `i`, the global expression resumes at `i + |sel|`. */
  function GreedyMatches(text: string, sel: string, from: nat): seq<nat>
    requires |sel| > 0
    decreases |text| - from
  {
    match NextMatch(text, sel, from)
    case None => []
    case Some(i) => [i] + GreedyMatches(text, sel, i + |sel|)
  }

  /** Every offset of `r` is a literal occurrence at or after `from`, and
      each starts at or after the end of every earlier one, so the offsets
      strictly ascend and never overlap. */
  ghost predicate AscendingOccurrences(text: string, sel: string, from: nat, r: seq<nat>)
  {
    && (forall k :: 0 <= k < |r| ==> from <= r[k] && MatchesAt(text, sel, r[k]))
    && (forall a, b :: 0 <= a < b < |r| ==> r[a] + |sel| <= r[b])
  }

  /** An occurrence at `i` followed by ascending occurrences from its end
      are ascending occurrences. */
  lemma AscendingCons(text: string, sel: string, from: nat, i: nat, rest: seq<nat>)
    requires from <= i && MatchesAt(text, sel, i)
    requires AscendingOccurrences(text, sel, i + |sel|, rest)
    ensures AscendingOccurrences(text, sel, from, [i] + rest)
  {
    var r := [i] + rest;
    forall k | 0 < k < |r|
      ensures r[k] == rest[k - 1] && i + |sel| <= r[k]
    {
    }
  }

  /** Soundness and order: the reported offsets are ascending,
      non-overlapping literal occurrences at or after `from`. */
  lemma {:induction false} GreedyMatchesSound(text: string, sel: string, from: nat)
    requires |sel| > 0
    decreases |text| - from
    ensures AscendingOccurrences(text, sel, from, GreedyMatches(text, sel, from))
  {
    match NextMatch(text, sel, from)
    case None =>
    case Some(i) =>
      NextMatchSound(text, sel, from);
      GreedyMatchesSound(text, sel, i + |sel|);
      GreedyStep(text, sel, from, i);
      AscendingCons(text, sel, from, i, GreedyMatches(text, sel, i + |sel|));
  }

  /** The expression's `lastIndex` before the k-th `exec` of a scan that
      started at `from` and has reported `r[..k]`. */
  function LastIndex(from: nat, r: seq<nat>, k: nat, n: nat): nat
    requires k <= |r|
  {
    if k == 0 then from else r[k - 1] + n
  }

  /** `i` is the leftmost occurrence at or after `lo`: what a search
      resuming at `lo` reports. */
  ghost predicate LeftmostFrom(text: string, sel: string, lo: nat, i: nat)
  {
    lo <= i && MatchesAt(text, sel, i) && NoMatchIn(text, sel, lo, i)
  }

  /** A declarative description of a left-to-right, non-overlapping scan:
      the k-th reported offset is the leftmost occurrence at or after the
      point where the k-th search resumes, and after the last reported
      occurrence there is none. */
  ghost predicate IsLeftmostScan(text: string, sel: string, from: nat, r: seq<nat>)
  {
    && (forall k {:trigger LastIndex(from, r, k, |sel|)} :: 0 <= k < |r| ==>
          LeftmostFrom(text, sel, LastIndex(from, r, k, |sel|), r[k]))
    && NoMatchIn(text, sel, LastIndex(from, r, |r|, |sel|), |text| + 1)
  }

  /** The k-th search of a scan that finds `i` first is the (k-1)-th
      search of the scan resuming at its end. */
  lemma ConsAt(text: string, sel: string, from: nat, i: nat, rest: seq<nat>, k: nat)
    requires LeftmostFrom(text, sel, from, i)
    requires IsLeftmostScan(text, sel, i + |sel|, rest)
    requires k < |[i] + rest|
    ensures var r := [i] + rest;
            LeftmostFrom(text, sel, LastIndex(from, r, k, |sel|), r[k])
  {
    var r := [i] + rest;
    if k > 0 {
      assert LastIndex(from, r, k, |sel|) == LastIndex(i + |sel|, rest, k - 1, |sel|);
      assert r[k] == rest[k - 1];
    }
  }

  /** A scan that finds `i` first and then resumes at its end meets the
      description when what follows does. */
  lemma LeftmostScanCons(text: string, sel: string, from: nat, i: nat, rest: seq<nat>)
    requires LeftmostFrom(text, sel, from, i)
    requires IsLeftmostScan(text, sel, i + |sel|, rest)
    ensures IsLeftmostScan(text, sel, from, [i] + rest)
  {
    var r := [i] + rest;
    forall k | 0 <= k < |r|
      ensures LeftmostFrom(text, sel, LastIndex(from, r, k, |sel|), r[k])
    {
      ConsAt(text, sel, from, i, rest, k);
    }
    assert LastIndex(from, r, |r|, |sel|) == LastIndex(i + |sel|, rest, |rest|, |sel|);
  }

  /** The scan meets the declarative description. */
  lemma {:induction false} GreedyIsLeftmostScan(text: string, sel: string, from: nat)
    requires |sel| > 0
    decreases |text| - from
    ensures IsLeftmostScan(text, sel, from, GreedyMatches(text, sel, from))
  {
    match NextMatch(text, sel, from)
    case None =>
      NextMatchSound(text, sel, from);
      assert GreedyMatches(text, sel, from) == [];
      assert LastIndex(from, [], 0, |sel|) == from;
    case Some(i) =>
      NextMatchSound(text, sel, from);
      GreedyIsLeftmostScan(text, sel, i + |sel|);
      GreedyStep(text, sel, from, i);
      LeftmostScanCons(text, sel, from, i, GreedyMatches(text, sel, i + |sel|));
  }

  /** An occurrence at or after `from` with none before it, starting at
      `from`, is what the next `exec` finds. */
  lemma {:induction false} LeftmostIsNextMatch(text: string, sel: string, from: nat, i: nat)
    requires from <= i && MatchesAt(text, sel, i) && NoMatchIn(text, sel, from, i)
    decreases i - from
    ensures NextMatch(text, sel, from) == Some(i)
  {
    if from < i {
      assert !MatchesAt(text, sel, from);
      LeftmostIsNextMatch(text, sel, from + 1, i);
    }
  }

  /** With no occurrence at or after `from`, the next `exec` finds nothing. */
  lemma {:induction false} AbsentIsNoMatch(text: string, sel: string, from: nat)
    requires NoMatchIn(text, sel, from, |text| + 1)
    decreases |text| - from
    ensures NextMatch(text, sel, from) == None
  {
    if from + |sel| <= |text| {
      assert !MatchesAt(text, sel, from);
      AbsentIsNoMatch(text, sel, from + 1);
    }
  }

  /** The k-th search of what remains of a leftmost scan after its first
      offset is the (k+1)-th search of the whole scan. */
  lemma TailAt(text: string, sel: string, from: nat, r: seq<nat>, k: nat)
    requires |sel| > 0 && r != []
    requires IsLeftmostScan(text, sel, from, r)
    requires k < |r| - 1
    ensures var tail, from' := r[1..], r[0] + |sel|;
            LeftmostFrom(text, sel, LastIndex(from', tail, k, |sel|), tail[k])
  {
    var tail, from' := r[1..], r[0] + |sel|;
    assert LastIndex(from', tail, k, |sel|) == LastIndex(from, r, k + 1, |sel|);
    assert tail[k] == r[k + 1];
  }

  /** What remains of a leftmost scan after its first offset is a leftmost
      scan resuming at that offset's end. */
  lemma LeftmostScanTail(text: string, sel: string, from: nat, r: seq<nat>)
    requires |sel| > 0 && r != []
    requires IsLeftmostScan(text, sel, from, r)
    ensures IsLeftmostScan(text, sel, r[0] + |sel|, r[1..])
  {
    var tail, from' := r[1..], r[0] + |sel|;
    forall k | 0 <= k < |tail|
      ensures LeftmostFrom(text, sel, LastIndex(from', tail, k, |sel|), tail[k])
    {
      TailAt(text, sel, from, r, k);
    }
    assert LastIndex(from', tail, |tail|, |sel|) == LastIndex(from, r, |r|, |sel|);
  }

  /** Only the scan meets the declarative description: together with
      GreedyIsLeftmostScan, a sequence of offsets is a leftmost
      non-overlapping scan if and only if it is what the loop reports. */
  lemma {:induction false} LeftmostScanIsGreedy(text: string, sel: string, from: nat, r: seq<nat>)
    requires |sel| > 0
    requires IsLeftmostScan(text, sel, from, r)
    decreases |r|
    ensures r == GreedyMatches(text, sel, from)
  {
    if r == [] {
      assert LastIndex(from, r, |r|, |sel|) == from;
      AbsentIsNoMatch(text, sel, from);
      assert GreedyMatches(text, sel, from) == [];
    } else {
      assert LastIndex(from, r, 0, |sel|) == from;
      LeftmostIsNextMatch(text, sel, from, r[0]);
      LeftmostScanTail(text, sel, from, r);
      LeftmostScanIsGreedy(text, sel, r[0] + |sel|, r[1..]);
      GreedyStep(text, sel, from, r[0]);
      SplitFirst(r);
    }
  }

  /** Completeness: every occurrence at or after `from` is reported, or lies
      inside the span of a reported occurrence that overlaps it. */
  lemma {:induction false} GreedyCoversEveryMatch(text: string, sel: string, from: nat, j: nat)
    requires |sel| > 0
    requires from <= j && MatchesAt(text, sel, j)
    decreases |text| - from
    ensures exists k :: 0 <= k < |GreedyMatches(text, sel, from)|
                        && GreedyMatches(text, sel, from)[k] <= j < GreedyMatches(text, sel, from)[k] + |sel|
  {
    var r := GreedyMatches(text, sel, from);
    NextMatchSound(text, sel, from);
    match NextMatch(text, sel, from)
    case None =>
      assert false;
    case Some(i) =>
      assert r[0] == i;
      if j < i {
        assert false;
      } else if j >= i + |sel| {
        GreedyCoversEveryMatch(text, sel, i + |sel|, j);
        var rest := GreedyMatches(text, sel, i + |sel|);
        var k :| 0 <= k < |rest| && rest[k] <= j < rest[k] + |sel|;
        assert r[k + 1] == rest[k];
      }
  }

  /** When no two occurrences of the selection overlap in the text, the
      scan reports exactly the offsets at which the selection occurs. */
  lemma ExactWhenOccurrencesDisjoint(text: string, sel: string, from: nat)
    requires |sel| > 0
    requires forall i, j :: MatchesAt(text, sel, i) && MatchesAt(text, sel, j) && i < j ==> i + |sel| <= j
    ensures forall j :: from <= j ==> (MatchesAt(text, sel, j) <==> j in GreedyMatches(text, sel, from))
  {
    var r := GreedyMatches(text, sel, from);
    GreedyMatchesSound(text, sel, from);
    forall j | from <= j && MatchesAt(text, sel, j)
      ensures j in r
    {
      GreedyCoversEveryMatch(text, sel, from, j);
      var k :| 0 <= k < |r| && r[k] <= j < r[k] + |sel|;
      assert MatchesAt(text, sel, r[k]);
    }
  }

  /** The scan reports nothing exactly when the selection does not occur. */
  lemma NothingReportedIffAbsent(text: string, sel: string)
    requires |sel| > 0
    ensures GreedyMatches(text, sel, 0) == [] <==> NoMatchIn(text, sel, 0, |text| + 1)
  {
    if NoMatchIn(text, sel, 0, |text| + 1) {
      AbsentIsNoMatch(text, sel, 0);
    } else {
      var j :| 0 <= j < |text| + 1 && MatchesAt(text, sel, j);
      GreedyCoversEveryMatch(text, sel, 0, j);
    }
  }

  /** Ranges for reported offsets: each covers `n` characters from its offset. */
  function SpansOf(ms: seq<nat>, n: nat): seq<Span>
  {
    if ms == [] then [] else [Span(ms[0], ms[0] + n)] + SpansOf(ms[1..], n)
  }

  /** The k-th range starts at the k-th offset and is `n` long. */
  lemma {:induction false} SpansOfAt(ms: seq<nat>, n: nat)
    ensures |SpansOf(ms, n)| == |ms|
    ensures forall k :: 0 <= k < |ms| ==> SpansOf(ms, n)[k] == Span(ms[k], ms[k] + n)
  {
    if ms != [] {
      SpansOfAt(ms[1..], n);
    }
  }

  /** The decoration ranges of one trigger: one range per reported
      occurrence, from `match.index` to `match.index + match[0].length`. */
  function Occurrences(text: string, sel: string): seq<Span>
    requires |sel| > 0
  {
    SpansOf(GreedyMatches(text, sel, 0), |sel|)
  }

  /** Each range of a trigger covers exactly the selected text, the k-th
      starting at the k-th reported offset, and the ranges ascend without
      overlapping. */
  lemma OccurrencesCoverSelection(text: string, sel: string)
    requires |sel| > 0
    ensures var r := Occurrences(text, sel);
            && |r| == |GreedyMatches(text, sel, 0)|
            && (forall k :: 0 <= k < |r| ==> r[k].start == GreedyMatches(text, sel, 0)[k])
            && (forall k :: 0 <= k < |r| ==>
                  r[k].start + |sel| == r[k].end <= |text| && text[r[k].start..r[k].end] == sel)
            && (forall a, b :: 0 <= a < b < |r| ==> r[a].end <= r[b].start)
  {
    GreedyMatchesSound(text, sel, 0);
    SpansOfAt(GreedyMatches(text, sel, 0), |sel|);
  }

  /** Pushing one range extends the ranges of the reported offsets. */
  lemma SpansOfAppend(ms: seq<nat>, i: nat, n: nat)
    ensures SpansOf(ms + [i], n) == SpansOf(ms, n) + [Span(i, i + n)]
  {
    SpansOfAt(ms + [i], n);
    SpansOfAt(ms, n);
  }

  /** A non-empty sequence is its first element followed by the rest. */
  lemma SplitFirst(r: seq<nat>)
    requires r != []
    ensures r == [r[0]] + r[1..]
  {
  }

  /** Moving one offset from the pending part to the reported part. */
  lemma AppendShift(done: seq<nat>, i: nat, pending: seq<nat>)
    ensures (done + [i]) + pending == done + ([i] + pending)
  {
  }

  /** One round of the scanning loop: a match found from `from` is
      followed by the matches found from its end. */
  lemma GreedyStep(text: string, sel: string, from: nat, i: nat)
    requires |sel| > 0 && NextMatch(text, sel, from) == Some(i)
    ensures GreedyMatches(text, sel, from) == [i] + GreedyMatches(text, sel, i + |sel|)
  {
  }

  /** An offset whose character differs from the selection's first one is
      skipped: the search goes on from the next offset. */
  lemma SkipMismatch(text: string, sel: string, from: nat)
    requires |sel| > 0 && from < |text| && text[from] != sel[0]
    ensures NextMatch(text, sel, from) == NextMatch(text, sel, from + 1)
  {
    if from + |sel| <= |text| {
      assert text[from..from + |sel|][0] != sel[0];
    }
  }

  /** An occurrence at `from` is what the next search reports. */
  lemma HitAt(text: string, sel: string, from: nat)
    requires from + |sel| <= |text| && text[from..from + |sel|] == sel
    ensures NextMatch(text, sel, from) == Some(from)
  {
  }

  /** One round of the source's loop keeps its invariant: the offsets
      reported so far followed by those still to come are the whole scan,
      and the ranges pushed so far are the ranges of the reported offsets. */
  lemma ScanStep(text: string, sel: string, reported: seq<nat>, from: nat, i: nat)
    requires |sel| > 0 && NextMatch(text, sel, from) == Some(i)
    requires reported + GreedyMatches(text, sel, from) == GreedyMatches(text, sel, 0)
    ensures (reported + [i]) + GreedyMatches(text, sel, i + |sel|) == GreedyMatches(text, sel, 0)
    ensures SpansOf(reported + [i], |sel|) == SpansOf(reported, |sel|) + [Span(i, i + |sel|)]
  {
    GreedyStep(text, sel, from, i);
    AppendShift(reported, i, GreedyMatches(text, sel, i + |sel|));
    SpansOfAppend(reported, i, |sel|);
  }

  /** When the next search finds nothing, the offsets reported so far are
      the whole scan, and their ranges are the trigger's ranges. */
  lemma ScanDone(text: string, sel: string, reported: seq<nat>, from: nat)
    requires |sel| > 0 && NextMatch(text, sel, from) == None
    requires reported + GreedyMatches(text, sel, from) == GreedyMatches(text, sel, 0)
    ensures SpansOf(reported, |sel|) == Occurrences(text, sel)
  {
    assert GreedyMatches(text, sel, from) == [];
    assert reported + [] == reported;
  }

  /** The source's scanning loop: `exec` from `lastIndex == 0` until it finds
      nothing, pushing one range per match. */
  method Scan(text: string, sel: string) returns (ranges: seq<Span>)
    requires |sel| > 0
    ensures ranges == Occurrences(text, sel)
  {
    ranges := [];
    var lastIndex: nat := 0;
    ghost var reported: seq<nat> := [];
    while true
      invariant lastIndex <= |text|
      invariant reported + GreedyMatches(text, sel, lastIndex) == GreedyMatches(text, sel, 0)
      invariant ranges == SpansOf(reported, |sel|)
      decreases |text| - lastIndex
    {
      var found := NextMatch(text, sel, lastIndex);
      if found.None? {
        ScanDone(text, sel, reported, lastIndex);
        break;
      }
      var index := found.value;
      ScanStep(text, sel, reported, lastIndex, index);
      ranges := ranges + [Span(index, index + |sel|)];
      reported := reported + [index];
      lastIndex := index + |sel|;
    }
  }

  /** "cat" in "cat cat dog cat" from offset 7: only the last word. */
  lemma RepeatedWordTail()
    ensures GreedyMatches("cat cat dog cat", "cat", 7) == [12]
  {
    var t, s := "cat cat dog cat", "cat";
    assert t[12..15] == s;
    HitAt(t, s, 12);
    SkipMismatch(t, s, 11);
    SkipMismatch(t, s, 10);
    SkipMismatch(t, s, 9);
    SkipMismatch(t, s, 8);
    SkipMismatch(t, s, 7);
    GreedyStep(t, s, 7, 12);
    assert NextMatch(t, s, 15) == None;
  }

  /** "cat" in "cat cat dog cat" from offset 3: the second and last words. */
  lemma RepeatedWordMiddle()
    ensures GreedyMatches("cat cat dog cat", "cat", 3) == [4, 12]
  {
    var t, s := "cat cat dog cat", "cat";
    RepeatedWordTail();
    assert t[4..7] == s;
    HitAt(t, s, 4);
    SkipMismatch(t, s, 3);
    GreedyStep(t, s, 3, 4);
  }

  /** A repeated word: "cat" in "cat cat dog cat" is found at 0, 4 and 12. */
  lemma RepeatedWord()
    ensures GreedyMatches("cat cat dog cat", "cat", 0) == [0, 4, 12]
  {
    var t, s := "cat cat dog cat", "cat";
    RepeatedWordMiddle();
    assert t[0..3] == s;
    HitAt(t, s, 0);
    GreedyStep(t, s, 0, 0);
  }

  /** "a.b" in "a.b axb a.b" from offset 3: "axb" at 4 is passed over,
      because '.' in the selection is a literal dot. */
  lemma SpecialCharactersTail()
    ensures GreedyMatches("a.b axb a.b", "a.b", 3) == [8]
    ensures !MatchesAt("a.b axb a.b", "a.b", 4)
  {
    var t, s := "a.b axb a.b", "a.b";
    assert t[4..7][1] != s[1];
    assert t[8..11] == s;
    HitAt(t, s, 8);
    SkipMismatch(t, s, 7);
    SkipMismatch(t, s, 6);
    SkipMismatch(t, s, 5);
    assert NextMatch(t, s, 4) == NextMatch(t, s, 5);
    SkipMismatch(t, s, 3);
    GreedyStep(t, s, 3, 8);
    assert NextMatch(t, s, 11) == None;
  }

  /** A selection with a character special to regular expressions is matched
      literally: "a.b" is found in "a.b axb a.b" at 0 and 8, and not at
      "axb", which the unescaped pattern would match. */
  lemma SpecialCharactersAreLiteral()
    ensures GreedyMatches("a.b axb a.b", "a.b", 0) == [0, 8]
    ensures !MatchesAt("a.b axb a.b", "a.b", 4)
  {
    var t, s := "a.b axb a.b", "a.b";
    SpecialCharactersTail();
    assert t[0..3] == s;
    HitAt(t, s, 0);
    GreedyStep(t, s, 0, 0);
  }

  /** A selection of whitespace matches whitespace literally, and adjacent
      occurrences are both found: " " in "a  b" is found at 1 and 2. */
  lemma WhitespaceSelection()
    ensures GreedyMatches("a  b", " ", 0) == [1, 2]
  {
    var t, s := "a  b", " ";
    assert GreedyMatches(t, s, 2) == [2] by {
      assert t[2..3] == s;
      HitAt(t, s, 2);
      GreedyStep(t, s, 2, 2);
      SkipMismatch(t, s, 3);
      assert NextMatch(t, s, 4) == None;
    }
    assert t[1..2] == s;
    HitAt(t, s, 1);
    SkipMismatch(t, s, 0);
    GreedyStep(t, s, 0, 1);
  }

  /** A selection equal to the whole document is one match spanning it. */
  lemma WholeDocument(text: string)
    requires |text| > 0
    ensures Occurrences(text, text) == [Span(0, |text|)]
  {
    assert text[0..|text|] == text;
    GreedyStep(text, text, 0, 0);
    assert GreedyMatches(text, text, |text|) == [];
    assert SpansOf([0], |text|) == [Span(0, |text|)];
  }

  /** Overlapping occurrences: "aa" occurs at 0 and 1 in "aaa", and only
      the one at 0 is reported, because the search resumes at offset 2. */
  lemma OverlappingOccurrenceSkipped()
    ensures MatchesAt("aaa", "aa", 1)
    ensures GreedyMatches("aaa", "aa", 0) == [0]
  {
  }
}

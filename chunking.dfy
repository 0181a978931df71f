/**
 * The document chunker: `chunkText` normalises a document's text and cuts it into
 * overlapping chunks, preferring to cut at a paragraph break or after a sentence.
 *
 * `ChunkText` normalises the text and handles the empty and short cases; the scan loop is
 * `ScanChunks`. Both are proved equal to `ChunkSpec`, which describes the same scan as a
 * list of windows (`Windows`) whose trimmed slices are kept when non-empty and numbered
 * (`Emit`).
 */
module Chunking {
  import opened Wrappers
  import opened JsText

  /** One emitted chunk: its position in the output and its text. */
  datatype Chunk = Chunk(index: nat, text: JsString)

  /** The optional settings of a call; an absent one takes its default. */
  datatype ChunkingOptions = ChunkingOptions(chunkSize: Option<nat>, chunkOverlap: Option<nat>)

  const DefaultChunkSize: nat := 1000
  const DefaultChunkOverlap: nat := 200

  /** The chunk size in force: the default only when none is given; a given size, even 0, is used as is. */
  function SizeOf(options: ChunkingOptions): (size: nat)
    ensures options.chunkSize.None? ==> size == 1000
    ensures options.chunkSize.Some? ==> size == options.chunkSize.value
  {
    options.chunkSize.GetOr(DefaultChunkSize)
  }

  /** The overlap in force: the default only when none is given; a given overlap is used as is. */
  function OverlapOf(options: ChunkingOptions): (overlap: nat)
    ensures options.chunkOverlap.None? ==> overlap == 200
    ensures options.chunkOverlap.Some? ==> overlap == options.chunkOverlap.value
  {
    options.chunkOverlap.GetOr(DefaultChunkOverlap)
  }

  /**
   * Settings under which the scan always moves forward: a positive chunk size and an
   * overlap of at most half of it. The source does not check them.
   */
  predicate ValidSizes(size: nat, overlap: nat) {
    0 < size && 2 * overlap <= size
  }

  /** With no options given, the defaults 1000 and 200 are in force, and they satisfy `ValidSizes`. */
  lemma DefaultsAreValid()
    ensures SizeOf(ChunkingOptions(None, None)) == 1000 && OverlapOf(ChunkingOptions(None, None)) == 200
    ensures ValidSizes(SizeOf(ChunkingOptions(None, None)), OverlapOf(ChunkingOptions(None, None)))
  {
  }

  // ---------------------------------------------------------------------------
  // Normalisation
  // ---------------------------------------------------------------------------

  predicate StartsWithCrlf(s: JsString) {
    |s| >= 2 && s[0] == CR && s[1] == LF
  }

  /** `.replace(/\r\n/g, "\n")`: CR LF pairs, matched from left to right, each become one LF. */
  function ReplaceCrlf(s: JsString): (r: JsString)
    ensures |r| <= |s|
    ensures |s| > 0 ==> |r| > 0 && r[0] == (if StartsWithCrlf(s) then LF else s[0])
  {
    if |s| == 0 then []
    else if StartsWithCrlf(s) then [LF] + ReplaceCrlf(s[2..])
    else [s[0]] + ReplaceCrlf(s[1..])
  }

  /** Length of the run of LFs that `s` starts with. */
  function NewlineRun(s: JsString): (k: nat)
    ensures k <= |s|
    ensures forall i :: 0 <= i < k ==> s[i] == LF
    ensures k < |s| ==> s[k] != LF
  {
    if |s| > 0 && s[0] == LF then 1 + NewlineRun(s[1..]) else 0
  }

  /**
   * `.replace(/\n{3,}/g, "\n\n")`: each maximal run of three or more LFs becomes exactly
   * two LFs; shorter runs and every other character are kept.
   */
  function CollapseNewlines(s: JsString): (r: JsString)
    ensures |r| <= |s|
    ensures |s| > 0 ==> |r| > 0 && r[0] == s[0]
    decreases |s|
  {
    if |s| == 0 then []
    else if s[0] != LF then [s[0]] + CollapseNewlines(s[1..])
    else
      var k := NewlineRun(s);
      (if k >= 3 then [LF, LF] else s[..k]) + CollapseNewlines(s[k..])
  }

  /** The text the chunker works on (`normalizedText`). */
  function Normalize(text: JsString): (n: JsString)
    ensures |n| <= |text|
    ensures n == [] || (!IsWhitespace(n[0]) && !IsWhitespace(n[|n| - 1]))
  {
    Trim(CollapseNewlines(ReplaceCrlf(text)))
  }

  /** No three LFs in a row. */
  predicate NoTripleNewline(s: JsString) {
    forall i :: 0 <= i < |s| - 2 ==> !(s[i] == LF && s[i + 1] == LF && s[i + 2] == LF)
  }

  /** No CR directly followed by LF. */
  predicate NoCrlf(s: JsString) {
    forall i :: 0 <= i < |s| - 1 ==> !(s[i] == CR && s[i + 1] == LF)
  }

  /** No CR directly followed by another CR. */
  predicate NoDoubleCr(s: JsString) {
    forall i :: 0 <= i < |s| - 1 ==> !(s[i] == CR && s[i + 1] == CR)
  }

  /**
   * Putting at most two characters in front of a text without three LFs in a row creates no
   * such run, provided the text is empty or starts with something other than an LF, or else
   * the single added character is not an LF.
   */
  lemma NoTriplePrepend(piece: JsString, rest: JsString)
    requires NoTripleNewline(rest) && |piece| <= 2
    requires rest == [] || rest[0] != LF || (|piece| == 1 && piece[0] != LF)
    ensures NoTripleNewline(piece + rest)
  {
    var s := piece + rest;
    forall i | 0 <= i < |s| - 2 ensures !(s[i] == LF && s[i + 1] == LF && s[i + 2] == LF) {
      if i >= |piece| {
        assert s[i] == rest[i - |piece|] && s[i + 1] == rest[i - |piece| + 1] && s[i + 2] == rest[i - |piece| + 2];
      } else if rest != [] && rest[0] != LF {
        assert s[|piece|] == rest[0];
      } else {
        assert s[0] == piece[0];
      }
    }
  }

  /** After collapsing, no run of three LFs is left. */
  lemma {:induction false} CollapseNoTriple(s: JsString)
    ensures NoTripleNewline(CollapseNewlines(s))
    decreases |s|
  {
    if |s| == 0 {
    } else if s[0] != LF {
      CollapseNoTriple(s[1..]);
      var rest := CollapseNewlines(s[1..]);
      assert CollapseNewlines(s) == [s[0]] + rest;
      NoTriplePrepend([s[0]], rest);
    } else {
      var k := NewlineRun(s);
      CollapseNoTriple(s[k..]);
      var piece: JsString := if k >= 3 then [LF, LF] else s[..k];
      var rest := CollapseNewlines(s[k..]);
      assert CollapseNewlines(s) == piece + rest;
      if |rest| > 0 {
        assert rest[0] == s[k..][0] == s[k];
      }
      NoTriplePrepend(piece, rest);
    }
  }

  /** Text without a run of three LFs is left unchanged, so collapsing twice changes nothing more. */
  lemma {:induction false} CollapseKeepsShortRuns(s: JsString)
    requires NoTripleNewline(s)
    ensures CollapseNewlines(s) == s
    decreases |s|
  {
    if |s| == 0 {
    } else if s[0] != LF {
      assert NoTripleNewline(s[1..]) by {
        forall i | 0 <= i < |s[1..]| - 2
          ensures !(s[1..][i] == LF && s[1..][i + 1] == LF && s[1..][i + 2] == LF)
        {
          assert s[1..][i] == s[i + 1] && s[1..][i + 1] == s[i + 2] && s[1..][i + 2] == s[i + 3];
        }
      }
      CollapseKeepsShortRuns(s[1..]);
      assert s == [s[0]] + s[1..];
    } else {
      var k := NewlineRun(s);
      assert |s| >= 3 ==> !(s[0] == LF && s[1] == LF && s[2] == LF);
      assert k < 3;
      assert NoTripleNewline(s[k..]) by {
        forall i | 0 <= i < |s[k..]| - 2
          ensures !(s[k..][i] == LF && s[k..][i + 1] == LF && s[k..][i + 2] == LF)
        {
          assert s[k..][i] == s[k + i] && s[k..][i + 1] == s[k + i + 1] && s[k..][i + 2] == s[k + i + 2];
        }
      }
      CollapseKeepsShortRuns(s[k..]);
      assert s == s[..k] + s[k..];
    }
  }

  lemma CollapseIdempotent(s: JsString)
    ensures CollapseNewlines(CollapseNewlines(s)) == CollapseNewlines(s)
  {
    CollapseNoTriple(s);
    CollapseKeepsShortRuns(CollapseNewlines(s));
  }

  /** Replacing CR LF leaves no CR LF behind, provided no CR is followed by another CR. */
  lemma {:induction false} ReplaceCrlfNoCrlf(s: JsString)
    requires NoDoubleCr(s)
    ensures NoCrlf(ReplaceCrlf(s))
    decreases |s|
  {
    if |s| == 0 {
    } else if StartsWithCrlf(s) {
      assert NoDoubleCr(s[2..]) by {
        forall i | 0 <= i < |s[2..]| - 1 ensures !(s[2..][i] == CR && s[2..][i + 1] == CR) {
          assert s[2..][i] == s[i + 2] && s[2..][i + 1] == s[i + 3];
        }
      }
      ReplaceCrlfNoCrlf(s[2..]);
      var rest := ReplaceCrlf(s[2..]);
      assert ReplaceCrlf(s) == [LF] + rest;
      assert forall i :: 1 <= i < |rest| + 1 ==> ([LF] + rest)[i] == rest[i - 1];
    } else {
      assert NoDoubleCr(s[1..]) by {
        forall i | 0 <= i < |s[1..]| - 1 ensures !(s[1..][i] == CR && s[1..][i + 1] == CR) {
          assert s[1..][i] == s[i + 1] && s[1..][i + 1] == s[i + 2];
        }
      }
      ReplaceCrlfNoCrlf(s[1..]);
      var rest := ReplaceCrlf(s[1..]);
      assert ReplaceCrlf(s) == [s[0]] + rest;
      assert s[0] == CR && |rest| > 0 ==> rest[0] != LF by {
        if s[0] == CR && |rest| > 0 {
          assert s[1] != CR && s[1] != LF;
          assert !StartsWithCrlf(s[1..]);
        }
      }
      assert forall i :: 1 <= i < |rest| + 1 ==> ([s[0]] + rest)[i] == rest[i - 1];
    }
  }

  /** Collapsing LF runs does not create a CR LF. */
  lemma {:induction false} CollapseKeepsNoCrlf(s: JsString)
    requires NoCrlf(s)
    ensures NoCrlf(CollapseNewlines(s))
    decreases |s|
  {
    if |s| == 0 {
    } else if s[0] != LF {
      assert NoCrlf(s[1..]) by {
        forall i | 0 <= i < |s[1..]| - 1 ensures !(s[1..][i] == CR && s[1..][i + 1] == LF) {
          assert s[1..][i] == s[i + 1] && s[1..][i + 1] == s[i + 2];
        }
      }
      CollapseKeepsNoCrlf(s[1..]);
      var rest := CollapseNewlines(s[1..]);
      assert CollapseNewlines(s) == [s[0]] + rest;
      assert forall i :: 1 <= i < |rest| + 1 ==> ([s[0]] + rest)[i] == rest[i - 1];
    } else {
      var k := NewlineRun(s);
      assert NoCrlf(s[k..]) by {
        forall i | 0 <= i < |s[k..]| - 1 ensures !(s[k..][i] == CR && s[k..][i + 1] == LF) {
          assert s[k..][i] == s[k + i] && s[k..][i + 1] == s[k + i + 1];
        }
      }
      CollapseKeepsNoCrlf(s[k..]);
      var piece: JsString := if k >= 3 then [LF, LF] else s[..k];
      var rest := CollapseNewlines(s[k..]);
      assert CollapseNewlines(s) == piece + rest;
      assert forall i :: 0 <= i < |piece| ==> piece[i] == LF;
      assert forall i :: |piece| <= i < |piece| + |rest| ==> (piece + rest)[i] == rest[i - |piece|];
    }
  }

  /** Both character-pair properties survive taking a slice. */
  lemma SliceKeepsPairs(s: JsString, i: nat, j: nat)
    requires i <= j <= |s|
    ensures NoTripleNewline(s) ==> NoTripleNewline(s[i..j])
    ensures NoCrlf(s) ==> NoCrlf(s[i..j])
  {
    assert forall k :: 0 <= k < j - i ==> s[i..j][k] == s[i + k];
  }

  /**
   * The normalised text has no leading or trailing whitespace and no run of three LFs; it
   * holds no CR LF when the input has no CR directly before another CR.
   */
  lemma NormalizeShape(text: JsString)
    ensures var n := Normalize(text);
      && (n == [] || (!IsWhitespace(n[0]) && !IsWhitespace(n[|n| - 1])))
      && NoTripleNewline(n)
      && (NoDoubleCr(text) ==> NoCrlf(n))
  {
    var c := CollapseNewlines(ReplaceCrlf(text));
    CollapseNoTriple(ReplaceCrlf(text));
    if NoDoubleCr(text) {
      ReplaceCrlfNoCrlf(text);
      CollapseKeepsNoCrlf(ReplaceCrlf(text));
    }
    var i, j := TrimIsSlice(c);
    SliceKeepsPairs(c, i, j);
  }

  const LetterA: CodeUnit := 0x61
  const LetterB: CodeUnit := 0x62

  /** The replacement pass over `a CR CR LF b` turns only the second CR and the LF into an LF. */
  lemma ReplaceCrlfExample()
    ensures ReplaceCrlf([LetterA, CR, CR, LF, LetterB]) == [LetterA, CR, LF, LetterB]
  {
    var s := [LetterA, CR, CR, LF, LetterB];
    assert !StartsWithCrlf(s) && !StartsWithCrlf(s[1..]) && StartsWithCrlf(s[2..]);
    assert s[1..][1..] == s[2..];
    assert s[2..][2..] == [LetterB];
    assert ReplaceCrlf([LetterB]) == [LetterB];
    assert ReplaceCrlf(s[2..]) == [LF, LetterB];
    assert ReplaceCrlf(s[1..]) == [CR] + ReplaceCrlf(s[2..]);
    assert ReplaceCrlf(s) == [LetterA] + ReplaceCrlf(s[1..]);
  }

  /** `a CR LF b` has no LF run to collapse. */
  lemma CollapseExample()
    ensures CollapseNewlines([LetterA, CR, LF, LetterB]) == [LetterA, CR, LF, LetterB]
  {
    var r := [LetterA, CR, LF, LetterB];
    assert r[1..] == [CR, LF, LetterB] && r[1..][1..] == [LF, LetterB] && r[1..][1..][1..] == [LetterB];
    assert NewlineRun([LF, LetterB]) == 1;
    assert CollapseNewlines([LetterB]) == [LetterB];
    assert CollapseNewlines([LF, LetterB]) == [LF] + CollapseNewlines([LetterB]);
  }

  /** `a CR LF b` has no whitespace at either end. */
  lemma TrimExample()
    ensures Trim([LetterA, CR, LF, LetterB]) == [LetterA, CR, LF, LetterB]
  {
    var r := [LetterA, CR, LF, LetterB];
    assert LeadingWhitespace(r) == 0 && TrailingStart(r) == |r|;
  }

  /** A CR before a CR LF survives: the single left-to-right pass leaves a CR LF in the result. */
  lemma CrBeforeCrlfSurvives()
    ensures Normalize([LetterA, CR, CR, LF, LetterB]) == [LetterA, CR, LF, LetterB]
    ensures !NoCrlf(Normalize([LetterA, CR, CR, LF, LetterB]))
  {
    ReplaceCrlfExample();
    CollapseExample();
    TrimExample();
    var n := Normalize([LetterA, CR, CR, LF, LetterB]);
    assert n[1] == CR && n[2] == LF;
  }

  // ---------------------------------------------------------------------------
  // Cutting
  // ---------------------------------------------------------------------------

  /** `\n\n` occurs at offset `i`. */
  predicate ParagraphBreakAt(t: JsString, i: int) {
    PairAt(t, LF, LF, i)
  }

  /** `. `, `! ` or `? ` occurs at offset `i`. */
  predicate SentenceBreakAt(t: JsString, i: int) {
    PairAt(t, FullStop, Space, i) || PairAt(t, ExclamationMark, Space, i) || PairAt(t, QuestionMark, Space, i)
  }

  /**
   * The largest of `lastIndexOf(". ", end)`, `lastIndexOf("! ", end)` and
   * `lastIndexOf("? ", end)`: the last sentence break at or before `end`, or -1.
   */
  function LastSentenceBreak(t: JsString, end: nat): (r: int)
    ensures r == -1 || (0 <= r <= end && SentenceBreakAt(t, r))
  {
    Max(Max(LastIndexOf(t, FullStop, Space, end), LastIndexOf(t, ExclamationMark, Space, end)), LastIndexOf(t, QuestionMark, Space, end))
  }

  /** No sentence break lies between the one reported and `end`. */
  lemma LastSentenceBreakIsLast(t: JsString, end: nat)
    ensures forall q :: LastSentenceBreak(t, end) < q <= end ==> !SentenceBreakAt(t, q)
  {
    LastIndexOfIsLast(t, FullStop, Space, end);
    LastIndexOfIsLast(t, ExclamationMark, Space, end);
    LastIndexOfIsLast(t, QuestionMark, Space, end);
  }

  /**
   * The `end` of the loop iteration that starts at `start`: `start + size`, unless that is
   * before the end of the text and a paragraph break, or else a sentence break, lies
   * strictly past the window's midpoint at or before `start + size`.
   */
  function CutEnd(t: JsString, start: nat, size: nat): (e: nat)
    requires 0 < size
    ensures start < e <= start + size + 1
    ensures 2 * e > 2 * start + size
    ensures e == start + size || (e < |t| && (ParagraphBreakAt(t, e) || SentenceBreakAt(t, e - 1)))
  {
    var end := start + size;
    if end < |t| then
      var paragraphBreak := LastIndexOf(t, LF, LF, end);
      if 2 * paragraphBreak > 2 * start + size then paragraphBreak
      else
        var sentenceBreak := LastSentenceBreak(t, end);
        if 2 * sentenceBreak > 2 * start + size then sentenceBreak + 1 else end
    else end
  }

  /**
   * Which cut is taken when the window ends inside the text: the last paragraph break past
   * the midpoint if there is one; otherwise just after the last sentence break past the
   * midpoint if there is one; otherwise the raw boundary `start + size`.
   */
  lemma CutEndChoice(t: JsString, start: nat, size: nat)
    requires 0 < size && start + size < |t|
    ensures var e := CutEnd(t, start, size);
      var hasParagraph := exists p :: 2 * p > 2 * start + size && p <= start + size && ParagraphBreakAt(t, p);
      var hasSentence := exists q :: 2 * q > 2 * start + size && q <= start + size && SentenceBreakAt(t, q);
      && (hasParagraph ==>
            ParagraphBreakAt(t, e) && forall p :: e < p <= start + size ==> !ParagraphBreakAt(t, p))
      && (!hasParagraph && hasSentence ==>
            SentenceBreakAt(t, e - 1) && forall q :: e - 1 < q <= start + size ==> !SentenceBreakAt(t, q))
      && (!hasParagraph && !hasSentence ==> e == start + size)
  {
    var end := start + size;
    var pb := LastIndexOf(t, LF, LF, end);
    var sb := LastSentenceBreak(t, end);
    LastIndexOfIsLast(t, LF, LF, end);
    if 2 * pb > 2 * start + size {
      assert CutEnd(t, start, size) == pb && ParagraphBreakAt(t, pb) && pb <= start + size;
    } else {
      assert !exists p :: 2 * p > 2 * start + size && p <= start + size && ParagraphBreakAt(t, p);
      LastSentenceBreakIsLast(t, end);
      if 2 * sb > 2 * start + size {
        assert CutEnd(t, start, size) == sb + 1;
        assert SentenceBreakAt(t, sb);
      } else {
        assert CutEnd(t, start, size) == end;
        assert !exists q :: 2 * q > 2 * start + size && q <= start + size && SentenceBreakAt(t, q);
      }
    }
  }

  // ---------------------------------------------------------------------------
  // The scan as windows
  // ---------------------------------------------------------------------------

  /** The slice `[start, end)` of the normalised text that one loop iteration trims. */
  datatype Window = Window(start: nat, end: nat)

  /** Every proposed end lies more than `overlap` past its start, so each next start advances. */
  ghost predicate Advances(cut: nat -> nat, overlap: nat) {
    forall s: nat :: cut(s) > s + overlap
  }

  /**
   * The windows of a greedy scan over a text of length `len`, from `start` on, where
   * `cut(s)` is the end proposed for a window starting at `s`. A window whose cut reaches
   * `len` is the last one and ends at `len`; otherwise the next window starts `overlap`
   * before the cut. The first window starts at `start`, the last ends at `len`, and every
   * window is non-empty.
   */
  function Scan(cut: nat -> nat, len: nat, start: nat, overlap: nat): (ws: seq<Window>)
    requires start < len && Advances(cut, overlap)
    ensures |ws| > 0 && ws[0].start == start && ws[|ws| - 1].end == len
    decreases len - start
  {
    var e := cut(start);
    if e >= len then [Window(start, len)]
    else [Window(start, e)] + Scan(cut, len, e - overlap, overlap)
  }

  /** Every window lies between `start` and `len` and is non-empty. */
  lemma {:induction false} ScanBounds(cut: nat -> nat, len: nat, start: nat, overlap: nat, k: nat)
    requires start < len && Advances(cut, overlap) && k < |Scan(cut, len, start, overlap)|
    ensures var ws := Scan(cut, len, start, overlap);
      start <= ws[k].start < ws[k].end <= len
    decreases k
  {
    var ws := Scan(cut, len, start, overlap);
    var e := cut(start);
    if e < len {
      var rest := Scan(cut, len, e - overlap, overlap);
      assert ws == [Window(start, e)] + rest;
      if k > 0 {
        ScanBounds(cut, len, e - overlap, overlap, k - 1);
        assert ws[k] == rest[k - 1];
      }
    }
  }

  /**
   * Every window but the last ends at its cut, before `len`, and the next window starts
   * `overlap` before that cut and strictly after the window's own start.
   */
  lemma {:induction false} ScanStep(cut: nat -> nat, len: nat, start: nat, overlap: nat, k: nat)
    requires start < len && Advances(cut, overlap) && k + 1 < |Scan(cut, len, start, overlap)|
    ensures var ws := Scan(cut, len, start, overlap);
      && ws[k].end == cut(ws[k].start) < len
      && ws[k + 1].start == ws[k].end - overlap
      && ws[k].start < ws[k + 1].start
    decreases k
  {
    var ws := Scan(cut, len, start, overlap);
    var e := cut(start);
    assert e < len;
    var rest := Scan(cut, len, e - overlap, overlap);
    assert ws == [Window(start, e)] + rest;
    if k > 0 {
      ScanStep(cut, len, e - overlap, overlap, k - 1);
      assert ws[k] == rest[k - 1] && ws[k + 1] == rest[k];
    }
  }

  /** The scan stops at the first window whose cut reaches `len`. */
  lemma {:induction false} ScanLast(cut: nat -> nat, len: nat, start: nat, overlap: nat)
    requires start < len && Advances(cut, overlap)
    ensures var ws := Scan(cut, len, start, overlap);
      cut(ws[|ws| - 1].start) >= len
    decreases len - start
  {
    var ws := Scan(cut, len, start, overlap);
    var e := cut(start);
    if e < len {
      var rest := Scan(cut, len, e - overlap, overlap);
      assert ws == [Window(start, e)] + rest;
      ScanLast(cut, len, e - overlap, overlap);
      assert ws[|ws| - 1] == rest[|rest| - 1];
    }
  }

  /** The first window ends at the first cut, clipped to `len`; the rest is the scan from the next start. */
  lemma ScanHead(cut: nat -> nat, len: nat, start: nat, overlap: nat)
    requires start < len && Advances(cut, overlap)
    ensures var ws := Scan(cut, len, start, overlap);
      var e := cut(start);
      && ws[0] == Window(start, Min(e, len))
      && (e >= len ==> |ws| == 1)
      && (e < len ==> ws[1..] == Scan(cut, len, e - overlap, overlap))
  {
    var e := cut(start);
    if e < len {
      var rest := Scan(cut, len, e - overlap, overlap);
      assert Scan(cut, len, start, overlap) == [Window(start, e)] + rest;
    }
  }

  /** Every offset from `start` to `len` lies in some window `k`: the scan skips nothing. */
  lemma {:induction false} ScanCovering(cut: nat -> nat, len: nat, start: nat, overlap: nat, p: nat) returns (k: nat)
    requires start <= p < len && Advances(cut, overlap)
    ensures var ws := Scan(cut, len, start, overlap);
      k < |ws| && ws[k].start <= p < ws[k].end
    decreases len - start
  {
    var e := cut(start);
    var ws := Scan(cut, len, start, overlap);
    if e >= len || p < e {
      k := 0;
      assert ws[0].start <= p < ws[0].end by {
        ScanHead(cut, len, start, overlap);
      }
    } else {
      var j := ScanCovering(cut, len, e - overlap, overlap, p);
      k := j + 1;
      assert k < |ws| && ws[k].start <= p < ws[k].end by {
        ScanHead(cut, len, start, overlap);
        assert ws[j + 1] == ws[1..][j];
      }
    }
  }

  /** The windows of `chunkText`'s loop over the normalised text `t`. */
  function Windows(t: JsString, size: nat, overlap: nat): (ws: seq<Window>)
    requires ValidSizes(size, overlap) && 0 < |t|
    ensures forall k :: 0 <= k < |ws| ==> ws[k].start < ws[k].end <= |t|
  {
    var cut := s => CutEnd(t, s, size);
    var ws := Scan(cut, |t|, 0, overlap);
    assert forall k :: 0 <= k < |ws| ==> ws[k].start < ws[k].end <= |t| by {
      forall k | 0 <= k < |ws| ensures ws[k].start < ws[k].end <= |t| {
        ScanBounds(cut, |t|, 0, overlap, k);
      }
    }
    ws
  }

  /**
   * Window `k` of the loop starts at offset 0 when it is the first; it ends at `CutEnd` of
   * its start, clipped to the text. It is followed by another window exactly when that cut
   * lies before the end of the text, and the next window then starts `overlap` before the cut.
   */
  lemma WindowsStep(t: JsString, size: nat, overlap: nat, k: nat)
    requires ValidSizes(size, overlap) && 0 < |t| && k < |Windows(t, size, overlap)|
    ensures var ws := Windows(t, size, overlap);
      var e := CutEnd(t, ws[k].start, size);
      && ws[0].start == 0
      && ws[k].end == Min(e, |t|)
      && (k + 1 < |ws| <==> e < |t|)
      && (k + 1 < |ws| ==> ws[k + 1].start == e - overlap && ws[k].start < ws[k + 1].start)
  {
    var ws := Windows(t, size, overlap);
    var cut := s => CutEnd(t, s, size);
    assert ws == Scan(cut, |t|, 0, overlap);
    var e := cut(ws[k].start);
    if k + 1 < |ws| {
      ScanStep(cut, |t|, 0, overlap, k);
      assert ws[k].end == e < |t|;
    } else {
      ScanLast(cut, |t|, 0, overlap);
      assert ws[k].end == |t| <= e;
    }
  }

  /** A window is at most `size + 1` characters wide. */
  lemma WindowSize(t: JsString, size: nat, overlap: nat, k: nat)
    requires ValidSizes(size, overlap) && 0 < |t| && k < |Windows(t, size, overlap)|
    ensures var w := Windows(t, size, overlap)[k]; w.end - w.start <= size + 1
  {
    WindowsStep(t, size, overlap, k);
  }

  /** A window `[start, end)` is the slice `t[start..end]`. */
  function Slice(t: JsString, w: Window): JsString
    requires w.start <= w.end <= |t|
  {
    t[w.start..w.end]
  }

  /** The trimmed slices of the windows `ws`, in order: what each loop iteration trims. */
  function TrimmedSlices(t: JsString, ws: seq<Window>): (pieces: seq<JsString>)
    requires forall k :: 0 <= k < |ws| ==> ws[k].start <= ws[k].end <= |t|
    ensures |pieces| == |ws|
  {
    if |ws| == 0 then []
    else TrimmedSlices(t, ws[..|ws| - 1]) + [Trim(Slice(t, ws[|ws| - 1]))]
  }

  /** Piece `j` is the trimmed slice of window `j`. */
  lemma {:induction false} TrimmedSliceAt(t: JsString, ws: seq<Window>, j: nat)
    requires forall k :: 0 <= k < |ws| ==> ws[k].start <= ws[k].end <= |t|
    requires j < |ws|
    ensures TrimmedSlices(t, ws)[j] == Trim(Slice(t, ws[j]))
    decreases |ws|
  {
    if j < |ws| - 1 {
      TrimmedSliceAt(t, ws[..|ws| - 1], j);
    }
  }

  /** A window that holds a non-whitespace character does not trim to nothing. */
  lemma WindowWithTextIsKept(t: JsString, w: Window, p: nat)
    requires w.start <= p < w.end <= |t| && !IsWhitespace(t[p])
    ensures Trim(Slice(t, w)) != []
  {
    TrimEmpty(Slice(t, w));
    assert Slice(t, w)[p - w.start] == t[p];
  }

  // ---------------------------------------------------------------------------
  // Emitting chunks
  // ---------------------------------------------------------------------------

  predicate NonEmpty(s: JsString) { s != [] }

  /**
   * The chunks pushed for the trimmed slices `pieces`, in order: a piece is pushed only when
   * non-empty, with the number of chunks pushed before it as its index.
   */
  function Emit(pieces: seq<JsString>): (cs: seq<Chunk>)
    ensures |cs| <= |pieces|
    ensures forall k :: 0 <= k < |cs| ==> cs[k].index == k && cs[k].text != []
  {
    if |pieces| == 0 then []
    else
      var before := Emit(pieces[..|pieces| - 1]);
      var piece := pieces[|pieces| - 1];
      before + (if piece != [] then [Chunk(|before|, piece)] else [])
  }

  /** The emitted texts are exactly the non-empty pieces, in their order, numbered from 0. */
  lemma {:induction false} EmitIsFiltered(pieces: seq<JsString>)
    ensures var kept := Filter(NonEmpty, pieces);
      var cs := Emit(pieces);
      |cs| == |kept| && forall k :: 0 <= k < |cs| ==> cs[k] == Chunk(k, kept[k])
  {
    if |pieces| > 0 {
      EmitIsFiltered(pieces[..|pieces| - 1]);
    }
  }

  /**
   * One more piece adds one chunk, numbered after the chunks before it, when it is
   * non-empty, and nothing otherwise.
   */
  lemma EmitSnoc(pieces: seq<JsString>, piece: JsString)
    ensures Emit(pieces + [piece])
         == Emit(pieces) + (if piece != [] then [Chunk(|Emit(pieces)|, piece)] else [])
  {
    assert (pieces + [piece])[..|pieces|] == pieces;
  }

  /** Each emitted text is one of the pieces. */
  lemma {:induction false} EmitFromPiece(pieces: seq<JsString>, k: nat) returns (j: nat)
    requires k < |Emit(pieces)|
    ensures j < |pieces| && Emit(pieces)[k].text == pieces[j]
    decreases |pieces|
  {
    var before := Emit(pieces[..|pieces| - 1]);
    if k < |before| {
      j := EmitFromPiece(pieces[..|pieces| - 1], k);
    } else {
      j := |pieces| - 1;
    }
  }

  /** Each non-empty piece is emitted. */
  lemma {:induction false} PieceIsEmitted(pieces: seq<JsString>, j: nat) returns (k: nat)
    requires j < |pieces| && pieces[j] != []
    ensures k < |Emit(pieces)| && Emit(pieces)[k].text == pieces[j]
    decreases |pieces|
  {
    if j == |pieces| - 1 {
      k := |Emit(pieces[..|pieces| - 1])|;
    } else {
      k := PieceIsEmitted(pieces[..|pieces| - 1], j);
    }
  }

  // ---------------------------------------------------------------------------
  // The whole chunker
  // ---------------------------------------------------------------------------

  /** What `chunkText` returns for the given sizes. */
  function ChunkSpec(text: JsString, size: nat, overlap: nat): (cs: seq<Chunk>)
    requires ValidSizes(size, overlap)
    ensures forall k :: 0 <= k < |cs| ==> cs[k].index == k && cs[k].text != []
  {
    var n := Normalize(text);
    if |n| == 0 then []
    else if |n| <= size then [Chunk(0, n)]
    else Emit(TrimmedSlices(n, Windows(n, size, overlap)))
  }

  /** No chunk at all exactly when the normalised text is empty. */
  lemma ChunkSpecEmpty(text: JsString, size: nat, overlap: nat)
    requires ValidSizes(size, overlap)
    ensures ChunkSpec(text, size, overlap) == [] <==> Normalize(text) == []
  {
    var n := Normalize(text);
    NormalizeShape(text);
    if |n| > size {
      var ws := Windows(n, size, overlap);
      WindowWithTextIsKept(n, ws[0], 0);
      TrimmedSliceAt(n, ws, 0);
      var k := PieceIsEmitted(TrimmedSlices(n, ws), 0);
    }
  }

  /** A normalised text that fits in one chunk is returned whole, as chunk 0. */
  lemma ChunkSpecShort(text: JsString, size: nat, overlap: nat)
    requires ValidSizes(size, overlap) && 0 < |Normalize(text)| <= size
    ensures ChunkSpec(text, size, overlap) == [Chunk(0, Normalize(text))]
  {
  }

  /**
   * Chunks are numbered 0, 1, 2, ... in order; each text is non-empty, has no whitespace at
   * either end, is at most `size + 1` characters long and is a slice of the normalised text.
   */
  lemma ChunkSpecChunks(text: JsString, size: nat, overlap: nat, k: nat)
    requires ValidSizes(size, overlap) && k < |ChunkSpec(text, size, overlap)|
    ensures var c := ChunkSpec(text, size, overlap)[k];
      var n := Normalize(text);
      && c.index == k
      && c.text != []
      && !IsWhitespace(c.text[0]) && !IsWhitespace(c.text[|c.text| - 1])
      && |c.text| <= size + 1
      && exists i, j :: 0 <= i <= j <= |n| && c.text == n[i..j]
  {
    var n := Normalize(text);
    NormalizeShape(text);
    if |n| <= size {
      assert ChunkSpec(text, size, overlap)[k].text == n[0..|n|];
    } else {
      EmittedChunk(n, size, overlap, k);
    }
  }

  /** The chunks emitted for the windows of a text longer than `size`, one at a time. */
  lemma EmittedChunk(n: JsString, size: nat, overlap: nat, k: nat)
    requires ValidSizes(size, overlap) && size < |n|
    requires k < |Emit(TrimmedSlices(n, Windows(n, size, overlap)))|
    ensures var c := Emit(TrimmedSlices(n, Windows(n, size, overlap)))[k];
      && !IsWhitespace(c.text[0]) && !IsWhitespace(c.text[|c.text| - 1])
      && |c.text| <= size + 1
      && exists i, j :: 0 <= i <= j <= |n| && c.text == n[i..j]
  {
    var ws := Windows(n, size, overlap);
    var pieces := TrimmedSlices(n, ws);
    var c := Emit(pieces)[k];
    var j := EmitFromPiece(pieces, k);
    TrimmedSliceAt(n, ws, j);
    var a, b := TrimOfSlice(n, ws[j].start, ws[j].end);
    WindowSize(n, size, overlap, j);
  }

  /**
   * Nothing of the text is skipped: when the text is cut, every non-whitespace character
   * lies in a window `k` whose trimmed slice is emitted, as chunk `m`.
   */
  lemma ChunkSpecCovers(text: JsString, size: nat, overlap: nat, p: nat) returns (k: nat, m: nat)
    requires ValidSizes(size, overlap)
    requires var n := Normalize(text); |n| > size && p < |n| && !IsWhitespace(n[p])
    ensures var n := Normalize(text);
      var ws := Windows(n, size, overlap);
      var cs := ChunkSpec(text, size, overlap);
      && k < |ws| && ws[k].start <= p < ws[k].end
      && m < |cs| && cs[m].text == Trim(Slice(n, ws[k]))
  {
    var n := Normalize(text);
    var ws := Windows(n, size, overlap);
    k := ScanCovering(s => CutEnd(n, s, size), |n|, 0, overlap, p);
    WindowWithTextIsKept(n, ws[k], p);
    TrimmedSliceAt(n, ws, k);
    m := PieceIsEmitted(TrimmedSlices(n, ws), k);
  }

  // ---------------------------------------------------------------------------
  // The loop of the source
  // ---------------------------------------------------------------------------

  /**
   * The piece of loop window `i` is the trimmed slice from its start to its cut, clipped to
   * the end of the text.
   */
  lemma WindowPiece(t: JsString, size: nat, overlap: nat, i: nat)
    requires ValidSizes(size, overlap) && 0 < |t| && i < |Windows(t, size, overlap)|
    ensures var ws := Windows(t, size, overlap);
      TrimmedSlices(t, ws)[i] == Trim(t[ws[i].start..Min(CutEnd(t, ws[i].start, size), |t|)])
  {
    var ws := Windows(t, size, overlap);
    WindowsStep(t, size, overlap, i);
    TrimmedSliceAt(t, ws, i);
  }

  /**
   * One iteration of the loop, on window `i`: the chunks of the windows before it, followed
   * by its trimmed slice when that is non-empty, are the chunks of the windows up to it; and
   * the next window starts `overlap` before the cut exactly when the cut is inside the text.
   */
  lemma LoopStep(t: JsString, size: nat, overlap: nat, i: nat)
    requires ValidSizes(size, overlap) && 0 < |t| && i < |Windows(t, size, overlap)|
    ensures var ws := Windows(t, size, overlap);
      var pieces := TrimmedSlices(t, ws);
      var e := CutEnd(t, ws[i].start, size);
      var piece := Trim(t[ws[i].start..Min(e, |t|)]);
      var before := Emit(pieces[..i]);
      && Emit(pieces[..i + 1]) == before + (if piece != [] then [Chunk(|before|, piece)] else [])
      && (i + 1 < |ws| <==> e < |t|)
      && (i + 1 < |ws| ==> ws[i + 1].start == e - overlap)
      && (i + 1 == |ws| ==> pieces[..i + 1] == pieces)
  {
    var ws := Windows(t, size, overlap);
    var pieces := TrimmedSlices(t, ws);
    WindowsStep(t, size, overlap, i);
    WindowPiece(t, size, overlap, i);
    TakeOneMore(pieces, i);
    EmitSnoc(pieces[..i], pieces[i]);
  }

  /** `chunkText(text, options)`. */
  method ChunkText(text: JsString, options: ChunkingOptions) returns (chunks: seq<Chunk>)
    requires ValidSizes(SizeOf(options), OverlapOf(options))
    ensures chunks == ChunkSpec(text, SizeOf(options), OverlapOf(options))
    ensures forall k :: 0 <= k < |chunks| ==> chunks[k].index == k && chunks[k].text != []
  {
    var chunkSize := SizeOf(options);
    var chunkOverlap := OverlapOf(options);

    var normalizedText := Normalize(text);
    if |normalizedText| == 0 {
      return [];
    }
    if |normalizedText| <= chunkSize {
      return [Chunk(0, normalizedText)];
    }
    chunks := ScanChunks(normalizedText, chunkSize, chunkOverlap);
  }

  /**
   * The `while` loop of `chunkText` over a normalised text longer than one chunk: each
   * iteration cuts the window that starts at `start`, pushes its trimmed text when that is
   * non-empty, and moves `start` to `overlap` before the cut, until a cut reaches the end.
   */
  method ScanChunks(normalizedText: JsString, chunkSize: nat, chunkOverlap: nat) returns (chunks: seq<Chunk>)
    requires ValidSizes(chunkSize, chunkOverlap) && chunkSize < |normalizedText|
    ensures chunks == Emit(TrimmedSlices(normalizedText, Windows(normalizedText, chunkSize, chunkOverlap)))
  {
    ghost var ws := Windows(normalizedText, chunkSize, chunkOverlap);
    ghost var pieces := TrimmedSlices(normalizedText, ws);
    ghost var i := 0;
    chunks := [];
    var start: int := 0;
    var index: nat := 0;
    while start < |normalizedText|
      invariant i < |ws| && start == ws[i].start
      invariant chunks == Emit(pieces[..i]) && index == |chunks|
      decreases |normalizedText| - start
    {
      LoopStep(normalizedText, chunkSize, chunkOverlap, i);
      var end := CutEnd(normalizedText, start, chunkSize);
      var chunkText := Trim(normalizedText[start..Min(end, |normalizedText|)]);
      if |chunkText| > 0 {
        chunks := chunks + [Chunk(index, chunkText)];
        index := index + 1;
      }
      i := i + 1;

      start := end - chunkOverlap;
      if start >= |normalizedText| - chunkOverlap {
        break;
      }
    }
  }

  /** Without any paragraph or sentence break, every cut is the raw boundary `start + size`. */
  lemma CutEndWithoutBreaks(t: JsString, start: nat, size: nat)
    requires 0 < size
    requires forall i :: !ParagraphBreakAt(t, i) && !SentenceBreakAt(t, i)
    ensures CutEnd(t, start, size) == start + size
  {
  }

  /**
   * A 2500-character text without paragraph or sentence breaks, with the defaults 1000 and
   * 200, is scanned in three windows, [0, 1000), [800, 1800) and [1600, 2500), each
   * starting 200 before the previous one ends.
   */
  lemma ScanWithoutBreaks(t: JsString)
    requires |t| == 2500
    requires forall i :: !ParagraphBreakAt(t, i) && !SentenceBreakAt(t, i)
    ensures Windows(t, 1000, 200) == [Window(0, 1000), Window(800, 1800), Window(1600, 2500)]
  {
    var cut := (s: nat) => CutEnd(t, s, 1000);
    CutEndWithoutBreaks(t, 0, 1000);
    CutEndWithoutBreaks(t, 800, 1000);
    CutEndWithoutBreaks(t, 1600, 1000);
    assert Scan(cut, 2500, 1600, 200) == [Window(1600, 2500)];
    assert Scan(cut, 2500, 800, 200) == [Window(800, 1800)] + Scan(cut, 2500, 1600, 200);
    assert Scan(cut, 2500, 0, 200) == [Window(0, 1000)] + Scan(cut, 2500, 800, 200);
  }

  /** Text without a CR is left unchanged by the CR LF replacement. */
  lemma {:induction false} ReplaceCrlfWithoutCr(s: JsString)
    requires forall i :: 0 <= i < |s| ==> s[i] != CR
    ensures ReplaceCrlf(s) == s
    decreases |s|
  {
    if |s| > 0 {
      assert !StartsWithCrlf(s);
      ReplaceCrlfWithoutCr(s[1..]);
      assert s == [s[0]] + s[1..];
    }
  }

  /** A text of letters only, without whitespace, line breaks or sentence punctuation. */
  predicate PlainText(t: JsString) {
    forall i :: 0 <= i < |t| ==>
      !IsWhitespace(t[i]) && t[i] != FullStop && t[i] != ExclamationMark && t[i] != QuestionMark
  }

  /** Normalising leaves plain text unchanged. */
  lemma NormalizePlainText(t: JsString)
    requires |t| > 0 && PlainText(t)
    ensures Normalize(t) == t
  {
    assert forall i :: 0 <= i < |t| ==> t[i] != CR && t[i] != LF;
    ReplaceCrlfWithoutCr(t);
    CollapseKeepsShortRuns(t);
    TrimUnchanged(t);
  }

  /**
   * A plain text one unit longer than the default chunk size is scanned in two windows,
   * [0, 1000) and [800, 1001).
   */
  lemma WindowsJustOverSize(t: JsString)
    requires |t| == 1001 && PlainText(t)
    ensures Windows(t, 1000, 200) == [Window(0, 1000), Window(800, 1001)]
  {
    assert forall i :: !ParagraphBreakAt(t, i) && !SentenceBreakAt(t, i);
    var cut := (s: nat) => CutEnd(t, s, 1000);
    CutEndWithoutBreaks(t, 0, 1000);
    CutEndWithoutBreaks(t, 800, 1000);
    assert Scan(cut, 1001, 800, 200) == [Window(800, 1001)];
    assert Scan(cut, 1001, 0, 200) == [Window(0, 1000)] + Scan(cut, 1001, 800, 200);
  }

  /** Two non-empty pieces become chunks 0 and 1. */
  lemma EmitTwo(a: JsString, b: JsString)
    requires a != [] && b != []
    ensures Emit([a, b]) == [Chunk(0, a), Chunk(1, b)]
  {
    assert [a, b][..1] == [a];
    assert [a][..0] == [];
  }

  /**
   * A plain text one unit longer than the default chunk size becomes two chunks: its first
   * 1000 units and its units from offset 800 on.
   */
  lemma ChunksJustOverSize(t: JsString)
    requires |t| == 1001 && PlainText(t)
    ensures ChunkSpec(t, 1000, 200) == [Chunk(0, t[..1000]), Chunk(1, t[800..])]
  {
    NormalizePlainText(t);
    WindowsJustOverSize(t);
    var ws := Windows(t, 1000, 200);
    TrimmedSliceAt(t, ws, 0);
    TrimmedSliceAt(t, ws, 1);
    TrimUnchanged(t[..1000]);
    TrimUnchanged(t[800..]);
    assert t[0..1000] == t[..1000] && t[800..1001] == t[800..];
    assert TrimmedSlices(t, ws) == [t[..1000], t[800..]];
    EmitTwo(t[..1000], t[800..]);
  }

  /** The two code units of U+1F600, a character outside the Basic Multilingual Plane. */
  const HighSurrogate: CodeUnit := 0xD83D
  const LowSurrogate: CodeUnit := 0xDE00

  /**
   * 999 letters followed by one character outside the Basic Multilingual Plane are 1001 code
   * units long, more than the default chunk size: the text is cut into two chunks, the
   * first of 1000 units ending in the high surrogate alone, the second from offset 800 on.
   */
  lemma SurrogatePairSplit()
    ensures var t := seq(999, _ => LetterA) + [HighSurrogate, LowSurrogate];
      var cs := ChunkSpec(t, 1000, 200);
      && cs == [Chunk(0, t[..1000]), Chunk(1, t[800..])]
      && cs[0].text[999] == HighSurrogate
  {
    var t := seq(999, _ => LetterA) + [HighSurrogate, LowSurrogate];
    assert PlainText(t);
    ChunksJustOverSize(t);
  }

  // ---------------------------------------------------------------------------
  // The unchecked overlap
  // ---------------------------------------------------------------------------

  /**
   * With `chunkOverlap` 8 below `chunkSize` 10, but above half of it, the first cut of
   * "aaaaaa\n\nbbbb" falls on the paragraph break at 6, and the next start, 6 - 8, lies
   * before the current start 0: the scan does not advance.
   */
  lemma OverlapAboveHalfGoesBack()
    ensures var t := seq(6, _ => LetterA) + [LF, LF] + seq(4, _ => LetterB);
      && CutEnd(t, 0, 10) == 6
      && CutEnd(t, 0, 10) - 8 < 0
  {
    var t := seq(6, _ => LetterA) + [LF, LF] + seq(4, _ => LetterB);
    assert t[6] == LF && t[7] == LF && t[8] == LetterB && t[9] == LetterB && t[10] == LetterB && t[11] == LetterB;
    assert LastIndexOf(t, LF, LF, 10) == 6;
  }
}

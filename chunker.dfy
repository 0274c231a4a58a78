/** The fallback text chunker of `chunk_code_text` and the chunk selection of
    the `/llm` endpoint.  A text is cut into windows `text[start..end]` whose
    offsets are computed by integer arithmetic alone; each new window starts
    `overlap` characters before the previous end when that moves forward, and
    at the previous end otherwise. */
module Chunker {

  /** Default window length of `chunk_code_text`. */
  const DefaultChunkSize: int := 2500
  /** Default overlap of `chunk_code_text`. */
  const DefaultOverlap: int := 200
  /** Texts up to this length are sent to the completion service whole. */
  const SingleChunkLimit: nat := 3000

  /** A window of the text: the half-open offset range `[start, end)`. */
  datatype Window = Window(start: nat, end: nat)

  function Min(a: int, b: int): int {
    if a <= b then a else b
  }

  /** The start of the window after `[start, end)`: `end - overlap` when that
      lies beyond `start`, otherwise `end`. */
  function NextStart(start: nat, end: nat, overlap: int): (next: nat)
    ensures next == end - overlap || next == end
    ensures start < end ==> start < next
    ensures overlap >= 0 ==> next <= end
  {
    if end - overlap > start then end - overlap else end
  }

  /** End of the window that starts at `start` in a text of length `len`. */
  function WindowEnd(len: nat, chunkSize: int, start: nat): int {
    Min(start + chunkSize, len)
  }

  /** The windows the fallback loop visits once its cursor is at `start`. */
  function WindowsFrom(len: nat, chunkSize: int, overlap: int, start: nat): (ws: seq<Window>)
    requires chunkSize >= 1
    ensures forall i :: 0 <= i < |ws| ==>
      start <= ws[i].start < ws[i].end <= len && ws[i].end - ws[i].start <= chunkSize
    ensures (ws == []) == (start >= len)
    ensures ws != [] ==> ws[0].start == start
    decreases len - start
  {
    if start >= len then []
    else
      var end := WindowEnd(len, chunkSize, start);
      [Window(start, end)] + WindowsFrom(len, chunkSize, overlap, NextStart(start, end, overlap))
  }

  /** Every window lies inside a text of length `len`. */
  ghost predicate WindowsIn(ws: seq<Window>, len: nat) {
    forall i :: 0 <= i < |ws| ==> ws[i].start <= ws[i].end <= len
  }

  /** The substrings of `text` that the windows select. */
  function Slices(text: string, ws: seq<Window>): (r: seq<string>)
    requires WindowsIn(ws, |text|)
    ensures |r| == |ws|
  {
    if ws == [] then [] else [text[ws[0].start..ws[0].end]] + Slices(text, ws[1..])
  }

  /** Slice `i` is the text of window `i`. */
  lemma {:induction false} SlicesAt(text: string, ws: seq<Window>)
    requires WindowsIn(ws, |text|)
    ensures forall i :: 0 <= i < |ws| ==> Slices(text, ws)[i] == text[ws[i].start..ws[i].end]
  {
    if ws != [] {
      SlicesAt(text, ws[1..]);
      forall i | 1 <= i < |ws| ensures Slices(text, ws)[i] == text[ws[i].start..ws[i].end] {
        assert ws[1..][i - 1] == ws[i];
      }
    }
  }

  /** The chunks that the fallback branch of `chunk_code_text` returns. */
  function Chunks(text: string, chunkSize: int, overlap: int): (chunks: seq<string>)
    requires chunkSize >= 1
    ensures (chunks == []) == (text == [])
    ensures forall i :: 0 <= i < |chunks| ==> 0 < |chunks[i]| <= chunkSize
  {
    var ws := WindowsFrom(|text|, chunkSize, overlap, 0);
    SlicesAt(text, ws);
    Slices(text, ws)
  }

  /** The fallback loop of `chunk_code_text`, step by step. */
  method ChunkCodeText(text: string, chunkSize: int, overlap: int) returns (chunks: seq<string>)
    requires chunkSize >= 1
    ensures chunks == Chunks(text, chunkSize, overlap)
  {
    chunks := [];
    var start: nat := 0;
    var len := |text|;
    ghost var all := RemainingChunks(text, chunkSize, overlap, 0);
    while start < len
      invariant chunks + RemainingChunks(text, chunkSize, overlap, start) == all
      decreases len - start
    {
      var end := Min(start + chunkSize, len);
      LoopStep(text, chunkSize, overlap, start, chunks);
      chunks := chunks + [text[start..end]];
      start := if end - overlap > start then end - overlap else end;
    }
    LoopDone(text, chunkSize, overlap, start);
  }

  /** The chunks the loop has still to emit once its cursor is at `start`. */
  function RemainingChunks(text: string, chunkSize: int, overlap: int, start: nat): seq<string>
    requires chunkSize >= 1
  {
    Slices(text, WindowsFrom(|text|, chunkSize, overlap, start))
  }

  /** Nothing is left once the cursor reaches the end, and from offset 0 the
      whole of `Chunks` is left. */
  lemma LoopDone(text: string, chunkSize: int, overlap: int, start: nat)
    requires chunkSize >= 1 && start >= |text|
    ensures RemainingChunks(text, chunkSize, overlap, start) == []
    ensures RemainingChunks(text, chunkSize, overlap, 0) == Chunks(text, chunkSize, overlap)
  {
  }

  /** What one turn of the loop in `ChunkCodeText` emits: the chunk at the
      cursor, after which the cursor moves to the next start. */
  lemma LoopStep(text: string, chunkSize: int, overlap: int, start: nat, done: seq<string>)
    requires chunkSize >= 1 && start < |text|
    ensures var end := Min(start + chunkSize, |text|);
      var next := if end - overlap > start then end - overlap else end;
      0 <= start <= end <= |text| && start < next &&
      done + RemainingChunks(text, chunkSize, overlap, start)
        == (done + [text[start..end]]) + RemainingChunks(text, chunkSize, overlap, next)
  {
    var end := WindowEnd(|text|, chunkSize, start);
    var next := NextStart(start, end, overlap);
    var rest := WindowsFrom(|text|, chunkSize, overlap, next);
    WindowsUnfold(|text|, chunkSize, overlap, start);
    SlicesCons(text, Window(start, end), rest);
    var tail := [text[start..end]] + Slices(text, rest);
    assert RemainingChunks(text, chunkSize, overlap, start) == tail;
    assert done + tail == (done + [text[start..end]]) + Slices(text, rest);
  }

  /** One turn of the loop: the window at `start`, then the windows from the
      next start. */
  lemma WindowsUnfold(len: nat, chunkSize: int, overlap: int, start: nat)
    requires chunkSize >= 1 && start < len
    ensures var end := WindowEnd(len, chunkSize, start);
      WindowsFrom(len, chunkSize, overlap, start)
        == [Window(start, end)] + WindowsFrom(len, chunkSize, overlap, NextStart(start, end, overlap))
  {
  }

  lemma SlicesCons(text: string, w: Window, rest: seq<Window>)
    requires w.start <= w.end <= |text| && WindowsIn(rest, |text|)
    ensures WindowsIn([w] + rest, |text|)
    ensures Slices(text, [w] + rest) == [text[w.start..w.end]] + Slices(text, rest)
  {
    var ws := [w] + rest;
    assert ws[0] == w && ws[1..] == rest;
  }

  // ---------------------------------------------------------------------
  // A declarative description of the windows, and its equivalence with the
  // loop's recurrence.
  // ---------------------------------------------------------------------

  /** `ws` is a window sequence for a text of length `len` that begins at
      `start`: it is empty exactly when `start` is already at the end; the
      first window begins at `start`; every window begins inside the text and
      ends `chunkSize` later or at the end of the text; each window begins
      where `NextStart` of its predecessor says; and `NextStart` of the last
      window is at or past the end of the text. */
  ghost predicate WellFormedFrom(len: nat, chunkSize: int, overlap: int, start: nat, ws: seq<Window>) {
    && (ws == [] <==> start >= len)
    && (ws != [] ==> ws[0].start == start && NextStart(ws[|ws| - 1].start, ws[|ws| - 1].end, overlap) >= len)
    && (forall i :: 0 <= i < |ws| ==> ws[i].start < len && ws[i].end == WindowEnd(len, chunkSize, ws[i].start))
    && (forall i :: 0 <= i < |ws| - 1 ==> ws[i + 1].start == NextStart(ws[i].start, ws[i].end, overlap))
  }

  lemma {:induction false} WindowsWellFormed(len: nat, chunkSize: int, overlap: int, start: nat)
    requires chunkSize >= 1
    ensures WellFormedFrom(len, chunkSize, overlap, start, WindowsFrom(len, chunkSize, overlap, start))
    decreases len - start
  {
    if start < len {
      var end := WindowEnd(len, chunkSize, start);
      var next := NextStart(start, end, overlap);
      WindowsWellFormed(len, chunkSize, overlap, next);
      var rest := WindowsFrom(len, chunkSize, overlap, next);
      var ws := WindowsFrom(len, chunkSize, overlap, start);
      assert ws == [Window(start, end)] + rest;
      forall i | 0 <= i < |ws| - 1
        ensures ws[i + 1].start == NextStart(ws[i].start, ws[i].end, overlap)
      {
        if i > 0 {
          assert ws[i] == rest[i - 1] && ws[i + 1] == rest[i];
        }
      }
    }
  }

  lemma {:induction false} WellFormedUnique(len: nat, chunkSize: int, overlap: int, start: nat, ws: seq<Window>)
    requires chunkSize >= 1
    requires WellFormedFrom(len, chunkSize, overlap, start, ws)
    ensures ws == WindowsFrom(len, chunkSize, overlap, start)
    decreases |ws|
  {
    if ws != [] {
      var end := WindowEnd(len, chunkSize, start);
      var next := NextStart(start, end, overlap);
      var rest := ws[1..];
      assert ws[0] == Window(start, end);
      assert forall i :: 0 <= i < |rest| ==> rest[i] == ws[i + 1];
      if rest != [] {
        assert rest[0].start == next;
      }
      assert WellFormedFrom(len, chunkSize, overlap, next, rest);
      WellFormedUnique(len, chunkSize, overlap, next, rest);
      assert ws == [ws[0]] + rest;
    }
  }

  /** The loop's windows are exactly the well-formed window sequence. */
  lemma WindowsCharacterised(len: nat, chunkSize: int, overlap: int, ws: seq<Window>)
    requires chunkSize >= 1
    ensures WellFormedFrom(len, chunkSize, overlap, 0, ws) <==> ws == WindowsFrom(len, chunkSize, overlap, 0)
  {
    WindowsWellFormed(len, chunkSize, overlap, 0);
    if WellFormedFrom(len, chunkSize, overlap, 0, ws) {
      WellFormedUnique(len, chunkSize, overlap, 0, ws);
    }
  }

  // ---------------------------------------------------------------------
  // Properties of the windows.
  // ---------------------------------------------------------------------

  /** Starts strictly increase, each start is the previous end minus the
      overlap or the previous end, and with a non-negative overlap there is
      no gap and the last window reaches the end of the text. */
  lemma WindowsAdvance(len: nat, chunkSize: int, overlap: int)
    requires chunkSize >= 1
    ensures var ws := WindowsFrom(len, chunkSize, overlap, 0);
      && (forall i :: 0 <= i < |ws| - 1 ==>
            ws[i].start < ws[i + 1].start
            && (ws[i + 1].start == ws[i].end - overlap || ws[i + 1].start == ws[i].end))
      && (overlap >= 0 ==> forall i :: 0 <= i < |ws| - 1 ==> ws[i + 1].start <= ws[i].end)
      && (overlap >= 0 && ws != [] ==> ws[|ws| - 1].end == len)
  {
    var ws := WindowsFrom(len, chunkSize, overlap, 0);
    WindowsWellFormed(len, chunkSize, overlap, 0);
    forall i | 0 <= i < |ws| - 1
      ensures ws[i].start < ws[i + 1].start
      ensures ws[i + 1].start == ws[i].end - overlap || ws[i + 1].start == ws[i].end
    {
      assert ws[i + 1].start == NextStart(ws[i].start, ws[i].end, overlap);
    }
    if overlap >= 0 && ws != [] {
      var last := ws[|ws| - 1];
      assert NextStart(last.start, last.end, overlap) >= len;
    }
  }

  /** The overlap actually realised between consecutive windows: the
      configured one when it is below the window length, none otherwise. */
  function EffectiveOverlap(chunkSize: int, overlap: int): nat
    requires 0 <= overlap
  {
    if overlap < chunkSize then overlap else 0
  }

  /** With a non-negative overlap, consecutive windows share exactly
      `EffectiveOverlap` characters; when that is zero every window but the
      last has the full length, so the windows cut the text into consecutive
      pieces of `chunkSize` characters. */
  lemma WindowsOverlap(len: nat, chunkSize: int, overlap: int)
    requires chunkSize >= 1 && overlap >= 0
    ensures var ws := WindowsFrom(len, chunkSize, overlap, 0);
      && (forall i :: 0 <= i < |ws| - 1 ==> ws[i].end - ws[i + 1].start == EffectiveOverlap(chunkSize, overlap))
      && (EffectiveOverlap(chunkSize, overlap) == 0 ==>
            forall i :: 0 <= i < |ws| - 1 ==> ws[i].end - ws[i].start == chunkSize)
  {
    var ws := WindowsFrom(len, chunkSize, overlap, 0);
    WindowsWellFormed(len, chunkSize, overlap, 0);
    forall i | 0 <= i < |ws| - 1
      ensures ws[i].end - ws[i + 1].start == EffectiveOverlap(chunkSize, overlap)
      ensures EffectiveOverlap(chunkSize, overlap) == 0 ==> ws[i].end - ws[i].start == chunkSize
    {
      assert ws[i + 1].start < len;
      assert ws[i + 1].start == NextStart(ws[i].start, ws[i].end, overlap);
      StepOverlap(len, chunkSize, overlap, ws[i].start);
    }
  }

  /** One step of the loop: if the next start is still inside the text, the
      current window ends exactly `EffectiveOverlap` after it. */
  lemma StepOverlap(len: nat, chunkSize: int, overlap: int, start: nat)
    requires chunkSize >= 1 && overlap >= 0 && start < len
    requires NextStart(start, WindowEnd(len, chunkSize, start), overlap) < len
    ensures var end := WindowEnd(len, chunkSize, start);
      && end - NextStart(start, end, overlap) == EffectiveOverlap(chunkSize, overlap)
      && (EffectiveOverlap(chunkSize, overlap) == 0 ==> end - start == chunkSize)
  {
  }

  /** With `0 < overlap < chunkSize` and a text longer than the overlap, the
      loop emits at least two windows: the last one holds exactly the final
      `overlap` characters, and the one before it already ends at the end of
      the text. */
  lemma TrailingWindow(len: nat, chunkSize: int, overlap: int)
    requires 0 < overlap < chunkSize && overlap < len
    ensures var ws := WindowsFrom(len, chunkSize, overlap, 0);
      && |ws| >= 2
      && ws[|ws| - 1] == Window(len - overlap, len)
      && ws[|ws| - 2].end == len
  {
    var ws := WindowsFrom(len, chunkSize, overlap, 0);
    WindowsWellFormed(len, chunkSize, overlap, 0);
    var last := ws[|ws| - 1];
    // The last window ends at the end of the text and is at most `overlap`
    // long, for otherwise the loop would go on.
    assert last.end == len;
    assert last.end - last.start <= overlap;
    assert |ws| != 1;
    var prev := ws[|ws| - 2];
    StepOverlap(len, chunkSize, overlap, prev.start);
    assert prev.end - last.start == overlap;
  }

  /** The offsets for a 7000-character text with the defaults. */
  lemma SevenThousandExample()
    ensures WindowsFrom(7000, DefaultChunkSize, DefaultOverlap, 0)
         == [Window(0, 2500), Window(2300, 4800), Window(4600, 7000), Window(6800, 7000)]
  {
    assert WindowsFrom(7000, 2500, 200, 7000) == [];
    assert WindowsFrom(7000, 2500, 200, 6800) == [Window(6800, 7000)];
    assert WindowsFrom(7000, 2500, 200, 4600) == [Window(4600, 7000), Window(6800, 7000)];
  }

  // ---------------------------------------------------------------------
  // Properties of the chunks.
  // ---------------------------------------------------------------------

  /** Every chunk is the slice of its window, and windows are non-empty and
      at most `chunkSize` long. */
  lemma ChunksAreSlices(text: string, chunkSize: int, overlap: int)
    requires chunkSize >= 1
    ensures var ws := WindowsFrom(|text|, chunkSize, overlap, 0);
      var chunks := Chunks(text, chunkSize, overlap);
      && |chunks| == |ws|
      && forall i :: 0 <= i < |ws| ==>
           0 <= ws[i].start < ws[i].end <= |text| && ws[i].end - ws[i].start <= chunkSize
           && chunks[i] == text[ws[i].start..ws[i].end]
  {
    SlicesAt(text, WindowsFrom(|text|, chunkSize, overlap, 0));
  }

  /** A text no longer than the chunk size but longer than a positive overlap
      comes back as two chunks: itself and its last `overlap` characters. */
  lemma ShortTextTwoChunks(text: string, chunkSize: int, overlap: int)
    requires 0 < overlap < chunkSize && overlap < |text| <= chunkSize
    ensures Chunks(text, chunkSize, overlap) == [text, text[|text| - overlap..]]
  {
    var len := |text|;
    assert WindowsFrom(len, chunkSize, overlap, len) == [];
    assert WindowsFrom(len, chunkSize, overlap, len - overlap) == [Window(len - overlap, len)];
    var ws := [Window(0, len), Window(len - overlap, len)];
    assert WindowsFrom(len, chunkSize, overlap, 0) == ws;
    SlicesCons(text, Window(len - overlap, len), []);
    assert ws == [Window(0, len)] + [Window(len - overlap, len)];
    SlicesCons(text, Window(0, len), [Window(len - overlap, len)]);
    assert text[0..len] == text;
  }

  /** Chunk 0 followed by every later chunk without its first `k` characters. */
  function Stitch(chunks: seq<string>, k: nat): string {
    if chunks == [] then [] else chunks[0] + DropEach(chunks[1..], k)
  }

  /** The concatenation of the chunks, each without its first `k` characters. */
  function DropEach(chunks: seq<string>, k: nat): string {
    if chunks == [] then [] else chunks[0][Min(k, |chunks[0]|)..] + DropEach(chunks[1..], k)
  }

  /** Stitching one more chunk in front. */
  lemma StitchCons(head: string, tail: seq<string>, k: nat)
    requires tail != [] && k <= |tail[0]|
    ensures Stitch([head] + tail, k) == head + Stitch(tail, k)[k..]
  {
    var rest := DropEach(tail[1..], k);
    assert ([head] + tail)[1..] == tail;
    assert (tail[0] + rest)[k..] == tail[0][k..] + rest;
  }

  /** A window followed by the part of the next window that lies past its
      end is the text from the first window on. */
  lemma JoinOverlap(text: string, start: nat, end: nat, next: nat)
    requires start <= next <= end <= |text|
    ensures text[start..end] + text[next..][end - next..] == text[start..]
  {
    assert text[next..][end - next..] == text[end..];
  }

  /** The chunks from the cursor at `start` stitch back to the rest of the
      text. */
  lemma {:induction false} StitchFrom(text: string, chunkSize: int, overlap: int, start: nat)
    requires chunkSize >= 1 && overlap >= 0 && start < |text|
    ensures Stitch(Slices(text, WindowsFrom(|text|, chunkSize, overlap, start)),
                   EffectiveOverlap(chunkSize, overlap)) == text[start..]
    decreases |text| - start
  {
    var len := |text|;
    var k := EffectiveOverlap(chunkSize, overlap);
    var end := WindowEnd(len, chunkSize, start);
    var next := NextStart(start, end, overlap);
    var rest := WindowsFrom(len, chunkSize, overlap, next);
    WindowsUnfold(len, chunkSize, overlap, start);
    SlicesCons(text, Window(start, end), rest);
    var tail := Slices(text, rest);
    if next >= len {
      assert end == len;
      assert tail == [];
    } else {
      StepOverlap(len, chunkSize, overlap, start);
      StitchFrom(text, chunkSize, overlap, next);
      assert |tail[0]| == WindowEnd(len, chunkSize, next) - next;
      StitchCons(text[start..end], tail, k);
      JoinOverlap(text, start, end, next);
    }
  }

  /** Round trip: with a non-negative overlap, chunk 0 followed by every later
      chunk without its shared prefix gives back the text exactly. */
  lemma Reconstruct(text: string, chunkSize: int, overlap: int)
    requires chunkSize >= 1 && overlap >= 0
    ensures Stitch(Chunks(text, chunkSize, overlap), EffectiveOverlap(chunkSize, overlap)) == text
  {
    if text != [] {
      StitchFrom(text, chunkSize, overlap, 0);
      assert text[0..] == text;
    }
  }

  // ---------------------------------------------------------------------
  // Chunk selection in the `/llm` endpoint.
  // ---------------------------------------------------------------------

  /** The chunks a file's text is summarised in: the whole text when it has
      at most 3000 characters, even when it is empty, otherwise the fallback
      chunks with the default window and overlap. */
  function FileChunks(text: string): (chunks: seq<string>)
    ensures |chunks| == 1 <==> |text| <= SingleChunkLimit
    ensures |chunks| >= 1
    ensures |chunks| == 1 ==> chunks[0] == text
    ensures forall i :: 0 <= i < |chunks| ==> |chunks[i]| <= SingleChunkLimit
    ensures Stitch(chunks, DefaultOverlap) == text
    ensures |text| > SingleChunkLimit ==> chunks == Chunks(text, DefaultChunkSize, DefaultOverlap)
  {
    if |text| <= SingleChunkLimit then [text]
    else
      Reconstruct(text, DefaultChunkSize, DefaultOverlap);
      TrailingWindow(|text|, DefaultChunkSize, DefaultOverlap);
      Chunks(text, DefaultChunkSize, DefaultOverlap)
  }
}

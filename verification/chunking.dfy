/** The overlapping-window chunker of the retrieval script (`chunk_text`):
    the window sequence it walks, the tiling that sequence forms, the chunks
    kept from it, and the loop as written. */
module Chunking {
  import opened Seqs
  import opened Whitespace

  /** The script's configured window size and overlap, in characters. */
  const ChunkSize: int := 1200
  const ChunkOverlap: int := 150

  /** The half-open character range `[start, end)` of one window. */
  datatype Window = Window(start: nat, end: nat)

  /** With a step `size - overlap <= 0` the loop never ends on a non-empty
      text longer than `size`; a negative overlap would skip text. */
  predicate ValidConfig(size: int, overlap: int) {
    0 <= overlap < size
  }

  /** Every window lies within a text of length `n`. */
  predicate InText(ws: seq<Window>, n: nat) {
    forall k :: 0 <= k < |ws| ==> ws[k].start <= ws[k].end <= n
  }

  function Min(a: int, b: int): int { if a <= b then a else b }

  function Max(a: int, b: int): int { if a >= b then a else b }

  /** The windows visited by the loop once its index has reached `i`, over a
      text of length `n`: cut `[i, min(i + size, n))`, stop when the window
      reaches the end, otherwise resume at `max(0, j - overlap)`. */
  function WindowsFrom(n: nat, size: int, overlap: int, i: nat): (ws: seq<Window>)
    requires ValidConfig(size, overlap)
    ensures InText(ws, n)
    decreases n - i
  {
    if i >= n then []
    else
      var j := Min(i + size, n);
      if j >= n then [Window(i, j)]
      else [Window(i, j)] + WindowsFrom(n, size, overlap, Max(0, j - overlap))
  }

  function Windows(n: nat, size: int, overlap: int): (ws: seq<Window>)
    requires ValidConfig(size, overlap)
    ensures InText(ws, n)
  {
    WindowsFrom(n, size, overlap, 0)
  }

  /** A non-empty text has windows, the first starting at the beginning. */
  lemma WindowsFirst(n: nat, size: int, overlap: int)
    requires ValidConfig(size, overlap)
    ensures Windows(n, size, overlap) == [] <==> n == 0
    ensures n > 0 ==> Windows(n, size, overlap)[0].start == 0
  {
  }

  /** `ws` tiles `[i, n)`: it starts at `i`, ends at `n`, no window is empty
      or longer than `size`, and every window but the last is full-size,
      ends before `n`, and is followed by one starting `overlap` characters
      before its end. */
  predicate TilesFrom(ws: seq<Window>, i: nat, n: nat, size: int, overlap: int) {
    && |ws| > 0
    && ws[0].start == i
    && ws[|ws| - 1].end == n
    && (forall k :: 0 <= k < |ws| ==> ws[k].start < ws[k].end <= ws[k].start + size)
    && (forall k :: 0 <= k < |ws| - 1 ==> Linked(ws, k, n, size, overlap))
  }

  /** Window `k` is full-size, ends before `n`, and window `k + 1` starts
      `overlap` characters before its end. */
  predicate Linked(ws: seq<Window>, k: nat, n: nat, size: int, overlap: int)
    requires k + 1 < |ws|
  {
    ws[k].end == ws[k].start + size < n && ws[k + 1].start == ws[k].end - overlap
  }

  /** `ws` tiles a text of length `n` (no windows for an empty text). */
  predicate Tiles(ws: seq<Window>, n: nat, size: int, overlap: int) {
    if n == 0 then ws == [] else TilesFrom(ws, 0, n, size, overlap)
  }

  lemma {:induction false} WindowsFromTile(n: nat, size: int, overlap: int, i: nat)
    requires ValidConfig(size, overlap) && i < n
    ensures TilesFrom(WindowsFrom(n, size, overlap, i), i, n, size, overlap)
    decreases n - i
  {
    var j := Min(i + size, n);
    if j < n {
      WindowsFromTile(n, size, overlap, j - overlap);
      TilesCons(Window(i, j), WindowsFrom(n, size, overlap, j - overlap), n, size, overlap);
    }
  }

  /** A full-size window ending before `n`, followed by a tiling that starts
      `overlap` characters before its end, is again a tiling. */
  lemma TilesCons(w: Window, rest: seq<Window>, n: nat, size: int, overlap: int)
    requires ValidConfig(size, overlap) && |rest| > 0 && TilesFrom(rest, rest[0].start, n, size, overlap)
    requires w.end == w.start + size < n && rest[0].start == w.end - overlap
    ensures TilesFrom([w] + rest, w.start, n, size, overlap)
  {
    var ws := [w] + rest;
    forall k | 0 <= k < |ws| - 1
      ensures Linked(ws, k, n, size, overlap)
    {
      if k > 0 {
        assert Linked(rest, k - 1, n, size, overlap);
      }
    }
  }

  /** The loop's windows tile the text; in particular the `max(0, ...)`
      clamp never fires, since each next window starts exactly `overlap`
      characters before the previous one ended. */
  lemma WindowsTile(n: nat, size: int, overlap: int)
    requires ValidConfig(size, overlap)
    ensures Tiles(Windows(n, size, overlap), n, size, overlap)
  {
    if n > 0 {
      WindowsFromTile(n, size, overlap, 0);
    }
  }

  lemma TilesTail(ws: seq<Window>, i: nat, n: nat, size: int, overlap: int)
    requires ValidConfig(size, overlap) && TilesFrom(ws, i, n, size, overlap) && |ws| > 1
    ensures ws[1].start == ws[0].end - overlap
    ensures TilesFrom(ws[1..], ws[1].start, n, size, overlap)
  {
    assert Linked(ws, 0, n, size, overlap);
    forall k | 0 <= k < |ws| - 2
      ensures Linked(ws[1..], k, n, size, overlap)
    {
      assert Linked(ws, k + 1, n, size, overlap);
    }
  }

  /** A tiling of `[i, n)` is a single window exactly when the rest of the
      text fits in one window. */
  lemma TilesSingle(ws: seq<Window>, i: nat, n: nat, size: int, overlap: int)
    requires ValidConfig(size, overlap) && TilesFrom(ws, i, n, size, overlap)
    ensures |ws| == 1 <==> n <= i + size
  {
    if |ws| > 1 {
      assert Linked(ws, 0, n, size, overlap);
    }
  }

  /** At most one window sequence tiles `[i, n)`. */
  lemma {:induction false} TilingUnique(a: seq<Window>, b: seq<Window>, i: nat, n: nat, size: int, overlap: int)
    requires ValidConfig(size, overlap)
    requires TilesFrom(a, i, n, size, overlap) && TilesFrom(b, i, n, size, overlap)
    ensures a == b
    decreases |a|
  {
    TilesSingle(a, i, n, size, overlap);
    TilesSingle(b, i, n, size, overlap);
    if n <= i + size {
      assert a[0] == b[0];
    } else {
      TilesTail(a, i, n, size, overlap);
      TilesTail(b, i, n, size, overlap);
      assert Linked(a, 0, n, size, overlap) && Linked(b, 0, n, size, overlap);
      TilingUnique(a[1..], b[1..], a[1].start, n, size, overlap);
      assert a == [a[0]] + a[1..];
      assert b == [b[0]] + b[1..];
    }
  }

  /** The windows the loop visits are exactly the tiling of the text. */
  lemma WindowsCharacterized(ws: seq<Window>, n: nat, size: int, overlap: int)
    requires ValidConfig(size, overlap)
    ensures Tiles(ws, n, size, overlap) <==> ws == Windows(n, size, overlap)
  {
    WindowsTile(n, size, overlap);
    if Tiles(ws, n, size, overlap) && n > 0 {
      TilingUnique(ws, Windows(n, size, overlap), 0, n, size, overlap);
    }
  }

  /** The index of a window of a tiling of `[i, n)` containing position `p`:
      the windows leave no gap. */
  function CoveringWindow(ws: seq<Window>, i: nat, n: nat, size: int, overlap: int, p: nat): (k: nat)
    requires ValidConfig(size, overlap) && TilesFrom(ws, i, n, size, overlap) && i <= p < n
    ensures k < |ws| && ws[k].start <= p < ws[k].end
    decreases |ws|
  {
    if p < ws[0].end then 0
    else
      TilesTail(ws, i, n, size, overlap);
      1 + CoveringWindow(ws[1..], ws[1].start, n, size, overlap, p)
  }

  /** `text[w.start:w.end].strip()`. */
  function Piece(text: string, w: Window): string
    requires w.start <= w.end <= |text|
  {
    Strip(text[w.start..w.end])
  }

  /** The stripped text of every window, in window order. */
  function Pieces(text: string, ws: seq<Window>): (ps: seq<string>)
    requires InText(ws, |text|)
    ensures |ps| == |ws|
  {
    seq(|ws|, k requires 0 <= k < |ws| => Piece(text, ws[k]))
  }

  /** The k-th piece is the stripped text of the k-th window, and no longer
      than that window. */
  lemma PiecesAt(text: string, ws: seq<Window>, k: nat)
    requires InText(ws, |text|) && k < |ws|
    ensures Pieces(text, ws)[k] == Piece(text, ws[k])
    ensures |Pieces(text, ws)[k]| <= ws[k].end - ws[k].start
  {
  }

  predicate NonEmpty(c: string) {
    c != []
  }

  /** `chunk_text(text, size, overlap)`: the non-empty stripped windows. */
  function ChunkText(text: string, size: int, overlap: int): (chunks: seq<string>)
    requires ValidConfig(size, overlap)
    ensures |text| == 0 ==> chunks == []
    ensures |chunks| <= |Windows(|text|, size, overlap)|
    ensures forall m :: 0 <= m < |chunks| ==> 0 < |chunks[m]| <= size
  {
    WindowsTile(|text|, size, overlap);
    var ps := Pieces(text, Windows(|text|, size, overlap));
    PiecesBounded(text, Windows(|text|, size, overlap), size);
    FilterAtPositions(ps, NonEmpty);
    Filter(ps, NonEmpty)
  }

  /** Windows of at most `size` characters give pieces of at most `size`. */
  lemma PiecesBounded(text: string, ws: seq<Window>, size: int)
    requires InText(ws, |text|) && forall k :: 0 <= k < |ws| ==> ws[k].end - ws[k].start <= size
    ensures forall k :: 0 <= k < |ws| ==> |Pieces(text, ws)[k]| <= size
  {
    forall k | 0 <= k < |ws| ensures |Pieces(text, ws)[k]| <= size {
      PiecesAt(text, ws, k);
    }
  }

  /** What the loop computes from window `c` of a tiling: the window ends
      at `min(start + size, n)`, it is the last exactly when it reaches `n`,
      and otherwise the next one starts at `end - overlap`, strictly later. */
  lemma TileStep(ws: seq<Window>, n: nat, size: int, overlap: int, c: nat)
    requires ValidConfig(size, overlap) && TilesFrom(ws, 0, n, size, overlap) && c < |ws|
    ensures ws[c].end == Min(ws[c].start + size, n)
    ensures ws[c].end >= n <==> c == |ws| - 1
    ensures c < |ws| - 1 ==> ws[c + 1].start == ws[c].end - overlap > ws[c].start
  {
    if c < |ws| - 1 {
      assert Linked(ws, c, n, size, overlap);
    }
  }

  /** Window `c` of the loop's windows, which starts at `i`, ends at
      `j = min(i + size, n)`; it is the last exactly when `j >= n`, and
      otherwise the next window starts at `max(0, j - overlap)`, after `i`
      and before `n`. */
  lemma WindowStep(n: nat, size: int, overlap: int, c: nat, i: nat)
    requires ValidConfig(size, overlap)
    requires c < |Windows(n, size, overlap)| && Windows(n, size, overlap)[c].start == i
    ensures var ws := Windows(n, size, overlap);
            var j := Min(i + size, n);
            && i <= j <= n && ws[c] == Window(i, j)
            && (j >= n <==> c + 1 == |ws|)
            && (j < n ==> i < ws[c + 1].start == Max(0, j - overlap) < n)
  {
    WindowsTile(n, size, overlap);
    TileStep(Windows(n, size, overlap), n, size, overlap, c);
  }

  /** `chunk_text` as written: a loop over the window start `i` that keeps
      each non-empty stripped window and stops once a window reaches the
      end of the text. It computes `ChunkText`; `c` counts the windows cut. */
  method ChunkTextLoop(text: string, size: int, overlap: int) returns (chunks: seq<string>)
    requires ValidConfig(size, overlap)
    ensures chunks == ChunkText(text, size, overlap)
    ensures forall m :: 0 <= m < |chunks| ==> 0 < |chunks[m]| <= size
  {
    chunks := [];
    var n := |text|;
    var i := 0;
    ghost var ws := Windows(n, size, overlap);
    ghost var ps := Pieces(text, ws);
    ghost var c := 0;
    WindowsFirst(n, size, overlap);
    while i < n
      invariant 0 <= i && c <= |ws| && |ps| == |ws|
      invariant c < |ws| ==> ws[c].start == i < n
      invariant c == |ws| ==> n <= i
      invariant chunks == FilterUpTo(ps, NonEmpty, c)
      decreases n - i
    {
      var j := Min(i + size, n);
      var chunk := Strip(text[i..j]);
      WindowStep(n, size, overlap, c, i);
      PiecesAt(text, ws, c);
      if chunk != [] {
        chunks := chunks + [chunk];
      }
      c := c + 1;
      if j >= n {
        break;
      }
      i := Max(0, j - overlap);
    }
    FilterUpToIsFilter(ps, NonEmpty, c);
    assert ps[..c] == ps;
  }

  /** A text no longer than one window yields its stripped self, or nothing
      when it is all whitespace. */
  lemma ChunkTextShort(text: string, size: int, overlap: int)
    requires ValidConfig(size, overlap) && |text| <= size
    ensures ChunkText(text, size, overlap) == if AllSpace(text) then [] else [Strip(text)]
  {
    StripSpec(text);
    if |text| > 0 {
      var ws := Windows(|text|, size, overlap);
      assert ws == [Window(0, |text|)];
      PiecesAt(text, ws, 0);
      assert text[0..|text|] == text;
      assert Pieces(text, ws) == [Strip(text)];
      assert Filter([Strip(text)], NonEmpty) == if Strip(text) != [] then [Strip(text)] else [];
    }
  }

  /** Chunks come from the windows in document order: the m-th chunk is the
      stripped text of window `Positions(...)[m]`, those window indices
      ascend, and every window left out strips to nothing. */
  lemma ChunkTextOrigins(text: string, size: int, overlap: int)
    requires ValidConfig(size, overlap)
    ensures var ws := Windows(|text|, size, overlap);
            InText(ws, |text|) &&
            var ps := Pieces(text, ws);
            var pos := Positions(ps, NonEmpty);
            var chunks := ChunkText(text, size, overlap);
            && |pos| == |chunks|
            && (forall m :: 0 <= m < |pos| ==> pos[m] < |ws| && chunks[m] == Piece(text, ws[pos[m]]))
            && (forall m, m' :: 0 <= m < m' < |pos| ==> pos[m] < pos[m'])
            && (forall k :: 0 <= k < |ws| && k !in pos ==> AllSpace(text[ws[k].start..ws[k].end]))
  {
    var ws := Windows(|text|, size, overlap);
    var ps := Pieces(text, ws);
    FilterAtPositions(ps, NonEmpty);
    forall k | 0 <= k < |ws|
      ensures ps[k] == Piece(text, ws[k])
      ensures ps[k] == [] ==> AllSpace(text[ws[k].start..ws[k].end])
    {
      PiecesAt(text, ws, k);
      StripSpec(text[ws[k].start..ws[k].end]);
    }
  }

  /** No non-whitespace character is lost: each one lies in a window whose
      chunk is kept, and that chunk contains the character. */
  lemma ChunkTextCovers(text: string, size: int, overlap: int, p: nat) returns (m: nat)
    requires ValidConfig(size, overlap) && p < |text| && !IsSpace(text[p])
    ensures var ws := Windows(|text|, size, overlap);
            var pos := Positions(Pieces(text, ws), NonEmpty);
            var chunks := ChunkText(text, size, overlap);
            && m < |chunks| && m < |pos| && pos[m] < |ws|
            && ws[pos[m]].start <= p < ws[pos[m]].end
            && text[p] in chunks[m]
  {
    var n := |text|;
    var ws := Windows(n, size, overlap);
    var ps := Pieces(text, ws);
    WindowsTile(n, size, overlap);
    var k := CoveringWindow(ws, 0, n, size, overlap, p);
    PiecesAt(text, ws, k);
    PieceKeeps(text, ws[k], p);
    m := KeptAt(ps, NonEmpty, k);
  }

  /** A window holding a non-whitespace character strips to a non-empty
      piece that still holds it. */
  lemma PieceKeeps(text: string, w: Window, p: nat)
    requires w.start <= p < w.end <= |text| && !IsSpace(text[p])
    ensures Piece(text, w) != [] && text[p] in Piece(text, w)
  {
    var t := text[w.start..w.end];
    var q := p - w.start;
    assert t[q] == text[p];
    StripKeeps(t, q);
  }

  /** The chunker yields nothing exactly when the text is all whitespace
      (in particular when it is empty). */
  lemma ChunkTextEmptyIff(text: string, size: int, overlap: int)
    requires ValidConfig(size, overlap)
    ensures ChunkText(text, size, overlap) == [] <==> AllSpace(text)
  {
    if !AllSpace(text) {
      var p :| 0 <= p < |text| && !IsSpace(text[p]);
      var m := ChunkTextCovers(text, size, overlap, p);
    } else {
      var ws := Windows(|text|, size, overlap);
      var ps := Pieces(text, ws);
      forall k | 0 <= k < |ps| ensures !NonEmpty(ps[k]) {
        PiecesAt(text, ws, k);
        var w := text[ws[k].start..ws[k].end];
        assert forall q :: 0 <= q < |w| ==> w[q] == text[ws[k].start + q];
        assert AllSpace(w);
        StripSpec(w);
      }
      FilterNone(ps, NonEmpty);
    }
  }
}

/** Rectangle extraction from OCR lines and the visual-neighbour test between rectangles.
    Coordinates are integers (OCR.space reports whole pixels). */
module Geometry {
  import opened Seqs

  /** One recognised word of a line, as the OCR overlay reports it. */
  datatype WordBox = WordBox(left: int, top: int, width: int, height: int)

  /** One recognised line: its text, its word boxes (possibly none), and the line-level
      metrics `MinTop` and `MaxHeight`. */
  datatype RecognizedLine = RecognizedLine(lineText: string, words: seq<WordBox>, minTop: int, maxHeight: int)

  /** The rectangle built for the line at position `id`; `r` and `b` are `l + w` and `t + h`. */
  datatype Rect = Rect(id: nat, text: string, l: int, t: int, w: int, h: int)
  {
    function R(): int { l + w }
    function B(): int { t + h }
  }

  function Lefts(ws: seq<WordBox>): seq<int> { seq(|ws|, k requires 0 <= k < |ws| => ws[k].left) }
  function Tops(ws: seq<WordBox>): seq<int> { seq(|ws|, k requires 0 <= k < |ws| => ws[k].top) }
  function Rights(ws: seq<WordBox>): seq<int> { seq(|ws|, k requires 0 <= k < |ws| => ws[k].left + ws[k].width) }
  function Bottoms(ws: seq<WordBox>): seq<int> { seq(|ws|, k requires 0 <= k < |ws| => ws[k].top + ws[k].height) }

  /** `Math.min(...words.map((w) => w.Left))`. */
  function LeftEdge(ws: seq<WordBox>): (l: int)
    requires |ws| > 0
    ensures forall k :: 0 <= k < |ws| ==> l <= ws[k].left
    ensures exists k :: 0 <= k < |ws| && l == ws[k].left
  {
    assert forall k :: 0 <= k < |ws| ==> Lefts(ws)[k] == ws[k].left;
    Min(Lefts(ws))
  }

  /** `Math.min(...words.map((w) => w.Top))`. */
  function TopEdge(ws: seq<WordBox>): (t: int)
    requires |ws| > 0
    ensures forall k :: 0 <= k < |ws| ==> t <= ws[k].top
    ensures exists k :: 0 <= k < |ws| && t == ws[k].top
  {
    assert forall k :: 0 <= k < |ws| ==> Tops(ws)[k] == ws[k].top;
    Min(Tops(ws))
  }

  /** `Math.max(...words.map((w) => w.Left + w.Width))`. */
  function RightEdge(ws: seq<WordBox>): (r: int)
    requires |ws| > 0
    ensures forall k :: 0 <= k < |ws| ==> ws[k].left + ws[k].width <= r
    ensures exists k :: 0 <= k < |ws| && r == ws[k].left + ws[k].width
  {
    assert forall k :: 0 <= k < |ws| ==> Rights(ws)[k] == ws[k].left + ws[k].width;
    Max(Rights(ws))
  }

  /** `Math.max(...words.map((w) => w.Top + w.Height))`. */
  function BottomEdge(ws: seq<WordBox>): (b: int)
    requires |ws| > 0
    ensures forall k :: 0 <= k < |ws| ==> ws[k].top + ws[k].height <= b
    ensures exists k :: 0 <= k < |ws| && b == ws[k].top + ws[k].height
  {
    assert forall k :: 0 <= k < |ws| ==> Bottoms(ws)[k] == ws[k].top + ws[k].height;
    Max(Bottoms(ws))
  }

  /** The rectangle of one line. With word boxes it is the smallest rectangle holding all of
      them. Without word boxes it is the source's fallback as written: `MinTop` serves as both
      the left and the top edge, the width is 100 and the height is `MaxHeight`. */
  function ExtractRect(line: RecognizedLine, index: nat): (r: Rect)
    ensures r.id == index && r.text == line.lineText
    ensures var ws := line.words;
      |ws| > 0 ==>
        && (forall k :: 0 <= k < |ws| ==>
              r.l <= ws[k].left && ws[k].left + ws[k].width <= r.R()
              && r.t <= ws[k].top && ws[k].top + ws[k].height <= r.B())
        && (exists k :: 0 <= k < |ws| && r.l == ws[k].left)
        && (exists k :: 0 <= k < |ws| && r.t == ws[k].top)
        && (exists k :: 0 <= k < |ws| && r.R() == ws[k].left + ws[k].width)
        && (exists k :: 0 <= k < |ws| && r.B() == ws[k].top + ws[k].height)
    ensures |line.words| == 0 ==>
      r.l == line.minTop && r.t == line.minTop && r.w == 100 && r.h == line.maxHeight
  {
    var ws := line.words;
    if |ws| > 0 then
      var l, t := LeftEdge(ws), TopEdge(ws);
      Rect(index, line.lineText, l, t, RightEdge(ws) - l, BottomEdge(ws) - t)
    else
      Rect(index, line.lineText, line.minTop, line.minTop, 100, line.maxHeight)
  }

  /** Word boxes of non-negative size give a rectangle of non-negative size. */
  lemma ExtractRectNonNegative(line: RecognizedLine, index: nat)
    requires |line.words| > 0
    requires forall k :: 0 <= k < |line.words| ==> line.words[k].width >= 0 && line.words[k].height >= 0
    ensures ExtractRect(line, index).w >= 0 && ExtractRect(line, index).h >= 0
  {
    var r := ExtractRect(line, index);
    assert r.l <= line.words[0].left && line.words[0].left + line.words[0].width <= r.R();
    assert r.t <= line.words[0].top && line.words[0].top + line.words[0].height <= r.B();
  }

  /** `rawLines.map(...)`: one rectangle per line, in input order, numbered by position. */
  function ExtractRects(lines: seq<RecognizedLine>): (rects: seq<Rect>)
    ensures |rects| == |lines|
    ensures forall i :: 0 <= i < |lines| ==> rects[i] == ExtractRect(lines[i], i)
    ensures forall i :: 0 <= i < |lines| ==> rects[i].id == i && rects[i].text == lines[i].lineText
  {
    seq(|lines|, i requires 0 <= i < |lines| => ExtractRect(lines[i], i))
  }

  function Max2(x: int, y: int): int { if x < y then y else x }
  function Min2(x: int, y: int): int { if x < y then x else y }

  /** Horizontal and vertical gaps, 0 when the rectangles overlap on that axis. */
  function XGap(a: Rect, b: Rect): int { Max2(0, Max2(a.l - b.R(), b.l - a.R())) }
  function YGap(a: Rect, b: Rect): int { Max2(0, Max2(a.t - b.B(), b.t - a.B())) }

  /** Overlaps of the two extents, negative when they are apart. */
  function XOverlap(a: Rect, b: Rect): int { Min2(a.R(), b.R()) - Max2(a.l, b.l) }
  function YOverlap(a: Rect, b: Rect): int { Min2(a.B(), b.B()) - Max2(a.t, b.t) }

  /** `areVisualNeighbors`: close vertically (gap under 1.5 times the smaller height) and
      column-aligned (overlap above -0.8 times the smaller width), or close horizontally (gap
      under twice the smaller width) and row-aligned (overlap above -0.8 times the smaller
      height). The factors are cleared of fractions, so each test is an exact integer one.
      Neighbours have positive widths or positive heights: otherwise no gap is small enough. */
  predicate AreVisualNeighbors(a: Rect, b: Rect): (near: bool)
    ensures near ==> (a.w > 0 && b.w > 0) || (a.h > 0 && b.h > 0)
  {
    var refW := Min2(a.w, b.w);
    var refH := Min2(a.h, b.h);
    var closeVertically := 2 * YGap(a, b) < 3 * refH;
    var closeHorizontally := XGap(a, b) < 2 * refW;
    var alignedVertically := 5 * XOverlap(a, b) > -4 * refW;
    var alignedHorizontally := 5 * YOverlap(a, b) > -4 * refH;
    (closeVertically && alignedVertically) || (closeHorizontally && alignedHorizontally)
  }

  /** Every gap, overlap and reference size is symmetric, so the relation is. */
  lemma NeighborsSymmetric(a: Rect, b: Rect)
    ensures AreVisualNeighbors(a, b) <==> AreVisualNeighbors(b, a)
  {
    assert XGap(a, b) == XGap(b, a) && YGap(a, b) == YGap(b, a);
    assert XOverlap(a, b) == XOverlap(b, a) && YOverlap(a, b) == YOverlap(b, a);
  }

  /** Overlapping rectangles of positive size are always neighbours. */
  lemma OverlappingAreNeighbors(a: Rect, b: Rect)
    requires a.w > 0 && a.h > 0 && b.w > 0 && b.h > 0
    requires XOverlap(a, b) >= 0 && YOverlap(a, b) >= 0
    ensures AreVisualNeighbors(a, b)
  {
    assert YGap(a, b) == 0;
  }

  /** A non-degenerate rectangle whose column lies within another's and whose top edge lies
      on or inside the other's vertical extent (zero vertical gap, full horizontal overlap)
      is always a neighbour. */
  lemma StackedAreNeighbors(a: Rect, b: Rect)
    requires a.w > 0 && a.h > 0 && b.w > 0 && b.h > 0
    requires a.l <= b.l && b.R() <= a.R()
    requires a.t <= b.t <= a.B()
    ensures AreVisualNeighbors(a, b)
  {
  }

  /** Two rectangles apart on both axes, in any direction, by at least the thresholds (twice
      the smaller width across, 1.5 times the smaller height down) are never neighbours. */
  lemma FarApartAreNotNeighbors(a: Rect, b: Rect)
    requires XGap(a, b) >= 2 * Min2(a.w, b.w) && 2 * YGap(a, b) >= 3 * Min2(a.h, b.h)
    ensures !AreVisualNeighbors(a, b)
  {
  }

  /** Three lines at (0,0,50,20), (0,25,50,20) and (200,0,50,20): the first two are neighbours
      (vertical gap 5 against a limit of 30, columns aligned); the third is a neighbour of
      neither (horizontal gap 150 against a limit of 100, no column overlap). */
  lemma ThreeLineScenario()
    ensures var r0, r1, r2 := Rect(0, "a", 0, 0, 50, 20), Rect(1, "b", 0, 25, 50, 20), Rect(2, "c", 200, 0, 50, 20);
      AreVisualNeighbors(r0, r1) && !AreVisualNeighbors(r0, r2) && !AreVisualNeighbors(r1, r2)
  {
  }
}

/** Rectangles of the repair planner (core/consultant/fidelity_loop.py:73-132).
    A rectangle covers the pixels x0 <= x < x1, y0 <= y < y1. */
module RepairGeometry {

  datatype Rect = Rect(x0: int, y0: int, x1: int, y1: int)

  function Max(a: int, b: int): int { if a >= b then a else b }
  function Min(a: int, b: int): int { if a <= b then a else b }

  predicate Contains(r: Rect, x: int, y: int)
  {
    r.x0 <= x < r.x1 && r.y0 <= y < r.y1
  }

  predicate WellFormed(r: Rect)
  {
    r.x0 < r.x1 && r.y0 < r.y1
  }

  /** Some rectangle of the list covers the pixel. */
  ghost predicate Covered(rects: seq<Rect>, x: int, y: int)
  {
    exists r | r in rects :: Contains(r, x, y)
  }

  predicate Overlaps(a: Rect, b: Rect)
  {
    a.x0 < b.x1 && b.x0 < a.x1 && a.y0 < b.y1 && b.y0 < a.y1
  }

  function Dilate(r: Rect, amount: int): Rect
  {
    Rect(r.x0 - amount, r.y0 - amount, r.x1 + amount, r.y1 + amount)
  }

  function Area(r: Rect): nat
  {
    Max(0, r.x1 - r.x0) * Max(0, r.y1 - r.y0)
  }

  function Meet(a: Rect, b: Rect): Rect
  {
    Rect(Max(a.x0, b.x0), Max(a.y0, b.y0), Min(a.x1, b.x1), Min(a.y1, b.y1))
  }

  function Iou(a: Rect, b: Rect): real
  {
    var intersection := Area(Meet(a, b));
    if intersection == 0 then 0.0
    else
      var union := Area(a) + Area(b) - intersection;
      if union > 0 then intersection as real / union as real else 0.0
  }

  // ----- pixels -------------------------------------------------------------------------------

  ghost function Pixels(r: Rect): set<(int, int)>
  {
    set x, y | r.x0 <= x < r.x1 && r.y0 <= y < r.y1 :: (x, y)
  }

  ghost function Row(x0: int, x1: int, y: int): set<(int, int)>
  {
    set x | x0 <= x < x1 :: (x, y)
  }

  lemma {:induction false} RowSize(x0: int, x1: int, y: int)
    requires x0 <= x1
    ensures |Row(x0, x1, y)| == x1 - x0
    decreases x1 - x0
  {
    if x0 < x1 {
      RowSize(x0, x1 - 1, y);
      assert Row(x0, x1, y) == Row(x0, x1 - 1, y) + {(x1 - 1, y)};
    } else {
      assert Row(x0, x1, y) == {};
    }
  }

  lemma SizeOfDisjoint(a: set<(int, int)>, b: set<(int, int)>)
    requires a !! b
    ensures |a + b| == |a| + |b|
  {
  }

  lemma BottomRow(r: Rect)
    requires WellFormed(r)
    ensures var top, row := r.(y1 := r.y1 - 1), Row(r.x0, r.x1, r.y1 - 1);
      Pixels(r) == Pixels(top) + row && Pixels(top) !! row
  {
  }

  lemma AreaOfBottomRow(r: Rect)
    requires WellFormed(r)
    ensures Area(r) == Area(r.(y1 := r.y1 - 1)) + (r.x1 - r.x0)
  {
    var w, h := r.x1 - r.x0, r.y1 - r.y0;
    assert Area(r) == w * h && Area(r.(y1 := r.y1 - 1)) == w * (h - 1);
    assert w * h == w * (h - 1) + w;
  }

  lemma EmptyArea(r: Rect)
    requires !WellFormed(r)
    ensures Pixels(r) == {} && Area(r) == 0
  {
    var w, h := Max(0, r.x1 - r.x0), Max(0, r.y1 - r.y0);
    assert w == 0 || h == 0;
    assert w * h == 0;
  }

  /** The area is the number of pixels. */
  lemma {:induction false} AreaCountsPixels(r: Rect)
    ensures |Pixels(r)| == Area(r)
    decreases Max(0, r.y1 - r.y0)
  {
    if WellFormed(r) {
      var top, row := r.(y1 := r.y1 - 1), Row(r.x0, r.x1, r.y1 - 1);
      AreaCountsPixels(top);
      RowSize(r.x0, r.x1, r.y1 - 1);
      BottomRow(r);
      SizeOfDisjoint(Pixels(top), row);
      AreaOfBottomRow(r);
    } else {
      EmptyArea(r);
    }
  }

  lemma MeetIsShared(a: Rect, b: Rect)
    ensures Pixels(Meet(a, b)) == Pixels(a) * Pixels(b)
  {
  }

  /** The quotient part / whole, where nothing of nothing is 0. */
  ghost predicate IsRatio(ratio: real, part: nat, whole: nat)
  {
    ratio * whole as real == part as real && (part == 0 ==> ratio == 0.0)
  }

  /** The ratio is that of the shared pixels to all pixels of the two boxes. */
  lemma IouIsTheShareOfPixels(a: Rect, b: Rect)
    ensures IsRatio(Iou(a, b), |Pixels(a) * Pixels(b)|, |Pixels(a) + Pixels(b)|)
  {
    PixelCounts(a, b);
    SharedAreAmongAll(Pixels(a), Pixels(b));
    IouFromAreas(a, b, |Pixels(a) * Pixels(b)|, |Pixels(a) + Pixels(b)|);
  }

  lemma SharedAreAmongAll(a: set<(int, int)>, b: set<(int, int)>)
    ensures |a * b| > 0 ==> |a + b| > 0
  {
    if |a * b| > 0 {
      var p :| p in a * b;
      assert p in a + b;
    }
  }

  lemma PixelCounts(a: Rect, b: Rect)
    ensures |Pixels(a) * Pixels(b)| == Area(Meet(a, b))
    ensures |Pixels(a) + Pixels(b)| + |Pixels(a) * Pixels(b)| == Area(a) + Area(b)
  {
    MeetIsShared(a, b);
    AreaCountsPixels(a);
    AreaCountsPixels(b);
    AreaCountsPixels(Meet(a, b));
    SizeOfUnion(Pixels(a), Pixels(b));
  }

  lemma SizeOfUnion(a: set<(int, int)>, b: set<(int, int)>)
    ensures |a + b| + |a * b| == |a| + |b|
  {
    assert a + b == a + (b - a) && b == (b - a) + a * b;
    SizeOfDisjoint(a, b - a);
    SizeOfDisjoint(b - a, a * b);
  }

  lemma IouFromAreas(a: Rect, b: Rect, part: nat, whole: nat)
    requires part == Area(Meet(a, b)) && whole == Area(a) + Area(b) - part
    requires whole > 0 || part == 0
    ensures IsRatio(Iou(a, b), part, whole)
  {
    RatioIs(part, whole);
  }

  lemma RatioIs(part: nat, whole: nat)
    requires whole > 0 || part == 0
    ensures IsRatio(if part == 0 then 0.0 else if whole > 0 then part as real / whole as real else 0.0, part, whole)
  {
    if part != 0 {
      assert part as real / whole as real * whole as real == part as real;
    }
  }

  function Distance(a: int, b: int): nat { if a >= b then a - b else b - a }

  /** The dilated box holds exactly the pixels that are at most the amount away from one of the box, in each
      direction. */
  lemma DilateIsTheNeighbourhood(r: Rect, amount: nat, x: int, y: int)
    requires WellFormed(r)
    ensures Contains(Dilate(r, amount), x, y)
       <==> exists u, v :: Contains(r, u, v) && Distance(x, u) <= amount && Distance(y, v) <= amount
  {
    if Contains(Dilate(r, amount), x, y) {
      assert Contains(r, Max(r.x0, Min(x, r.x1 - 1)), Max(r.y0, Min(y, r.y1 - 1)));
    }
  }

  // ----- clipping -----------------------------------------------------------------------------

  /** rect minus exclude as up to four strips: above, below, left, right. */
  function ClipExcluding(rect: Rect, exclude: Rect): seq<Rect>
  {
    var i := Meet(rect, exclude);
    if i.x0 >= i.x1 || i.y0 >= i.y1 then [rect]
    else
      (if rect.y0 < i.y0 then [Rect(rect.x0, rect.y0, rect.x1, i.y0)] else []) +
      (if i.y1 < rect.y1 then [Rect(rect.x0, i.y1, rect.x1, rect.y1)] else []) +
      (if rect.x0 < i.x0 then [Rect(rect.x0, i.y0, i.x0, i.y1)] else []) +
      (if i.x1 < rect.x1 then [Rect(i.x1, i.y0, rect.x1, i.y1)] else [])
  }

  function ClipEach(pieces: seq<Rect>, exclude: Rect): seq<Rect>
  {
    if pieces == [] then []
    else ClipExcluding(pieces[0], exclude) + ClipEach(pieces[1..], exclude)
  }

  /** pieces minus every rectangle of excludes, one after the other. */
  function ClipAll(pieces: seq<Rect>, excludes: seq<Rect>): seq<Rect>
    decreases |excludes|
  {
    if excludes == [] then pieces
    else ClipAll(ClipEach(pieces, excludes[0]), excludes[1..])
  }

  function TotalArea(rects: seq<Rect>): nat
  {
    if rects == [] then 0 else Area(rects[0]) + TotalArea(rects[1..])
  }

  /** The area that the rectangles of the list lose to exclude. */
  function LostArea(rects: seq<Rect>, exclude: Rect): nat
  {
    if rects == [] then 0 else Area(Meet(rects[0], exclude)) + LostArea(rects[1..], exclude)
  }

  /** No pixel belongs to two rectangles of the list, and none of them is empty. */
  ghost predicate DisjointPieces(rects: seq<Rect>)
  {
    && (forall i | 0 <= i < |rects| :: WellFormed(rects[i]))
    && (forall i, j | 0 <= i < j < |rects| :: !Overlaps(rects[i], rects[j]))
  }

  lemma OverlapIsASharedPixel(a: Rect, b: Rect)
    requires WellFormed(a) && WellFormed(b)
    ensures Overlaps(a, b) <==> exists x, y :: Contains(a, x, y) && Contains(b, x, y)
  {
    if Overlaps(a, b) {
      assert Contains(a, Max(a.x0, b.x0), Max(a.y0, b.y0));
      assert Contains(b, Max(a.x0, b.x0), Max(a.y0, b.y0));
    }
  }

  lemma CoveredConcat(a: seq<Rect>, b: seq<Rect>, x: int, y: int)
    ensures Covered(a + b, x, y) <==> Covered(a, x, y) || Covered(b, x, y)
  {
    assert forall r :: r in a + b <==> r in a || r in b;
  }

  lemma ClipCoversTheDifference(rect: Rect, exclude: Rect, x: int, y: int)
    ensures Covered(ClipExcluding(rect, exclude), x, y)
        <==> Contains(rect, x, y) && !Contains(exclude, x, y)
  {
    var i := Meet(rect, exclude);
    var pieces := ClipExcluding(rect, exclude);
    if i.x0 >= i.x1 || i.y0 >= i.y1 {
      assert rect in pieces;
    } else if Contains(rect, x, y) && !Contains(exclude, x, y) {
      var p := if y < i.y0 then Rect(rect.x0, rect.y0, rect.x1, i.y0)
               else if i.y1 <= y then Rect(rect.x0, i.y1, rect.x1, rect.y1)
               else if x < i.x0 then Rect(rect.x0, i.y0, i.x0, i.y1)
               else Rect(i.x1, i.y0, rect.x1, i.y1);
      assert p in pieces && Contains(p, x, y);
    }
  }

  lemma {:induction false} ClipEachCoversTheDifference(pieces: seq<Rect>, exclude: Rect, x: int, y: int)
    ensures Covered(ClipEach(pieces, exclude), x, y)
        <==> Covered(pieces, x, y) && !Contains(exclude, x, y)
  {
    if pieces != [] {
      assert pieces == [pieces[0]] + pieces[1..];
      CoveredConcat([pieces[0]], pieces[1..], x, y);
      CoveredConcat(ClipExcluding(pieces[0], exclude), ClipEach(pieces[1..], exclude), x, y);
      ClipCoversTheDifference(pieces[0], exclude, x, y);
      ClipEachCoversTheDifference(pieces[1..], exclude, x, y);
      assert pieces[0] in [pieces[0]];
    }
  }

  /** Repeated clipping covers exactly the pixels outside every excluded rectangle. */
  lemma {:induction false} ClipAllCoversTheDifference(pieces: seq<Rect>, excludes: seq<Rect>, x: int, y: int)
    ensures Covered(ClipAll(pieces, excludes), x, y)
        <==> Covered(pieces, x, y) && !Covered(excludes, x, y)
    decreases |excludes|
  {
    if excludes != [] {
      ClipEachCoversTheDifference(pieces, excludes[0], x, y);
      ClipAllCoversTheDifference(ClipEach(pieces, excludes[0]), excludes[1..], x, y);
      assert excludes == [excludes[0]] + excludes[1..];
      CoveredConcat([excludes[0]], excludes[1..], x, y);
      assert excludes[0] in [excludes[0]];
    }
  }

  lemma ClipStaysInside(rect: Rect, exclude: Rect, other: Rect)
    requires WellFormed(rect) && !Overlaps(other, rect)
    ensures forall p | p in ClipExcluding(rect, exclude) :: !Overlaps(other, p) && WellFormed(p)
  {
  }

  /** Every strip is a non-empty part of the rectangle it was cut from. */
  lemma {:induction false} ClipEachStaysInside(pieces: seq<Rect>, exclude: Rect, other: Rect)
    requires forall p | p in pieces :: !Overlaps(other, p) && WellFormed(p)
    ensures forall p | p in ClipEach(pieces, exclude) :: !Overlaps(other, p) && WellFormed(p)
  {
    if pieces != [] {
      ClipStaysInside(pieces[0], exclude, other);
      ClipEachStaysInside(pieces[1..], exclude, other);
      var tail := ClipEach(pieces[1..], exclude);
      assert forall p :: p in ClipEach(pieces, exclude) <==> p in ClipExcluding(pieces[0], exclude) || p in tail;
    }
  }

  lemma DisjointConcat(a: seq<Rect>, b: seq<Rect>)
    requires DisjointPieces(a) && DisjointPieces(b)
    requires forall p, q | p in a && q in b :: !Overlaps(p, q)
    ensures DisjointPieces(a + b)
  {
    var c := a + b;
    forall i, j | 0 <= i < j < |c| ensures !Overlaps(c[i], c[j]) {
      if i < |a| <= j {
        assert c[i] in a && c[j] in b;
      }
    }
  }

  lemma {:induction false} ClipEachKeepsPiecesDisjoint(pieces: seq<Rect>, exclude: Rect)
    requires DisjointPieces(pieces)
    ensures DisjointPieces(ClipEach(pieces, exclude))
  {
    if pieces != [] {
      var head := ClipExcluding(pieces[0], exclude);
      var tail := ClipEach(pieces[1..], exclude);
      ClipEachKeepsPiecesDisjoint(pieces[1..], exclude);
      forall q | q in tail ensures forall p | p in head :: !Overlaps(p, q) {
        ClipEachStaysInside(pieces[1..], exclude, pieces[0]);
        ClipStaysInside(pieces[0], exclude, q);
      }
      DisjointConcat(head, tail);
    }
  }

  /** Clipping a disjoint list any number of times leaves a disjoint list of non-empty pieces. */
  lemma {:induction false} ClipAllKeepsPiecesDisjoint(pieces: seq<Rect>, excludes: seq<Rect>)
    requires DisjointPieces(pieces)
    ensures DisjointPieces(ClipAll(pieces, excludes))
    decreases |excludes|
  {
    if excludes != [] {
      ClipEachKeepsPiecesDisjoint(pieces, excludes[0]);
      ClipAllKeepsPiecesDisjoint(ClipEach(pieces, excludes[0]), excludes[1..]);
    }
  }

  lemma TotalAreaConcat(a: seq<Rect>, b: seq<Rect>)
    ensures TotalArea(a + b) == TotalArea(a) + TotalArea(b)
  {
    if a == [] {
      assert a + b == b;
    } else {
      assert (a + b)[1..] == a[1..] + b;
    }
  }

  lemma SplitArea(w: nat, h: nat, a: nat, b: nat, c: nat, d: nat, e: nat, f: nat)
    requires w == a + b + c && h == d + e + f
    ensures w * h == w * d + w * f + a * e + c * e + b * e
  {
    assert w * e == a * e + b * e + c * e;
    assert w * h == w * d + w * e + w * f;
  }

  lemma StripArea(x0: int, y0: int, x1: int, y1: int)
    requires x0 <= x1 && y0 <= y1
    ensures TotalArea(if x0 < x1 && y0 < y1 then [Rect(x0, y0, x1, y1)] else []) == (x1 - x0) * (y1 - y0)
  {
    if x0 == x1 || y0 == y1 {
      assert (x1 - x0) * (y1 - y0) == 0;
    } else {
      var r := Rect(x0, y0, x1, y1);
      assert [r][1..] == [];
      assert Area(r) == (x1 - x0) * (y1 - y0);
    }
  }

  lemma ClipConservesArea(rect: Rect, exclude: Rect)
    requires WellFormed(rect)
    ensures TotalArea(ClipExcluding(rect, exclude)) + Area(Meet(rect, exclude)) == Area(rect)
  {
    var i := Meet(rect, exclude);
    if i.x0 < i.x1 && i.y0 < i.y1 {
      var top := if rect.y0 < i.y0 then [Rect(rect.x0, rect.y0, rect.x1, i.y0)] else [];
      var bottom := if i.y1 < rect.y1 then [Rect(rect.x0, i.y1, rect.x1, rect.y1)] else [];
      var left := if rect.x0 < i.x0 then [Rect(rect.x0, i.y0, i.x0, i.y1)] else [];
      var right := if i.x1 < rect.x1 then [Rect(i.x1, i.y0, rect.x1, i.y1)] else [];
      assert ClipExcluding(rect, exclude) == top + bottom + left + right;
      TotalAreaConcat(top, bottom);
      TotalAreaConcat(top + bottom, left);
      TotalAreaConcat(top + bottom + left, right);
      StripArea(rect.x0, rect.y0, rect.x1, i.y0);
      StripArea(rect.x0, i.y1, rect.x1, rect.y1);
      StripArea(rect.x0, i.y0, i.x0, i.y1);
      StripArea(i.x1, i.y0, rect.x1, i.y1);
      SplitArea(rect.x1 - rect.x0, rect.y1 - rect.y0, i.x0 - rect.x0, i.x1 - i.x0, rect.x1 - i.x1,
                i.y0 - rect.y0, i.y1 - i.y0, rect.y1 - i.y1);
    } else {
      assert ClipExcluding(rect, exclude) == [rect];
      assert [rect][1..] == [];
    }
  }

  /** One clipping pass loses exactly the area that the pieces share with the excluded rectangle. */
  lemma {:induction false} ClipEachConservesArea(pieces: seq<Rect>, exclude: Rect)
    requires forall p | p in pieces :: WellFormed(p)
    ensures TotalArea(ClipEach(pieces, exclude)) + LostArea(pieces, exclude) == TotalArea(pieces)
  {
    if pieces != [] {
      ClipConservesArea(pieces[0], exclude);
      ClipEachConservesArea(pieces[1..], exclude);
      TotalAreaConcat(ClipExcluding(pieces[0], exclude), ClipEach(pieces[1..], exclude));
    }
  }
}

/**
 * The boolean image and the boundary tracer of tests/boundary_tracing.cpp.  An image is a
 * width x height buffer stored row-major; reads outside it give an unset pixel and writes
 * outside it are dropped.  trace_boundary looks for a start pixel, then walks from pixel to
 * pixel: of the seven neighbours other than the one it came from, taken clockwise, it steps to
 * the first set one and marks it in the boundary image, until it is back at the start.
 *
 * The source's coordinates are size_t; a step to x = -1 or y = -1 wraps to a huge value that
 * the range test rejects, which is what a negative int does here.
 */
module BoundaryTracing {
  import opened Wrappers

  /** A pixel position, or a step direction (dx, dy); y grows downwards. */
  datatype Pt = Pt(x: int, y: int)

  function Plus(p: Pt, d: Pt): Pt
  {
    Pt(p.x + d.x, p.y + d.y)
  }

  predicate InRange(w: nat, h: nat, x: int, y: int)
  {
    0 <= x < w && 0 <= y < h
  }

  /** The index of the first pixel of row y, y * w, built up row by row. */
  function RowStart(w: nat, y: nat): nat
  {
    if y == 0 then 0 else RowStart(w, y - 1) + w
  }

  lemma {:induction false} RowStartIsProduct(w: nat, y: nat)
    ensures RowStart(w, y) == y * w
  {
    if y > 0 {
      RowStartIsProduct(w, y - 1);
      assert (y - 1) * w + w == y * w;
    }
  }

  lemma {:induction false} RowStartStep(w: nat, a: nat, b: nat)
    requires a < b
    ensures RowStart(w, a) + w <= RowStart(w, b)
    decreases b
  {
    if a < b - 1 {
      RowStartStep(w, a, b - 1);
    }
  }

  /** Row-major indices of in-range pixels are in bounds... */
  lemma IndexBound(w: nat, h: nat, x: int, y: int)
    requires InRange(w, h, x, y)
    ensures 0 <= RowStart(w, y) + x < RowStart(w, h)
  {
    RowStartStep(w, y, h);
  }

  /** ...and distinct pixels have distinct indices. */
  lemma IndexInjective(w: nat, h: nat, x: int, y: int, x': int, y': int)
    requires InRange(w, h, x, y) && InRange(w, h, x', y')
    ensures RowStart(w, y) + x == RowStart(w, y') + x' ==> x == x' && y == y'
  {
    if y < y' {
      RowStartStep(w, y, y');
    } else if y' < y {
      RowStartStep(w, y', y);
    }
  }

  /** The pixel at (x, y) of a width x height row-major buffer; unset outside the image. */
  function Peek(w: nat, h: nat, px: seq<bool>, x: int, y: int): bool
    requires |px| == RowStart(w, h)
  {
    if InRange(w, h, x, y) then IndexBound(w, h, x, y); px[RowStart(w, y) + x] else false
  }

  /** The buffer after writing p at (x, y); unchanged when (x, y) is outside the image. */
  function Poke(w: nat, h: nat, px: seq<bool>, x: int, y: int, p: bool): (r: seq<bool>)
    requires |px| == RowStart(w, h)
    ensures |r| == RowStart(w, h)
  {
    if InRange(w, h, x, y) then IndexBound(w, h, x, y); px[RowStart(w, y) + x := p] else px
  }

  /** A write is seen at its own position, and only there. */
  lemma PeekPoke(w: nat, h: nat, px: seq<bool>, x: int, y: int, p: bool, x': int, y': int)
    requires |px| == RowStart(w, h)
    ensures Peek(w, h, Poke(w, h, px, x, y, p), x', y')
         == if x' == x && y' == y && InRange(w, h, x, y) then p else Peek(w, h, px, x', y')
  {
    var q := Poke(w, h, px, x, y, p);
    if !InRange(w, h, x, y) {
      assert q == px;
    } else {
      IndexBound(w, h, x, y);
      var i := RowStart(w, y) + x;
      assert q == px[i := p];
      if x' == x && y' == y {
        assert Peek(w, h, q, x', y') == q[i] == p;
      } else if InRange(w, h, x', y') {
        IndexBound(w, h, x', y');
        IndexInjective(w, h, x, y, x', y');
        var j := RowStart(w, y') + x';
        assert Peek(w, h, q, x', y') == q[j] == px[j] == Peek(w, h, px, x', y');
      }
    }
  }

  /** Image<bool>: the pixel buffer is written in place. */
  class Image {
    const width: nat
    const height: nat
    const pix: array<bool>

    predicate Valid()
    {
      pix.Length == RowStart(width, height)
    }

    /** A w x h image with every pixel unset (make_unique value-initialises the buffer). */
    constructor(w: nat, h: nat)
      ensures Valid() && width == w && height == h && fresh(pix)
      ensures forall x, y :: !Peek(w, h, pix[..], x, y)
    {
      width, height := w, h;
      RowStartIsProduct(w, h);
      pix := new bool[w * h](k => false);
      new;
      forall x, y ensures !Peek(w, h, pix[..], x, y) {
        if InRange(w, h, x, y) {
          IndexBound(w, h, x, y);
        }
      }
    }

    function GetPixel(x: int, y: int): bool
      requires Valid()
      reads pix
    {
      Peek(width, height, pix[..], x, y)
    }

    method SetPixel(x: int, y: int, p: bool)
      requires Valid()
      modifies pix
      ensures pix[..] == Poke(width, height, old(pix[..]), x, y, p)
    {
      if x < width && 0 <= x && y < height && 0 <= y {
        IndexBound(width, height, x, y);
        pix[RowStart(width, y) + x] := p;
      }
    }

    /** Copies a row-major buffer of at least width * height pixels into the image. */
    method SetImage(src: seq<bool>)
      requires Valid() && |src| >= width * height
      modifies pix
      ensures forall x, y :: InRange(width, height, x, y) ==>
                (RowStartIsProduct(width, height); IndexBound(width, height, x, y);
                 GetPixel(x, y) == src[RowStart(width, y) + x])
    {
      RowStartIsProduct(width, height);
      var y := 0;
      while y < height
        invariant 0 <= y <= height
        invariant forall x', y' :: InRange(width, y, x', y') ==>
                    (IndexBound(width, height, x', y'); Peek(width, height, pix[..], x', y') == src[RowStart(width, y') + x'])
      {
        var x := 0;
        while x < width
          invariant 0 <= x <= width
          invariant forall x', y' :: (InRange(width, y, x', y') || (y' == y && 0 <= x' < x)) ==>
                      (IndexBound(width, height, x', y'); Peek(width, height, pix[..], x', y') == src[RowStart(width, y') + x'])
        {
          IndexBound(width, height, x, y);
          ghost var before := pix[..];
          SetPixel(x, y, src[RowStart(width, y) + x]);
          forall x', y' | InRange(width, y, x', y') || (y' == y && 0 <= x' <= x)
            ensures (IndexBound(width, height, x', y'); Peek(width, height, pix[..], x', y') == src[RowStart(width, y') + x'])
          {
            PeekPoke(width, height, before, x, y, src[RowStart(width, y) + x], x', y');
          }
          x := x + 1;
        }
        y := y + 1;
      }
    }
  }

  // ---------------------------------------------------------------------------------------------
  // Finding the start pixel

  /** The first set pixel at or after (x, y) in row-major order. */
  function FirstSetFrom(w: nat, h: nat, px: seq<bool>, x: nat, y: nat): (r: Option<Pt>)
    requires |px| == RowStart(w, h) && x <= w
    ensures r.Some? ==> (Peek(w, h, px, r.value.x, r.value.y)
                         && (r.value.y > y || (r.value.y == y && r.value.x >= x)))
    ensures r.Some? ==> forall x', y' :: (y < y' < r.value.y || (y' == y < r.value.y && x' >= x)
                                           || (y' == r.value.y && (y' > y || x' >= x) && x' < r.value.x))
                                         ==> !Peek(w, h, px, x', y')
    ensures r.None? ==> forall x', y' :: (y' > y || (y' == y && x' >= x)) ==> !Peek(w, h, px, x', y')
    decreases h - y, w - x
  {
    if y >= h then None
    else if x == w then FirstSetFrom(w, h, px, 0, y + 1)
    else if Peek(w, h, px, x, y) then Some(Pt(x, y))
    else FirstSetFrom(w, h, px, x + 1, y)
  }

  /** The state of the start search: the start so far and whether one was found. */
  datatype Search = Search(start: Pt, found: bool)

  /** The search as written: within a row it stops at the first set pixel, and once a start is
    * known it stops at the row's first unset pixel; the outer loop always visits every row. */
  function ScanRow(w: nat, h: nat, px: seq<bool>, y: int, x: nat, s: Search): Search
    requires |px| == RowStart(w, h) && x <= w
    decreases w - x
  {
    if x == w then s
    else if Peek(w, h, px, x, y) then Search(Pt(x, y), true)
    else if s.found then s
    else ScanRow(w, h, px, y, x + 1, s)
  }

  function ScanRows(w: nat, h: nat, px: seq<bool>, y: nat, s: Search): Search
    requires |px| == RowStart(w, h)
    decreases h - y
  {
    if y >= h then s else ScanRows(w, h, px, y + 1, ScanRow(w, h, px, y, 0, s))
  }

  /** A search state whose start, if found, is a set pixel. */
  predicate OnSetPixel(w: nat, h: nat, px: seq<bool>, s: Search)
    requires |px| == RowStart(w, h)
  {
    s.found ==> Peek(w, h, px, s.start.x, s.start.y)
  }

  lemma {:induction false} ScanRowFinds(w: nat, h: nat, px: seq<bool>, y: nat, x: nat, s: Search)
    requires |px| == RowStart(w, h) && x <= w && OnSetPixel(w, h, px, s)
    ensures OnSetPixel(w, h, px, ScanRow(w, h, px, y, x, s))
    ensures ScanRow(w, h, px, y, x, s).found <==> s.found || exists x' :: x <= x' < w && Peek(w, h, px, x', y)
    decreases w - x
  {
    if x < w && !Peek(w, h, px, x, y) && !s.found {
      ScanRowFinds(w, h, px, y, x + 1, s);
      if ScanRow(w, h, px, y, x + 1, s).found {
        var x' :| x + 1 <= x' < w && Peek(w, h, px, x', y);
      }
    }
  }

  lemma {:induction false} ScanRowsFinds(w: nat, h: nat, px: seq<bool>, y: nat, s: Search)
    requires |px| == RowStart(w, h) && OnSetPixel(w, h, px, s)
    ensures OnSetPixel(w, h, px, ScanRows(w, h, px, y, s))
    ensures ScanRows(w, h, px, y, s).found <==> s.found || exists x', y' :: y' >= y && Peek(w, h, px, x', y')
    decreases h - y
  {
    if y < h {
      var s' := ScanRow(w, h, px, y, 0, s);
      ScanRowFinds(w, h, px, y, 0, s);
      ScanRowsFinds(w, h, px, y + 1, s');
      if ScanRows(w, h, px, y + 1, s').found && !s.found && !s'.found {
        var x', y' :| y' >= y + 1 && Peek(w, h, px, x', y');
      }
    }
  }

  /** The start search as written: the start is found exactly when some pixel is set, and it is a
    * set pixel. */
  lemma ScanIsSetPixel(w: nat, h: nat, px: seq<bool>)
    requires |px| == RowStart(w, h)
    ensures OnSetPixel(w, h, px, ScanRows(w, h, px, 0, Search(Pt(0, 0), false)))
    ensures ScanRows(w, h, px, 0, Search(Pt(0, 0), false)).found <==> exists x, y :: Peek(w, h, px, x, y)
  {
    ScanRowsFinds(w, h, px, 0, Search(Pt(0, 0), false));
  }

  /** In a 2 x 2 image with every pixel set, the search as written starts at (0, 1), while the
    * first set pixel in row-major order is (0, 0). */
  lemma StartMovesDown()
    ensures ScanRows(2, 2, [true, true, true, true], 0, Search(Pt(0, 0), false)) == Search(Pt(0, 1), true)
    ensures FirstSetFrom(2, 2, [true, true, true, true], 0, 0) == Some(Pt(0, 0))
  {
    var px := [true, true, true, true];
    assert Peek(2, 2, px, 0, 0) && Peek(2, 2, px, 0, 1);
    assert ScanRow(2, 2, px, 0, 0, Search(Pt(0, 0), false)) == Search(Pt(0, 0), true);
    assert ScanRow(2, 2, px, 1, 0, Search(Pt(0, 0), true)) == Search(Pt(0, 1), true);
  }

  /** The start search of trace_boundary as written. */
  method FindStartAsWritten(img: Image) returns (start: Pt, found: bool)
    requires img.Valid()
    ensures Search(start, found) == ScanRows(img.width, img.height, img.pix[..], 0, Search(Pt(0, 0), false))
  {
    ghost var px := img.pix[..];
    start, found := Pt(0, 0), false;
    var y := 0;
    while y < img.height
      invariant 0 <= y <= img.height
      invariant ScanRows(img.width, img.height, px, y, Search(start, found))
             == ScanRows(img.width, img.height, px, 0, Search(Pt(0, 0), false))
    {
      ghost var s0 := Search(start, found);
      var x := 0;
      while x < img.width
        invariant 0 <= x <= img.width
        invariant ScanRow(img.width, img.height, px, y, x, Search(start, found))
               == ScanRow(img.width, img.height, px, y, 0, s0)
      {
        if img.GetPixel(x, y) {
          start := Pt(x, y);
          found := true;
          break;
        }
        if found {
          break;
        }
        x := x + 1;
      }
      y := y + 1;
    }
  }

  /** The start search with the row loop left at the first set pixel. */
  method FindStart(img: Image) returns (start: Pt, found: bool)
    requires img.Valid()
    ensures found <==> FirstSetFrom(img.width, img.height, img.pix[..], 0, 0).Some?
    ensures found ==> FirstSetFrom(img.width, img.height, img.pix[..], 0, 0) == Some(start)
  {
    ghost var px := img.pix[..];
    start, found := Pt(0, 0), false;
    var y := 0;
    while y < img.height
      invariant 0 <= y <= img.height
      invariant FirstSetFrom(img.width, img.height, px, 0, y) == FirstSetFrom(img.width, img.height, px, 0, 0)
    {
      var x := 0;
      while x < img.width
        invariant 0 <= x <= img.width
        invariant FirstSetFrom(img.width, img.height, px, x, y) == FirstSetFrom(img.width, img.height, px, 0, 0)
      {
        if img.GetPixel(x, y) {
          start := Pt(x, y);
          found := true;
          return;
        }
        x := x + 1;
      }
      y := y + 1;
    }
  }

  // ---------------------------------------------------------------------------------------------
  // Directions

  /** The eight neighbours clockwise (y grows downwards), starting west. */
  const Ring: seq<Pt> := [Pt(-1, 0), Pt(-1, -1), Pt(0, -1), Pt(1, -1), Pt(1, 0), Pt(1, 1), Pt(0, 1), Pt(-1, 1)]

  function Neg(d: Pt): Pt
  {
    Pt(-d.x, -d.y)
  }

  /** The neighbours get_next_dir offers, in the order of its iter argument, when the last step
    * went in direction dir: seven for each of the eight directions, none for any other. */
  function NextDirs(dir: Pt): (r: seq<Pt>)
    ensures |r| == 7 || |r| == 0
  {
    var back := Neg(dir);
    if back == Pt(-1, 0) then [Pt(-1, -1), Pt(0, -1), Pt(1, -1), Pt(1, 0), Pt(1, 1), Pt(0, 1), Pt(-1, 1)]
    else if back == Pt(-1, -1) then [Pt(0, -1), Pt(1, -1), Pt(1, 0), Pt(1, 1), Pt(0, 1), Pt(-1, 1), Pt(-1, 0)]
    else if back == Pt(0, -1) then [Pt(1, -1), Pt(1, 0), Pt(1, 1), Pt(0, 1), Pt(-1, 1), Pt(-1, 0), Pt(-1, -1)]
    else if back == Pt(1, -1) then [Pt(1, 0), Pt(1, 1), Pt(0, 1), Pt(-1, 1), Pt(-1, 0), Pt(-1, -1), Pt(0, -1)]
    else if back == Pt(1, 0) then [Pt(1, 1), Pt(0, 1), Pt(-1, 1), Pt(-1, 0), Pt(-1, -1), Pt(0, -1), Pt(1, -1)]
    else if back == Pt(1, 1) then [Pt(0, 1), Pt(-1, 1), Pt(-1, 0), Pt(-1, -1), Pt(0, -1), Pt(1, -1), Pt(1, 0)]
    else if back == Pt(0, 1) then [Pt(-1, 1), Pt(-1, 0), Pt(-1, -1), Pt(0, -1), Pt(1, -1), Pt(1, 0), Pt(1, 1)]
    else if back == Pt(-1, 1) then [Pt(-1, 0), Pt(-1, -1), Pt(0, -1), Pt(1, -1), Pt(1, 0), Pt(1, 1), Pt(0, 1)]
    else []
  }

  /** get_next_dir(dir, next_dir, iter): the iter-th neighbour to try, if there is one. */
  function NextDir(dir: Pt, iter: int): Option<Pt>
  {
    var c := NextDirs(dir);
    if 0 <= iter < |c| then Some(c[iter]) else None
  }

  /** The table is the clockwise turn: coming from neighbour Ring[k], the candidates are the
    * seven other neighbours in clockwise order after it; for any other direction there is none. */
  lemma NextDirsClockwise(dir: Pt, k: nat)
    requires k < 8 && Neg(dir) == Ring[k]
    ensures |NextDirs(dir)| == 7
    ensures forall i :: 0 <= i < 7 ==> NextDirs(dir)[i] == Ring[(k + 1 + i) % 8]
  {
    var c := NextDirs(dir);
    if k == 0 {
      assert c == [Pt(-1, -1), Pt(0, -1), Pt(1, -1), Pt(1, 0), Pt(1, 1), Pt(0, 1), Pt(-1, 1)];
    } else if k == 1 {
      assert c == [Pt(0, -1), Pt(1, -1), Pt(1, 0), Pt(1, 1), Pt(0, 1), Pt(-1, 1), Pt(-1, 0)];
    } else if k == 2 {
      assert c == [Pt(1, -1), Pt(1, 0), Pt(1, 1), Pt(0, 1), Pt(-1, 1), Pt(-1, 0), Pt(-1, -1)];
    } else if k == 3 {
      assert c == [Pt(1, 0), Pt(1, 1), Pt(0, 1), Pt(-1, 1), Pt(-1, 0), Pt(-1, -1), Pt(0, -1)];
    } else if k == 4 {
      assert c == [Pt(1, 1), Pt(0, 1), Pt(-1, 1), Pt(-1, 0), Pt(-1, -1), Pt(0, -1), Pt(1, -1)];
    } else if k == 5 {
      assert c == [Pt(0, 1), Pt(-1, 1), Pt(-1, 0), Pt(-1, -1), Pt(0, -1), Pt(1, -1), Pt(1, 0)];
    } else if k == 6 {
      assert c == [Pt(-1, 1), Pt(-1, 0), Pt(-1, -1), Pt(0, -1), Pt(1, -1), Pt(1, 0), Pt(1, 1)];
    } else {
      assert c == [Pt(-1, 0), Pt(-1, -1), Pt(0, -1), Pt(1, -1), Pt(1, 0), Pt(1, 1), Pt(0, 1)];
    }
  }

  lemma NextDirsOther(dir: Pt)
    requires Neg(dir) !in Ring
    ensures NextDirs(dir) == []
  {
  }

  // ---------------------------------------------------------------------------------------------
  // Tracing

  /** The outcome of a probe: the last candidate stored as next direction, and whether it hit. */
  datatype Probed = Probed(next: Pt, found: bool)

  /** The probe of one step: the candidates from iter on are tried in turn, each being stored as
    * the next direction; it stops at the first that lands on a set pixel. */
  function Probe(w: nat, h: nat, px: seq<bool>, pos: Pt, cands: seq<Pt>, nd: Pt, iter: nat): (r: Probed)
    requires |px| == RowStart(w, h)
    ensures r.found ==> Peek(w, h, px, pos.x + r.next.x, pos.y + r.next.y)
    decreases |cands| - iter
  {
    if iter >= |cands| then Probed(nd, false)
    else
      var c := cands[iter];
      if Peek(w, h, px, pos.x + c.x, pos.y + c.y) then Probed(c, true) else Probe(w, h, px, pos, cands, c, iter + 1)
  }

  /** A hit is the first candidate, in order, that is set; a miss means no candidate is set and
    * leaves the last candidate tried as the next direction. */
  lemma {:induction false} ProbeFirst(w: nat, h: nat, px: seq<bool>, pos: Pt, cands: seq<Pt>, nd: Pt, iter: nat)
    requires |px| == RowStart(w, h)
    ensures var r := Probe(w, h, px, pos, cands, nd, iter);
            r.found ==> exists i :: iter <= i < |cands| && cands[i] == r.next
                          && forall j :: iter <= j < i ==> !Peek(w, h, px, pos.x + cands[j].x, pos.y + cands[j].y)
    ensures var r := Probe(w, h, px, pos, cands, nd, iter);
            !r.found ==> (forall j :: iter <= j < |cands| ==> !Peek(w, h, px, pos.x + cands[j].x, pos.y + cands[j].y))
                         && (iter < |cands| ==> r.next == cands[|cands| - 1])
    decreases |cands| - iter
  {
    if iter < |cands| {
      ProbeFirst(w, h, px, pos, cands, cands[iter], iter + 1);
      var r := Probe(w, h, px, pos, cands, nd, iter);
      if !Peek(w, h, px, pos.x + cands[iter].x, pos.y + cands[iter].y) && r.found {
        var i :| iter + 1 <= i < |cands| && cands[i] == r.next
                 && forall j :: iter + 1 <= j < i ==> !Peek(w, h, px, pos.x + cands[j].x, pos.y + cands[j].y);
        assert iter <= i;
      }
    }
  }

  /** The probe stops at candidate k when the candidates before it miss and k hits; when all
    * miss (k is the number of candidates) it keeps the last one tried. */
  lemma {:induction false} ProbeResult(w: nat, h: nat, px: seq<bool>, pos: Pt, cands: seq<Pt>, nd: Pt, iter: nat, k: nat)
    requires |px| == RowStart(w, h) && iter <= k <= |cands|
    requires forall j :: iter <= j < k ==> !Peek(w, h, px, pos.x + cands[j].x, pos.y + cands[j].y)
    requires k < |cands| ==> Peek(w, h, px, pos.x + cands[k].x, pos.y + cands[k].y)
    ensures Probe(w, h, px, pos, cands, nd, iter)
         == if k < |cands| then Probed(cands[k], true)
            else if iter < |cands| then Probed(cands[|cands| - 1], false)
            else Probed(nd, false)
    decreases k - iter
  {
    if iter < k {
      ProbeResult(w, h, px, pos, cands, cands[iter], iter + 1, k);
    }
  }

  /** The variables of the trace loop: pos, dir, next_dir and has_next_dir. */
  datatype Tracer = Tracer(pos: Pt, dir: Pt, next: Pt, has: bool)

  /** One pass of the trace loop up to the start test: probe, and step when the flag is set.  With
    * reset the flag is cleared before the probe; as written it is never cleared. */
  function Step(w: nat, h: nat, px: seq<bool>, t: Tracer, reset: bool): (r: Tracer)
    requires |px| == RowStart(w, h)
  {
    var p := Probe(w, h, px, t.pos, NextDirs(t.dir), t.next, 0);
    if (t.has && !reset) || p.found then Tracer(Plus(t.pos, p.next), p.next, p.next, true)
    else Tracer(t.pos, t.dir, p.next, false)
  }

  /** With the flag cleared before every probe, a step lands on a set pixel. */
  lemma StepOnSetPixel(w: nat, h: nat, px: seq<bool>, t: Tracer)
    requires |px| == RowStart(w, h)
    ensures Step(w, h, px, t, true).has ==> Peek(w, h, px, Step(w, h, px, t, true).pos.x, Step(w, h, px, t, true).pos.y)
  {
  }

  /** The positions the trace loop marks after the start, in order, with at most fuel passes. */
  function Trail(w: nat, h: nat, px: seq<bool>, start: Pt, t: Tracer, reset: bool, fuel: nat): seq<Pt>
    requires |px| == RowStart(w, h)
    decreases fuel
  {
    if fuel == 0 then []
    else
      var t' := Step(w, h, px, t, reset);
      if !t'.has then []
      else if t'.pos == start then [t'.pos]
      else [t'.pos] + Trail(w, h, px, start, t', reset, fuel - 1)
  }

  /** One pass of the trace loop: a step that keeps the flag marks its position, and the trace
    * goes on from there unless that is the start. */
  lemma TrailStep(w: nat, h: nat, px: seq<bool>, start: Pt, t: Tracer, t': Tracer, reset: bool, fuel: nat)
    requires |px| == RowStart(w, h) && fuel > 0 && Step(w, h, px, t, reset) == t' && t'.has
    ensures Trail(w, h, px, start, t, reset, fuel)
         == if t'.pos == start then [t'.pos] else [t'.pos] + Trail(w, h, px, start, t', reset, fuel - 1)
  {
  }

  /** The loop variables on entry. */
  function Initial(start: Pt): Tracer
  {
    Tracer(start, Pt(1, 0), Pt(0, 0), false)
  }

  /** With the flag cleared before every probe, every position marked is a set pixel. */
  lemma {:induction false} TrailOnSetPixels(w: nat, h: nat, px: seq<bool>, start: Pt, t: Tracer, fuel: nat)
    requires |px| == RowStart(w, h)
    ensures forall p :: p in Trail(w, h, px, start, t, true, fuel) ==> Peek(w, h, px, p.x, p.y)
    decreases fuel
  {
    if fuel > 0 {
      var t' := Step(w, h, px, t, true);
      StepOnSetPixel(w, h, px, t);
      if t'.has && t'.pos != start {
        TrailOnSetPixels(w, h, px, start, t', fuel - 1);
        var rest := Trail(w, h, px, start, t', true, fuel - 1);
        assert Trail(w, h, px, start, t, true, fuel) == [t'.pos] + rest;
        forall p | p in [t'.pos] + rest
          ensures Peek(w, h, px, p.x, p.y)
        {
          if p != t'.pos {
            assert p in rest;
          }
        }
      }
    }
  }

  /** A candidate that misses is stored and the probe moves on. */
  lemma ProbeSkip(w: nat, h: nat, px: seq<bool>, pos: Pt, cands: seq<Pt>, nd: Pt, iter: nat)
    requires |px| == RowStart(w, h) && iter < |cands|
    requires !Peek(w, h, px, pos.x + cands[iter].x, pos.y + cands[iter].y)
    ensures Probe(w, h, px, pos, cands, nd, iter) == Probe(w, h, px, pos, cands, cands[iter], iter + 1)
  {
  }

  /** As written, in a 2 x 2 image whose top row is set, the trace steps from (1, 0), whose only
    * set neighbour is the one it came from, onto the unset pixel (0, 1) and marks it. */
  lemma StickyFlagMarksUnsetPixel()
    ensures Trail(2, 2, [true, true, false, false], Pt(0, 0), Initial(Pt(0, 0)), false, 3)
         == [Pt(1, 0), Pt(0, 1), Pt(0, 0)]
    ensures !Peek(2, 2, [true, true, false, false], 0, 1)
  {
    var px := [true, true, false, false];
    assert TopRow(px);
    TopRowTrail(px, Initial(Pt(0, 0)));
  }

  /** A 2 x 2 buffer whose top row is set and bottom row unset. */
  predicate TopRow(px: seq<bool>)
  {
    |px| == RowStart(2, 2)
    && Peek(2, 2, px, 0, 0) && Peek(2, 2, px, 1, 0) && !Peek(2, 2, px, 0, 1) && !Peek(2, 2, px, 1, 1)
  }

  /** From (0, 0) heading east, the fourth candidate, east, is the first set one. */
  lemma TopRowFirstStep(px: seq<bool>, t: Tracer)
    requires TopRow(px) && t == Initial(Pt(0, 0))
    ensures Step(2, 2, px, t, false) == Tracer(Pt(1, 0), Pt(1, 0), Pt(1, 0), true)
  {
    var east := NextDirs(Pt(1, 0));
    assert east == [Pt(-1, -1), Pt(0, -1), Pt(1, -1), Pt(1, 0), Pt(1, 1), Pt(0, 1), Pt(-1, 1)];
    forall j | 0 <= j < 3
      ensures !Peek(2, 2, px, east[j].x, east[j].y)
    {
      assert east[j].y == -1;
    }
    ProbeResult(2, 2, px, Pt(0, 0), east, Pt(0, 0), 0, 3);
  }

  /** From (1, 0) heading east no candidate is set; the flag stays set and the last candidate,
    * south-west, is taken. */
  lemma TopRowSecondStep(px: seq<bool>, t: Tracer)
    requires TopRow(px) && t == Tracer(Pt(1, 0), Pt(1, 0), Pt(1, 0), true)
    ensures Step(2, 2, px, t, false)
         == Tracer(Pt(0, 1), Pt(-1, 1), Pt(-1, 1), true)
  {
    var east := NextDirs(Pt(1, 0));
    assert east == [Pt(-1, -1), Pt(0, -1), Pt(1, -1), Pt(1, 0), Pt(1, 1), Pt(0, 1), Pt(-1, 1)];
    forall j | 0 <= j < 7
      ensures !Peek(2, 2, px, 1 + east[j].x, east[j].y)
    {
      if j == 5 {
        assert east[j] == Pt(0, 1);
      } else if j == 6 {
        assert east[j] == Pt(-1, 1);
      } else {
        assert east[j].y == -1 || east[j].x == 1;
      }
    }
    ProbeResult(2, 2, px, Pt(1, 0), east, Pt(1, 0), 0, 7);
  }

  /** From (0, 1) heading south-west, the last candidate, north, is the first set one. */
  lemma TopRowThirdStep(px: seq<bool>, t: Tracer)
    requires TopRow(px) && t == Tracer(Pt(0, 1), Pt(-1, 1), Pt(-1, 1), true)
    ensures Step(2, 2, px, t, false)
         == Tracer(Pt(0, 0), Pt(0, -1), Pt(0, -1), true)
  {
    var southWest := NextDirs(Pt(-1, 1));
    assert southWest == [Pt(1, 0), Pt(1, 1), Pt(0, 1), Pt(-1, 1), Pt(-1, 0), Pt(-1, -1), Pt(0, -1)];
    forall j | 0 <= j < 6
      ensures !Peek(2, 2, px, southWest[j].x, 1 + southWest[j].y)
    {
      if j == 0 {
        assert southWest[j] == Pt(1, 0);
      } else {
        assert southWest[j].x == -1 || southWest[j].y == 1;
      }
    }
    ProbeResult(2, 2, px, Pt(0, 1), southWest, Pt(-1, 1), 0, 6);
  }

  /** The trace of the example on any 2 x 2 buffer whose top row is set and bottom row unset. */
  lemma TopRowTrail(px: seq<bool>, t0: Tracer)
    requires TopRow(px) && t0 == Initial(Pt(0, 0))
    ensures Trail(2, 2, px, Pt(0, 0), t0, false, 3) == [Pt(1, 0), Pt(0, 1), Pt(0, 0)]
  {
    var t1 := Tracer(Pt(1, 0), Pt(1, 0), Pt(1, 0), true);
    var t2 := Tracer(Pt(0, 1), Pt(-1, 1), Pt(-1, 1), true);
    TopRowFirstStep(px, t0);
    TopRowSecondStep(px, t1);
    TopRowThirdStep(px, t2);
    TrailStep(2, 2, px, Pt(0, 0), t0, t1, false, 3);
    TrailStep(2, 2, px, Pt(0, 0), t1, t2, false, 2);
    TrailStep(2, 2, px, Pt(0, 0), t2, Tracer(Pt(0, 0), Pt(0, -1), Pt(0, -1), true), false, 1);
    var last := Trail(2, 2, px, Pt(0, 0), t2, false, 1);
    assert last == [Pt(0, 0)];
    var tail := Trail(2, 2, px, Pt(0, 0), t1, false, 2);
    assert tail == [Pt(0, 1)] + last;
    assert Trail(2, 2, px, Pt(0, 0), t0, false, 3) == [Pt(1, 0)] + tail;
    Concat3(Pt(1, 0), Pt(0, 1), Pt(0, 0));
  }

  lemma Concat3(a: Pt, b: Pt, c: Pt)
    ensures [a] + ([b] + [c]) == [a, b, c]
  {
  }

  /** The probe loop (for i in 0..6) of trace_boundary. */
  method ProbeNeighbours(img: Image, pos: Pt, dir: Pt, nd0: Pt) returns (nd: Pt, found: bool)
    requires img.Valid()
    ensures Probed(nd, found) == Probe(img.width, img.height, img.pix[..], pos, NextDirs(dir), nd0, 0)
  {
    nd, found := nd0, false;
    ghost var w, h, px, cands := img.width, img.height, img.pix[..], NextDirs(dir);
    var i := 0;
    while i < 7
      invariant 0 <= i <= 7
      invariant Probe(w, h, px, pos, cands, nd, i) == Probe(w, h, px, pos, cands, nd0, 0)
    {
      var next := NextDir(dir, i);
      if next.Some? {
        nd := next.value;
        if img.GetPixel(pos.x + nd.x, pos.y + nd.y) {
          found := true;
          return;
        }
        ProbeSkip(w, h, px, pos, cands, nd, i);
      }
      i := i + 1;
    }
  }

  /** The boundary image marks exactly the in-range positions listed in ps. */
  ghost predicate MarksExactly(b: Image, ps: seq<Pt>)
    requires b.Valid()
    reads b.pix
  {
    forall x, y :: b.GetPixel(x, y) <==> InRange(b.width, b.height, x, y) && Pt(x, y) in ps
  }

  /** boundary.SetPixel(x, y, 1) of the trace: the marked set grows by the one position. */
  method Mark(b: Image, p: Pt, ghost ps: seq<Pt>)
    requires b.Valid() && MarksExactly(b, ps)
    modifies b.pix
    ensures MarksExactly(b, ps + [p])
  {
    ghost var before := b.pix[..];
    b.SetPixel(p.x, p.y, true);
    forall x, y ensures b.GetPixel(x, y) <==> InRange(b.width, b.height, x, y) && Pt(x, y) in ps + [p] {
      PeekPoke(b.width, b.height, before, p.x, p.y, true, x, y);
    }
  }

  /** A pass that steps somewhere other than the start moves that position from the trail to
    * the marked prefix. */
  /** The positions the trace loop marks after the start when each pass takes the loop variables
    * from t to next(t): Trail is the walk of Step (WalkIsTrail). */
  function Walk(next: Tracer -> Tracer, start: Pt, t: Tracer, fuel: nat): seq<Pt>
    decreases fuel
  {
    if fuel == 0 then []
    else
      var t' := next(t);
      if !t'.has then []
      else if t'.pos == start then [t'.pos]
      else [t'.pos] + Walk(next, start, t', fuel - 1)
  }

  lemma {:induction false} WalkIsTrail(w: nat, h: nat, px: seq<bool>, next: Tracer -> Tracer, start: Pt, t: Tracer,
                                       reset: bool, fuel: nat)
    requires |px| == RowStart(w, h)
    requires forall u :: next(u) == Step(w, h, px, u, reset)
    ensures Walk(next, start, t, fuel) == Trail(w, h, px, start, t, reset, fuel)
    decreases fuel
  {
    if fuel > 0 {
      WalkIsTrail(w, h, px, next, start, next(t), reset, fuel - 1);
    }
  }

  /** One pass of the walk, with fuel' passes left after it: no step ends the walk, a step onto
    * the start ends it there, and any other step is marked and the walk goes on. */
  lemma WalkPass(next: Tracer -> Tracer, start: Pt, t: Tracer, fuel': nat, visited: seq<Pt>, full: seq<Pt>)
    requires visited + Walk(next, start, t, fuel' + 1) == full
    ensures !next(t).has ==> visited == full
    ensures next(t).has && next(t).pos == start ==> visited + [next(t).pos] == full
    ensures next(t).has && next(t).pos != start ==>
              (visited + [next(t).pos]) + Walk(next, start, next(t), fuel') == full
  {
  }

  /** One pass of the trace loop up to the marking: clear the flag (when resetting), probe the
    * neighbours and step in the direction found. */
  method TracePass(img: Image, pos: Pt, dir: Pt, nextDir: Pt, hasNextDir: bool, reset: bool)
    returns (pos': Pt, dir': Pt, nextDir': Pt, hasNextDir': bool)
    requires img.Valid()
    ensures Tracer(pos', dir', nextDir', hasNextDir')
         == Step(img.width, img.height, img.pix[..], Tracer(pos, dir, nextDir, hasNextDir), reset)
  {
    var has := hasNextDir && !reset;
    var nd, found := ProbeNeighbours(img, pos, dir, nextDir);
    nextDir' := nd;
    hasNextDir' := has || found;
    if hasNextDir' {
      dir' := nextDir';
      pos' := Plus(pos, dir');
    } else {
      dir' := dir;
      pos' := pos;
    }
  }

  /** One pass of the trace loop: probe and step, then mark the new position; stop when no
    * direction is found or the start is reached.  fuel is what is left after this pass. */
  method TraceIter(img: Image, boundary: Image, ghost next: Tracer -> Tracer, start: Pt, reset: bool, pos: Pt,
                   dir: Pt, nextDir: Pt, hasNextDir: bool, fuel: nat, ghost visited: seq<Pt>, ghost full: seq<Pt>)
    returns (pos': Pt, dir': Pt, nextDir': Pt, hasNextDir': bool, stop: bool, ghost visited': seq<Pt>)
    requires img.Valid() && boundary.Valid() && boundary.pix != img.pix
    requires boundary.width == img.width && boundary.height == img.height
    requires forall u :: next(u) == Step(img.width, img.height, img.pix[..], u, reset)
    requires MarksExactly(boundary, visited)
    requires visited + Walk(next, start, Tracer(pos, dir, nextDir, hasNextDir), fuel + 1) == full
    modifies boundary.pix
    ensures MarksExactly(boundary, visited')
    ensures stop ==> visited' == full
    ensures !stop ==> visited' + Walk(next, start, Tracer(pos', dir', nextDir', hasNextDir'), fuel) == full
  {
    pos', dir', nextDir', hasNextDir' := TracePass(img, pos, dir, nextDir, hasNextDir, reset);
    WalkPass(next, start, Tracer(pos, dir, nextDir, hasNextDir), fuel, visited, full);
    visited' := visited;
    stop := true;
    if hasNextDir' {
      Mark(boundary, pos', visited);
      visited' := visited + [pos'];
      stop := pos' == start;
    }
  }

  /** The trace loop (while(1)) from the loop variables pos, dir, next_dir and has_next_dir, for
    * at most fuel passes, each pass moving them by next (which is Step): the boundary goes on to
    * mark exactly the walk from there. */
  method TraceLoop(img: Image, boundary: Image, ghost next: Tracer -> Tracer, start: Pt, reset: bool, pos0: Pt,
                   dir0: Pt, next0: Pt, has0: bool, fuel: nat, ghost visited0: seq<Pt>)
    requires img.Valid() && boundary.Valid() && boundary.pix != img.pix
    requires boundary.width == img.width && boundary.height == img.height
    requires forall u :: next(u) == Step(img.width, img.height, img.pix[..], u, reset)
    requires MarksExactly(boundary, visited0)
    modifies boundary.pix
    ensures MarksExactly(boundary, visited0 + Walk(next, start, Tracer(pos0, dir0, next0, has0), fuel))
  {
    var pos, dir, nextDir, hasNextDir := pos0, dir0, next0, has0;
    var left := fuel;
    ghost var visited := visited0;
    ghost var full := visited0 + Walk(next, start, Tracer(pos, dir, nextDir, hasNextDir), fuel);
    var stop := false;
    while left > 0 && !stop
      invariant forall u :: next(u) == Step(img.width, img.height, img.pix[..], u, reset)
      invariant stop ==> visited == full
      invariant !stop ==> visited + Walk(next, start, Tracer(pos, dir, nextDir, hasNextDir), left) == full
      invariant MarksExactly(boundary, visited)
    {
      left := left - 1;
      pos, dir, nextDir, hasNextDir, stop, visited :=
        TraceIter(img, boundary, next, start, reset, pos, dir, nextDir, hasNextDir, left, visited, full);
    }
  }

  /** The body of trace_boundary after the start search: mark the start, then run the trace loop
    * with dir = (1, 0), next_dir = (0, 0) and the flag cleared; the boundary marks exactly the
    * start and the trail. */
  method TraceFrom(img: Image, start: Pt, reset: bool, fuel: nat) returns (boundary: Image)
    requires img.Valid()
    ensures fresh(boundary) && fresh(boundary.pix) && boundary.Valid()
    ensures boundary.width == img.width && boundary.height == img.height
    ensures MarksExactly(boundary, [start] + Trail(img.width, img.height, img.pix[..], start, Initial(start), reset, fuel))
  {
    ghost var w, h, px := img.width, img.height, img.pix[..];
    ghost var next: Tracer -> Tracer := u => Step(w, h, px, u, reset);
    boundary := new Image(img.width, img.height);
    Mark(boundary, start, []);
    TraceLoop(img, boundary, next, start, reset, start, Pt(1, 0), Pt(0, 0), false, fuel, [start]);
    WalkIsTrail(w, h, px, next, start, Initial(start), reset, fuel);
  }

  /** trace_boundary with the start search left at the first set pixel and the flag cleared
    * before every probe: no set pixel gives an empty boundary; otherwise the start is marked and
    * every marked pixel is a set pixel of the image. */
  method TraceBoundary(img: Image, fuel: nat) returns (boundary: Image)
    requires img.Valid()
    ensures fresh(boundary) && boundary.Valid()
    ensures boundary.width == img.width && boundary.height == img.height
    ensures (forall x, y :: !img.GetPixel(x, y)) ==> forall x, y :: !boundary.GetPixel(x, y)
    ensures forall x, y :: boundary.GetPixel(x, y) ==> img.GetPixel(x, y)
    ensures forall s :: FirstSetFrom(img.width, img.height, img.pix[..], 0, 0) == Some(s) ==>
              boundary.GetPixel(s.x, s.y)
  {
    var start, found := FindStart(img);
    if !found {
      boundary := new Image(img.width, img.height);
      return;
    }
    ghost var w, h, px := img.width, img.height, img.pix[..];
    boundary := TraceFrom(img, start, true, fuel);
    assert img.GetPixel(start.x, start.y);
    TrailOnSetPixels(w, h, px, start, Initial(start), fuel);
    ghost var marked := [start] + Trail(w, h, px, start, Initial(start), true, fuel);
    forall x, y | boundary.GetPixel(x, y)
      ensures img.GetPixel(x, y)
    {
      assert Pt(x, y) in marked;
      if Pt(x, y) != start {
        assert Pt(x, y) in Trail(w, h, px, start, Initial(start), true, fuel);
      }
    }
  }

  /** trace_boundary as written: the start is the scan's (a set pixel whenever one exists), and
    * the marked pixels are the start and the trail with the flag never cleared. */
  method TraceBoundaryAsWritten(img: Image, fuel: nat) returns (boundary: Image)
    requires img.Valid()
    ensures fresh(boundary) && boundary.Valid()
    ensures boundary.width == img.width && boundary.height == img.height
    ensures (forall x, y :: !img.GetPixel(x, y)) ==> forall x, y :: !boundary.GetPixel(x, y)
    ensures var s := ScanRows(img.width, img.height, img.pix[..], 0, Search(Pt(0, 0), false));
            s.found ==> img.GetPixel(s.start.x, s.start.y)
                        && forall x, y :: boundary.GetPixel(x, y) <==>
                             InRange(img.width, img.height, x, y)
                             && Pt(x, y) in [s.start] + Trail(img.width, img.height, img.pix[..], s.start,
                                                              Initial(s.start), false, fuel)
  {
    var start, found := FindStartAsWritten(img);
    ScanIsSetPixel(img.width, img.height, img.pix[..]);
    if !found {
      boundary := new Image(img.width, img.height);
      return;
    }
    boundary := TraceFrom(img, start, false, fuel);
    assert img.GetPixel(start.x, start.y);
  }
}

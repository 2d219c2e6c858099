/** Rasterisation of the board: the empty grid, stone discs and the chain of
    frames, each a full copy of its predecessor with one more stone. */
module Raster {
  import opened Basics
  import opened Moves

  /** Palette indices (the palette's RGBA values carry no behaviour). */
  const Background: Byte := 0
  const Black: Byte := 1
  const White: Byte := 2

  /** Delay between frames, in hundredths of a second. */
  const Delay := 100
  /** Diameter of a stone and spacing of the grid, in pixels. */
  const StoneDiameter := 40
  /** Number of lines in each direction. */
  const BoardSize := 19

  /** `side`: the width and height of a frame in pixels. The grid spans
      from the centre of the first line's stone to that of the last, with half
      a stone and two more pixels of margin beyond the last line. */
  function Side(): (s: int)
    ensures s == 762
    ensures s == PixelPos(BoardSize - 1) + StoneDiameter / 2 + 2
  {
    BoardSize * StoneDiameter + 2
  }

  /** A frame: a `Side()` by `Side()` buffer of palette indices, indexed [x, y]. */
  predicate IsFrame(img: array2<Byte>)
  {
    img.Length0 == Side() && img.Length1 == Side()
  }

  /** Pixel position of grid line `i`, and of the centre of a stone in column
      or row `i`. */
  function PixelPos(i: int): int
  {
    i * StoneDiameter + StoneDiameter / 2
  }

  /** The integer square root: the largest `r` with `r * r <= n`. */
  function FloorSqrt(n: nat): (r: nat)
    ensures r * r <= n < (r + 1) * (r + 1)
  {
    if n < 2 then n
    else
      var t := FloorSqrt(n / 4);
      SqrtDouble(n, t);
      var s := 2 * t;
      if (s + 1) * (s + 1) <= n then s + 1 else s
  }

  /** Doubling the root of `n / 4` brackets the root of `n`. */
  lemma SqrtDouble(n: nat, t: nat)
    requires t * t <= n / 4 < (t + 1) * (t + 1)
    ensures (2 * t) * (2 * t) <= n < (2 * t + 2) * (2 * t + 2)
  {
    var q := n / 4;
    assert (2 * t) * (2 * t) == 4 * (t * t);
    assert (2 * t + 2) * (2 * t + 2) == 4 * ((t + 1) * (t + 1));
    assert 4 * q <= n < 4 * q + 4;
  }

  function Abs(a: int): nat
  {
    if a < 0 then -a else a
  }

  /** The squared Euclidean distance between two pixels. */
  function SquaredDistance(x1: int, y1: int, x2: int, y2: int): int
  {
    (x2 - x1) * (x2 - x1) + (y2 - y1) * (y2 - y1)
  }

  /** `dist`: the Euclidean distance between two pixels, truncated to an integer. */
  function Dist(x1: int, y1: int, x2: int, y2: int): (d: nat)
    ensures d * d <= SquaredDistance(x1, y1, x2, y2) < (d + 1) * (d + 1)
  {
    var x := Abs(x2 - x1);
    var y := Abs(y2 - y1);
    AbsSquare(x2 - x1);
    AbsSquare(y2 - y1);
    FloorSqrt(x * x + y * y)
  }

  /** A truncated distance is at most `r` exactly when the squared distance is
      below `(r + 1)^2`. */
  lemma DistAtMost(x1: int, y1: int, x2: int, y2: int, r: nat)
    ensures Dist(x1, y1, x2, y2) <= r <==> SquaredDistance(x1, y1, x2, y2) < (r + 1) * (r + 1)
  {
    var d := Dist(x1, y1, x2, y2);
    if d <= r {
      MulMonotone(d + 1, r + 1);
    } else {
      MulMonotone(r + 1, d);
    }
  }

  lemma MulMonotone(a: nat, b: nat)
    requires a <= b
    ensures a * a <= b * b
  {
    assert a * a <= a * b <= b * b;
  }

  /** Whether pixel (x, y) belongs to the disc that `drawMove` paints for `m`. */
  predicate InDisc(x: int, y: int, m: Move)
  {
    Dist(x, y, PixelPos(m.x), PixelPos(m.y)) <= StoneDiameter / 2
  }

  /** The disc is the set of pixels whose squared distance to the stone centre
      is below 21 * 21. */
  lemma InDiscIff(x: int, y: int, m: Move)
    ensures InDisc(x, y, m) <==> SquaredDistance(x, y, PixelPos(m.x), PixelPos(m.y)) < 441
  {
    var cx, cy := PixelPos(m.x), PixelPos(m.y);
    assert InDisc(x, y, m) == (Dist(x, y, cx, cy) <= 20);
    DistAtMost(x, y, cx, cy, 20);
  }

  lemma AbsSquare(a: int)
    ensures Abs(a) * Abs(a) == a * a
  {
  }

  /** A disc pixel lies within 20 pixels of the centre along each axis. */
  lemma DiscBounds(x: int, y: int, m: Move)
    requires InDisc(x, y, m)
    ensures PixelPos(m.x) - 20 <= x <= PixelPos(m.x) + 20
    ensures PixelPos(m.y) - 20 <= y <= PixelPos(m.y) + 20
  {
    InDiscIff(x, y, m);
    var cx, cy := PixelPos(m.x), PixelPos(m.y);
    var dx, dy := Abs(cx - x), Abs(cy - y);
    AbsSquare(cx - x);
    AbsSquare(cy - y);
    assert dx * dx + dy * dy < 441;
    MulMonotone(0, dx);
    MulMonotone(0, dy);
    if dx > 20 { MulMonotone(21, dx); }
    if dy > 20 { MulMonotone(21, dy); }
  }

  /** The stone of a move on the board fits inside the frame: no pixel of its
      disc falls outside [0, Side())^2. */
  lemma DiscInsideFrame(x: int, y: int, m: Move)
    requires 0 <= m.x < BoardSize && 0 <= m.y < BoardSize
    requires InDisc(x, y, m)
    ensures 0 <= x < Side() && 0 <= y < Side()
  {
    DiscBounds(x, y, m);
  }

  /** Coordinates are not checked against the board: a move past the last
      row and column (the token "tt", say) paints no pixel of the frame... */
  lemma OffBoardCornerInvisible(x: int, y: int, m: Move)
    requires m.x >= BoardSize && m.y >= BoardSize
    requires 0 <= x < Side() && 0 <= y < Side()
    ensures !InDisc(x, y, m)
  {
    InDiscIff(x, y, m);
    var dx, dy := PixelPos(m.x) - x, PixelPos(m.y) - y;
    MulMonotone(19, dx);
    MulMonotone(19, dy);
  }

  /** ...and neither does a move two or more columns or rows past the board
      (the token "ua", say): its centre is at least 59 pixels beyond the frame. */
  lemma OffBoardFarInvisible(x: int, y: int, m: Move)
    requires m.x >= BoardSize + 1 || m.y >= BoardSize + 1
    requires 0 <= x < Side() && 0 <= y < Side()
    ensures !InDisc(x, y, m)
  {
    InDiscIff(x, y, m);
    var dx, dy := PixelPos(m.x) - x, PixelPos(m.y) - y;
    if m.x >= BoardSize + 1 {
      assert dx * dx >= 3481 by { MulMonotone(59, dx); }
      assert dy * dy >= 0 by { AbsSquare(dy); }
    } else {
      assert dy * dy >= 3481 by { MulMonotone(59, dy); }
      assert dx * dx >= 0 by { AbsSquare(dx); }
    }
  }

  /** ...but a move just past the last column on an on-board row ("ta")
      paints a sliver along the right edge of the frame. */
  lemma OffBoardColumnPaintsEdge()
    ensures InDisc(Side() - 1, PixelPos(0), Move(false, BoardSize, 0))
  {
    var m := Move(false, BoardSize, 0);
    assert Side() - 1 == 761 && PixelPos(0) == 20 && PixelPos(m.x) == 780;
    assert SquaredDistance(761, 20, 780, 20) == 361;
    InDiscIff(761, 20, m);
  }

  /** The palette index of a stone of move `m`. */
  function StoneColor(m: Move): (c: Byte)
    ensures c == Black || c == White
    ensures c == White <==> m.white
  {
    if m.white then White else Black
  }

  /** Whether `c` is one of the first `n` grid line positions. */
  predicate OnLine(c: int, n: int)
  {
    StoneDiameter / 2 <= c && (c - StoneDiameter / 2) % StoneDiameter == 0 &&
    (c - StoneDiameter / 2) / StoneDiameter < n
  }

  /** The grid lines span from half a stone in to half a stone from the far edge. */
  predicate InSpan(c: int)
  {
    StoneDiameter / 2 <= c < Side() - StoneDiameter / 2
  }

  /** Line `n` joins the first `n` lines. */
  lemma OnLineStep(c: int, n: nat)
    ensures OnLine(c, n + 1) <==> OnLine(c, n) || c == PixelPos(n)
  {
    if c == PixelPos(n) {
      assert c - StoneDiameter / 2 == n * StoneDiameter;
    }
  }

  /** `OnLine` says that `c` is the pixel position of one of the first `n` lines. */
  lemma OnLineIff(c: int, n: nat)
    ensures OnLine(c, n) <==> exists i :: 0 <= i < n && c == PixelPos(i)
  {
    if OnLine(c, n) {
      var i := (c - StoneDiameter / 2) / StoneDiameter;
      assert c == PixelPos(i);
    }
    if exists i :: 0 <= i < n && c == PixelPos(i) {
      var i :| 0 <= i < n && c == PixelPos(i);
      assert c - StoneDiameter / 2 == i * StoneDiameter;
    }
  }

  /** The colour of pixel (x, y) on the empty board. */
  function GridColor(x: int, y: int): Byte
  {
    if (OnLine(x, BoardSize) && InSpan(y)) || (OnLine(y, BoardSize) && InSpan(x))
    then Black else Background
  }

  /** The empty board uses only the background and black indices, and a pixel is
      black exactly when it lies on one of the 19 vertical or 19 horizontal lines. */
  lemma GridColorIff(x: int, y: int)
    ensures GridColor(x, y) == Background || GridColor(x, y) == Black
    ensures GridColor(x, y) == Black <==>
      exists i :: 0 <= i < BoardSize &&
        ((x == PixelPos(i) && InSpan(y)) || (y == PixelPos(i) && InSpan(x)))
  {
    OnLineIff(x, BoardSize);
    OnLineIff(y, BoardSize);
  }

  /** The colour of pixel (x, y) after the stones of `ms` were drawn, in order,
      on the empty board: the specification of the frame chain. */
  function FrameColor(ms: seq<Move>, x: int, y: int): (c: Byte)
    ensures c == Background || c == Black || c == White
  {
    if ms == [] then GridColor(x, y)
    else
      var m := ms[|ms| - 1];
      if InDisc(x, y, m) then StoneColor(m) else FrameColor(ms[..|ms| - 1], x, y)
  }

  /** A pixel covered by some stone shows the colour of the last stone covering it. */
  lemma {:induction false} LastStoneWins(ms: seq<Move>, k: nat, x: int, y: int)
    requires k < |ms| && InDisc(x, y, ms[k])
    requires forall l :: k < l < |ms| ==> !InDisc(x, y, ms[l])
    ensures FrameColor(ms, x, y) == StoneColor(ms[k])
  {
    if k < |ms| - 1 {
      var init := ms[..|ms| - 1];
      assert forall l :: k < l < |init| ==> init[l] == ms[l];
      LastStoneWins(init, k, x, y);
    }
  }

  /** A pixel no stone covers keeps its empty-board colour. */
  lemma {:induction false} UncoveredKeepsGrid(ms: seq<Move>, x: int, y: int)
    requires forall l :: 0 <= l < |ms| ==> !InDisc(x, y, ms[l])
    ensures FrameColor(ms, x, y) == GridColor(x, y)
  {
    if ms != [] {
      var init := ms[..|ms| - 1];
      assert forall l :: 0 <= l < |init| ==> init[l] == ms[l];
      UncoveredKeepsGrid(init, x, y);
    }
  }

  /** A white pixel is covered by a white stone: the frames never show white
      where no white stone was played. */
  lemma {:induction false} WhiteOnlyFromWhiteStones(ms: seq<Move>, x: int, y: int)
    requires FrameColor(ms, x, y) == White
    ensures exists k :: 0 <= k < |ms| && ms[k].white && InDisc(x, y, ms[k])
  {
    if ms == [] {
      GridColorIff(x, y);
      assert false;
    } else {
      var init := ms[..|ms| - 1];
      if !InDisc(x, y, ms[|ms| - 1]) {
        WhiteOnlyFromWhiteStones(init, x, y);
        var k :| 0 <= k < |init| && init[k].white && InDisc(x, y, init[k]);
        assert ms[k] == init[k];
      }
    }
  }

  /** `drawMove`: scans the whole frame and paints every pixel of the move's
      disc with the stone's colour; every other pixel is left as it was. */
  method DrawMove(img: array2<Byte>, m: Move)
    requires IsFrame(img)
    modifies img
    ensures forall x, y :: 0 <= x < Side() && 0 <= y < Side() ==>
      img[x, y] == if InDisc(x, y, m) then StoneColor(m) else old(img[x, y])
  {
    var side := Side();
    var cx := StoneDiameter / 2 + m.x * StoneDiameter;
    var cy := StoneDiameter / 2 + m.y * StoneDiameter;
    for i := 0 to side
      invariant forall x, y :: 0 <= x < side && 0 <= y < side ==>
        img[x, y] == if x < i && InDisc(x, y, m) then StoneColor(m) else old(img[x, y])
    {
      for j := 0 to side
        invariant forall x, y :: 0 <= x < side && 0 <= y < side ==>
          img[x, y] == if (x < i || (x == i && y < j)) && InDisc(x, y, m)
                       then StoneColor(m) else old(img[x, y])
      {
        if Dist(i, j, cx, cy) <= StoneDiameter / 2 {
          var color := Black;
          if m.white {
            color := White;
          }
          img[i, j] := color;
        }
      }
    }
  }

  /** `newFrame`: a fresh frame holding the empty board (first move) or a copy of
      `prev`, with the stone of `m` drawn on top. `prev` is only read. */
  method NewFrame(m: Move, prev: array2?<Byte>) returns (img: array2<Byte>)
    requires prev != null ==> IsFrame(prev)
    ensures fresh(img) && IsFrame(img)
    ensures forall x, y :: 0 <= x < Side() && 0 <= y < Side() ==>
      img[x, y] == if InDisc(x, y, m) then StoneColor(m)
                   else if prev == null then GridColor(x, y) else prev[x, y]
  {
    var side := Side();
    img := new Byte[side, side];
    if prev == null {
      // fill background
      for i := 0 to side
        invariant forall x, y :: 0 <= x < i && 0 <= y < side ==> img[x, y] == Background
      {
        for j := 0 to side
          invariant forall x, y :: 0 <= x < i && 0 <= y < side ==> img[x, y] == Background
          invariant forall y :: 0 <= y < j ==> img[i, y] == Background
        {
          img[i, j] := Background;
        }
      }
      // vertical lines
      for i := 0 to BoardSize
        invariant forall x, y :: 0 <= x < side && 0 <= y < side ==>
          img[x, y] == if OnLine(x, i) && InSpan(y) then Black else Background
      {
        var x := PixelPos(i);
        for j := StoneDiameter / 2 to side - StoneDiameter / 2
          invariant forall x', y :: 0 <= x' < side && 0 <= y < side ==>
            img[x', y] == if (OnLine(x', i) && InSpan(y)) || (x' == x && StoneDiameter / 2 <= y < j)
                          then Black else Background
        {
          img[x, j] := Black;
        }
        forall x' | 0 <= x' < side
          ensures OnLine(x', i + 1) <==> OnLine(x', i) || x' == x
        {
          OnLineStep(x', i);
        }
      }
      // horizontal lines
      for i := 0 to BoardSize
        invariant forall x, y :: 0 <= x < side && 0 <= y < side ==>
          img[x, y] == if (OnLine(x, BoardSize) && InSpan(y)) || (OnLine(y, i) && InSpan(x))
                       then Black else Background
      {
        var y := PixelPos(i);
        for j := StoneDiameter / 2 to side - StoneDiameter / 2
          invariant forall x, y' :: 0 <= x < side && 0 <= y' < side ==>
            img[x, y'] == if (OnLine(x, BoardSize) && InSpan(y')) || (OnLine(y', i) && InSpan(x))
                             || (y' == y && StoneDiameter / 2 <= x < j)
                          then Black else Background
        {
          img[j, y] := Black;
        }
        forall y' | 0 <= y' < side
          ensures OnLine(y', i + 1) <==> OnLine(y', i) || y' == y
        {
          OnLineStep(y', i);
        }
      }
    } else {
      // copy from prev
      for i := 0 to side
        invariant forall x, y :: 0 <= x < i && 0 <= y < side ==> img[x, y] == prev[x, y]
      {
        for j := 0 to side
          invariant forall x, y :: 0 <= x < i && 0 <= y < side ==> img[x, y] == prev[x, y]
          invariant forall y :: 0 <= y < j ==> img[i, y] == prev[i, y]
        {
          img[i, j] := prev[i, j];
        }
      }
    }
    DrawMove(img, m);
  }

  /** `movesToFrames`: one fresh frame per move; frame k shows the stones of
      the first k + 1 moves, and no two frames share storage. */
  method MovesToFrames(ms: seq<Move>) returns (frames: seq<array2<Byte>>)
    ensures |frames| == |ms|
    ensures forall k :: 0 <= k < |frames| ==> fresh(frames[k])
    ensures forall k, l :: 0 <= k < l < |frames| ==> frames[k] != frames[l]
    ensures forall k :: 0 <= k < |frames| ==>
      IsFrame(frames[k]) &&
      forall x, y :: 0 <= x < Side() && 0 <= y < Side() ==>
        frames[k][x, y] == FrameColor(ms[..k + 1], x, y)
  {
    frames := [];
    var frame: array2?<Byte> := null;
    for i := 0 to |ms|
      invariant |frames| == i
      invariant forall k :: 0 <= k < i ==> fresh(frames[k])
      invariant forall k, l :: 0 <= k < l < i ==> frames[k] != frames[l]
      invariant frame == null <==> i == 0
      invariant i > 0 ==> frame == frames[i - 1]
      invariant forall k :: 0 <= k < i ==>
        IsFrame(frames[k]) &&
        forall x, y :: 0 <= x < Side() && 0 <= y < Side() ==>
          frames[k][x, y] == FrameColor(ms[..k + 1], x, y)
    {
      frame := NewFrame(ms[i], frame);
      assert ms[..i + 1][..i] == ms[..i] && ms[..i + 1][i] == ms[i];
      frames := frames + [frame];
    }
  }
}

/** Assembly of the animation record and the whole in-memory pipeline, from a
    parsed collection of game trees to the animation handed to the encoder. */
module Animation {
  import opened Basics
  import opened Moves
  import opened Raster

  /** The in-memory animation: frames, one delay per frame, and a loop count. */
  datatype Gif = Gif(images: seq<array2<Byte>>, delays: seq<int>, loopCount: int)

  /** `framesToGif`: the frames in order, each with the fixed delay, and a loop
      count equal to the number of frames. */
  method FramesToGif(frames: seq<array2<Byte>>) returns (g: Gif)
    ensures g.loopCount == |frames|
    ensures g.images == frames
    ensures |g.delays| == |frames|
    ensures forall k :: 0 <= k < |g.delays| ==> g.delays[k] == Delay
  {
    g := Gif([], [], |frames|);
    for i := 0 to |frames|
      invariant g.loopCount == |frames|
      invariant g.images == frames[..i]
      invariant |g.delays| == i
      invariant forall k :: 0 <= k < i ==> g.delays[k] == Delay
    {
      g := g.(images := g.images + [frames[i]], delays := g.delays + [Delay]);
    }
  }

  /** `sgfToGif` after parsing: select the first game, extract its moves, draw
      one frame per move and assemble them. The first error aborts the run. */
  method SgfToGif(trees: seq<GameTree>) returns (r: Result<Gif, Error>)
    ensures |trees| == 0 ==> r == Failure(NoGames)
    ensures |trees| > 0 ==> (r.Failure? <==> MovesOf(Properties(trees[0].nodes)).Failure?)
    ensures |trees| > 0 && r.Failure? ==> r.error == MovesOf(Properties(trees[0].nodes)).error
    ensures r.Success? ==>
      |trees| > 0 && MovesOf(Properties(trees[0].nodes)).Success? &&
      var ms := MovesOf(Properties(trees[0].nodes)).value;
      var g := r.value;
      g.loopCount == |g.images| == |g.delays| == |ms| &&
      (forall k :: 0 <= k < |g.delays| ==> g.delays[k] == Delay) &&
      (forall k, l :: 0 <= k < l < |g.images| ==> g.images[k] != g.images[l]) &&
      forall k :: 0 <= k < |g.images| ==>
        IsFrame(g.images[k]) &&
        forall x, y :: 0 <= x < Side() && 0 <= y < Side() ==>
          g.images[k][x, y] == FrameColor(ms[..k + 1], x, y)
  {
    var game := FirstGame(trees);
    if game.Failure? {
      return Failure(game.error);
    }
    var moves := MovesFromGame(game.value);
    if moves.Failure? {
      return Failure(moves.error);
    }
    var frames := MovesToFrames(moves.value);
    var g := FramesToGif(frames);
    r := Success(g);
  }

  /** A record with one black move at "dd" yields one black move at board
      point (3, 3). */
  lemma SingleBlackMoveAtDd()
    ensures var p := Property("B", [['d' as int, 'd' as int]]);
      MovesOf(Properties([Node([p])])) == Success([Move(false, 3, 3)])
  {
    var p := Property("B", [['d' as int, 'd' as int]]);
    assert Properties([Node([p])]) == [p] by {
      assert [Node([p])][..0] == [];
    }
    assert [p][..0] == [];
    assert !NotAMove(p);
    assert LettersToCoords(p.values[0]) == Success(Coords(3, 3));
    assert PropertyToMove(p) == Success(Move(false, 3, 3));
    assert [] + [Move(false, 3, 3)] == [Move(false, 3, 3)];
  }

  /** Its single frame is a black disc of radius 20 centred on pixel
      (140, 140) over the empty grid: every pixel within squared distance 440
      of the centre is black, and every other pixel keeps its grid colour. */
  lemma SingleBlackFrameAtDd()
    ensures forall x, y ::
              FrameColor([Move(false, 3, 3)], x, y) ==
              if SquaredDistance(x, y, 140, 140) < 441 then Black else GridColor(x, y)
  {
    var m := Move(false, 3, 3);
    assert PixelPos(3) == 140;
    forall x, y
      ensures FrameColor([m], x, y) ==
        if SquaredDistance(x, y, 140, 140) < 441 then Black else GridColor(x, y)
    {
      OneStoneFrame(m, x, y);
      InDiscIff(x, y, m);
    }
  }

  /** In particular the centre and a pixel 20 to its right are black, a pixel
      just outside the rim is background, and the grid line at x = 20 is
      intact beside the stone. */
  lemma SingleBlackFrameSamples()
    ensures var ms := [Move(false, 3, 3)];
      FrameColor(ms, 140, 140) == Black &&
      FrameColor(ms, 160, 140) == Black &&
      FrameColor(ms, 161, 141) == Background &&
      FrameColor(ms, 20, 141) == Black &&
      FrameColor(ms, 21, 141) == Background
  {
    SingleBlackFrameAtDd();
    assert SquaredDistance(140, 140, 140, 140) == 0;
    assert SquaredDistance(160, 140, 140, 140) == 400;
    assert SquaredDistance(161, 141, 140, 140) == 442;
    assert SquaredDistance(20, 141, 140, 140) == 14401;
    assert SquaredDistance(21, 141, 140, 140) == 14162;
    GridNearDd();
  }

  /** The frame of a single stone: its disc over the empty grid. */
  lemma OneStoneFrame(m: Move, x: int, y: int)
    ensures FrameColor([m], x, y) == if InDisc(x, y, m) then StoneColor(m) else GridColor(x, y)
  {
    assert [m][..0] == [];
  }

  lemma GridNearDd()
    ensures GridColor(20, 141) == Black
    ensures GridColor(161, 141) == Background && GridColor(21, 141) == Background
  {
    assert OnLine(20, BoardSize) && InSpan(141);
    assert (141 - 20) % 40 == 1 && (21 - 20) % 40 == 1 && (161 - 20) % 40 == 21;
  }
}

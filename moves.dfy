/** From an SGF game tree to the ordered list of stone placements:
    decoding of point tokens, recognition of move properties, extraction
    in node-then-property order, and selection of the first game tree. */
module Moves {
  import opened Basics

  /** An SGF property: its identifier and its list of raw values. */
  datatype Property = Property(ident: string, values: seq<Bytes>)

  /** An SGF node: its properties, in file order. */
  datatype Node = Node(properties: seq<Property>)

  /** A game tree: the main line of nodes, in file order. */
  datatype GameTree = GameTree(nodes: seq<Node>)

  /** Board coordinates decoded from a point token (column x, row y). */
  datatype Coords = Coords(x: int, y: int)

  /** A stone placement: its colour and board coordinates (not pixels). */
  datatype Move = Move(white: bool, x: int, y: int)

  /** The error values the extraction stage can produce. */
  datatype Error =
    | NoGames                             // the collection holds no game tree
    | MalformedMove(values: seq<Bytes>)   // a B/W property without exactly one value
    | MalformedMoveValue(letters: Bytes)  // a point token whose length is not 2

  /** The byte `'a'`, the origin of the SGF letter coordinates. */
  const LetterA: Byte := 97

  /** Go's `byte` subtraction `a - b`: the difference modulo 256. */
  function ByteSub(a: Byte, b: Byte): (d: Byte)
    ensures (d + b) % 256 == a
  {
    (a - b) % 256
  }

  /** `lettersToCoords`: a point token of exactly two bytes is decoded byte by
      byte as the (wrapping) offset from `'a'`; any other length is an error.
      The range is not checked against the board size. */
  function LettersToCoords(letters: Bytes): (r: Result<Coords, Error>)
    ensures r.Failure? <==> |letters| != 2
    ensures r.Failure? ==> r.error == MalformedMoveValue(letters)
    ensures r.Success? ==>
      0 <= r.value.x < 256 && 0 <= r.value.y < 256 &&
      (r.value.x + LetterA) % 256 == letters[0] &&
      (r.value.y + LetterA) % 256 == letters[1]
  {
    if |letters| != 2 then Failure(MalformedMoveValue(letters))
    else Success(Coords(ByteSub(letters[0], LetterA), ByteSub(letters[1], LetterA)))
  }

  /** The inverse of `LettersToCoords`: the two-byte token naming a point. */
  function CoordsToLetters(c: Coords): (letters: Bytes)
    requires 0 <= c.x < 256 && 0 <= c.y < 256
    ensures |letters| == 2
  {
    [(c.x + LetterA) % 256, (c.y + LetterA) % 256]
  }

  /** Every point in the byte range is named by a token that decodes back to it. */
  lemma DecodeEncode(c: Coords)
    requires 0 <= c.x < 256 && 0 <= c.y < 256
    ensures LettersToCoords(CoordsToLetters(c)) == Success(c)
  {
    var letters := CoordsToLetters(c);
    assert ByteSub(letters[0], LetterA) == c.x;
    assert ByteSub(letters[1], LetterA) == c.y;
  }

  /** Every token that decodes is the encoding of what it decodes to. */
  lemma EncodeDecode(letters: Bytes)
    requires |letters| == 2
    ensures LettersToCoords(letters).Success?
    ensures CoordsToLetters(LettersToCoords(letters).value) == letters
  {
  }

  /** Distinct tokens decode to distinct points. */
  lemma DecodeInjective(a: Bytes, b: Bytes)
    requires LettersToCoords(a).Success? && LettersToCoords(a) == LettersToCoords(b)
    ensures a == b
  {
    EncodeDecode(a);
    EncodeDecode(b);
  }

  /** A token decodes onto the 19x19 board exactly when both of its bytes are
      among the letters `'a'`..`'s'`; every other byte, upper-case letters
      included, wraps to a coordinate of 19 or more. */
  lemma OnBoardLetters(letters: Bytes)
    requires |letters| == 2
    ensures var c := LettersToCoords(letters).value;
      (c.x < 19 && c.y < 19) <==>
      ('a' as int <= letters[0] <= 's' as int && 'a' as int <= letters[1] <= 's' as int)
  {
  }

  /** `notAMove`: only the properties `B` and `W` place stones. */
  predicate NotAMove(p: Property)
    ensures NotAMove(p) <==> p.ident !in {"B", "W"}
  {
    p.ident != "B" && p.ident != "W"
  }

  /** The body of the extraction loop for one move property: exactly one value
      is required, it must decode, and `W` makes the stone white. */
  function PropertyToMove(p: Property): (r: Result<Move, Error>)
    requires !NotAMove(p)
    ensures r.Success? <==> |p.values| == 1 && |p.values[0]| == 2
    ensures r.Failure? && |p.values| != 1 ==> r.error == MalformedMove(p.values)
    ensures r.Failure? && |p.values| == 1 ==> r.error == MalformedMoveValue(p.values[0])
    ensures r.Success? ==>
      r.value.white == (p.ident == "W") &&
      LettersToCoords(p.values[0]) == Success(Coords(r.value.x, r.value.y))
  {
    if |p.values| != 1 then Failure(MalformedMove(p.values))
    else match LettersToCoords(p.values[0])
      case Failure(e) => Failure(e)
      case Success(c) => Success(Move(p.ident == "W", c.x, c.y))
  }

  /** All properties of a node list, in node order and then property order. */
  function Properties(nodes: seq<Node>): seq<Property>
  {
    if nodes == [] then []
    else Properties(nodes[..|nodes| - 1]) + nodes[|nodes| - 1].properties
  }

  /** The move properties of `ps`, in order; everything else is dropped. */
  function MoveProperties(ps: seq<Property>): (r: seq<Property>)
    ensures forall k :: 0 <= k < |r| ==> !NotAMove(r[k])
  {
    if ps == [] then []
    else
      var last := ps[|ps| - 1];
      MoveProperties(ps[..|ps| - 1]) + (if NotAMove(last) then [] else [last])
  }

  /** Specification of the extraction: the moves of `ps` in order, or the error
      of the first move property that does not convert. */
  function MovesOf(ps: seq<Property>): Result<seq<Move>, Error>
  {
    if ps == [] then Success([])
    else MoveStep(MovesOf(ps[..|ps| - 1]), ps[|ps| - 1])
  }

  /** One pass of the extraction loop: an earlier error stands, a non-move is
      skipped, and a move property either appends its move or fails. */
  function MoveStep(acc: Result<seq<Move>, Error>, p: Property): Result<seq<Move>, Error>
  {
    if acc.Failure? || NotAMove(p) then acc
    else match PropertyToMove(p)
      case Failure(e) => Failure(e)
      case Success(m) => Success(acc.value + [m])
  }

  /** Properties of a concatenation of node lists concatenate. */
  lemma {:induction false} PropertiesAppend(a: seq<Node>, b: seq<Node>)
    ensures Properties(a + b) == Properties(a) + Properties(b)
    decreases |b|
  {
    if b == [] {
      assert a + b == a;
    } else {
      var b' := b[..|b| - 1];
      assert (a + b)[..|a + b| - 1] == a + b';
      PropertiesAppend(a, b');
    }
  }

  /** Extraction is compositional: the moves of `a + b` are those of `a`
      followed by those of `b`, and the first error wins. */
  lemma {:induction false} MovesOfAppend(a: seq<Property>, b: seq<Property>)
    ensures MovesOf(a + b) ==
      if MovesOf(a).Failure? then MovesOf(a)
      else if MovesOf(b).Failure? then MovesOf(b)
      else Success(MovesOf(a).value + MovesOf(b).value)
    decreases |b|
  {
    if b == [] {
      assert a + b == a;
      if MovesOf(a).Success? {
        assert MovesOf(a).value + [] == MovesOf(a).value;
      }
    } else {
      var b' := b[..|b| - 1];
      assert (a + b)[..|a + b| - 1] == a + b';
      var last := b[|b| - 1];
      assert (a + b)[|a + b| - 1] == last;
      MovesOfAppend(a, b');
      if MovesOf(a).Success? && MovesOf(b').Success? && !NotAMove(last) && PropertyToMove(last).Success? {
        var x, y, m := MovesOf(a).value, MovesOf(b').value, PropertyToMove(last).value;
        assert x + y + [m] == x + (y + [m]);
      }
    }
  }

  /** Move properties of a concatenation concatenate: the filter keeps order. */
  lemma {:induction false} MovePropertiesAppend(a: seq<Property>, b: seq<Property>)
    ensures MoveProperties(a + b) == MoveProperties(a) + MoveProperties(b)
    decreases |b|
  {
    if b == [] {
      assert a + b == a;
    } else {
      var b' := b[..|b| - 1];
      assert (a + b)[..|a + b| - 1] == a + b';
      MovePropertiesAppend(a, b');
    }
  }

  /** The filter is exact: it keeps a property iff it is a `B` or `W` one. */
  lemma {:induction false} MovePropertiesExact(ps: seq<Property>)
    ensures forall p :: p in MoveProperties(ps) <==> p in ps && !NotAMove(p)
  {
    if ps != [] {
      MovePropertiesExact(ps[..|ps| - 1]);
      assert ps == ps[..|ps| - 1] + [ps[|ps| - 1]];
    }
  }

  /** Non-move properties never influence the extraction. */
  lemma {:induction false} MovesOfIgnoresNonMoves(ps: seq<Property>)
    ensures MovesOf(ps) == MovesOf(MoveProperties(ps))
  {
    if ps != [] {
      var init := ps[..|ps| - 1];
      var last := ps[|ps| - 1];
      MovesOfIgnoresNonMoves(init);
      if !NotAMove(last) {
        MovesOfAppend(MoveProperties(init), [last]);
        assert [last][..0] == [];
        if PropertyToMove(last).Success? {
          assert [] + [PropertyToMove(last).value] == [PropertyToMove(last).value];
        }
      } else {
        assert MoveProperties(ps) == MoveProperties(init) + [];
        assert MoveProperties(init) + [] == MoveProperties(init);
      }
    }
  }

  /** Extraction succeeds exactly when every move property converts. */
  lemma {:induction false} MovesOfSucceeds(ps: seq<Property>)
    ensures MovesOf(ps).Success? <==>
      forall k :: 0 <= k < |ps| && !NotAMove(ps[k]) ==> PropertyToMove(ps[k]).Success?
  {
    if ps != [] {
      var init := ps[..|ps| - 1];
      MovesOfSucceeds(init);
      assert forall k :: 0 <= k < |init| ==> init[k] == ps[k];
    }
  }

  /** On success there is one move per move property, in the same order, each
      the conversion of its property. */
  lemma {:induction false} MovesOfContents(ps: seq<Property>)
    requires MovesOf(ps).Success?
    ensures |MovesOf(ps).value| == |MoveProperties(ps)|
    ensures forall k :: 0 <= k < |MoveProperties(ps)| ==>
      PropertyToMove(MoveProperties(ps)[k]) == Success(MovesOf(ps).value[k])
  {
    if ps != [] {
      var init := ps[..|ps| - 1];
      MovesOfContents(init);
      MovePropertiesExact(ps);
    }
  }

  /** On failure the error is the one of the first move property that does not
      convert; every move property before it converts. */
  lemma {:induction false} MovesOfFirstError(ps: seq<Property>)
    requires MovesOf(ps).Failure?
    ensures exists k :: (0 <= k < |ps| && !NotAMove(ps[k]) &&
      PropertyToMove(ps[k]) == Failure(MovesOf(ps).error) &&
      forall j :: 0 <= j < k && !NotAMove(ps[j]) ==> PropertyToMove(ps[j]).Success?)
  {
    var init := ps[..|ps| - 1];
    var last := ps[|ps| - 1];
    if MovesOf(init).Failure? {
      MovesOfFirstError(init);
      var k :| 0 <= k < |init| && !NotAMove(init[k]) &&
        PropertyToMove(init[k]) == Failure(MovesOf(init).error) &&
        forall j :: 0 <= j < k && !NotAMove(init[j]) ==> PropertyToMove(init[j]).Success?;
      assert ps[k] == init[k];
      assert forall j :: 0 <= j < k ==> ps[j] == init[j];
    } else {
      MovesOfSucceeds(init);
      assert forall j :: 0 <= j < |init| ==> ps[j] == init[j];
      assert PropertyToMove(ps[|ps| - 1]) == Failure(MovesOf(ps).error);
    }
  }

  /** `movesFromGame`: walks the nodes and, within each node, the properties,
      skipping non-moves and stopping at the first malformed move. */
  method MovesFromGame(g: GameTree) returns (r: Result<seq<Move>, Error>)
    ensures r == MovesOf(Properties(g.nodes))
  {
    var ret: seq<Move> := [];
    for i := 0 to |g.nodes|
      invariant MovesOf(Properties(g.nodes[..i])) == Success(ret)
    {
      ghost var done := Properties(g.nodes[..i]);
      var props := g.nodes[i].properties;
      assert done + props[..0] == done;
      for j := 0 to |props|
        invariant MovesOf(done + props[..j]) == Success(ret)
      {
        var p := props[j];
        assert MovesOf(done + props[..j + 1]) == MoveStep(Success(ret), p) by {
          PrefixSnoc(done, props, j);
          MovesOfSnoc(done + props[..j], p);
        }
        if !NotAMove(p) {
          if |p.values| != 1 {
            r := Failure(MalformedMove(p.values));
            assert r == MovesOf(Properties(g.nodes)) by {
              FailureIsFinal(g.nodes, i, j, r.error);
            }
            return;
          }
          var c := LettersToCoords(p.values[0]);
          if c.Failure? {
            r := Failure(c.error);
            assert r == MovesOf(Properties(g.nodes)) by {
              FailureIsFinal(g.nodes, i, j, r.error);
            }
            return;
          }
          ret := ret + [Move(p.ident == "W", c.value.x, c.value.y)];
        }
      }
      assert Properties(g.nodes[..i + 1]) == done + props[..|props|] by {
        assert props[..|props|] == props;
        PrefixSnoc([], g.nodes, i);
        assert [] + g.nodes[..i] == g.nodes[..i] && [] + g.nodes[..i + 1] == g.nodes[..i + 1];
        PropertiesSnoc(g.nodes[..i], g.nodes[i]);
      }
    }
    assert g.nodes[..|g.nodes|] == g.nodes;
    r := Success(ret);
  }

  /** Growing a prefix by one element, behind a fixed head. */
  lemma PrefixSnoc<T>(head: seq<T>, s: seq<T>, j: nat)
    requires j < |s|
    ensures head + s[..j + 1] == (head + s[..j]) + [s[j]]
  {
    assert s[..j + 1] == s[..j] + [s[j]];
  }

  /** Appending one node appends its properties. */
  lemma PropertiesSnoc(nodes: seq<Node>, n: Node)
    ensures Properties(nodes + [n]) == Properties(nodes) + n.properties
  {
    assert (nodes + [n])[..|nodes|] == nodes;
  }

  /** The properties of a node list split around its `i`-th node. */
  lemma PropertiesSplit(nodes: seq<Node>, i: nat)
    requires i < |nodes|
    ensures Properties(nodes) ==
      Properties(nodes[..i]) + nodes[i].properties + Properties(nodes[i + 1..])
  {
    var pre, n, post := nodes[..i], nodes[i], nodes[i + 1..];
    SplitAt(nodes, i);
    PropertiesAppend(pre + [n], post);
    PropertiesSnoc(pre, n);
  }

  /** A sequence is its prefix, its `i`-th element and its suffix. */
  lemma SplitAt<T>(s: seq<T>, i: nat)
    requires i < |s|
    ensures s == (s[..i] + [s[i]]) + s[i + 1..]
  {
  }

  /** One more property: the definition of `MovesOf`, read at the end. */
  lemma MovesOfSnoc(ps: seq<Property>, p: Property)
    ensures MovesOf(ps + [p]) == MoveStep(MovesOf(ps), p)
  {
    assert (ps + [p])[..|ps|] == ps;
  }

  /** Once the properties up to property `j` of node `i` fail with `e`, the
      whole game fails with `e`. */
  lemma FailureIsFinal(nodes: seq<Node>, i: nat, j: nat, e: Error)
    requires i < |nodes| && j < |nodes[i].properties|
    requires MovesOf(Properties(nodes[..i]) + nodes[i].properties[..j + 1]) == Failure(e)
    ensures MovesOf(Properties(nodes)) == Failure(e)
  {
    var props := nodes[i].properties;
    var pre, post := Properties(nodes[..i]), Properties(nodes[i + 1..]);
    var head := pre + props[..j + 1];
    var tail := props[j + 1..] + post;
    calc {
      Properties(nodes);
      { PropertiesSplit(nodes, i); }
      pre + props + post;
      { assert props == props[..j + 1] + props[j + 1..]; }
      pre + (props[..j + 1] + props[j + 1..]) + post;
      head + tail;
    }
    MovesOfAppend(head, tail);
  }

  /** `firstGame`: a collection without game trees is an error; otherwise the
      first tree is used and the others are ignored. */
  function FirstGame(trees: seq<GameTree>): (r: Result<GameTree, Error>)
    ensures r.Failure? <==> |trees| == 0
    ensures r.Failure? ==> r.error == NoGames
    ensures r.Success? ==> r.value == trees[0]
  {
    if |trees| == 0 then Failure(NoGames) else Success(trees[0])
  }
}

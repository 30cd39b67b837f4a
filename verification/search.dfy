/**
 The graph the `pathfinding` system hands to breadth-first search: the
 successor closure, which lists the four cardinal neighbours of a cell in
 `i8` arithmetic, keeps those `try_new` accepts and drops those a block
 stands on; and the goal test `p == end`. The search itself belongs to an
 external library and is described here only by what a result must be: a
 walk of successor steps from Start that ends at End.
 */
module Search {
  import opened Options
  import opened Grid

  /** The cardinal directions in the order the closure lists them:
      YMinus is y - 1, YPlus is y + 1, XMinus is x - 1, XPlus is x + 1. */
  datatype Direction = YMinus | YPlus | XMinus | XPlus

  function Rank(d: Direction): nat
  {
    match d
    case YMinus => 0
    case YPlus => 1
    case XMinus => 2
    case XPlus => 3
  }

  /** The direction in which `q` lies from its neighbour `p`. */
  function DirectionOf(p: Pos, q: Pos): Direction
    requires Adjacent(p, q)
  {
    if q.y < p.y then YMinus
    else if q.y > p.y then YPlus
    else if q.x < p.x then XMinus
    else XPlus
  }

  /** Every cell of `ps` is a neighbour of `p`, and they come in closure order,
      each direction at most once. */
  predicate InDirectionOrder(p: Pos, ps: seq<Pos>)
  {
    && (forall q :: q in ps ==> Adjacent(p, q))
    && (forall i, j :: 0 <= i < j < |ps| ==> Rank(DirectionOf(p, ps[i])) < Rank(DirectionOf(p, ps[j])))
  }

  /** The reference successor relation: a step to a neighbouring board cell
      that carries no block. */
  predicate IsStep(p: Pos, q: Pos, blocks: seq<Pos>)
  {
    Adjacent(p, q) && q.Valid() && q !in blocks
  }

  /** The four candidate coordinates, computed as the closure does: both
      coordinates cast to `i8`, then one of them moved by one in `i8`. */
  function Candidates(p: Pos): (r: seq<(I8, I8)>)
    ensures |r| == 4
    ensures p.Valid() ==>
      r == [(p.x as int, p.y - 1), (p.x as int, p.y + 1), (p.x - 1, p.y as int), (p.x + 1, p.y as int)]
  {
    var x := U8AsI8(p.x);
    var y := U8AsI8(p.y);
    [(x, WrapI8(y - 1)), (x, WrapI8(y + 1)), (WrapI8(x - 1), y), (WrapI8(x + 1), y)]
  }

  /** The candidate kept by `filter_map(try_new)`, if any. */
  function Checked(c: (I8, I8)): (r: seq<Pos>)
    ensures |r| <= 1
    ensures forall q :: q in r <==> q.Valid() && (q.x as int, q.y as int) == c
  {
    match TryNew(c.0, c.1)
    case Some(q) => [q]
    case None => []
  }

  /** `filter_map(try_new)` over a list of candidates. */
  function OnBoard(cs: seq<(I8, I8)>): (r: seq<Pos>)
    ensures |r| <= |cs|
    ensures forall q :: q in r <==> q.Valid() && (q.x as int, q.y as int) in cs
  {
    if |cs| == 0 then []
    else Checked(cs[0]) + OnBoard(cs[1..])
  }

  /** `filter(|pos| !blocks.contains(pos))`. */
  function Unblocked(ps: seq<Pos>, blocks: seq<Pos>): (r: seq<Pos>)
    ensures |r| <= |ps|
    ensures forall q :: q in r <==> q in ps && q !in blocks
  {
    if |ps| == 0 then []
    else (if ps[0] in blocks then [] else [ps[0]]) + Unblocked(ps[1..], blocks)
  }

  /** The successor closure of the search. */
  function Successors(p: Pos, blocks: seq<Pos>): (r: seq<Pos>)
    ensures |r| <= 4
    ensures forall q :: q in r ==> q.Valid() && q !in blocks
    ensures p.Valid() ==> forall q :: q in r <==> IsStep(p, q, blocks)
    ensures p.Valid() ==> InDirectionOrder(p, r)
  {
    var near := OnBoard(Candidates(p));
    assert p.Valid() ==> InDirectionOrder(p, Unblocked(near, blocks)) by {
      if p.Valid() {
        NeighboursInOrder(p);
        UnblockedKeepsOrder(p, near, blocks);
      }
    }
    assert p.Valid() ==> forall q :: q in near <==> q.Valid() && Adjacent(p, q) by {
      if p.Valid() {
        forall q ensures q in near <==> q.Valid() && Adjacent(p, q) {
          AdjacentIsCandidate(p, q);
        }
      }
    }
    Unblocked(near, blocks)
  }

  /** The goal test of the search: reached exactly at distance zero from `end`. */
  predicate IsGoal(p: Pos, end: Pos)
    ensures IsGoal(p, end) <==> Manhattan(p, end) == 0
  {
    p == end
  }

  /** A neighbour is a candidate exactly. */
  lemma AdjacentIsCandidate(p: Pos, q: Pos)
    requires p.Valid()
    ensures Adjacent(p, q) <==> (q.x as int, q.y as int) in Candidates(p)
  {
  }

  /** `filter_map` over exactly four candidates, unrolled. */
  lemma OnBoardFour(cs: seq<(I8, I8)>)
    requires |cs| == 4
    ensures OnBoard(cs) == Checked(cs[0]) + Checked(cs[1]) + Checked(cs[2]) + Checked(cs[3])
  {
    var c1 := cs[1..];
    var c2 := c1[1..];
    var c3 := c2[1..];
    assert |c3[1..]| == 0;
    assert OnBoard(c3) == Checked(cs[3]) + OnBoard(c3[1..]);
    assert OnBoard(c2) == Checked(cs[2]) + OnBoard(c3);
    assert OnBoard(c1) == Checked(cs[1]) + OnBoard(c2);
  }

  /** On a board cell the candidates kept by `try_new` are its board neighbours,
      in closure order. */
  lemma NeighboursInOrder(p: Pos)
    requires p.Valid()
    ensures InDirectionOrder(p, OnBoard(Candidates(p)))
  {
    var cs: seq<(I8, I8)> := Candidates(p);
    OnBoardFour(cs);
    CheckedDirection(p, 0);
    CheckedDirection(p, 1);
    CheckedDirection(p, 2);
    CheckedDirection(p, 3);
    PiecesInOrder(p, Checked(cs[0]), Checked(cs[1]), Checked(cs[2]), Checked(cs[3]));
  }

  /** The `k`-th candidate of a board cell, when on the board, lies in the `k`-th direction. */
  lemma CheckedDirection(p: Pos, k: nat)
    requires p.Valid() && k < 4
    ensures forall q :: q in Checked(Candidates(p)[k]) ==> Adjacent(p, q) && Rank(DirectionOf(p, q)) == k
  {
  }

  /** Four at-most-singleton pieces, each holding a neighbour of its own
      direction, concatenate to a list in closure order. */
  lemma PiecesInOrder(p: Pos, a: seq<Pos>, b: seq<Pos>, c: seq<Pos>, d: seq<Pos>)
    requires |a| <= 1 && |b| <= 1 && |c| <= 1 && |d| <= 1
    requires forall q :: q in a ==> Adjacent(p, q) && Rank(DirectionOf(p, q)) == 0
    requires forall q :: q in b ==> Adjacent(p, q) && Rank(DirectionOf(p, q)) == 1
    requires forall q :: q in c ==> Adjacent(p, q) && Rank(DirectionOf(p, q)) == 2
    requires forall q :: q in d ==> Adjacent(p, q) && Rank(DirectionOf(p, q)) == 3
    ensures InDirectionOrder(p, a + b + c + d)
  {
    var near := a + b + c + d;
    assert forall q :: q in near ==> Adjacent(p, q);
    forall i, j | 0 <= i < j < |near|
      ensures Rank(DirectionOf(p, near[i])) < Rank(DirectionOf(p, near[j]))
    {
      RankOfPiece(p, a, b, c, d, near, i);
      RankOfPiece(p, a, b, c, d, near, j);
    }
  }

  /** The rank of an element of the concatenation of four at-most-singleton
      pieces, each holding only cells of its own direction, grows with the index. */
  lemma RankOfPiece(p: Pos, a: seq<Pos>, b: seq<Pos>, c: seq<Pos>, d: seq<Pos>, near: seq<Pos>, i: int)
    requires |a| <= 1 && |b| <= 1 && |c| <= 1 && |d| <= 1
    requires near == a + b + c + d && 0 <= i < |near|
    requires forall q :: q in near ==> Adjacent(p, q)
    requires forall q :: q in a ==> Adjacent(p, q) && Rank(DirectionOf(p, q)) == 0
    requires forall q :: q in b ==> Adjacent(p, q) && Rank(DirectionOf(p, q)) == 1
    requires forall q :: q in c ==> Adjacent(p, q) && Rank(DirectionOf(p, q)) == 2
    requires forall q :: q in d ==> Adjacent(p, q) && Rank(DirectionOf(p, q)) == 3
    ensures i < |a| ==> Rank(DirectionOf(p, near[i])) == 0
    ensures |a| <= i < |a| + |b| ==> Rank(DirectionOf(p, near[i])) == 1
    ensures |a| + |b| <= i < |a| + |b| + |c| ==> Rank(DirectionOf(p, near[i])) == 2
    ensures |a| + |b| + |c| <= i ==> Rank(DirectionOf(p, near[i])) == 3
  {
    if i < |a| {
      assert near[i] in a;
    } else if i < |a| + |b| {
      assert near[i] == b[i - |a|];
    } else if i < |a| + |b| + |c| {
      assert near[i] == c[i - |a| - |b|];
    } else {
      assert near[i] == d[i - |a| - |b| - |c|];
    }
  }

  /** Dropping blocked cells keeps the closure order. */
  lemma {:induction false} UnblockedKeepsOrder(p: Pos, ps: seq<Pos>, blocks: seq<Pos>)
    requires InDirectionOrder(p, ps)
    ensures InDirectionOrder(p, Unblocked(ps, blocks))
    decreases |ps|
  {
    if |ps| > 0 {
      var rest := ps[1..];
      assert InDirectionOrder(p, rest) by {
        assert forall i :: 0 <= i < |rest| ==> rest[i] == ps[i + 1];
      }
      UnblockedKeepsOrder(p, rest, blocks);
      var tail := Unblocked(rest, blocks);
      forall j | 0 <= j < |tail| ensures Rank(DirectionOf(p, ps[0])) < Rank(DirectionOf(p, tail[j])) {
        assert tail[j] in rest;
        var k :| 0 <= k < |rest| && rest[k] == tail[j];
        assert ps[k + 1] == tail[j];
      }
    }
  }

  /** A walk on the board: starts at `start`, ends at `goal`, and each cell is a
      successor of the one before it. */
  predicate IsWalk(path: seq<Pos>, start: Pos, goal: Pos, blocks: seq<Pos>)
  {
    && |path| >= 1
    && path[0] == start
    && IsGoal(path[|path| - 1], goal)
    && forall i :: 0 <= i < |path| - 1 ==> path[i + 1] in Successors(path[i], blocks)
  }

  /** A search result the library may return: no path, or a walk from `start` to `goal`. */
  predicate SoundResult(result: Option<seq<Pos>>, start: Pos, goal: Pos, blocks: seq<Pos>)
  {
    result.Some? ==> IsWalk(result.value, start, goal, blocks)
  }

  /** Every cell of a walk from a board cell is on the board, every cell after
      the first is free of blocks, and consecutive cells are neighbours. */
  lemma WalkOnBoard(path: seq<Pos>, start: Pos, goal: Pos, blocks: seq<Pos>)
    requires start.Valid() && IsWalk(path, start, goal, blocks)
    ensures forall i :: 0 <= i < |path| ==> path[i].Valid()
    ensures forall i :: 0 < i < |path| ==> path[i] !in blocks
    ensures forall i :: 0 <= i < |path| - 1 ==> Adjacent(path[i], path[i + 1])
  {
    assert forall i :: 0 < i < |path| ==> path[i].Valid() && path[i] !in blocks by {
      forall i | 0 < i < |path| ensures path[i].Valid() && path[i] !in blocks {
        assert path[(i - 1) + 1] in Successors(path[i - 1], blocks);
      }
    }
  }

  /** A walk from a board cell has at least one cell more than the distance it covers. */
  lemma {:induction false} WalkLength(path: seq<Pos>, start: Pos, goal: Pos, blocks: seq<Pos>)
    requires start.Valid() && IsWalk(path, start, goal, blocks)
    ensures |path| >= Manhattan(start, goal) + 1
    decreases |path|
  {
    if |path| > 1 {
      var n := |path| - 1;
      WalkPrefix(path, start, goal, blocks);
      WalkLength(path[..n], start, path[n - 1], blocks);
      assert Adjacent(path[n - 1], path[n]) by {
        WalkOnBoard(path, start, goal, blocks);
      }
      ManhattanStep(start, path[n - 1], path[n]);
    }
  }

  /** Dropping the last cell of a walk leaves a walk to the cell before it. */
  lemma WalkPrefix(path: seq<Pos>, start: Pos, goal: Pos, blocks: seq<Pos>)
    requires IsWalk(path, start, goal, blocks) && |path| > 1
    ensures IsWalk(path[..|path| - 1], start, path[|path| - 2], blocks)
  {
    var front := path[..|path| - 1];
    assert forall i :: 0 <= i < |front| ==> front[i] == path[i];
  }

  /** The cell before the last of a walk of two or more cells from a free board
      cell is a free board cell next to the goal. */
  lemma LastStep(path: seq<Pos>, start: Pos, goal: Pos, blocks: seq<Pos>)
    requires start.Valid() && start !in blocks
    requires IsWalk(path, start, goal, blocks) && |path| >= 2
    ensures var q := path[|path| - 2]; q.Valid() && q !in blocks && Adjacent(q, goal)
  {
    WalkOnBoard(path, start, goal, blocks);
    var n := |path| - 1;
    AdjacentSymmetric(path[n - 1], goal);
  }

  /** When every board neighbour of `goal` carries a block and `start` carries
      none, no walk from a different `start` reaches `goal`. */
  lemma EnclosedGoalUnreachable(path: seq<Pos>, start: Pos, goal: Pos, blocks: seq<Pos>)
    requires start.Valid() && start != goal && start !in blocks
    requires forall q: Pos :: q.Valid() && Adjacent(q, goal) ==> q in blocks
    ensures !IsWalk(path, start, goal, blocks)
  {
    if IsWalk(path, start, goal, blocks) {
      LastStep(path, start, goal, blocks);
      assert false;
    }
  }

  /** A search that only returns walks must report no path for an enclosed goal. */
  lemma EnclosedGoalHasNoPath(result: Option<seq<Pos>>, start: Pos, goal: Pos, blocks: seq<Pos>)
    requires SoundResult(result, start, goal, blocks)
    requires start.Valid() && start != goal && start !in blocks
    requires forall q: Pos :: q.Valid() && Adjacent(q, goal) ==> q in blocks
    ensures result == None
  {
    if result.Some? {
      EnclosedGoalUnreachable(result.value, start, goal, blocks);
    }
  }

  /** The first successors of the Start corner on an empty board: the cell at y + 1, then
      the cell at x + 1. */
  lemma StartCornerSuccessors()
    ensures Successors(Pos(0, 0), []) == [Pos(0, 1), Pos(1, 0)]
  {
    var near := [Pos(0, 1), Pos(1, 0)];
    assert OnBoard(Candidates(Pos(0, 0))) == near by {
      StartCornerOnBoard();
    }
    assert Unblocked(near, []) == near by {
      assert near[1..][1..] == [];
      assert Unblocked(near[1..], []) == [Pos(1, 0)];
    }
  }

  /** The candidates of the Start corner that `try_new` keeps. */
  lemma StartCornerOnBoard()
    ensures OnBoard(Candidates(Pos(0, 0))) == [Pos(0, 1), Pos(1, 0)]
  {
    var cs: seq<(I8, I8)> := Candidates(Pos(0, 0));
    assert cs == [(0, -1), (0, 1), (-1, 0), (1, 0)];
    OnBoardFour(cs);
  }

  /** Off the board the closure's `i8` arithmetic wraps: the cell with x = 255 is
      read as x = -1, and its eastern candidate lands on (0, 0), 255 columns
      away. Every position the game creates is on the board, so this never
      arises there; it is why the distance property assumes a board cell. */
  lemma WrapAroundOffBoard()
    ensures Successors(Pos(255, 0), []) == [Pos(0, 0)]
  {
    var cs: seq<(I8, I8)> := Candidates(Pos(255, 0));
    assert cs == [(-1, -1), (-1, 1), (-2, 0), (0, 0)];
    OnBoardFour(cs);
    var near := OnBoard(cs);
    assert near == [Pos(0, 0)];
    assert near[1..] == [];
  }
}

/**
 The state the game's systems share and the three systems that change it:
 `setup` places Start and End, `toggle_block` edits the Block entities, and
 `pathfinding` replaces the Path marker entities with the cells of the
 search result. The search is a parameter: any result the library returns.
 */
module Game {
  import opened Options
  import opened Grid
  import opened Commands
  import opened Toggle
  import opened Search

  /** The Start and End cells, the cells of the Block entities and the cells of
      the Path marker entities, both in query order. */
  datatype World = World(start: Pos, end: Pos, blocks: seq<Pos>, markers: seq<Pos>)

  /** Start and End sit on the two protected corners, no block covers either,
      and every block is on the board. */
  predicate Invariant(w: World)
  {
    && w.start.IsMin() && w.end.IsMax()
    && w.start !in w.blocks && w.end !in w.blocks
    && forall b :: b in w.blocks ==> b.Valid()
  }

  /** The startup system: Start at (0,0), End at (9,9), nothing else. */
  function Setup(): (w: World)
    ensures w.start.Valid() && w.end.Valid() && w.start != w.end
    ensures IsProtected(w.start) && IsProtected(w.end)
    ensures w.blocks == [] && w.markers == []
    ensures Invariant(w)
  {
    World(New(0, 0), New(9, 9), [], [])
  }

  /** One run of the toggle system over the events pending in a frame. */
  function ToggleBlock(w: World, events: seq<Pos>): (r: World)
    ensures r.start == w.start && r.end == w.end && r.markers == w.markers
    ensures Invariant(w) && (forall e :: e in events ==> e.Valid()) ==> Invariant(r)
  {
    var blocks := ToggleBatch(w.blocks, events);
    assert w.start.IsMin() ==> IsProtected(w.start);
    assert w.end.IsMax() ==> IsProtected(w.end);
    w.(blocks := blocks)
  }

  /** The toggle system run once per frame, over each frame's events in turn. */
  function RunFrames(w: World, frames: seq<seq<Pos>>): (r: World)
    ensures r.start == w.start && r.end == w.end && r.markers == w.markers
    decreases |frames|
  {
    if |frames| == 0 then w
    else ToggleBlock(RunFrames(w, frames[..|frames| - 1]), frames[|frames| - 1])
  }

  /** One frame per event, each frame carrying just that event. */
  function Singletons(events: seq<Pos>): (r: seq<seq<Pos>>)
    ensures |r| == |events|
    ensures forall k :: 0 <= k < |r| ==> r[k] == [events[k]]
  {
    seq(|events|, k requires 0 <= k < |events| => [events[k]])
  }

  /** Events arriving in separate frames are handled one after another: the
      blocks after one event per frame are those of the sequential reading. */
  lemma {:induction false} OneEventPerFrame(w: World, events: seq<Pos>)
    ensures RunFrames(w, Singletons(events)).blocks == Sequential(w.blocks, events)
    decreases |events|
  {
    if |events| > 0 {
      var n := |events| - 1;
      var frames := Singletons(events);
      assert frames[..n] == Singletons(events[..n]);
      assert frames[n] == [events[n]];
      OneEventPerFrame(w, events[..n]);
      var prev := RunFrames(w, frames[..n]);
      assert RunFrames(w, frames) == ToggleBlock(prev, [events[n]]);
      SingleEventBatch(prev.blocks, events[n]);
    }
  }

  /** Every event is a board cell, as `try_new` guarantees for clicks. */
  predicate EventsOnBoard(frames: seq<seq<Pos>>)
  {
    forall k, e :: 0 <= k < |frames| && e in frames[k] ==> e.Valid()
  }

  /** Any number of frames of board-cell toggles keeps the invariant. */
  lemma {:induction false} FramesKeepInvariant(w: World, frames: seq<seq<Pos>>)
    requires Invariant(w) && EventsOnBoard(frames)
    ensures Invariant(RunFrames(w, frames))
    ensures RunFrames(w, frames).start == w.start && RunFrames(w, frames).end == w.end
    decreases |frames|
  {
    if |frames| > 0 {
      var n := |frames| - 1;
      assert EventsOnBoard(frames[..n]) by {
        assert forall k :: 0 <= k < n ==> frames[..n][k] == frames[k];
      }
      FramesKeepInvariant(w, frames[..n]);
      assert forall e :: e in frames[n] ==> e.Valid();
    }
  }

  /** From the initial world, no sequence of toggles ever blocks Start or End. */
  lemma EndpointsNeverBlocked(frames: seq<seq<Pos>>)
    requires EventsOnBoard(frames)
    ensures var w := RunFrames(Setup(), frames);
      w.start == Pos(0, 0) && w.end == Pos(9, 9) && w.start !in w.blocks && w.end !in w.blocks
  {
    FramesKeepInvariant(Setup(), frames);
  }

  /** Despawn commands for the first `n` entities. */
  function DespawnAll(n: nat): (r: seq<Command<Pos>>)
    ensures forall i: nat :: Despawn(i) in r <==> i < n
    ensures forall c :: c in r ==> c.Despawn?
  {
    if n == 0 then [] else DespawnAll(n - 1) + [Despawn(n - 1)]
  }

  /** Spawn commands for the cells of a path, in path order. */
  function SpawnAll(path: seq<Pos>): (r: seq<Command<Pos>>)
    ensures |r| == |path|
    ensures forall c :: c in r ==> c.Spawn?
  {
    if |path| == 0 then [] else SpawnAll(path[..|path| - 1]) + [Spawn(path[|path| - 1])]
  }

  /** The spawn commands for a path spawn exactly the path's cells, in order. */
  lemma {:induction false} SpawnAllSpawnsPath(path: seq<Pos>)
    ensures Spawned(SpawnAll(path)) == path
    decreases |path|
  {
    if |path| > 0 {
      var n := |path| - 1;
      var front := SpawnAll(path[..n]);
      var last := [Spawn(path[n])];
      SpawnAllSpawnsPath(path[..n]);
      SpawnedConcat(front, last);
      assert last[..0] == [];
      assert path == path[..n] + [path[n]];
    }
  }

  /** A buffer without spawn commands spawns nothing. */
  lemma {:induction false} NoSpawns(cmds: seq<Command<Pos>>)
    requires forall c :: c in cmds ==> c.Despawn?
    ensures Spawned(cmds) == []
    decreases |cmds|
  {
    if |cmds| > 0 {
      assert cmds[|cmds| - 1] in cmds;
      assert forall c :: c in cmds[..|cmds| - 1] ==> c in cmds;
      NoSpawns(cmds[..|cmds| - 1]);
    }
  }

  /** The cells the search result asks to be drawn. */
  function PathCells(result: Option<seq<Pos>>): seq<Pos>
  {
    match result
    case Some(path) => path
    case None => []
  }

  /** The commands `pathfinding` queues: despawn every marker, then spawn one per path cell. */
  function PublishPlan(markers: seq<Pos>, result: Option<seq<Pos>>): (r: seq<Command<Pos>>)
    ensures forall i: nat :: i in Despawned(r) <==> i < |markers|
    ensures Spawned(r) == PathCells(result)
  {
    var gone := DespawnAll(|markers|);
    var born := SpawnAll(PathCells(result));
    assert Spawned(gone + born) == PathCells(result) by {
      SpawnedConcat(gone, born);
      NoSpawns(gone);
      SpawnAllSpawnsPath(PathCells(result));
    }
    assert forall i: nat :: i in Despawned(gone + born) <==> i < |markers| by {
      DespawnedConcat(gone, born);
    }
    gone + born
  }

  /** The markers after the queued commands are applied: exactly the cells of the
      result, in path order, when there is one, and none otherwise; no earlier
      marker survives. */
  function Publish(markers: seq<Pos>, result: Option<seq<Pos>>): (r: seq<Pos>)
    ensures result.Some? ==> r == result.value
    ensures result.None? ==> r == []
  {
    var cmds := PublishPlan(markers, result);
    assert forall i :: 0 <= i < |markers| ==> Despawn(i) in cmds by {
      forall i | 0 <= i < |markers| ensures Despawn(i) in cmds {
        assert i in Despawned(cmds);
      }
    }
    Apply(markers, cmds)
  }

  /** One run of the pathfinding system, given what the search returned. */
  function Pathfinding(w: World, result: Option<seq<Pos>>): (r: World)
    ensures r.start == w.start && r.end == w.end && r.blocks == w.blocks
    ensures r.markers == PathCells(result)
  {
    w.(markers := Publish(w.markers, result))
  }

  /** When the search returns a walk in a world that keeps the invariant, the
      markers drawn start at Start, end at End, stay on the board, avoid every
      block after Start, and number at least 19, the corner-to-corner distance
      plus one. */
  lemma PublishedPathOnBoard(w: World, result: Option<seq<Pos>>)
    requires Invariant(w) && SoundResult(result, w.start, w.end, w.blocks)
    requires result.Some?
    ensures var m := Pathfinding(w, result).markers;
      && m[0] == w.start && m[|m| - 1] == w.end
      && (forall i :: 0 <= i < |m| ==> m[i].Valid())
      && (forall i :: 0 < i < |m| ==> m[i] !in w.blocks)
      && |m| >= 19
  {
    var path := result.value;
    Corners(w.start);
    Corners(w.end);
    WalkOnBoard(path, w.start, w.end, w.blocks);
    WalkLength(path, w.start, w.end, w.blocks);
  }

  /** With every board neighbour of End blocked, a search that only returns walks
      reports no path and the pathfinding system leaves no marker. */
  lemma EnclosedEndDrawsNothing(w: World, result: Option<seq<Pos>>)
    requires Invariant(w) && SoundResult(result, w.start, w.end, w.blocks)
    requires forall q: Pos :: q.Valid() && Adjacent(q, w.end) ==> q in w.blocks
    ensures Pathfinding(w, result).markers == []
  {
    Corners(w.start);
    Corners(w.end);
    EnclosedGoalHasNoPath(result, w.start, w.end, w.blocks);
  }
}

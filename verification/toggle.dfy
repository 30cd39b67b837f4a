/**
 The obstacle toggle system `toggle_block`. For each pending toggle event
 it skips the two corner cells, and otherwise looks the event's cell up in
 the query of Block entities: if no block carries that cell it queues a
 spawn of one, and if some do it queues a despawn of the first. All lookups
 of one run read the same query snapshot, because the queued commands are
 applied only after the system returns.

 Blocks are the Pos values of the Block entities in query order (the
 ordering convention of module Commands); the same cell may occur more than
 once (two events for one cell in one run both see it free and both spawn).
 */
module Toggle {
  import opened Options
  import opened Grid
  import opened Commands

  /** The corners Start and End stand on; toggles on them are ignored. */
  predicate IsProtected(p: Pos)
    ensures IsProtected(p) <==> p == Pos(0, 0) || p == Pos(SIZE - 1, SIZE - 1)
  {
    p.IsMin() || p.IsMax()
  }

  /** `i` is the index of the first block at cell `p`. */
  predicate IsFirstMatch(blocks: seq<Pos>, p: Pos, i: int)
  {
    0 <= i < |blocks| && blocks[i] == p && forall j :: 0 <= j < i ==> blocks[j] != p
  }

  /** No cell carries two blocks. */
  predicate Distinct(ps: seq<Pos>)
  {
    forall i, j :: 0 <= i < j < |ps| ==> ps[i] != ps[j]
  }

  /** The query search `blocks.iter().find(|pos| pos == p)`. */
  function Find(blocks: seq<Pos>, p: Pos): (r: Option<nat>)
    ensures r.None? <==> p !in blocks
    ensures r.Some? ==> IsFirstMatch(blocks, p, r.value)
  {
    if |blocks| == 0 then None
    else if blocks[0] == p then Some(0)
    else
      match Find(blocks[1..], p)
      case None => None
      case Some(i) => Some(i + 1)
  }

  /** The commands one event queues when it is decided against `snapshot`. */
  function PlanEvent(snapshot: seq<Pos>, p: Pos): (r: seq<Command<Pos>>)
    ensures IsProtected(p) ==> r == []
    ensures !IsProtected(p) && p !in snapshot ==> r == [Spawn(p)]
    ensures !IsProtected(p) && p in snapshot ==>
      exists i :: IsFirstMatch(snapshot, p, i) && r == [Despawn(i)]
  {
    if IsProtected(p) then []
    else
      match Find(snapshot, p)
      case None => [Spawn(p)]
      case Some(i) => [Despawn(i)]
  }

  /** A command that some event of `events` may queue against `snapshot`:
      a spawn of a free, unprotected target, or a despawn of the first block
      on an unprotected target. */
  predicate Justified(snapshot: seq<Pos>, events: seq<Pos>, c: Command<Pos>)
  {
    match c
    case Spawn(v) => v in events && !IsProtected(v) && v !in snapshot
    case Despawn(i) =>
      i < |snapshot| && snapshot[i] in events && !IsProtected(snapshot[i])
      && IsFirstMatch(snapshot, snapshot[i], i)
  }

  /** The commands one run of the system queues for `events`, all decided against `snapshot`. */
  function Plan(snapshot: seq<Pos>, events: seq<Pos>): (r: seq<Command<Pos>>)
    ensures |r| <= |events|
  {
    if |events| == 0 then []
    else Plan(snapshot, events[..|events| - 1]) + PlanEvent(snapshot, events[|events| - 1])
  }

  /** What one run queues: every command is a spawn of a free, unprotected
      target or a despawn of the first block on an unprotected target; every
      free, unprotected target gets a spawn and every taken one a despawn of
      its first block. */
  lemma {:induction false} PlanCommands(snapshot: seq<Pos>, events: seq<Pos>)
    ensures forall c :: c in Plan(snapshot, events) ==> Justified(snapshot, events, c)
    ensures forall e :: e in events && !IsProtected(e) && e !in snapshot ==>
      Spawn(e) in Plan(snapshot, events)
    ensures forall e :: e in events && !IsProtected(e) && e in snapshot ==>
      Despawn(Find(snapshot, e).value) in Plan(snapshot, events)
    decreases |events|
  {
    if |events| > 0 {
      var n := |events| - 1;
      var front, last := events[..n], events[n];
      var before, step := Plan(snapshot, front), PlanEvent(snapshot, last);
      PlanCommands(snapshot, front);
      assert Plan(snapshot, events) == before + step;
      assert forall e :: e in events <==> e in front || e == last by {
        assert events == front + [last];
      }
      forall c | c in before + step ensures Justified(snapshot, events, c) {
        if c in before {
          assert Justified(snapshot, front, c);
        }
      }
    }
  }

  /** One event applied to the blocks it reads: the sequential reading of the
      system, with the first block at the cell removed when there is one. */
  function ToggleOne(blocks: seq<Pos>, p: Pos): (r: seq<Pos>)
    ensures IsProtected(p) ==> r == blocks
    ensures !IsProtected(p) && p !in blocks ==> r == blocks + [p]
    ensures !IsProtected(p) && p in blocks ==>
      |r| + 1 == |blocks| &&
      exists i :: IsFirstMatch(blocks, p, i) && r[..i] == blocks[..i] && r[i..] == blocks[i + 1..]
  {
    if IsProtected(p) then blocks
    else
      match Find(blocks, p)
      case None => blocks + [p]
      case Some(i) =>
        var r := blocks[..i] + blocks[i + 1..];
        assert r[..i] == blocks[..i] && r[i..] == blocks[i + 1..];
        r
  }

  /** The sequential step is the run of the system's commands for that one event,
      applied to the blocks the event was decided against. */
  lemma ToggleOneAppliesPlan(blocks: seq<Pos>, p: Pos)
    ensures ToggleOne(blocks, p) == Apply(blocks, PlanEvent(blocks, p))
  {
    var cmds := PlanEvent(blocks, p);
    if IsProtected(p) || p !in blocks {
      assert Despawned(cmds) == {};
      SurvivorsExtremes(blocks, {});
      assert Spawned(cmds) == (if IsProtected(p) then [] else [p]) by {
        assert |cmds| == 0 || cmds[..|cmds| - 1] == [];
      }
    } else {
      var i := Find(blocks, p).value;
      assert cmds == [Despawn(i)];
      assert Despawned(cmds) == {i};
      assert Spawned(cmds) == [] by {
        assert cmds[..0] == [];
      }
      SurvivorsSingle(blocks, i);
    }
  }

  /** A toggle on an unprotected cell adds one block there when the cell is free
      and removes one when it is taken; the number of blocks on every other cell
      is unchanged. */
  lemma ToggleOneCounts(blocks: seq<Pos>, p: Pos)
    requires !IsProtected(p)
    ensures p !in blocks ==> multiset(ToggleOne(blocks, p)) == multiset(blocks) + multiset{p}
    ensures p in blocks ==> multiset(ToggleOne(blocks, p)) + multiset{p} == multiset(blocks)
  {
    if p in blocks {
      var i := Find(blocks, p).value;
      assert blocks == blocks[..i] + [p] + blocks[i + 1..];
    }
  }

  /** The blocks after one run of the system over the events `events`. */
  function ToggleBatch(snapshot: seq<Pos>, events: seq<Pos>): (r: seq<Pos>)
    ensures forall q :: IsProtected(q) ==> (q in r <==> q in snapshot)
    ensures forall q :: q in r ==> q in snapshot || q in events
    ensures forall e :: e in events && !IsProtected(e) && e !in snapshot ==> e in r
    ensures |r| <= |snapshot| + |events|
  {
    var cmds := Plan(snapshot, events);
    var r := Apply(snapshot, cmds);
    assert forall q ::
      && (IsProtected(q) ==> (q in r <==> q in snapshot))
      && (q in r ==> q in snapshot || q in events)
      && (q in events && !IsProtected(q) && q !in snapshot ==> q in r)
    by {
      forall q
        ensures IsProtected(q) ==> (q in r <==> q in snapshot)
        ensures q in r ==> q in snapshot || q in events
        ensures q in events && !IsProtected(q) && q !in snapshot ==> q in r
      {
        PlanCommands(snapshot, events);
        ApplyMembers(snapshot, cmds, q);
        assert Spawn(q) in cmds ==> Justified(snapshot, events, Spawn(q));
        assert forall i :: 0 <= i < |snapshot| && Despawn(i) in cmds ==> Justified(snapshot, events, Despawn(i));
      }
    }
    r
  }

  /** The blocks after the events are handled one after another, each seeing the
      result of the previous one. */
  function Sequential(blocks: seq<Pos>, events: seq<Pos>): (r: seq<Pos>)
    ensures forall q :: IsProtected(q) ==> (q in r <==> q in blocks)
  {
    if |events| == 0 then blocks
    else ToggleOne(Sequential(blocks, events[..|events| - 1]), events[|events| - 1])
  }

  /** A run without events leaves the blocks as they were. */
  lemma BatchOfNothing(snapshot: seq<Pos>)
    ensures ToggleBatch(snapshot, []) == snapshot
  {
    assert Plan(snapshot, []) == [];
    assert Despawned<Pos>([]) == {};
    SurvivorsExtremes(snapshot, {});
  }

  /** A run with a single event is the sequential step on that event. */
  lemma SingleEventBatch(snapshot: seq<Pos>, e: Pos)
    ensures ToggleBatch(snapshot, [e]) == ToggleOne(snapshot, e)
  {
    assert [e][..0] == [];
    ToggleOneAppliesPlan(snapshot, e);
  }

  /** On blocks without duplicates, a toggle on an unprotected cell flips that
      cell's membership, keeps every other cell's membership, and keeps the
      blocks free of duplicates. */
  lemma ToggleOneFlips(blocks: seq<Pos>, p: Pos)
    requires Distinct(blocks) && !IsProtected(p)
    ensures p in ToggleOne(blocks, p) <==> p !in blocks
    ensures forall q :: q != p ==> (q in ToggleOne(blocks, p) <==> q in blocks)
    ensures Distinct(ToggleOne(blocks, p))
  {
    if p in blocks {
      CutOut(blocks, Find(blocks, p).value);
    }
  }

  /** Cutting one entry out of a sequence without duplicates removes exactly
      that entry's value and leaves no duplicates. */
  lemma CutOut(s: seq<Pos>, i: nat)
    requires Distinct(s) && i < |s|
    ensures forall q :: q in s[..i] + s[i + 1..] <==> q in s && q != s[i]
    ensures Distinct(s[..i] + s[i + 1..])
  {
    var r := s[..i] + s[i + 1..];
    assert forall k :: 0 <= k < |r| ==> r[k] == (if k < i then s[k] else s[k + 1]);
    assert forall q :: q != s[i] && q in s ==> q in r by {
      forall q | q != s[i] && q in s ensures q in r {
        var k :| 0 <= k < |s| && s[k] == q;
        if k < i { assert r[k] == q; } else { assert r[k - 1] == q; }
      }
    }
  }

  /** Two toggles of the same cell, one after the other, restore the block
      contents; when the cell starts free they restore the blocks exactly. */
  lemma ToggleTwiceRestores(blocks: seq<Pos>, p: Pos)
    requires Distinct(blocks)
    ensures multiset(ToggleOne(ToggleOne(blocks, p), p)) == multiset(blocks)
    ensures p !in blocks ==> ToggleOne(ToggleOne(blocks, p), p) == blocks
  {
    if !IsProtected(p) {
      var once := ToggleOne(blocks, p);
      ToggleOneFlips(blocks, p);
      ToggleOneCounts(blocks, p);
      ToggleOneCounts(once, p);
      if p !in blocks {
        ToggleTwiceFromFree(blocks, p);
      }
    }
  }

  /** On any blocks, two sequential toggles of a free cell restore the blocks
      exactly: the first appends a block at the end, the second removes it. */
  lemma ToggleTwiceFromFree(blocks: seq<Pos>, p: Pos)
    requires p !in blocks
    ensures ToggleOne(ToggleOne(blocks, p), p) == blocks
  {
    if !IsProtected(p) {
      var once := ToggleOne(blocks, p);
      assert Find(once, p) == Some(|blocks|) by {
        assert IsFirstMatch(once, p, |blocks|);
      }
      assert once[..|blocks|] == blocks;
    }
  }

  /** Two toggles of one free cell in the same run both see the cell free, so
      both spawn a block there: a run does not behave like the sequential
      reading when a cell repeats. */
  lemma SameCellTwiceInOneRun()
    ensures ToggleBatch([], [Pos(1, 1), Pos(1, 1)]) == [Pos(1, 1), Pos(1, 1)]
    ensures Sequential([], [Pos(1, 1), Pos(1, 1)]) == []
  {
    RepeatedCellRun(Pos(1, 1));
    RepeatedCellSequential(Pos(1, 1));
  }

  /** A run with two events for one cell on empty blocks spawns two blocks there. */
  lemma RepeatedCellRun(c: Pos)
    requires !IsProtected(c)
    ensures ToggleBatch([], [c, c]) == [c, c]
  {
    var one: seq<Command<Pos>> := [Spawn(c)];
    assert Spawned(one + one) == [c, c] by {
      assert one[..0] == [];
      SpawnedConcat(one, one);
    }
    RepeatedCellPlan(c);
    assert Plan([], [c, c]) == one + one;
    assert ToggleBatch([], [c, c]) == Survivors([], Despawned(one + one)) + Spawned(one + one);
  }

  /** Two events for one free cell queue two spawns of it. */
  lemma RepeatedCellPlan(c: Pos)
    requires !IsProtected(c)
    ensures Plan([], [c, c]) == [Spawn(c), Spawn(c)]
  {
    var one: seq<Command<Pos>> := [Spawn(c)];
    assert Plan([], [c]) == one by {
      assert [c][..0] == [];
    }
    assert [c, c][..1] == [c];
  }

  /** Two sequential toggles of one cell on empty blocks leave no block. */
  lemma RepeatedCellSequential(c: Pos)
    requires !IsProtected(c)
    ensures Sequential([], [c, c]) == []
  {
    assert [c, c][..1] == [c];
    assert [c][..0] == [];
    assert Sequential([], [c]) == [c];
    assert [c][..0] + [c][1..] == [];
  }

  /** Counts of cells that no event targets are untouched by sequential handling. */
  lemma {:induction false} SequentialKeepsOthers(blocks: seq<Pos>, events: seq<Pos>, q: Pos)
    requires q !in events
    ensures multiset(Sequential(blocks, events))[q] == multiset(blocks)[q]
    decreases |events|
  {
    if |events| > 0 {
      var n := |events| - 1;
      assert events[n] in events;
      assert forall e :: e in events[..n] ==> e in events;
      SequentialKeepsOthers(blocks, events[..n], q);
      if !IsProtected(events[n]) {
        ToggleOneCounts(Sequential(blocks, events[..n]), events[n]);
      }
    }
  }

  /** When the events of a run target distinct cells, deciding them all against
      one snapshot leaves the same blocks, up to order, as handling them one
      after another. */
  lemma {:induction false} DistinctRunIsSequential(snapshot: seq<Pos>, events: seq<Pos>)
    requires Distinct(events)
    ensures multiset(ToggleBatch(snapshot, events)) == multiset(Sequential(snapshot, events))
    decreases |events|
  {
    if |events| > 0 {
      var n := |events| - 1;
      var front := events[..n];
      assert Distinct(front);
      DistinctRunIsSequential(snapshot, front);
      RunStep(snapshot, events);
    } else {
      BatchOfNothing(snapshot);
    }
  }

  /** What the commands of one event despawn and spawn. */
  lemma PlanEventEffects(snapshot: seq<Pos>, p: Pos)
    ensures Despawned(PlanEvent(snapshot, p))
         == (if !IsProtected(p) && p in snapshot then {Find(snapshot, p).value} else {})
    ensures Spawned(PlanEvent(snapshot, p))
         == (if !IsProtected(p) && p !in snapshot then [p] else [])
  {
    var step := PlanEvent(snapshot, p);
    assert |step| == 0 || step[..0] == [];
  }

  /** A run over one more event: its despawns and spawns join those of the shorter run. */
  lemma BatchExtend(snapshot: seq<Pos>, events: seq<Pos>)
    requires |events| > 0
    ensures var n := |events| - 1;
      var before := Plan(snapshot, events[..n]);
      var step := PlanEvent(snapshot, events[n]);
      ToggleBatch(snapshot, events)
        == Survivors(snapshot, Despawned(before) + Despawned(step)) + Spawned(before) + Spawned(step)
  {
    var n := |events| - 1;
    var before := Plan(snapshot, events[..n]);
    var step := PlanEvent(snapshot, events[n]);
    assert ToggleBatch(snapshot, events) == Apply(snapshot, before + step) by {
      assert Plan(snapshot, events) == before + step;
    }
    ApplyConcat(snapshot, before, step);
  }

  /** The inductive step of DistinctRunIsSequential: adding the last event. */
  lemma RunStep(snapshot: seq<Pos>, events: seq<Pos>)
    requires |events| > 0 && Distinct(events)
    requires multiset(ToggleBatch(snapshot, events[..|events| - 1]))
          == multiset(Sequential(snapshot, events[..|events| - 1]))
    ensures multiset(ToggleBatch(snapshot, events)) == multiset(Sequential(snapshot, events))
  {
    var n := |events| - 1;
    var front, x := events[..n], events[n];
    assert x !in front;
    var before := Plan(snapshot, front);
    var dead, born := Despawned(before), Spawned(before);
    var seqBefore := Sequential(snapshot, front);
    var batch := ToggleBatch(snapshot, events);
    var step := PlanEvent(snapshot, x);
    assert multiset(Survivors(snapshot, dead) + born) == multiset(seqBefore) by {
      assert ToggleBatch(snapshot, front) == Survivors(snapshot, dead) + born;
    }
    assert Sequential(snapshot, events) == ToggleOne(seqBefore, x);
    assert batch == Survivors(snapshot, dead + Despawned(step)) + born + Spawned(step) by {
      BatchExtend(snapshot, events);
    }
    assert multiset(seqBefore)[x] == multiset(snapshot)[x] by {
      SequentialKeepsOthers(snapshot, front, x);
    }
    assert !IsProtected(x) && x in snapshot ==> Find(snapshot, x).value !in dead by {
      if !IsProtected(x) && x in snapshot {
        var i := Find(snapshot, x).value;
        PlanCommands(snapshot, front);
        assert Despawn(i) in before ==> Justified(snapshot, front, Despawn(i));
      }
    }
    EventStep(snapshot, x, dead, born, seqBefore);
  }

  /** One more event on top of a run whose result matches the sequential one:
      the event's commands change the run's result as the sequential toggle
      changes the sequential result. */
  lemma EventStep(snapshot: seq<Pos>, x: Pos, dead: set<nat>, born: seq<Pos>, blocks: seq<Pos>)
    requires multiset(Survivors(snapshot, dead) + born) == multiset(blocks)
    requires multiset(blocks)[x] == multiset(snapshot)[x]
    requires !IsProtected(x) && x in snapshot ==> Find(snapshot, x).value !in dead
    ensures var step := PlanEvent(snapshot, x);
      multiset(Survivors(snapshot, dead + Despawned(step)) + born + Spawned(step))
        == multiset(ToggleOne(blocks, x))
  {
    PlanEventEffects(snapshot, x);
    if IsProtected(x) {
      assert dead + {} == dead;
    } else if x !in snapshot {
      assert dead + {} == dead;
      SpawnStep(Survivors(snapshot, dead) + born, blocks, x);
    } else {
      DespawnStep(snapshot, dead, Find(snapshot, x).value, born, blocks);
    }
  }

  /** Spawning a block on a free cell matches the sequential toggle of that cell. */
  lemma SpawnStep(batch: seq<Pos>, blocks: seq<Pos>, x: Pos)
    requires !IsProtected(x) && multiset(blocks)[x] == 0
    requires multiset(batch) == multiset(blocks)
    ensures multiset(batch + [x]) == multiset(ToggleOne(blocks, x))
  {
    ToggleOneCounts(blocks, x);
  }

  /** Despawning the first block on a taken cell matches the sequential toggle of that cell. */
  lemma DespawnStep(snapshot: seq<Pos>, dead: set<nat>, i: nat, born: seq<Pos>, blocks: seq<Pos>)
    requires i < |snapshot| && i !in dead && !IsProtected(snapshot[i])
    requires multiset(blocks)[snapshot[i]] == multiset(snapshot)[snapshot[i]]
    requires multiset(Survivors(snapshot, dead) + born) == multiset(blocks)
    ensures multiset(Survivors(snapshot, dead + {i}) + born) == multiset(ToggleOne(blocks, snapshot[i]))
  {
    var x := snapshot[i];
    assert x in blocks by {
      assert x in snapshot;
    }
    ToggleOneCounts(blocks, x);
    SurvivorsDespawnOne(snapshot, dead, i);
    MultisetCancel(multiset(Survivors(snapshot, dead)), multiset(Survivors(snapshot, dead + {i})),
      multiset(born), multiset(blocks), multiset(ToggleOne(blocks, x)), x);
  }

  /** Removing the same element from both sides of a sum. */
  lemma MultisetCancel<T>(a: multiset<T>, a': multiset<T>, b: multiset<T>, c: multiset<T>, c': multiset<T>, x: T)
    requires a == a' + multiset{x} && a + b == c && c' + multiset{x} == c
    ensures a' + b == c'
  {
    forall v ensures (a' + b)[v] == c'[v] {
      assert a[v] == a'[v] + multiset{x}[v];
      assert c[v] == a[v] + b[v];
      assert c[v] == c'[v] + multiset{x}[v];
    }
  }

  /** The entities one run despawns: exactly the first block on each taken,
      unprotected target cell. */
  lemma PlanDespawns(snapshot: seq<Pos>, events: seq<Pos>, i: nat)
    ensures i in Despawned(Plan(snapshot, events)) <==>
      i < |snapshot| && snapshot[i] in events && !IsProtected(snapshot[i])
      && IsFirstMatch(snapshot, snapshot[i], i)
  {
    var cmds := Plan(snapshot, events);
    PlanCommands(snapshot, events);
    if i in Despawned(cmds) {
      assert Justified(snapshot, events, Despawn(i));
    }
    if i < |snapshot| && snapshot[i] in events && !IsProtected(snapshot[i])
      && IsFirstMatch(snapshot, snapshot[i], i)
    {
      assert Find(snapshot, snapshot[i]).value == i;
    }
  }

  /** How many blocks one run spawns on a cell: one per event for a free,
      unprotected cell, and none otherwise. */
  lemma {:induction false} PlanSpawnCount(snapshot: seq<Pos>, events: seq<Pos>, q: Pos)
    ensures multiset(Spawned(Plan(snapshot, events)))[q]
         == if !IsProtected(q) && q !in snapshot then multiset(events)[q] else 0
    decreases |events|
  {
    if |events| > 0 {
      var n := |events| - 1;
      var front, e := events[..n], events[n];
      assert events == front + [e];
      PlanSpawnCount(snapshot, front, q);
      PlanSpawnedLast(snapshot, events);
      var step: seq<Pos> := if !IsProtected(e) && e !in snapshot then [e] else [];
      SpawnCountStep(snapshot, Spawned(Plan(snapshot, events)), Spawned(Plan(snapshot, front)),
        step, events, front, e, q);
    }
  }

  /** The spawns of a run are those of the run without its last event, then the
      last event's own spawn. */
  lemma PlanSpawnedLast(snapshot: seq<Pos>, events: seq<Pos>)
    requires |events| > 0
    ensures var n := |events| - 1;
      var e := events[n];
      Spawned(Plan(snapshot, events))
        == Spawned(Plan(snapshot, events[..n])) + if !IsProtected(e) && e !in snapshot then [e] else []
  {
    var n := |events| - 1;
    var before, step := Plan(snapshot, events[..n]), PlanEvent(snapshot, events[n]);
    SpawnedConcat(before, step);
    PlanEventEffects(snapshot, events[n]);
  }

  /** The inductive step of PlanSpawnCount: one more event adds its own spawn. */
  lemma SpawnCountStep(snapshot: seq<Pos>, whole: seq<Pos>, before: seq<Pos>, step: seq<Pos>,
                       events: seq<Pos>, front: seq<Pos>, e: Pos, q: Pos)
    requires whole == before + step && events == front + [e]
    requires step == if !IsProtected(e) && e !in snapshot then [e] else []
    requires multiset(before)[q] == if !IsProtected(q) && q !in snapshot then multiset(front)[q] else 0
    ensures multiset(whole)[q] == if !IsProtected(q) && q !in snapshot then multiset(events)[q] else 0
  {
  }

  /** The number of blocks on every cell after one run. A protected or
      untargeted cell keeps its count; a taken target loses exactly one block,
      however many events name it; a free target gains one block per event. */
  lemma BatchCounts(snapshot: seq<Pos>, events: seq<Pos>, q: Pos)
    ensures multiset(ToggleBatch(snapshot, events))[q]
         == if IsProtected(q) || q !in events then multiset(snapshot)[q]
            else if q in snapshot then multiset(snapshot)[q] - 1
            else multiset(events)[q]
  {
    var cmds := Plan(snapshot, events);
    var dead := Despawned(cmds);
    assert multiset(ToggleBatch(snapshot, events))[q]
        == multiset(Survivors(snapshot, dead))[q] + multiset(Spawned(cmds))[q] by {
      assert ToggleBatch(snapshot, events) == Survivors(snapshot, dead) + Spawned(cmds);
    }
    PlanSpawnCount(snapshot, events, q);
    forall j | 0 <= j < |snapshot|
      ensures j in dead <==>
        (snapshot[j] in events && !IsProtected(snapshot[j]) && IsFirstMatch(snapshot, snapshot[j], j))
    {
      PlanDespawns(snapshot, events, j);
    }
    if !IsProtected(q) && q in events && q in snapshot {
      var i := Find(snapshot, q).value;
      SurvivorsLoseOne(snapshot, dead, i, q);
    } else {
      SurvivorsKeepCount(snapshot, dead, q);
    }
  }

  /** Which cells carry a block after one run: an untargeted cell keeps its
      membership; an unprotected target is blocked afterwards exactly when it
      was free, or carried two or more blocks. */
  lemma BatchMembership(snapshot: seq<Pos>, events: seq<Pos>, q: Pos)
    ensures q !in events ==> (q in ToggleBatch(snapshot, events) <==> q in snapshot)
    ensures !IsProtected(q) && q in events ==>
      (q in ToggleBatch(snapshot, events) <==> q !in snapshot || multiset(snapshot)[q] >= 2)
  {
    BatchCounts(snapshot, events, q);
  }
}

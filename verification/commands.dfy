/**
 Deferred world edits. The game's systems never change the entity store
 while they read it: they queue spawns and despawns on a command buffer,
 and the buffer is applied after the system has returned. Entities of one
 component kind are modelled as a sequence of their component values, in
 query order; an entity is named by its index in that sequence at the time
 the commands were queued. The store does not fix query order; by
 convention survivors keep their relative order and newly spawned entities
 follow them in the order of their spawn commands. Only the membership and
 count facts below are independent of that convention.
 */
module Commands {

  /** One queued edit: create an entity carrying `value`, or remove entity `entity`. */
  datatype Command<T> = Spawn(value: T) | Despawn(entity: nat)

  /** The entities that some command of the buffer despawns. Despawning an entity
      twice is the same as despawning it once. */
  function Despawned<T(==,!new)>(cmds: seq<Command<T>>): (dead: set<nat>)
    ensures forall i: nat :: i in dead <==> Despawn(i) in cmds
  {
    set k | 0 <= k < |cmds| && cmds[k].Despawn? :: cmds[k].entity
  }

  /** The values carried by the spawn commands, in buffer order. */
  function Spawned<T(==,!new)>(cmds: seq<Command<T>>): (born: seq<T>)
    ensures |born| <= |cmds|
  {
    if |cmds| == 0 then []
    else
      var last := cmds[|cmds| - 1];
      Spawned(cmds[..|cmds| - 1]) + (if last.Spawn? then [last.value] else [])
  }

  /** The entities of `live` whose index is not in `dead`, in their original order. */
  function Survivors<T(!new)>(live: seq<T>, dead: set<nat>): (r: seq<T>)
    ensures |r| <= |live|
  {
    if |live| == 0 then []
    else
      var n := |live| - 1;
      Survivors(live[..n], dead) + (if n in dead then [] else [live[n]])
  }

  /** The store after the buffer `cmds`, queued against `live`, has been applied. */
  function Apply<T(==,!new)>(live: seq<T>, cmds: seq<Command<T>>): (r: seq<T>)
    ensures |r| <= |live| + |cmds|
    ensures Despawned(cmds) == {} ==> r == live + Spawned(cmds)
    ensures (forall i :: 0 <= i < |live| ==> Despawn(i) in cmds) ==> r == Spawned(cmds)
  {
    SurvivorsExtremes(live, Despawned(cmds));
    Survivors(live, Despawned(cmds)) + Spawned(cmds)
  }

  /** Despawning no entity of the store keeps all of it; despawning every entity
      empties it. */
  lemma {:induction false} SurvivorsExtremes<T(!new)>(live: seq<T>, dead: set<nat>)
    ensures (forall i :: 0 <= i < |live| ==> i !in dead) ==> Survivors(live, dead) == live
    ensures (forall i :: 0 <= i < |live| ==> i in dead) ==> Survivors(live, dead) == []
    decreases |live|
  {
    if |live| > 0 {
      var n := |live| - 1;
      SurvivorsExtremes(live[..n], dead);
      assert live == live[..n] + [live[n]];
    }
  }

  /** A value is spawned exactly when some command of the buffer spawns it. */
  lemma {:induction false} SpawnedMembers<T(!new)>(cmds: seq<Command<T>>, v: T)
    ensures v in Spawned(cmds) <==> Spawn(v) in cmds
    decreases |cmds|
  {
    if |cmds| > 0 {
      var n := |cmds| - 1;
      SpawnedMembers(cmds[..n], v);
      assert cmds == cmds[..n] + [cmds[n]];
    }
  }

  /** A value survives exactly when some entity carrying it is not despawned. */
  lemma {:induction false} SurvivorsMembers<T(!new)>(live: seq<T>, dead: set<nat>, v: T)
    ensures v in Survivors(live, dead) <==> exists i :: 0 <= i < |live| && i !in dead && live[i] == v
    decreases |live|
  {
    if |live| > 0 {
      var n := |live| - 1;
      var front := live[..n];
      var tail: seq<T> := if n in dead then [] else [live[n]];
      assert Survivors(live, dead) == Survivors(front, dead) + tail;
      SurvivorsMembers(front, dead, v);
      if exists i :: 0 <= i < |live| && i !in dead && live[i] == v {
        var i :| 0 <= i < |live| && i !in dead && live[i] == v;
        if i < n {
          assert front[i] == v;
        } else {
          assert v in tail;
        }
      }
      if v in Survivors(front, dead) {
        var i :| 0 <= i < n && i !in dead && front[i] == v;
        assert live[i] == v;
      }
    }
  }

  /** A value is in the store after the buffer is applied exactly when an entity
      carrying it was not despawned or a command spawned it. */
  lemma ApplyMembers<T(!new)>(live: seq<T>, cmds: seq<Command<T>>, v: T)
    ensures v in Apply(live, cmds) <==>
      (exists i :: 0 <= i < |live| && Despawn(i) !in cmds && live[i] == v) || Spawn(v) in cmds
  {
    SurvivorsMembers(live, Despawned(cmds), v);
    SpawnedMembers(cmds, v);
  }

  /** Despawning one more entity removes exactly one copy of its value. */
  lemma {:induction false} SurvivorsDespawnOne<T(!new)>(live: seq<T>, dead: set<nat>, i: nat)
    requires i < |live| && i !in dead
    ensures multiset(Survivors(live, dead)) == multiset(Survivors(live, dead + {i})) + multiset{live[i]}
    decreases |live|
  {
    var n := |live| - 1;
    if i < n {
      SurvivorsDespawnOne(live[..n], dead, i);
      SurvivorsStep(live, dead, i);
    } else {
      SurvivorsIgnoresOutOfRange(live[..n], dead, i);
      assert Survivors(live, dead) == Survivors(live, dead + {i}) + [live[i]];
    }
  }

  /** The inductive step of SurvivorsDespawnOne: the last entity is kept or
      dropped alike on both sides. */
  lemma SurvivorsStep<T(!new)>(live: seq<T>, dead: set<nat>, i: nat)
    requires i < |live| - 1 && i !in dead
    requires multiset(Survivors(live[..|live| - 1], dead))
          == multiset(Survivors(live[..|live| - 1], dead + {i})) + multiset{live[i]}
    ensures multiset(Survivors(live, dead)) == multiset(Survivors(live, dead + {i})) + multiset{live[i]}
  {
    var n := |live| - 1;
    var tail: seq<T> := if n in dead then [] else [live[n]];
    assert (n in dead + {i}) == (n in dead);
    ConcatStep(Survivors(live, dead), Survivors(live, dead + {i}),
      Survivors(live[..n], dead), Survivors(live[..n], dead + {i}), tail, live[i]);
  }

  /** Appending the same tail to two sequences whose elements differ by one copy of `x`. */
  lemma ConcatStep<T>(s1: seq<T>, s2: seq<T>, a: seq<T>, b: seq<T>, tail: seq<T>, x: T)
    requires s1 == a + tail && s2 == b + tail
    requires multiset(a) == multiset(b) + multiset{x}
    ensures multiset(s1) == multiset(s2) + multiset{x}
  {
    AddBoth(multiset(a), multiset(b), multiset(tail), multiset{x});
  }

  /** Despawns that hit no entity carrying `q` keep every copy of `q`. */
  lemma {:induction false} SurvivorsKeepCount<T(!new)>(live: seq<T>, dead: set<nat>, q: T)
    requires forall i :: 0 <= i < |live| && i in dead ==> live[i] != q
    ensures multiset(Survivors(live, dead))[q] == multiset(live)[q]
    decreases |live|
  {
    if |live| > 0 {
      var n := |live| - 1;
      assert live == live[..n] + [live[n]];
      var tail: seq<T> := if n in dead then [] else [live[n]];
      assert multiset(tail)[q] == multiset([live[n]])[q] by {
        if n in dead {
          assert live[n] != q;
        }
      }
      SurvivorsKeepCount(live[..n], dead, q);
      CountStep(Survivors(live, dead), Survivors(live[..n], dead), tail, live, live[..n], live[n], q);
    }
  }

  /** Despawns that hit exactly one entity carrying `q` remove one copy of `q`. */
  lemma SurvivorsLoseOne<T(!new)>(live: seq<T>, dead: set<nat>, i: nat, q: T)
    requires i < |live| && i in dead && live[i] == q
    requires forall j :: 0 <= j < |live| && j in dead && j != i ==> live[j] != q
    ensures multiset(Survivors(live, dead))[q] == multiset(live)[q] - 1
  {
    var rest := dead - {i};
    assert rest + {i} == dead;
    SurvivorsDespawnOne(live, rest, i);
    SurvivorsKeepCount(live, rest, q);
  }

  /** The count of `q` after appending the same contribution on both sides. */
  lemma CountStep<T>(s1: seq<T>, a: seq<T>, tail: seq<T>, l: seq<T>, front: seq<T>, last: T, q: T)
    requires s1 == a + tail && l == front + [last]
    requires multiset(a)[q] == multiset(front)[q]
    requires multiset(tail)[q] == multiset([last])[q]
    ensures multiset(s1)[q] == multiset(l)[q]
  {
  }

  /** Adding the same elements to both sides of a sum. */
  lemma AddBoth<T>(a: multiset<T>, b: multiset<T>, t: multiset<T>, x: multiset<T>)
    requires a == b + x
    ensures a + t == b + t + x
  {
    forall v ensures (a + t)[v] == (b + t + x)[v] {
      assert a[v] == b[v] + x[v];
    }
  }

  /** Indices beyond the end of the store do not matter. */
  lemma {:induction false} SurvivorsIgnoresOutOfRange<T(!new)>(live: seq<T>, dead: set<nat>, i: nat)
    requires |live| <= i
    ensures Survivors(live, dead) == Survivors(live, dead + {i})
    decreases |live|
  {
    if |live| > 0 {
      SurvivorsIgnoresOutOfRange(live[..|live| - 1], dead, i);
    }
  }

  /** Despawning one entity of an otherwise untouched store cuts out exactly that entity. */
  lemma {:induction false} SurvivorsSingle<T(!new)>(live: seq<T>, i: nat)
    requires i < |live|
    ensures Survivors(live, {i}) == live[..i] + live[i + 1..]
    decreases |live|
  {
    var n := |live| - 1;
    if i < n {
      SurvivorsSingle(live[..n], i);
      assert live[..n][..i] == live[..i];
      assert live[..n][i + 1..] + [live[n]] == live[i + 1..];
    } else {
      assert Survivors(live[..n], {i}) == live[..n] by {
        SurvivorsExtremes(live[..n], {i});
      }
    }
  }

  /** The spawns of two buffers, one after the other. */
  lemma {:induction false} SpawnedConcat<T(!new)>(a: seq<Command<T>>, b: seq<Command<T>>)
    ensures Spawned(a + b) == Spawned(a) + Spawned(b)
    decreases |b|
  {
    if |b| == 0 {
      assert a + b == a;
    } else {
      var n := |b| - 1;
      assert (a + b)[..|a + b| - 1] == a + b[..n];
      SpawnedConcat(a, b[..n]);
    }
  }

  /** Two buffers applied as one: the despawns of both, then the spawns of the
      first followed by those of the second. */
  lemma ApplyConcat<T(!new)>(live: seq<T>, a: seq<Command<T>>, b: seq<Command<T>>)
    ensures Apply(live, a + b)
         == Survivors(live, Despawned(a) + Despawned(b)) + Spawned(a) + Spawned(b)
  {
    SpawnedConcat(a, b);
    DespawnedConcat(a, b);
  }

  /** The despawns of two buffers, one after the other. */
  lemma DespawnedConcat<T(!new)>(a: seq<Command<T>>, b: seq<Command<T>>)
    ensures Despawned(a + b) == Despawned(a) + Despawned(b)
  {
    forall i: nat
      ensures i in Despawned(a + b) <==> i in Despawned(a) + Despawned(b)
    {
      assert Despawn(i) in a + b <==> Despawn(i) in a || Despawn(i) in b;
    }
  }
}

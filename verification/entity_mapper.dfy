/** `EntityMapper`: a session over an `EntityMap` that can mint placeholder entities for foreign
    entities with no local counterpart. Each placeholder sits at the slot of a base entity
    spawned when the session opens (`deadStart`). Its generation is the base generation plus
    the number of placeholders minted before it (`generations`). Closing the session (`Save`)
    despawns the base and reserves those generations, so after `Save` no placeholder is ever
    live. (Before that, the first placeholder is the live base itself.) */
module EntityMappers {
  import opened Wrappers
  import opened Entities
  import opened Arena
  import EntityMaps

  datatype EntityMapper = EntityMapper(table: EntityMaps.EntityMap, deadStart: Entity, generations: nat)

  /** The `k`-th placeholder a session based at `base` mints. */
  function Placeholder(base: Entity, k: nat): Entity
  {
    Entity(base.index, base.generation + k)
  }

  /** The run of the first `n` placeholders of a session based at `base`. */
  function Run(base: Entity, n: nat): (r: seq<Entity>)
    ensures forall i, j :: 0 <= i < j < |r| ==> r[i] != r[j]
    ensures forall i :: 0 <= i < |r| ==> r[i].index == base.index
    ensures forall i :: 0 < i < |r| ==> r[i].generation == r[i - 1].generation + 1
    ensures |r| > 0 ==> r[0] == base
  {
    seq(n, k requires 0 <= k < n => Placeholder(base, k))
  }

  /** Minting one more placeholder neither overflows the `u32` generation sum nor the `u32`
      counter. */
  predicate CanMint(m: EntityMapper)
  {
    IsU32(m.deadStart.generation + m.generations) && IsU32(m.generations + 1)
  }

  /** `EntityMapper::new`: spawns the temporary base entity; nothing is minted yet. */
  function New(table: EntityMaps.EntityMap, w: World): (r: (EntityMapper, World))
    ensures r.0.table == table && r.0.generations == 0
    ensures Live(r.1, r.0.deadStart) && !Live(w, r.0.deadStart)
    ensures LiveCount(r.1) == LiveCount(w) + 1
  {
    var (w', base) := SpawnEmpty(w);
    (EntityMapper(table, base, 0), w')
  }

  /** `get_map`: the wrapped map. */
  function GetMap(m: EntityMapper): EntityMaps.EntityMap
  {
    m.table
  }

  /** `get_map_mut`: a bulk edit of the wrapped map; it mints nothing and keeps the base. */
  function GetMapMut(m: EntityMapper, edit: EntityMaps.EntityMap -> EntityMaps.EntityMap): (r: EntityMapper)
    ensures r.deadStart == m.deadStart && r.generations == m.generations
    ensures GetMap(r) == edit(GetMap(m))
  {
    EntityMapper(edit(m.table), m.deadStart, m.generations)
  }

  /** `EntityMapper::get`: the strict lookup of the wrapped map. */
  function Get(m: EntityMapper, e: Entity): (r: Result<Entity, EntityMaps.MapEntitiesError>)
    ensures r == EntityMaps.Get(GetMap(m), e)
    ensures r.Success? <==> e in m.table.entries
    ensures r.Failure? ==> r.error == EntityMaps.EntityNotFound(e)
  {
    EntityMaps.Get(m.table, e)
  }

  /** `get_or_alloc(e)`: the existing mapping of `e`, or else a newly minted placeholder,
      which is recorded as the mapping of `e`. */
  function GetOrAlloc(m: EntityMapper, e: Entity): (r: (EntityMapper, Entity))
    requires e in m.table.entries || CanMint(m)
    ensures e in m.table.entries ==> r.1 == m.table.entries[e] && r.0 == m
    ensures e !in m.table.entries ==>
              && r.1.index == m.deadStart.index
              && r.1.generation == m.deadStart.generation + m.generations
              && r.0.generations == m.generations + 1
    ensures e !in m.table.entries && ValidEntity(m.deadStart) ==> ValidEntity(r.1)
    ensures r.0.deadStart == m.deadStart
    ensures e in r.0.table.entries && r.0.table.entries[e] == r.1
    ensures forall k :: k != e ==> (k in r.0.table.entries <==> k in m.table.entries)
    ensures forall k :: k in m.table.entries ==> r.0.table.entries[k] == m.table.entries[k]
    ensures EntityMaps.Len(r.0.table) == EntityMaps.Len(m.table) + (if e in m.table.entries then 0 else 1)
  {
    match EntityMaps.Get(m.table, e)
    case Success(mapped) => (m, mapped)
    case Failure(_) =>
      var minted := Placeholder(m.deadStart, m.generations);
      var (table', _) := EntityMaps.Insert(m.table, e, minted);
      (EntityMapper(table', m.deadStart, m.generations + 1), minted)
  }

  /** While the session is open, the first placeholder minted is the base entity itself, which
      is live: the "never points to a living entity" promise only holds once `Save` has run. */
  lemma FirstPlaceholderIsLiveBase(table: EntityMaps.EntityMap, w: World, e: Entity)
    requires e !in table.entries && CanMint(New(table, w).0)
    ensures GetOrAlloc(New(table, w).0, e).1 == New(table, w).0.deadStart
    ensures Live(New(table, w).1, GetOrAlloc(New(table, w).0, e).1)
  {
  }

  /** Asking twice for the same key yields the same entity and the second call changes nothing. */
  lemma GetOrAllocIdempotent(m: EntityMapper, e: Entity)
    requires e in m.table.entries || CanMint(m)
    ensures GetOrAlloc(GetOrAlloc(m, e).0, e) == GetOrAlloc(m, e)
  {
  }

  /** The world call that closes a session: a plain despawn of the base when nothing was
      minted, and otherwise a reservation of exactly `generations` generations at the base. */
  function SaveCall(m: EntityMapper): (op: WorldOp)
    ensures !op.SpawnOp? && op.target == m.deadStart
    ensures op.DespawnOp? <==> m.generations == 0
    ensures op.ReserveOp? ==> op.count == m.generations
  {
    if m.generations == 0 then DespawnOp(m.deadStart) else ReserveOp(m.deadStart, m.generations)
  }

  /** `save`: performs the closing world call; `None` is the panic of the failed `assert!`, which
      happens exactly when the base is no longer live. On success the base is dead and its slot
      stores a generation above every minted placeholder. */
  function Save(m: EntityMapper, w: World): (r: Option<World>)
    ensures r.Some? <==> Live(w, m.deadStart)
    ensures r.Some? ==> !Live(r.value, m.deadStart) && LiveCount(r.value) + 1 == LiveCount(w)
    ensures r.Some? ==>
              && |r.value.slots| == |w.slots|
              && r.value.slots[m.deadStart.index].generation == m.deadStart.generation + m.generations + 1
              && forall i :: 0 <= i < |w.slots| && i != m.deadStart.index ==> r.value.slots[i] == w.slots[i]
  {
    var (w', ok) := Perform(w, SaveCall(m));
    if ok then Some(w') else None
  }

  /** After a successful save, no later history of the world ever makes a placeholder of the
      session (or any older generation of the base slot) live again. */
  lemma {:induction false} SavedPlaceholdersNeverLive(m: EntityMapper, w: World, ops: seq<WorldOp>, e: Entity)
    requires Save(m, w).Some?
    requires e.index == m.deadStart.index && e.generation <= m.deadStart.generation + m.generations
    ensures !Live(Apply(Save(m, w).value, ops), e)
  {
    OlderGenerationsStayDead(Save(m, w).value, ops, e);
  }

  /** Nor does any later `spawn_empty` return one of them. */
  lemma {:induction false} SpawnAfterSaveAvoidsPlaceholders(m: EntityMapper, w: World, w1: World, ops: seq<WorldOp>, k: nat)
    requires Save(m, w) == Some(w1)
    requires k < m.generations
    ensures SpawnEmpty(Apply(w1, ops)).1 != Placeholder(m.deadStart, k)
  {
    var w2 := Apply(w1, ops);
    ApplyGrows(w1, ops);
    var e := SpawnEmpty(w2).1;
    if e.index == m.deadStart.index {
      assert e.generation == w2.slots[e.index].generation;
    }
  }

  /** What a run of `get_or_alloc` calls leaves behind: the final mapper, the entity returned
      for each key, and the placeholders minted on the way, in minting order. */
  datatype Session = Session(mapper: EntityMapper, returned: seq<Entity>, minted: seq<Entity>)

  /** Room for `n` more placeholders without `u32` overflow. */
  predicate Headroom(m: EntityMapper, n: nat)
  {
    m.deadStart.generation + m.generations + n <= U32_LIMIT && m.generations + n < U32_LIMIT
  }

  /** Calls `get_or_alloc` on each key in turn. A key that was unmapped when its call came
      contributes the returned entity to `minted`. */
  function RunSession(m: EntityMapper, keys: seq<Entity>): (s: Session)
    requires Headroom(m, |keys|)
    ensures |s.returned| == |keys| && |s.minted| <= |keys|
    ensures s.mapper.deadStart == m.deadStart
    ensures s.mapper.generations == m.generations + |s.minted|
    ensures EntityMaps.Len(s.mapper.table) == EntityMaps.Len(m.table) + |s.minted|
    decreases |keys|
  {
    if |keys| == 0 then Session(m, [], [])
    else
      var (m1, e) := GetOrAlloc(m, keys[0]);
      var rest := RunSession(m1, keys[1..]);
      var mintedHere := if keys[0] in m.table.entries then [] else [e];
      Session(rest.mapper, [e] + rest.returned, mintedHere + rest.minted)
  }

  /** The placeholders a session mints are the next stretch of the run at the base: same slot
      index, consecutive generations, continuing from where the counter stood. */
  lemma {:induction false} SessionMintsContiguousRun(m: EntityMapper, keys: seq<Entity>)
    requires Headroom(m, |keys|)
    ensures forall k :: 0 <= k < |RunSession(m, keys).minted| ==>
              RunSession(m, keys).minted[k] == Placeholder(m.deadStart, m.generations + k)
    decreases |keys|
  {
    if |keys| > 0 {
      var (m1, e) := GetOrAlloc(m, keys[0]);
      SessionMintsContiguousRun(m1, keys[1..]);
    }
  }

  /** Within a session a key's answer never changes: every returned entity is the final mapping
      of its key, and entries present at the start are kept. */
  lemma {:induction false} SessionIsConsistent(m: EntityMapper, keys: seq<Entity>)
    requires Headroom(m, |keys|)
    ensures forall k :: k in m.table.entries ==>
              k in RunSession(m, keys).mapper.table.entries
              && RunSession(m, keys).mapper.table.entries[k] == m.table.entries[k]
    ensures forall i :: 0 <= i < |keys| ==>
              keys[i] in RunSession(m, keys).mapper.table.entries
              && RunSession(m, keys).returned[i] == RunSession(m, keys).mapper.table.entries[keys[i]]
    decreases |keys|
  {
    if |keys| > 0 {
      var (m1, e) := GetOrAlloc(m, keys[0]);
      SessionIsConsistent(m1, keys[1..]);
      var s := RunSession(m, keys);
      var rest := RunSession(m1, keys[1..]);
      assert s.returned == [e] + rest.returned;
      forall i | 0 <= i < |keys|
        ensures keys[i] in s.mapper.table.entries && s.returned[i] == s.mapper.table.entries[keys[i]]
      {
        if i > 0 {
          assert keys[i] == keys[1..][i - 1];
        }
      }
    }
  }

  /** For a freshly opened session (`New` starts the counter at 0), the placeholders minted are
      exactly the run of `generations` placeholders at the base; hence pairwise distinct, all at
      the base index, with generations ascending by one from the base generation. */
  lemma FreshSessionPlaceholders(m: EntityMapper, keys: seq<Entity>)
    requires m.generations == 0 && Headroom(m, |keys|)
    ensures var s := RunSession(m, keys);
            && s.minted == Run(m.deadStart, s.mapper.generations)
            && (forall i, j :: 0 <= i < j < |s.minted| ==> s.minted[i] != s.minted[j])
            && (forall i :: 0 <= i < |s.minted| ==> s.minted[i].index == m.deadStart.index)
            && (forall i :: 0 < i < |s.minted| ==> s.minted[i].generation == s.minted[i - 1].generation + 1)
            && (|s.minted| > 0 ==> s.minted[0] == m.deadStart)
  {
    SessionMintsContiguousRun(m, keys);
  }

  /** `with_mapper`: opens a session, runs the body with the world and the mapper, closes the
      session and returns the body's result together with the updated map and world. `None` is
      the panic raised when closing fails. The body cannot replace the mapper's base nor lower
      its counter: the mapper's fields are private to this module in the system, and only
      `get_or_alloc` changes the counter, by one. */
  function WithMapper<R>(table: EntityMaps.EntityMap, w: World, body: (World, EntityMapper) -> (World, EntityMapper, R))
    : (r: Option<(EntityMaps.EntityMap, World, R)>)
    requires forall w', m' :: body(w', m').1.deadStart == m'.deadStart
    requires forall w', m' :: body(w', m').1.generations >= m'.generations
    ensures var (m0, w0) := New(table, w);
            var (w1, m1, res) := body(w0, m0);
            && (r.Some? <==> Live(w1, m0.deadStart))
            && (r.Some? ==> r.value == (m1.table, Save(m1, w1).value, res))
            && (r.Some? ==> !Live(r.value.1, m0.deadStart) && LiveCount(r.value.1) + 1 == LiveCount(w1))
  {
    var (m0, w0) := New(table, w);
    var (w1, m1, res) := body(w0, m0);
    match Save(m1, w1)
    case Some(w2) => Some((m1.table, w2, res))
    case None => None
  }

  /** Whatever the body does to the world, once `with_mapper` returns no placeholder the body
      could have been handed (generations up to the final counter) is live, under any later
      history of the world. */
  lemma WithMapperPlaceholdersNeverLive<R>(table: EntityMaps.EntityMap, w: World,
                                           body: (World, EntityMapper) -> (World, EntityMapper, R),
                                           ops: seq<WorldOp>, k: nat)
    requires forall w', m' :: body(w', m').1.deadStart == m'.deadStart
    requires forall w', m' :: body(w', m').1.generations >= m'.generations
    requires WithMapper(table, w, body).Some?
    requires k <= body(New(table, w).1, New(table, w).0).1.generations
    ensures !Live(Apply(WithMapper(table, w, body).value.1, ops), Placeholder(New(table, w).0.deadStart, k))
  {
    var (m0, w0) := New(table, w);
    var (w1, m1, res) := body(w0, m0);
    SavedPlaceholdersNeverLive(m1, w1, ops, Placeholder(m0.deadStart, k));
  }

  /** A body that only calls `get_or_alloc` on a list of keys. Like every body the system
      allows, it keeps the base and never lowers the counter. */
  function SessionBody(keys: seq<Entity>): (body: (World, EntityMapper) -> (World, EntityMapper, seq<Entity>))
    ensures forall w', m' :: body(w', m').1.deadStart == m'.deadStart
    ensures forall w', m' :: body(w', m').1.generations >= m'.generations
  {
    (w: World, m: EntityMapper) =>
      if Headroom(m, |keys|) then (w, RunSession(m, keys).mapper, RunSession(m, keys).returned)
      else (w, m, [])
  }

  /** A session whose body leaves the world alone always closes, returns the body's answers,
      leaves the live-entity count as it was, and leaves every placeholder dead. */
  lemma WithMapperSession(table: EntityMaps.EntityMap, w: World, keys: seq<Entity>)
    requires Headroom(New(table, w).0, |keys|)
    ensures var m0 := New(table, w).0;
            var s := RunSession(m0, keys);
            var r := WithMapper(table, w, SessionBody(keys));
            && r.Some?
            && r.value.0 == s.mapper.table
            && r.value.2 == s.returned
            && LiveCount(r.value.1) == LiveCount(w)
            && (forall k :: 0 <= k <= s.mapper.generations ==> !Live(r.value.1, Placeholder(m0.deadStart, k)))
  {
    var (m0, w0) := New(table, w);
    var s := RunSession(m0, keys);
    var r := WithMapper(table, w, SessionBody(keys));
    assert SessionBody(keys)(w0, m0) == (w0, s.mapper, s.returned);
    forall k | 0 <= k <= s.mapper.generations
      ensures !Live(r.value.1, Placeholder(m0.deadStart, k))
    {
      SavedPlaceholdersNeverLive(s.mapper, w0, [], Placeholder(m0.deadStart, k));
    }
  }

  /** Two calls for an unmapped `a` and one for another unmapped `b` mint exactly two
      placeholders: the next one for `a`, both times, and the one after it for `b`. */
  lemma {:induction false} RepeatedThenNewKey(m: EntityMapper, a: Entity, b: Entity)
    requires a != b && a !in m.table.entries && b !in m.table.entries
    requires Headroom(m, 3)
    ensures RunSession(m, [a, a, b]).returned ==
              [Placeholder(m.deadStart, m.generations), Placeholder(m.deadStart, m.generations),
               Placeholder(m.deadStart, m.generations + 1)]
    ensures RunSession(m, [a, a, b]).mapper.generations == m.generations + 2
  {
    var (m1, e1) := GetOrAlloc(m, a);
    var (m2, e2) := GetOrAlloc(m1, a);
    var (m3, e3) := GetOrAlloc(m2, b);
    assert [a, a, b][1..] == [a, b] && [a, b][1..] == [b] && [b][1..] == [];
    assert RunSession(m3, []) == Session(m3, [], []);
    var s3 := RunSession(m2, [b]);
    assert s3.returned == [e3] && s3.mapper == m3;
    var s2 := RunSession(m1, [a, b]);
    assert s2.returned == [e2, e3] && s2.mapper == m3;
  }

  /** The worked example: on an empty map, `get_or_alloc(a)` twice and then `get_or_alloc(b)`
      return P0, P0, P1 (same index, generation one higher), and after closing, no later spawn
      returns P0 or P1. */
  lemma TwoForeignEntitiesScenario(w: World, m0: EntityMapper, w0: World, a: Entity, b: Entity, ops: seq<WorldOp>)
    requires New(EntityMaps.Empty(), w) == (m0, w0)
    requires a != b
    requires Headroom(m0, 3)
    ensures var s := RunSession(m0, [a, a, b]);
            var p0 := Placeholder(m0.deadStart, 0);
            var p1 := Placeholder(m0.deadStart, 1);
            && s.returned == [p0, p0, p1]
            && p1.index == p0.index && p1.generation == p0.generation + 1
            && s.mapper.generations == 2
            && Save(s.mapper, w0).Some?
            && SpawnEmpty(Apply(Save(s.mapper, w0).value, ops)).1 !in {p0, p1}
  {
    RepeatedThenNewKey(m0, a, b);
    var s := RunSession(m0, [a, a, b]);
    var w1 := Save(s.mapper, w0).value;
    SpawnAfterSaveAvoidsPlaceholders(s.mapper, w0, w1, ops, 0);
    SpawnAfterSaveAvoidsPlaceholders(s.mapper, w0, w1, ops, 1);
  }
}

/** A reference model of the entity arena the mapper talks to. The mapper uses exactly three
    world operations: `spawn_empty`, `despawn` and `try_reserve_generations`. Their real
    implementations are not part of this model. This module gives each one a small definition
    whose contract is what the mapper relies on.

    The arena is a sequence of slots. Each slot stores a generation counter and a liveness flag.
    An entity is live when its slot is alive and stores exactly the entity's generation.
    Spawning reuses the lowest dead slot at its stored generation, or else appends a new slot at
    generation 0. Despawning leaves the slot dead with its generation advanced by one. Reserving
    `n` generations despawns the entity and then advances the slot by `n` more. */
module Arena {
  import opened Wrappers
  import opened Entities

  datatype Slot = Slot(generation: nat, alive: bool)

  datatype World = World(slots: seq<Slot>)

  /** The world calls the mapper makes, as data, so that arbitrary later histories can be
      quantified over. */
  datatype WorldOp = SpawnOp | DespawnOp(target: Entity) | ReserveOp(target: Entity, count: nat)

  predicate Live(w: World, e: Entity)
  {
    e.index < |w.slots| && w.slots[e.index].alive && w.slots[e.index].generation == e.generation
  }

  /** No slot disappears and no stored generation goes down. */
  ghost predicate Grows(w: World, w': World)
  {
    && |w.slots| <= |w'.slots|
    && forall i :: 0 <= i < |w.slots| ==> w.slots[i].generation <= w'.slots[i].generation
  }

  function Alive(s: Slot): nat
  {
    if s.alive then 1 else 0
  }

  function CountAlive(slots: seq<Slot>): nat
    decreases |slots|
  {
    if |slots| == 0 then 0 else CountAlive(slots[..|slots| - 1]) + Alive(slots[|slots| - 1])
  }

  /** The number of live entities in the world. */
  function LiveCount(w: World): nat
  {
    CountAlive(w.slots)
  }

  lemma CountAliveAppend(slots: seq<Slot>, x: Slot)
    ensures CountAlive(slots + [x]) == CountAlive(slots) + Alive(x)
  {
  }

  lemma {:induction false} CountAliveUpdate(slots: seq<Slot>, i: nat, x: Slot)
    requires i < |slots|
    ensures CountAlive(slots[i := x]) + Alive(slots[i]) == CountAlive(slots) + Alive(x)
    decreases |slots|
  {
    var n := |slots| - 1;
    if i == n {
      assert slots[i := x][..n] == slots[..n];
    } else {
      assert slots[i := x][..n] == slots[..n][i := x];
      CountAliveUpdate(slots[..n], i, x);
    }
  }

  /** The lowest index at or after `from` whose slot is dead. */
  function FirstDead(slots: seq<Slot>, from: nat): (r: Option<nat>)
    requires from <= |slots|
    ensures r.Some? ==> from <= r.value < |slots| && !slots[r.value].alive
    ensures r.Some? ==> forall i :: from <= i < r.value ==> slots[i].alive
    ensures r.None? ==> forall i :: from <= i < |slots| ==> slots[i].alive
    decreases |slots| - from
  {
    if from == |slots| then None
    else if !slots[from].alive then Some(from)
    else FirstDead(slots, from + 1)
  }

  /** Marks slot `i` with generation `g` and liveness `alive`. */
  function SetSlot(w: World, i: nat, g: nat, alive: bool): (r: World)
    requires i < |w.slots|
    ensures |r.slots| == |w.slots|
    ensures r.slots[i] == Slot(g, alive)
    ensures forall j :: 0 <= j < |w.slots| && j != i ==> r.slots[j] == w.slots[j]
    ensures LiveCount(r) + Alive(w.slots[i]) == LiveCount(w) + Alive(Slot(g, alive))
  {
    CountAliveUpdate(w.slots, i, Slot(g, alive));
    World(w.slots[i := Slot(g, alive)])
  }

  /** `World::spawn_empty`: creates a live entity whose generation is the one stored in its
      slot, so it is newer than every entity that slot held before. */
  function SpawnEmpty(w: World): (r: (World, Entity))
    ensures Live(r.0, r.1) && !Live(w, r.1)
    ensures r.1.index <= |w.slots|
    ensures r.1.index < |w.slots| ==>
              !w.slots[r.1.index].alive && r.1.generation == w.slots[r.1.index].generation
    ensures r.1.index < |w.slots| ==> |r.0.slots| == |w.slots|
    ensures r.1.index == |w.slots| ==> r.1.generation == 0 && |r.0.slots| == |w.slots| + 1
    ensures forall i :: 0 <= i < |w.slots| && i != r.1.index ==> r.0.slots[i] == w.slots[i]
    ensures LiveCount(r.0) == LiveCount(w) + 1
    ensures Grows(w, r.0)
  {
    match FirstDead(w.slots, 0)
    case Some(i) =>
      var g := w.slots[i].generation;
      (SetSlot(w, i, g, true), Entity(i, g))
    case None =>
      CountAliveAppend(w.slots, Slot(0, true));
      (World(w.slots + [Slot(0, true)]), Entity(|w.slots|, 0))
  }

  /** `World::despawn`: reports whether `e` was live; if so its slot becomes dead at the next
      generation, and otherwise nothing changes. */
  function Despawn(w: World, e: Entity): (r: (World, bool))
    ensures r.1 <==> Live(w, e)
    ensures !r.1 ==> r.0 == w
    ensures r.1 ==> |r.0.slots| == |w.slots| && r.0.slots[e.index] == Slot(e.generation + 1, false)
    ensures r.1 ==> forall i :: 0 <= i < |w.slots| && i != e.index ==> r.0.slots[i] == w.slots[i]
    ensures r.1 ==> LiveCount(r.0) + 1 == LiveCount(w)
    ensures Grows(w, r.0)
  {
    if Live(w, e) then (SetSlot(w, e.index, e.generation + 1, false), true) else (w, false)
  }

  /** `World::try_reserve_generations`: despawns `e` and advances its slot `count` generations
      beyond the despawned state, so that none of those generations is ever handed out by a
      later spawn. Fails, changing nothing, when `e` is not the live occupant of its slot. */
  function TryReserveGenerations(w: World, e: Entity, count: nat): (r: (World, bool))
    ensures r.1 <==> Live(w, e)
    ensures !r.1 ==> r.0 == w
    ensures r.1 ==> |r.0.slots| == |w.slots|
    ensures r.1 ==> r.0.slots[e.index] == Slot(e.generation + 1 + count, false)
    ensures r.1 ==> forall i :: 0 <= i < |w.slots| && i != e.index ==> r.0.slots[i] == w.slots[i]
    ensures r.1 ==> LiveCount(r.0) + 1 == LiveCount(w)
    ensures Grows(w, r.0)
  {
    var (w1, ok) := Despawn(w, e);
    if ok then (SetSlot(w1, e.index, e.generation + 1 + count, false), true) else (w, false)
  }

  /** Performs one world call; the boolean is the call's success flag (always true for a spawn). */
  function Perform(w: World, op: WorldOp): (r: (World, bool))
    ensures Grows(w, r.0)
  {
    match op
    case SpawnOp => (SpawnEmpty(w).0, true)
    case DespawnOp(e) => Despawn(w, e)
    case ReserveOp(e, n) => TryReserveGenerations(w, e, n)
  }

  /** Performs a sequence of world calls in order. */
  function Apply(w: World, ops: seq<WorldOp>): World
    decreases |ops|
  {
    if |ops| == 0 then w else Apply(Perform(w, ops[0]).0, ops[1..])
  }

  /** Whatever happens to the world afterwards, slots stay and generations only go up. */
  lemma {:induction false} ApplyGrows(w: World, ops: seq<WorldOp>)
    ensures Grows(w, Apply(w, ops))
    decreases |ops|
  {
    if |ops| > 0 {
      var w1 := Perform(w, ops[0]).0;
      ApplyGrows(w1, ops[1..]);
    }
  }

  /** A slot whose stored generation is `g` never again holds a live entity of a smaller
      generation. */
  lemma {:induction false} OlderGenerationsStayDead(w: World, ops: seq<WorldOp>, e: Entity)
    requires e.index < |w.slots| && e.generation < w.slots[e.index].generation
    ensures !Live(Apply(w, ops), e)
  {
    ApplyGrows(w, ops);
  }
}

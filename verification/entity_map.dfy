/** `EntityMap`: a finite map from foreign entities (meaningful in some other world, scene or
    peer) to local entities. It knows nothing about liveness; it is plain data. */
module EntityMaps {
  import opened Wrappers
  import opened Entities

  /** The one error of entity mapping: a strict lookup of a key that is not in the map. */
  datatype MapEntitiesError = EntityNotFound(entity: Entity)

  datatype EntityMap = EntityMap(entries: map<Entity, Entity>)

  /** The map a freshly defaulted `EntityMap` holds. */
  function Empty(): (r: EntityMap)
    ensures forall e :: e !in r.entries
  {
    EntityMap(map[])
  }

  /** `len`: the number of distinct keys. */
  function Len(m: EntityMap): (r: nat)
    ensures r == |m.entries.Keys|
    ensures r == 0 <==> m.entries == map[]
  {
    |m.entries|
  }

  /** `is_empty`. */
  function IsEmpty(m: EntityMap): (r: bool)
    ensures r <==> Len(m) == 0
    ensures r <==> forall e :: e !in m.entries
  {
    m.entries == map[]
  }

  /** `insert(from, to)`: `from` now maps to `to`; the previous value of `from`, if any, is
      returned; no other entry changes. */
  function Insert(m: EntityMap, from: Entity, to: Entity): (r: (EntityMap, Option<Entity>))
    ensures from in r.0.entries && r.0.entries[from] == to
    ensures forall k :: k != from ==> (k in r.0.entries <==> k in m.entries)
    ensures forall k :: k != from && k in m.entries ==> r.0.entries[k] == m.entries[k]
    ensures r.1.None? <==> from !in m.entries
    ensures r.1.Some? ==> r.1.value == m.entries[from]
    ensures Len(r.0) == if from in m.entries then Len(m) else Len(m) + 1
  {
    (EntityMap(m.entries[from := to]), if from in m.entries then Some(m.entries[from]) else None)
  }

  /** `remove(e)`: `e` is no longer a key; its value is returned exactly when it was one; no
      other entry changes. */
  function Remove(m: EntityMap, e: Entity): (r: (EntityMap, Option<Entity>))
    ensures e !in r.0.entries
    ensures forall k :: k != e ==> (k in r.0.entries <==> k in m.entries)
    ensures forall k :: k != e && k in m.entries ==> r.0.entries[k] == m.entries[k]
    ensures r.1.Some? <==> e in m.entries
    ensures r.1.Some? ==> r.1.value == m.entries[e]
    ensures Len(r.0) == if e in m.entries then Len(m) - 1 else Len(m)
  {
    var rest := m.entries - {e};
    assert rest.Keys == m.entries.Keys - {e};
    (EntityMap(rest), if e in m.entries then Some(m.entries[e]) else None)
  }

  /** `get(e)`: strict lookup, failing with `EntityNotFound` carrying the very key asked for. */
  function Get(m: EntityMap, e: Entity): (r: Result<Entity, MapEntitiesError>)
    ensures r.Success? <==> e in m.entries
    ensures r.Success? ==> r.value == m.entries[e]
    ensures r.Failure? ==> r.error == EntityNotFound(e)
  {
    if e in m.entries then Success(m.entries[e]) else Failure(EntityNotFound(e))
  }

  /** `pairs` lists the entries of a part of `m`, each key once. */
  ghost predicate EnumeratesPart(m: EntityMap, pairs: seq<(Entity, Entity)>)
  {
    && (forall i :: 0 <= i < |pairs| ==> pairs[i].0 in m.entries && m.entries[pairs[i].0] == pairs[i].1)
    && (forall i, j :: 0 <= i < j < |pairs| ==> pairs[i].0 != pairs[j].0)
  }

  /** `iter`: every entry exactly once, in an order the map does not promise. */
  method Iter(m: EntityMap) returns (pairs: seq<(Entity, Entity)>)
    ensures EnumeratesPart(m, pairs)
    ensures forall k :: k in m.entries ==> (k, m.entries[k]) in pairs
    ensures |pairs| == Len(m)
  {
    var rest := m.entries.Keys;
    pairs := [];
    while rest != {}
      invariant rest <= m.entries.Keys
      invariant EnumeratesPart(m, pairs)
      invariant forall i :: 0 <= i < |pairs| ==> pairs[i].0 !in rest
      invariant forall k :: k in m.entries.Keys - rest ==> (k, m.entries[k]) in pairs
      invariant |pairs| == |m.entries.Keys - rest|
      decreases rest
    {
      var k :| k in rest;
      ghost var done := m.entries.Keys - rest;
      assert m.entries.Keys - (rest - {k}) == done + {k};
      pairs := pairs + [(k, m.entries[k])];
      rest := rest - {k};
    }
  }

  /** `keys`: every key exactly once. */
  method Keys(m: EntityMap) returns (ks: seq<Entity>)
    ensures |ks| == Len(m)
    ensures forall k :: k in ks <==> k in m.entries
    ensures forall i, j :: 0 <= i < j < |ks| ==> ks[i] != ks[j]
  {
    var pairs := Iter(m);
    ks := seq(|pairs|, i requires 0 <= i < |pairs| => pairs[i].0);
    forall k | k in m.entries
      ensures k in ks
    {
      var i :| 0 <= i < |pairs| && pairs[i] == (k, m.entries[k]);
      assert ks[i] == k;
    }
  }

  /** The keys of the pairs whose value is `v`. */
  ghost function KeysWithValue(pairs: seq<(Entity, Entity)>, v: Entity): set<Entity>
  {
    set i | 0 <= i < |pairs| && pairs[i].1 == v :: pairs[i].0
  }

  /** The value column of a listing of pairs. */
  function Seconds(pairs: seq<(Entity, Entity)>): seq<Entity>
    decreases |pairs|
  {
    if |pairs| == 0 then [] else Seconds(pairs[..|pairs| - 1]) + [pairs[|pairs| - 1].1]
  }

  /** Position `i` of the value column is the value of pair `i`. */
  lemma {:induction false} SecondsAt(pairs: seq<(Entity, Entity)>)
    ensures |Seconds(pairs)| == |pairs|
    ensures forall i :: 0 <= i < |pairs| ==> Seconds(pairs)[i] == pairs[i].1
    decreases |pairs|
  {
    if |pairs| > 0 {
      SecondsAt(pairs[..|pairs| - 1]);
    }
  }

  /** No key occurs twice in `pairs`. */
  ghost predicate DistinctKeys(pairs: seq<(Entity, Entity)>)
  {
    forall i, j :: 0 <= i < j < |pairs| ==> pairs[i].0 != pairs[j].0
  }

  /** Appending a pair adds its key to the keys carrying its value, and changes no other. */
  lemma KeysWithValueSnoc(front: seq<(Entity, Entity)>, last: (Entity, Entity), v: Entity)
    ensures KeysWithValue(front + [last], v) ==
            KeysWithValue(front, v) + (if last.1 == v then {last.0} else {})
  {
    var pairs := front + [last];
    forall x | x in KeysWithValue(pairs, v)
      ensures x in KeysWithValue(front, v) + (if last.1 == v then {last.0} else {})
    {
      var i :| 0 <= i < |pairs| && pairs[i].1 == v && pairs[i].0 == x;
      if i < |front| {
        assert front[i] == pairs[i];
      }
    }
    forall x | x in KeysWithValue(front, v)
      ensures x in KeysWithValue(pairs, v)
    {
      var i :| 0 <= i < |front| && front[i].1 == v && front[i].0 == x;
      assert pairs[i] == front[i];
    }
    if last.1 == v {
      assert pairs[|front|] == last;
    }
  }

  /** In a listing with distinct keys, a value occurs as often as there are keys carrying it. */
  lemma {:induction false} ValueMultiplicity(pairs: seq<(Entity, Entity)>, v: Entity)
    requires DistinctKeys(pairs)
    ensures multiset(Seconds(pairs))[v] == |KeysWithValue(pairs, v)|
    decreases |pairs|
  {
    if |pairs| > 0 {
      var n := |pairs| - 1;
      var front := pairs[..n];
      var last := pairs[n];
      assert pairs == front + [last];
      assert DistinctKeys(front) by {
        forall i, j | 0 <= i < j < |front|
          ensures front[i].0 != front[j].0
        {
          assert front[i] == pairs[i] && front[j] == pairs[j];
        }
      }
      ValueMultiplicity(front, v);
      KeysWithValueSnoc(front, last, v);
      assert multiset(Seconds(pairs)) == multiset(Seconds(front)) + multiset{last.1};
      forall i | 0 <= i < n
        ensures front[i].0 != last.0
      {
        assert front[i] == pairs[i];
      }
      assert last.0 !in KeysWithValue(front, v);
    }
  }

  /** `values`: every value once per key that maps to it. */
  method Values(m: EntityMap) returns (vs: seq<Entity>)
    ensures |vs| == Len(m)
    ensures forall v :: v in vs <==> v in m.entries.Values
    ensures forall v :: multiset(vs)[v] == |set k | k in m.entries && m.entries[k] == v|
  {
    var pairs := Iter(m);
    vs := Seconds(pairs);
    SecondsAt(pairs);
    forall v
      ensures multiset(vs)[v] == |set k | k in m.entries && m.entries[k] == v|
    {
      ValueMultiplicity(pairs, v);
      assert KeysWithValue(pairs, v) == set k | k in m.entries && m.entries[k] == v by {
        forall k | k in m.entries && m.entries[k] == v
          ensures k in KeysWithValue(pairs, v)
        {
          var i :| 0 <= i < |pairs| && pairs[i] == (k, m.entries[k]);
        }
      }
    }
    forall v | v in m.entries.Values
      ensures v in vs
    {
      var k :| k in m.entries && m.entries[k] == v;
      var i :| 0 <= i < |pairs| && pairs[i] == (k, m.entries[k]);
      assert vs[i] == v;
    }
  }

  /** Looking up a key just inserted yields the inserted value; other lookups are unaffected. */
  lemma InsertThenGet(m: EntityMap, from: Entity, to: Entity, e: Entity)
    ensures Get(Insert(m, from, to).0, e) == if e == from then Success(to) else Get(m, e)
  {
  }

  /** Removing a key makes its strict lookup fail; other lookups are unaffected. */
  lemma RemoveThenGet(m: EntityMap, k: Entity, e: Entity)
    ensures Get(Remove(m, k).0, e) == if e == k then Failure(EntityNotFound(k)) else Get(m, e)
  {
  }

  /** Inserting an absent key and removing it again restores the map and hands back the value. */
  lemma InsertRemoveRoundTrip(m: EntityMap, from: Entity, to: Entity)
    requires from !in m.entries
    ensures Remove(Insert(m, from, to).0, from) == (m, Some(to))
  {
    assert Remove(Insert(m, from, to).0, from).0.entries == m.entries;
  }

  /** Removing a present key and inserting its old value again restores the map. */
  lemma RemoveInsertRoundTrip(m: EntityMap, e: Entity)
    requires e in m.entries
    ensures Insert(Remove(m, e).0, e, m.entries[e]) == (m, None)
  {
    assert Insert(Remove(m, e).0, e, m.entries[e]).0.entries == m.entries;
  }
}

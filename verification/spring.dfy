/** The two-field `Spring` component and its `MapEntities` implementation: each field is
    rewritten by a strict lookup through the mapper, and the first failed lookup ends the call.
    The rewrite is not atomic: when `b` is missing, `a` has already been rewritten. */
module SpringComponent {
  import opened Wrappers
  import opened Entities
  import EntityMaps
  import EntityMappers

  datatype Spring = Spring(a: Entity, b: Entity)

  /** `map_entities` for `Spring`: the component as left by the call, and the call's outcome. */
  function MapEntities(s: Spring, m: EntityMappers.EntityMapper): (r: (Spring, Result<(), EntityMaps.MapEntitiesError>))
    ensures r.1.Success? <==> s.a in m.table.entries && s.b in m.table.entries
    ensures r.1.Success? ==> r.0 == Spring(m.table.entries[s.a], m.table.entries[s.b])
    ensures s.a !in m.table.entries ==> r == (s, Failure(EntityMaps.EntityNotFound(s.a)))
    ensures s.a in m.table.entries && s.b !in m.table.entries ==>
              r == (Spring(m.table.entries[s.a], s.b), Failure(EntityMaps.EntityNotFound(s.b)))
  {
    match EntityMappers.Get(m, s.a)
    case Failure(err) => (s, Failure(err))
    case Success(a') =>
      var s1 := Spring(a', s.b);
      match EntityMappers.Get(m, s1.b)
      case Failure(err) => (s1, Failure(err))
      case Success(b') => (Spring(s1.a, b'), Success(()))
  }
}

/**
 * The per-frame pass of the reflection tree inspector (widgets/ecr_tree/ecr.rs).
 * For every inspector, all liveness flags are cleared, every root key is
 * visited (a resource, an entity with all its components, or one
 * component), each visit fetching or creating its node entry and marking it
 * alive, and finally every entry still dead is removed and its widget
 * despawned. Also the labels of entity nodes: the entity's `Debug` text,
 * its name and its labels.
 */
module Ecr {
  import opened Base
  import opened Ui
  import opened EcrTree
  import opened EcrLeaf
  import opened EcrNode

  /** A component of an entity, as its archetype lists it: its type and its reflected value. */
  datatype Component = Component(typeId: TypeId, typeName: string, value: Value)

  /** The entities of the world with their components in archetype order, and the components flagged as mutated. */
  datatype WorldData = WorldData(entities: map<Entity, seq<Component>>, mutated: set<(Entity, TypeId)>)

  /** The resources, by type, and the resources flagged as mutated. */
  datatype ResourceData = ResourceData(values: map<TypeId, Value>, mutated: set<TypeId>)

  /** What a visit of the pass changes: the inspector's tables, the world and the resources. */
  datatype Pass = Pass(tables: Tables, world: WorldData, resources: ResourceData)

  /** Bevy's `World`, reduced to the components the inspector reads and writes. */
  class World {
    var entities: map<Entity, seq<Component>>
    var mutated: set<(Entity, TypeId)>
  }

  /** Bevy's `Resources`, reduced to the reflected resources. */
  class Resources {
    var values: map<TypeId, Value>
    var mutated: set<TypeId>
  }

  /** The `Pass` view of an inspector's state, the commands, the world and the resources. */
  ghost function PassOf(state: State, commands: Commands, world: World, resources: Resources): Pass
    reads state, commands, world, resources
  {
    Pass(TablesOf(state, commands), WorldData(world.entities, world.mutated), ResourceData(resources.values, resources.mutated))
  }

  // Labels of the root nodes.

  /** The label of a new resource node: its short name, marked when it is not a `ReflectResource`, or a placeholder. */
  function ResourceLabel(env: Env, t: TypeId): string
  {
    if t !in env.registry then "(not a registered type)"
    else if env.registry[t].reflectResource then env.registry[t].shortName
    else env.registry[t].shortName + " (not a ReflectResource)"
  }

  /** The label of a new component node as the source writes it: the marker for a non-`ReflectComponent` lacks its `)`. */
  function ComponentLabelAsWritten(env: Env, c: Component): string
  {
    if c.typeId !in env.registry then c.typeName + " (not a registered type)"
    else if env.registry[c.typeId].reflectComponent then env.registry[c.typeId].shortName
    else env.registry[c.typeId].shortName + " (not a ReflectComponent"
  }

  /** The label of a new component node: its short name, marked when it is not a `ReflectComponent`, or its full name marked unregistered. */
  function ComponentLabel(env: Env, c: Component): string
  {
    if c.typeId !in env.registry then c.typeName + " (not a registered type)"
    else if env.registry[c.typeId].reflectComponent then env.registry[c.typeId].shortName
    else env.registry[c.typeId].shortName + " (not a ReflectComponent)"
  }

  /** The label ends by closing a parenthesis. */
  predicate Closed(s: string)
  {
    |s| > 0 && s[|s| - 1] == ')'
  }

  /**
   * Every marked label closes its marker's parenthesis: a resource that is
   * unregistered or not a `ReflectResource`, and (in the corrected label) a
   * component that is unregistered or not a `ReflectComponent`. The label as
   * written for a registered non-`ReflectComponent` type does not.
   */
  lemma MarkedLabelsClose(env: Env, t: TypeId, c: Component)
    ensures (t !in env.registry || !env.registry[t].reflectResource) ==> Closed(ResourceLabel(env, t))
    ensures (c.typeId !in env.registry || !env.registry[c.typeId].reflectComponent) ==> Closed(ComponentLabel(env, c))
    ensures c.typeId in env.registry && !env.registry[c.typeId].reflectComponent ==> !Closed(ComponentLabelAsWritten(env, c))
  {
  }

  // The visits of ecr.rs, as functions.

  /** `p` with component `j` of `entity` holding `v`, flagged as mutated when `mutated`. */
  function WithComponent(p: Pass, entity: Entity, j: nat, v: Value, mutated: bool): (r: Pass)
    requires entity in p.world.entities && j < |p.world.entities[entity]|
    ensures r.tables == p.tables && r.resources == p.resources
    ensures r.world.entities.Keys == p.world.entities.Keys
    ensures forall e :: e in p.world.entities && e != entity ==> r.world.entities[e] == p.world.entities[e]
    ensures r.world.entities[entity] == p.world.entities[entity][j := p.world.entities[entity][j].(value := v)]
    ensures r.world.mutated == if mutated then p.world.mutated + {(entity, p.world.entities[entity][j].typeId)} else p.world.mutated
  {
    var cs := p.world.entities[entity];
    var w := p.world.(entities := p.world.entities[entity := cs[j := cs[j].(value := v)]]);
    p.(world := if mutated then w.(mutated := w.mutated + {(entity, cs[j].typeId)}) else w)
  }

  /** The worlds of `p` and `r` list the same entities with as many components each. */
  ghost predicate SameLayout(p: Pass, r: Pass)
  {
    && r.world.entities.Keys == p.world.entities.Keys
    && (forall e :: e in p.world.entities ==> |r.world.entities[e]| == |p.world.entities[e]|)
  }

  /**
   * `visit_component`: the component's node entry is fetched, or created
   * collapsed with a labelled node widget, and marked alive; when the node
   * is expanded and the type is a registered `ReflectComponent`, the
   * component's value is dispatched into the children container, written
   * back, and flagged as mutated when a widget value was written into it.
   */
  function VisitComponent(env: Env, sp: map<TypeId, Spawner>, p: Pass, entity: Entity, j: nat, container: Entity): (r: Pass)
    requires entity in p.world.entities && j < |p.world.entities[entity]|
    ensures SameLayout(p, r) && r.resources == p.resources
  {
    var c := p.world.entities[entity][j];
    var key := ComponentKey(entity, c.typeId);
    var t1 := Fetch(p.tables, key, InspectorNode(container, ComponentLabel(env, c), None), Node(None));
    match t1.entries[key].inner
    case Node(Some(cont)) =>
      if c.typeId in env.registry && env.registry[c.typeId].reflectComponent then
        var d := Dispatch(env, sp, t1, c.value, Address(key, []), cont);
        WithComponent(p.(tables := d.tables), entity, j, d.value, d.mutated)
      else p.(tables := t1)
    case _ => p.(tables := t1)
  }

  /** The components loop of `visit_entity`, from the `i`-th component on. */
  function ComponentsFrom(env: Env, sp: map<TypeId, Spawner>, p: Pass, entity: Entity, container: Entity, i: nat): (r: Pass)
    requires entity in p.world.entities
    decreases |p.world.entities[entity]| - i
    ensures SameLayout(p, r) && r.resources == p.resources
  {
    if i >= |p.world.entities[entity]| then p
    else ComponentsFrom(env, sp, VisitComponent(env, sp, p, entity, i, container), entity, container, i + 1)
  }

  /**
   * `visit_entity`: the entity's node entry is fetched, or created
   * collapsed with an unlabelled node widget whose label follows the
   * entity, and marked alive; when the node is expanded, every component
   * of the entity is visited in archetype order. An entity that no longer
   * exists under an expanded node is a panic (`None`).
   */
  function VisitEntity(env: Env, sp: map<TypeId, Spawner>, p: Pass, entity: Entity, container: Entity): Option<Pass>
  {
    var key := EntityKey(entity);
    var t1 := Fetch(p.tables, key, InspectorNode(container, "", Some(entity)), Node(None));
    match t1.entries[key].inner
    case Node(Some(cont)) =>
      if entity !in p.world.entities then None
      else Some(ComponentsFrom(env, sp, p.(tables := t1), entity, cont, 0))
    case _ => Some(p.(tables := t1))
  }

  /**
   * `visit_resource`: the resource's node entry is fetched, or created
   * collapsed with a labelled node widget, and marked alive; when the node
   * is expanded and the type is a registered `ReflectResource`, the
   * resource is dispatched into the children container, written back, and
   * flagged as mutated when a widget value was written into it. A missing
   * resource is a panic (`None`).
   */
  function VisitResource(env: Env, sp: map<TypeId, Spawner>, p: Pass, t: TypeId, container: Entity): Option<Pass>
  {
    var key := ResourceKey(t);
    var t1 := Fetch(p.tables, key, InspectorNode(container, ResourceLabel(env, t), None), Node(None));
    match t1.entries[key].inner
    case Node(Some(cont)) =>
      if t in env.registry && env.registry[t].reflectResource then
        if t !in p.resources.values then None
        else
          var d := Dispatch(env, sp, t1, p.resources.values[t], Address(key, []), cont);
          var vs := p.resources.values[t := d.value];
          Some(Pass(d.tables, p.world, ResourceData(vs, if d.mutated then p.resources.mutated + {t} else p.resources.mutated)))
      else Some(p.(tables := t1))
    case _ => Some(p.(tables := t1))
  }

  /** The first component of type `t` in `cs`. */
  function FindType(cs: seq<Component>, t: TypeId): (r: Option<nat>)
    ensures r.Some? ==> r.value < |cs| && cs[r.value].typeId == t && forall j :: 0 <= j < r.value ==> cs[j].typeId != t
    ensures r.None? ==> forall j :: 0 <= j < |cs| ==> cs[j].typeId != t
  {
    if cs == [] then None
    else if cs[0].typeId == t then Some(0)
    else match FindType(cs[1..], t)
      case None => None
      case Some(j) => Some(j + 1)
  }

  /**
   * One root key: a resource, an entity, or a component (whose entity and
   * type must exist, or the pass panics); node and leaf keys are
   * `unimplemented!()`, a panic.
   */
  function VisitRoot(env: Env, sp: map<TypeId, Spawner>, p: Pass, key: Key, container: Entity): Option<Pass>
  {
    match key
    case ResourceKey(t) => VisitResource(env, sp, p, t, container)
    case EntityKey(e) => VisitEntity(env, sp, p, e, container)
    case ComponentKey(e, t) =>
      if e !in p.world.entities then None
      else (match FindType(p.world.entities[e], t)
        case None => None
        case Some(j) => Some(VisitComponent(env, sp, p, e, j, container)))
    case ReflectNode(_, _, _) => None
    case ReflectLeaf(_, _, _) => None
  }

  /** The root-key loop from the `i`-th key on; a panic ends the pass. */
  function RootsFrom(env: Env, sp: map<TypeId, Spawner>, p: Pass, keys: seq<Key>, container: Entity, i: nat): Option<Pass>
    decreases |keys| - i
  {
    if i >= |keys| then Some(p)
    else match VisitRoot(env, sp, p, keys[i], container)
      case None => None
      case Some(q) => RootsFrom(env, sp, q, keys, container, i + 1)
  }

  /** Every liveness flag cleared. */
  function MarkDead(alive: map<Key, bool>): (r: map<Key, bool>)
    ensures r.Keys == alive.Keys && forall k :: k in r ==> !r[k]
  {
    map k | k in alive :: false
  }

  /** A key whose liveness flag is false. */
  predicate Dead(alive: map<Key, bool>, k: Key)
  {
    k in alive && !alive[k]
  }

  /** The entries the sweep keeps: those not marked dead. */
  function SweptEntries(entries: map<Key, Entry>, alive: map<Key, bool>): (r: map<Key, Entry>)
    ensures r.Keys == set k | k in entries && !Dead(alive, k)
    ensures forall k :: k in r ==> r[k] == entries[k]
  {
    map k | k in entries && !Dead(alive, k) :: entries[k]
  }

  /** The liveness flags the sweep keeps: the true ones. */
  function SweptAlive(alive: map<Key, bool>): (r: map<Key, bool>)
    ensures r.Keys == set k | k in alive && alive[k]
    ensures forall k :: k in r ==> r[k]
  {
    map k | k in alive && alive[k] :: true
  }

  /** The widgets the sweep despawns: those of the dead entries. */
  function DeadWidgets(entries: map<Key, Entry>, alive: map<Key, bool>): set<Entity>
  {
    set k | k in entries && Dead(alive, k) :: entries[k].widget
  }

  /** The root-key loop of one inspector's pass, after every liveness flag was cleared. */
  function PassRoots(env: Env, sp: map<TypeId, Spawner>, p: Pass, keys: seq<Key>, container: Entity): Option<Pass>
  {
    RootsFrom(env, sp, p.(tables := p.tables.(alive := MarkDead(p.tables.alive))), keys, container, 0)
  }

  // The pass on the `State`, `Commands`, `World` and `Resources`.

  /** The first loop of the pass: every liveness flag is set to false. */
  method MarkAllDead(state: State)
    modifies state
    ensures state.entriesAlive == MarkDead(old(state.entriesAlive))
    ensures state.entries == old(state.entries) && state.rootKeys == old(state.rootKeys)
    ensures state.specializedWidgets == old(state.specializedWidgets)
  {
    var remaining := state.entriesAlive.Keys;
    while remaining != {}
      invariant state.entriesAlive.Keys == old(state.entriesAlive).Keys
      invariant forall k :: k in state.entriesAlive ==> state.entriesAlive[k] == (k in remaining && old(state.entriesAlive)[k])
      invariant state.entries == old(state.entries) && state.rootKeys == old(state.rootKeys)
      invariant state.specializedWidgets == old(state.specializedWidgets)
      decreases remaining
    {
      var k :| k in remaining;
      if k in state.entriesAlive {
        state.entriesAlive := state.entriesAlive[k := false];
      }
      remaining := remaining - {k};
    }
  }

  /** The sweep at key `k`: a dead key loses its flag and its entry, whose widget is despawned. */
  method SweepOne(state: State, commands: Commands, k: Key)
    requires commands.Valid() && k in state.entriesAlive
    modifies state, commands
    ensures commands.Valid() && commands.nextId == old(commands.nextId) && commands.spawned == old(commands.spawned)
    ensures state.entriesAlive == if old(state.entriesAlive[k]) then old(state.entriesAlive) else old(state.entriesAlive) - {k}
    ensures state.entries == if old(state.entriesAlive[k]) then old(state.entries) else old(state.entries) - {k}
    ensures commands.despawned == old(commands.despawned)
      + (if !old(state.entriesAlive[k]) && k in old(state.entries) then {old(state.entries[k].widget)} else {})
    ensures state.rootKeys == old(state.rootKeys) && state.specializedWidgets == old(state.specializedWidgets)
  {
    if !state.entriesAlive[k] {
      if k in state.entries {
        var widget := state.entries[k].widget;
        state.entries := state.entries - {k};
        commands.DespawnRecursive(widget);
      }
      state.entriesAlive := state.entriesAlive - {k};
    }
  }

  /** What the sweep has left when the keys in `remaining` are still to be looked at: the entries, the flags, and the widgets despawned. */
  ghost function SweepFrom(entries: map<Key, Entry>, alive: map<Key, bool>, remaining: set<Key>): (map<Key, Entry>, map<Key, bool>, set<Entity>)
  {
    (map k | k in entries && !(Dead(alive, k) && k !in remaining) :: entries[k],
     map k | k in alive && (k in remaining || alive[k]) :: alive[k],
     set k | k in entries && Dead(alive, k) && k !in remaining :: entries[k].widget)
  }

  /** Looking at one more key does what `SweepOne` does. */
  lemma SweepFromStep(entries: map<Key, Entry>, alive: map<Key, bool>, remaining: set<Key>, k: Key)
    requires k in remaining && remaining <= alive.Keys
    ensures var (e, a, d) := SweepFrom(entries, alive, remaining);
      && SweepFrom(entries, alive, remaining - {k}).1 == (if alive[k] then a else a - {k})
      && SweepFrom(entries, alive, remaining - {k}).0 == (if alive[k] then e else e - {k})
      && SweepFrom(entries, alive, remaining - {k}).2 == d + (if !alive[k] && k in e then {e[k].widget} else {})
  {
    var (e, a, d) := SweepFrom(entries, alive, remaining);
    if !alive[k] && k in e {
      assert SweepFrom(entries, alive, remaining - {k}).2 == d + {e[k].widget};
    }
  }

  /**
   * The sweep (`retain` on the liveness flags): every dead key loses its
   * flag and its entry, and the entry's widget is despawned; live keys keep
   * both.
   */
  method Sweep(state: State, commands: Commands)
    requires commands.Valid()
    modifies state, commands
    ensures commands.Valid() && commands.nextId == old(commands.nextId) && commands.spawned == old(commands.spawned)
    ensures state.entries == SweptEntries(old(state.entries), old(state.entriesAlive))
    ensures state.entriesAlive == SweptAlive(old(state.entriesAlive))
    ensures commands.despawned == old(commands.despawned) + DeadWidgets(old(state.entries), old(state.entriesAlive))
    ensures state.rootKeys == old(state.rootKeys) && state.specializedWidgets == old(state.specializedWidgets)
  {
    ghost var entries0, alive0 := state.entries, state.entriesAlive;
    var remaining := state.entriesAlive.Keys;
    assert SweepFrom(entries0, alive0, remaining).0 == entries0;
    assert SweepFrom(entries0, alive0, remaining).1 == alive0;
    assert SweepFrom(entries0, alive0, remaining).2 == {};
    while remaining != {}
      invariant commands.Valid() && commands.nextId == old(commands.nextId) && commands.spawned == old(commands.spawned)
      invariant remaining <= alive0.Keys
      invariant SweepFrom(entries0, alive0, remaining).0 == state.entries
      invariant SweepFrom(entries0, alive0, remaining).1 == state.entriesAlive
      invariant commands.despawned == old(commands.despawned) + SweepFrom(entries0, alive0, remaining).2
      invariant state.rootKeys == old(state.rootKeys) && state.specializedWidgets == old(state.specializedWidgets)
      decreases remaining
    {
      var k :| k in remaining;
      SweepFromStep(entries0, alive0, remaining, k);
      SweepOne(state, commands, k);
      remaining := remaining - {k};
    }
    assert SweepFrom(entries0, alive0, {}).0 == SweptEntries(entries0, alive0);
    assert SweepFrom(entries0, alive0, {}).1 == SweptAlive(alive0);
  }

  /** `visit_component` on the inspector, the commands and the world, as `VisitComponent` describes it. */
  method VisitComponentIn(env: Env, commands: Commands, state: State, world: World, ghost resources: Resources,
                          entity: Entity, j: nat, container: Entity)
    requires commands.Valid() && entity in world.entities && j < |world.entities[entity]|
    modifies state, commands, world
    ensures commands.Valid() && commands.despawned == old(commands.despawned)
    ensures state.rootKeys == old(state.rootKeys) && state.specializedWidgets == old(state.specializedWidgets)
    ensures PassOf(state, commands, world, resources)
      == VisitComponent(env, old(state.specializedWidgets), old(PassOf(state, commands, world, resources)), entity, j, container)
  {
    var c := world.entities[entity][j];
    var key := ComponentKey(entity, c.typeId);
    FetchEntry(commands, state, key, InspectorNode(container, ComponentLabel(env, c), None), Node(None));
    match state.entries[key].inner {
      case Node(Some(cont)) =>
        if c.typeId in env.registry && env.registry[c.typeId].reflectComponent {
          var mutated, value := DispatchReflect(env, commands, state, c.value, Address(key, []), cont);
          world.entities := world.entities[entity := world.entities[entity][j := c.(value := value)]];
          if mutated {
            world.mutated := world.mutated + {(entity, c.typeId)};
          }
        }
      case _ =>
    }
  }

  /** The components loop of `visit_entity`, as `ComponentsFrom` describes it. */
  method VisitComponentsIn(env: Env, commands: Commands, state: State, world: World, ghost resources: Resources,
                           entity: Entity, container: Entity)
    requires commands.Valid() && entity in world.entities
    modifies state, commands, world
    ensures commands.Valid() && commands.despawned == old(commands.despawned)
    ensures state.rootKeys == old(state.rootKeys) && state.specializedWidgets == old(state.specializedWidgets)
    ensures PassOf(state, commands, world, resources)
      == ComponentsFrom(env, old(state.specializedWidgets), old(PassOf(state, commands, world, resources)), entity, container, 0)
  {
    ghost var sp := state.specializedWidgets;
    ghost var final := ComponentsFrom(env, sp, PassOf(state, commands, world, resources), entity, container, 0);
    var n := |world.entities[entity]|;
    var i := 0;
    while i < n
      invariant commands.Valid() && commands.despawned == old(commands.despawned)
      invariant state.rootKeys == old(state.rootKeys) && state.specializedWidgets == sp
      invariant entity in world.entities && |world.entities[entity]| == n
      invariant ComponentsFrom(env, sp, PassOf(state, commands, world, resources), entity, container, i) == final
    {
      VisitComponentIn(env, commands, state, world, resources, entity, i, container);
      i := i + 1;
    }
  }

  /** `visit_entity` on the inspector, the commands and the world, as `VisitEntity` describes it; `ok` is false on a panic. */
  method VisitEntityIn(env: Env, commands: Commands, state: State, world: World, ghost resources: Resources,
                       entity: Entity, container: Entity) returns (ok: bool)
    requires commands.Valid()
    modifies state, commands, world
    ensures commands.Valid() && commands.despawned == old(commands.despawned)
    ensures state.rootKeys == old(state.rootKeys) && state.specializedWidgets == old(state.specializedWidgets)
    ensures var r := VisitEntity(env, old(state.specializedWidgets), old(PassOf(state, commands, world, resources)), entity, container);
      ok == r.Some? && (ok ==> PassOf(state, commands, world, resources) == r.value)
  {
    var key := EntityKey(entity);
    FetchEntry(commands, state, key, InspectorNode(container, "", Some(entity)), Node(None));
    ok := true;
    match state.entries[key].inner {
      case Node(Some(cont)) =>
        if entity !in world.entities {
          ok := false;  // `get_entity_location(entity).unwrap()` panics
        } else {
          VisitComponentsIn(env, commands, state, world, resources, entity, cont);
        }
      case _ =>
    }
  }

  /** `visit_resource` on the inspector, the commands and the resources, as `VisitResource` describes it; `ok` is false on a panic. */
  method VisitResourceIn(env: Env, commands: Commands, state: State, ghost world: World, resources: Resources,
                         t: TypeId, container: Entity) returns (ok: bool)
    requires commands.Valid()
    modifies state, commands, resources
    ensures commands.Valid() && commands.despawned == old(commands.despawned)
    ensures state.rootKeys == old(state.rootKeys) && state.specializedWidgets == old(state.specializedWidgets)
    ensures var r := VisitResource(env, old(state.specializedWidgets), old(PassOf(state, commands, world, resources)), t, container);
      ok == r.Some? && (ok ==> PassOf(state, commands, world, resources) == r.value)
  {
    var key := ResourceKey(t);
    FetchEntry(commands, state, key, InspectorNode(container, ResourceLabel(env, t), None), Node(None));
    ok := true;
    match state.entries[key].inner {
      case Node(Some(cont)) =>
        if t in env.registry && env.registry[t].reflectResource {
          if t !in resources.values {
            ok := false;  // borrowing a missing resource panics
          } else {
            var mutated, value := DispatchReflect(env, commands, state, resources.values[t], Address(key, []), cont);
            resources.values := resources.values[t := value];
            if mutated {
              resources.mutated := resources.mutated + {t};
            }
          }
        }
      case _ =>
    }
  }

  /** One root key, as `VisitRoot` describes it; `ok` is false on a panic. */
  method VisitRootIn(env: Env, commands: Commands, state: State, world: World, resources: Resources,
                     key: Key, container: Entity) returns (ok: bool)
    requires commands.Valid()
    modifies state, commands, world, resources
    ensures commands.Valid() && commands.despawned == old(commands.despawned)
    ensures state.rootKeys == old(state.rootKeys) && state.specializedWidgets == old(state.specializedWidgets)
    ensures var r := VisitRoot(env, old(state.specializedWidgets), old(PassOf(state, commands, world, resources)), key, container);
      ok == r.Some? && (ok ==> PassOf(state, commands, world, resources) == r.value)
  {
    match key {
      case ResourceKey(t) =>
        ok := VisitResourceIn(env, commands, state, world, resources, t, container);
      case EntityKey(e) =>
        ok := VisitEntityIn(env, commands, state, world, resources, e, container);
      case ComponentKey(e, t) =>
        if e !in world.entities {
          ok := false;  // `get_entity_location(entity).unwrap()` panics
        } else {
          var j := FindType(world.entities[e], t);
          if j.None? {
            ok := false;  // the archetype has no such type: `find(..).unwrap()` panics
          } else {
            VisitComponentIn(env, commands, state, world, resources, e, j.value, container);
            ok := true;
          }
        }
      case ReflectNode(_, _, _) =>
        ok := false;  // `unimplemented!()`
      case ReflectLeaf(_, _, _) =>
        ok := false;  // `unimplemented!()`
    }
  }

  /** The root-key loop, as `RootsFrom` describes it; `ok` is false when a visit panics, which ends the loop. */
  method VisitRootsIn(env: Env, commands: Commands, state: State, world: World, resources: Resources,
                      keys: seq<Key>, container: Entity) returns (ok: bool)
    requires commands.Valid()
    modifies state, commands, world, resources
    ensures commands.Valid() && commands.despawned == old(commands.despawned)
    ensures state.rootKeys == old(state.rootKeys) && state.specializedWidgets == old(state.specializedWidgets)
    ensures var r := RootsFrom(env, old(state.specializedWidgets), old(PassOf(state, commands, world, resources)), keys, container, 0);
      ok == r.Some? && (ok ==> PassOf(state, commands, world, resources) == r.value)
  {
    ghost var sp := state.specializedWidgets;
    ghost var final := RootsFrom(env, sp, PassOf(state, commands, world, resources), keys, container, 0);
    ok := true;
    var i := 0;
    while i < |keys|
      invariant 0 <= i <= |keys|
      invariant commands.Valid() && commands.despawned == old(commands.despawned)
      invariant state.rootKeys == old(state.rootKeys) && state.specializedWidgets == sp
      invariant RootsFrom(env, sp, PassOf(state, commands, world, resources), keys, container, i) == final
    {
      ghost var before := PassOf(state, commands, world, resources);
      ok := VisitRootIn(env, commands, state, world, resources, keys[i], container);
      if !ok {
        assert RootsFrom(env, sp, before, keys, container, i) == None;
        return;
      }
      i := i + 1;
    }
  }

  /**
   * One inspector's part of `update_system`: every liveness flag is
   * cleared, the root keys are taken out, visited in order and put back,
   * and the dead entries are swept. `ok` is false when a visit panics.
   */
  method UpdateState(env: Env, commands: Commands, state: State, world: World, resources: Resources, container: Entity)
      returns (ok: bool)
    requires commands.Valid()
    modifies state, commands, world, resources
    ensures commands.Valid() && state.specializedWidgets == old(state.specializedWidgets)
    ensures var r := PassRoots(env, old(state.specializedWidgets), old(PassOf(state, commands, world, resources)),
                               old(state.rootKeys), container);
      ok == r.Some? &&
      (ok ==> var u := r.value.tables;
        && state.rootKeys == old(state.rootKeys)
        && state.entries == SweptEntries(u.entries, u.alive) && state.entriesAlive == SweptAlive(u.alive)
        && commands.nextId == u.nextId && commands.spawned == u.spawned
        && commands.despawned == old(commands.despawned) + DeadWidgets(u.entries, u.alive)
        && WorldData(world.entities, world.mutated) == r.value.world
        && ResourceData(resources.values, resources.mutated) == r.value.resources)
  {
    MarkAllDead(state);
    assert PassOf(state, commands, world, resources)
      == old(PassOf(state, commands, world, resources)).(tables := old(TablesOf(state, commands)).(alive := MarkDead(old(state.entriesAlive))));
    var keys := state.rootKeys;
    state.rootKeys := [];
    ok := VisitRootsIn(env, commands, state, world, resources, keys, container);
    if !ok {
      return;  // the panic leaves the root keys taken out
    }
    state.rootKeys := keys;
    Sweep(state, commands);
  }

  // What a pass guarantees.

  /** Key `k` has a node entry marked alive. */
  ghost predicate Marked(t: Tables, k: Key)
  {
    k in t.entries && t.entries[k].inner.Node? && k in t.alive && t.alive[k]
  }

  /** A node entry marked alive stays so while the tables grow. */
  lemma GrowsKeepsMarked(t: Tables, u: Tables, k: Key)
    requires Grows(t, u) && Marked(t, k)
    ensures Marked(u, k)
  {
  }

  /** A dispatch into the children container of a marked node keeps the kinds, grows the tables and keeps the node marked. */
  lemma DispatchAfterFetch(env: Env, sp: map<TypeId, Spawner>, t: Tables, t1: Tables, v: Value, addr: Address,
                           key: Key, cont: Entity)
    requires KindsMatch(t1.entries) && Grows(t, t1) && Marked(t1, key)
    ensures var d := Dispatch(env, sp, t1, v, addr, cont);
      KindsMatch(d.tables.entries) && Grows(t, d.tables) && Marked(d.tables, key)
  {
    var d := Dispatch(env, sp, t1, v, addr, cont);
    DispatchSound(env, sp, t1, v, addr, cont);
    GrowsTrans(t, t1, d.tables);
    GrowsKeepsMarked(t1, d.tables, key);
  }

  /** `visit_component` keeps the kinds and grows the tables. */
  lemma VisitComponentGrows(env: Env, sp: map<TypeId, Spawner>, p: Pass, entity: Entity, j: nat, container: Entity)
    requires KindsMatch(p.tables.entries) && entity in p.world.entities && j < |p.world.entities[entity]|
    ensures var r := VisitComponent(env, sp, p, entity, j, container);
      KindsMatch(r.tables.entries) && Grows(p.tables, r.tables)
  {
    var c := p.world.entities[entity][j];
    var key := ComponentKey(entity, c.typeId);
    var w := InspectorNode(container, ComponentLabel(env, c), None);
    var t1 := Fetch(p.tables, key, w, Node(None));
    FetchNodeSound(p.tables, key, w);
    match t1.entries[key].inner
    case Node(Some(cont)) =>
      if c.typeId in env.registry && env.registry[c.typeId].reflectComponent {
        DispatchAfterFetch(env, sp, p.tables, t1, c.value, Address(key, []), key, cont);
      }
    case _ =>
  }

  /**
   * `visit_component` leaves the component's key with a node entry marked
   * alive: an existing entry keeps its widget, a new one is created
   * collapsed, so no child is visited and the world is untouched in the
   * frame that creates it, and a collapsed one only becomes alive.
   */
  lemma VisitComponentEntry(env: Env, sp: map<TypeId, Spawner>, p: Pass, entity: Entity, j: nat, container: Entity)
    requires KindsMatch(p.tables.entries) && entity in p.world.entities && j < |p.world.entities[entity]|
    ensures var c := p.world.entities[entity][j];
      var key := ComponentKey(entity, c.typeId);
      var r := VisitComponent(env, sp, p, entity, j, container);
      && KindsMatch(r.tables.entries) && Grows(p.tables, r.tables) && Marked(r.tables, key)
      && (key in p.tables.entries ==> r.tables.entries[key].widget == p.tables.entries[key].widget)
      && (key !in p.tables.entries ==>
            r == p.(tables := Fetch(p.tables, key, InspectorNode(container, ComponentLabel(env, c), None), Node(None))))
      && (key in p.tables.entries && p.tables.entries[key].inner == Node(None) ==>
            r == p.(tables := p.tables.(alive := p.tables.alive[key := true])))
  {
    var c := p.world.entities[entity][j];
    var key := ComponentKey(entity, c.typeId);
    var w := InspectorNode(container, ComponentLabel(env, c), None);
    var t1 := Fetch(p.tables, key, w, Node(None));
    FetchNodeSound(p.tables, key, w);
    match t1.entries[key].inner
    case Node(Some(cont)) =>
      if c.typeId in env.registry && env.registry[c.typeId].reflectComponent {
        DispatchAfterFetch(env, sp, p.tables, t1, c.value, Address(key, []), key, cont);
      }
    case _ =>
  }

  /** The components loop keeps the kinds and grows the tables. */
  lemma {:induction false} ComponentsFromFacts(env: Env, sp: map<TypeId, Spawner>, p: Pass, entity: Entity,
                                               container: Entity, i: nat, r: Pass)
    requires KindsMatch(p.tables.entries) && entity in p.world.entities
    requires r == ComponentsFrom(env, sp, p, entity, container, i)
    decreases |p.world.entities[entity]| - i
    ensures KindsMatch(r.tables.entries) && Grows(p.tables, r.tables)
  {
    if i < |p.world.entities[entity]| {
      var q := VisitComponent(env, sp, p, entity, i, container);
      VisitComponentGrows(env, sp, p, entity, i, container);
      ComponentsFromFacts(env, sp, q, entity, container, i + 1, r);
      GrowsTrans(p.tables, q.tables, r.tables);
    } else {
      assert Grows(p.tables, p.tables);
    }
  }

  /**
   * `visit_entity` leaves the entity's key with a node entry marked alive:
   * an existing entry keeps its widget, a new one is created collapsed, so
   * no component is visited in the frame that creates it, and a collapsed
   * one only becomes alive.
   */
  lemma VisitEntityEntry(env: Env, sp: map<TypeId, Spawner>, p: Pass, entity: Entity, container: Entity)
    requires KindsMatch(p.tables.entries)
    ensures var key := EntityKey(entity);
      var r := VisitEntity(env, sp, p, entity, container);
      && (r.Some? ==> KindsMatch(r.value.tables.entries) && Grows(p.tables, r.value.tables) && Marked(r.value.tables, key))
      && (r.Some? && key in p.tables.entries ==> r.value.tables.entries[key].widget == p.tables.entries[key].widget)
      && (key !in p.tables.entries ==>
            r == Some(p.(tables := Fetch(p.tables, key, InspectorNode(container, "", Some(entity)), Node(None)))))
      && (key in p.tables.entries && p.tables.entries[key].inner == Node(None) ==>
            r == Some(p.(tables := p.tables.(alive := p.tables.alive[key := true]))))
  {
    var key := EntityKey(entity);
    var w := InspectorNode(container, "", Some(entity));
    var t1 := Fetch(p.tables, key, w, Node(None));
    FetchNodeSound(p.tables, key, w);
    match t1.entries[key].inner
    case Node(Some(cont)) =>
      if entity in p.world.entities {
        var r := ComponentsFrom(env, sp, p.(tables := t1), entity, cont, 0);
        ComponentsFromFacts(env, sp, p.(tables := t1), entity, cont, 0, r);
        GrowsTrans(p.tables, t1, r.tables);
        GrowsKeepsMarked(t1, r.tables, key);
      }
    case _ =>
  }

  /** `visit_resource` leaves the resource's key with a node entry marked alive. */
  lemma VisitResourceEntry(env: Env, sp: map<TypeId, Spawner>, p: Pass, t: TypeId, container: Entity)
    requires KindsMatch(p.tables.entries)
    ensures var key := ResourceKey(t);
      var r := VisitResource(env, sp, p, t, container);
      && (r.Some? ==> KindsMatch(r.value.tables.entries) && Grows(p.tables, r.value.tables) && Marked(r.value.tables, key))
      && (r.Some? && key in p.tables.entries ==> r.value.tables.entries[key].widget == p.tables.entries[key].widget)
      && (key !in p.tables.entries ==>
            r == Some(p.(tables := Fetch(p.tables, key, InspectorNode(container, ResourceLabel(env, t), None), Node(None)))))
  {
    var key := ResourceKey(t);
    var w := InspectorNode(container, ResourceLabel(env, t), None);
    var t1 := Fetch(p.tables, key, w, Node(None));
    FetchNodeSound(p.tables, key, w);
    match t1.entries[key].inner
    case Node(Some(cont)) =>
      if t in env.registry && env.registry[t].reflectResource && t in p.resources.values {
        DispatchAfterFetch(env, sp, p.tables, t1, p.resources.values[t], Address(key, []), key, cont);
      }
    case _ =>
  }

  /** A root key that does not panic ends marked, the kinds kept and the tables grown. */
  lemma VisitRootEntry(env: Env, sp: map<TypeId, Spawner>, p: Pass, key: Key, container: Entity)
    requires KindsMatch(p.tables.entries)
    ensures var r := VisitRoot(env, sp, p, key, container);
      r.Some? ==> KindsMatch(r.value.tables.entries) && Grows(p.tables, r.value.tables) && Marked(r.value.tables, key)
  {
    match key
    case ResourceKey(t) => VisitResourceEntry(env, sp, p, t, container);
    case EntityKey(e) => VisitEntityEntry(env, sp, p, e, container);
    case ComponentKey(e, t) =>
      if e in p.world.entities {
        var j := FindType(p.world.entities[e], t);
        if j.Some? {
          VisitComponentEntry(env, sp, p, e, j.value, container);
        }
      }
    case _ =>
  }

  /**
   * The root-key loop, when it does not panic, keeps the kinds, grows the
   * tables and leaves every root key marked.
   */
  lemma {:induction false} RootsFromFacts(env: Env, sp: map<TypeId, Spawner>, t: Tables, p: Pass, keys: seq<Key>,
                                          container: Entity, i: nat, r: Option<Pass>)
    requires i <= |keys| && KindsMatch(p.tables.entries) && Grows(t, p.tables)
    requires forall j :: 0 <= j < i ==> Marked(p.tables, keys[j])
    requires r == RootsFrom(env, sp, p, keys, container, i)
    decreases |keys| - i
    ensures r.Some? ==> KindsMatch(r.value.tables.entries) && Grows(t, r.value.tables)
    ensures r.Some? ==> forall j :: 0 <= j < |keys| ==> Marked(r.value.tables, keys[j])
  {
    if i < |keys| {
      VisitRootEntry(env, sp, p, keys[i], container);
      match VisitRoot(env, sp, p, keys[i], container)
      case None =>
      case Some(q) =>
        GrowsTrans(t, p.tables, q.tables);
        forall j | 0 <= j < i
          ensures Marked(q.tables, keys[j])
        {
          GrowsKeepsMarked(p.tables, q.tables, keys[j]);
        }
        RootsFromFacts(env, sp, t, q, keys, container, i + 1, r);
    }
  }

  /** A node or leaf root key (`unimplemented!()`) makes the root-key loop panic once it gets there. */
  lemma {:induction false} ReflectRootPanics(env: Env, sp: map<TypeId, Spawner>, p: Pass, keys: seq<Key>,
                                             container: Entity, i: nat, j: nat)
    requires i <= j < |keys| && (keys[j].ReflectNode? || keys[j].ReflectLeaf?)
    decreases |keys| - i
    ensures RootsFrom(env, sp, p, keys, container, i).None?
  {
    if i < j {
      match VisitRoot(env, sp, p, keys[i], container)
      case None =>
      case Some(q) => ReflectRootPanics(env, sp, q, keys, container, i + 1, j);
    }
  }

  /**
   * What one inspector's pass leaves, when it does not panic: the entries
   * and the liveness flags have the same keys (when they had before), every
   * flag is true, the kinds still match, every root key has a node entry,
   * and every entry that went away had its widget despawned. A node or
   * leaf root key makes the pass panic.
   */
  lemma PassOutcome(env: Env, sp: map<TypeId, Spawner>, p: Pass, keys: seq<Key>, container: Entity)
    requires KindsMatch(p.tables.entries)
    ensures var r := PassRoots(env, sp, p, keys, container);
      r.Some? ==> var u := r.value.tables;
        && (p.tables.entries.Keys == p.tables.alive.Keys ==> SweptEntries(u.entries, u.alive).Keys == SweptAlive(u.alive).Keys)
        && KindsMatch(SweptEntries(u.entries, u.alive))
        && (forall j :: 0 <= j < |keys| ==> keys[j] in SweptEntries(u.entries, u.alive)
                                            && SweptEntries(u.entries, u.alive)[keys[j]].inner.Node?)
        && (forall k :: k in p.tables.entries && k !in SweptEntries(u.entries, u.alive) ==>
                          p.tables.entries[k].widget in DeadWidgets(u.entries, u.alive))
    ensures forall j :: 0 <= j < |keys| && (keys[j].ReflectNode? || keys[j].ReflectLeaf?) ==>
      PassRoots(env, sp, p, keys, container).None?
  {
    var p0 := p.(tables := p.tables.(alive := MarkDead(p.tables.alive)));
    var r := PassRoots(env, sp, p, keys, container);
    assert Grows(p0.tables, p0.tables);
    RootsFromFacts(env, sp, p0.tables, p0, keys, container, 0, r);
    if r.Some? {
      var u := r.value.tables;
      forall k | k in p.tables.entries && k !in SweptEntries(u.entries, u.alive)
        ensures p.tables.entries[k].widget in DeadWidgets(u.entries, u.alive)
      {
        assert Dead(u.alive, k) && u.entries[k].widget == p.tables.entries[k].widget;
      }
    }
    forall j | 0 <= j < |keys| && (keys[j].ReflectNode? || keys[j].ReflectLeaf?)
      ensures PassRoots(env, sp, p, keys, container).None?
    {
      ReflectRootPanics(env, sp, p0, keys, container, 0, j);
    }
  }

  // The pass over every inspector.

  /** Tables that are consistent: the kinds match and the entries and the liveness flags have the same keys. */
  ghost predicate ConsistentTables(entries: map<Key, Entry>, alive: map<Key, bool>)
  {
    KindsMatch(entries) && entries.Keys == alive.Keys
  }

  /** Tables after a pass: consistent, every flag alive, and every root key shown by a node entry and none a node or leaf key. */
  ghost predicate SettledTables(entries: map<Key, Entry>, alive: map<Key, bool>, keys: seq<Key>)
  {
    && ConsistentTables(entries, alive)
    && (forall k :: k in alive ==> alive[k])
    && (forall j :: 0 <= j < |keys| ==>
          keys[j] in entries && entries[keys[j]].inner.Node? && !keys[j].ReflectNode? && !keys[j].ReflectLeaf?)
  }

  /** An inspector whose tables are consistent. */
  ghost predicate Consistent(state: State)
    reads state
  {
    ConsistentTables(state.entries, state.entriesAlive)
  }

  /** An inspector whose tables are settled for its root keys. */
  ghost predicate Settled(state: State)
    reads state
  {
    SettledTables(state.entries, state.entriesAlive, state.rootKeys)
  }

  /** A new inspector is consistent. */
  lemma NewStateConsistent(state: State)
    requires state.entries == map[] && state.entriesAlive == map[]
    ensures Consistent(state)
  {
  }

  /** A pass that does not panic leaves consistent tables settled. */
  lemma PassSettles(env: Env, sp: map<TypeId, Spawner>, p: Pass, keys: seq<Key>, container: Entity)
    requires ConsistentTables(p.tables.entries, p.tables.alive)
    ensures var r := PassRoots(env, sp, p, keys, container);
      r.Some? ==> SettledTables(SweptEntries(r.value.tables.entries, r.value.tables.alive), SweptAlive(r.value.tables.alive), keys)
  {
    PassOutcome(env, sp, p, keys, container);
    var r := PassRoots(env, sp, p, keys, container);
    if r.Some? {
      forall j | 0 <= j < |keys|
        ensures !keys[j].ReflectNode? && !keys[j].ReflectLeaf?
      {
      }
    }
  }

  /** What the inspectors of `update_system` share: the commands, the world and the resources. */
  datatype Shared = Shared(nextId: nat, spawned: map<Entity, Spawned>, despawned: set<Entity>,
                           world: WorldData, resources: ResourceData)

  /** What one inspector's pass reads and changes of its `State`. */
  datatype Inspector = Inspector(sp: map<TypeId, Spawner>, entries: map<Key, Entry>, alive: map<Key, bool>, rootKeys: seq<Key>)

  /** One inspector after its pass, and what it leaves of the shared commands, world and resources. */
  datatype Stepped = Stepped(shared: Shared, inspector: Inspector)

  /** The `Shared` view of the commands, the world and the resources. */
  ghost function SharedOf(commands: Commands, world: World, resources: Resources): Shared
    reads commands, world, resources
  {
    Shared(commands.nextId, commands.spawned, commands.despawned,
           WorldData(world.entities, world.mutated), ResourceData(resources.values, resources.mutated))
  }

  /** The `Inspector` view of a `State`. */
  ghost function InspectorOf(state: State): Inspector
    reads state
  {
    Inspector(state.specializedWidgets, state.entries, state.entriesAlive, state.rootKeys)
  }

  /** The `Inspector` views of `states`, in order. */
  ghost function InspectorsOf(states: seq<State>): (r: seq<Inspector>)
    reads states
    ensures |r| == |states| && forall k :: 0 <= k < |states| ==> r[k] == InspectorOf(states[k])
  {
    seq(|states|, k requires 0 <= k < |states| reads states => InspectorOf(states[k]))
  }

  /**
   * One inspector's part of `update_system` on values: the root keys are
   * visited after every flag was cleared, then the dead entries are swept
   * and their widgets despawned; `None` when a visit panics.
   */
  function InspectorPass(env: Env, s: Shared, ins: Inspector, container: Entity): Option<Stepped>
  {
    var p := Pass(Tables(ins.entries, ins.alive, s.nextId, s.spawned), s.world, s.resources);
    match PassRoots(env, ins.sp, p, ins.rootKeys, container)
    case None => None
    case Some(q) =>
      var u := q.tables;
      Some(Stepped(Shared(u.nextId, u.spawned, s.despawned + DeadWidgets(u.entries, u.alive), q.world, q.resources),
                   ins.(entries := SweptEntries(u.entries, u.alive), alive := SweptAlive(u.alive))))
  }

  /** `out` is `ins` after a pass: settled for the same root keys, with the same spawners. */
  ghost predicate PassedFrom(ins: Inspector, out: Inspector)
  {
    SettledTables(out.entries, out.alive, ins.rootKeys) && out.rootKeys == ins.rootKeys && out.sp == ins.sp
  }

  /** An inspector with consistent tables is settled for its root keys after a pass that does not panic, and keeps them. */
  lemma InspectorPassSettles(env: Env, s: Shared, ins: Inspector, container: Entity, st: Stepped)
    requires ConsistentTables(ins.entries, ins.alive) && InspectorPass(env, s, ins, container) == Some(st)
    ensures PassedFrom(ins, st.inspector) && s.despawned <= st.shared.despawned
  {
    PassSettles(env, ins.sp, Pass(Tables(ins.entries, ins.alive, s.nextId, s.spawned), s.world, s.resources),
                ins.rootKeys, container);
  }

  /** `update_system` so far: the shared state, and the inspectors already passed. */
  datatype SystemResult = SystemResult(shared: Shared, done: seq<Inspector>)

  /** The inspector loop of `update_system` from inspector `i` on, after `acc`; `None` once a pass panics. */
  function SystemFrom(env: Env, acc: SystemResult, inspectors: seq<Inspector>, containers: seq<Entity>, i: nat): Option<SystemResult>
    requires |containers| == |inspectors|
    decreases |inspectors| - i
  {
    if i >= |inspectors| then Some(acc)
    else match InspectorPass(env, acc.shared, inspectors[i], containers[i])
      case None => None
      case Some(st) => SystemFrom(env, SystemResult(st.shared, acc.done + [st.inspector]), inspectors, containers, i + 1)
  }

  /** When no pass panics, the inspector loop yields one inspector per state, after those it started with. */
  lemma {:induction false} SystemFromDone(env: Env, acc: SystemResult, inspectors: seq<Inspector>,
                                          containers: seq<Entity>, i: nat, r: SystemResult)
    requires |containers| == |inspectors| && i <= |inspectors| && |acc.done| == i
    requires SystemFrom(env, acc, inspectors, containers, i) == Some(r)
    decreases |inspectors| - i
    ensures |r.done| == |inspectors| && r.done[..i] == acc.done
  {
    if i < |inspectors| {
      var st := InspectorPass(env, acc.shared, inspectors[i], containers[i]).value;
      SystemFromDone(env, SystemResult(st.shared, acc.done + [st.inspector]), inspectors, containers, i + 1, r);
      assert r.done[..i + 1][..i] == r.done[..i];
    }
  }

  /**
   * When no pass panics, an inspector of the loop whose tables were
   * consistent is settled for its root keys afterwards, and keeps them.
   */
  lemma {:induction false} SystemFromSettles(env: Env, acc: SystemResult, inspectors: seq<Inspector>,
                                             containers: seq<Entity>, i: nat, r: SystemResult, k: nat)
    requires |containers| == |inspectors| && i <= k < |inspectors| && |acc.done| == i
    requires ConsistentTables(inspectors[k].entries, inspectors[k].alive)
    requires SystemFrom(env, acc, inspectors, containers, i) == Some(r)
    decreases |inspectors| - i
    ensures |r.done| == |inspectors| && PassedFrom(inspectors[k], r.done[k])
  {
    var st := InspectorPass(env, acc.shared, inspectors[i], containers[i]).value;
    var acc1 := SystemResult(st.shared, acc.done + [st.inspector]);
    if k == i {
      InspectorPassSettles(env, acc.shared, inspectors[i], containers[i], st);
      SystemFromDone(env, acc1, inspectors, containers, i + 1, r);
      assert r.done[i] == r.done[..i + 1][i];
    } else {
      SystemFromSettles(env, acc1, inspectors, containers, i + 1, r, k);
    }
  }

  /** One inspector's pass: the commands, world, resources and `State` are what `InspectorPass` leaves, and the state is settled. */
  method UpdateOne(env: Env, commands: Commands, state: State, world: World, resources: Resources, container: Entity)
      returns (ok: bool)
    requires commands.Valid()
    modifies state, commands, world, resources
    ensures commands.Valid()
    ensures var r := InspectorPass(env, old(SharedOf(commands, world, resources)), old(InspectorOf(state)), container);
      ok == r.Some? && (ok ==> SharedOf(commands, world, resources) == r.value.shared && InspectorOf(state) == r.value.inspector)
    ensures ok ==> state.rootKeys == old(state.rootKeys)
    ensures ok && old(Consistent(state)) ==> Settled(state)
  {
    if Consistent(state) {
      PassSettles(env, state.specializedWidgets, PassOf(state, commands, world, resources), state.rootKeys, container);
    }
    ok := UpdateState(env, commands, state, world, resources, container);
  }

  /**
   * The body of `update_system`'s loop for inspector `i`, after the
   * inspectors before it left `done`: its pass is the fold's next step, and
   * the other inspectors are untouched.
   */
  method UpdateStep(env: Env, commands: Commands, world: World, resources: Resources, containers: seq<Entity>,
                    states: seq<State>, i: nat, ghost olds: seq<Inspector>, ghost done: seq<Inspector>,
                    ghost final: Option<SystemResult>) returns (ok: bool, ghost doneAfter: seq<Inspector>)
    requires commands.Valid() && |containers| == |states| == |olds| && i < |states| && |done| == i
    requires forall p, q :: 0 <= p < q < |states| ==> states[p] != states[q]
    requires InspectorOf(states[i]) == olds[i]
    requires SystemFrom(env, SystemResult(SharedOf(commands, world, resources), done), olds, containers, i) == final
    modifies commands, world, resources, states[i]
    ensures commands.Valid()
    ensures forall k :: 0 <= k < |states| && k != i ==> InspectorOf(states[k]) == old(InspectorOf(states[k]))
    ensures !ok ==> final == None
    ensures ok ==> doneAfter == done + [InspectorOf(states[i])]
    ensures ok ==> SystemFrom(env, SystemResult(SharedOf(commands, world, resources), doneAfter), olds, containers, i + 1) == final
  {
    ok := UpdateOne(env, commands, states[i], world, resources, containers[i]);
    doneAfter := done + [InspectorOf(states[i])];
    forall k | 0 <= k < |states| && k != i
      ensures InspectorOf(states[k]) == old(InspectorOf(states[k]))
    {
      assert states[k] != states[i];
    }
  }

  /**
   * `update_system`: the pass of every inspector, in query order, each on
   * the entity that holds its `State`. The commands, world, resources and
   * inspectors are what the inspector loop `SystemFrom` leaves, and it
   * panics as that loop does. When no pass panics (`ok`), every inspector is
   * settled for its root keys, which it keeps.
   */
  method UpdateSystem(env: Env, commands: Commands, world: World, resources: Resources,
                      containers: seq<Entity>, states: seq<State>) returns (ok: bool)
    requires commands.Valid() && |containers| == |states|
    requires forall i, j :: 0 <= i < j < |states| ==> states[i] != states[j]
    requires forall i :: 0 <= i < |states| ==> Consistent(states[i])
    modifies commands, world, resources, set i | 0 <= i < |states| :: states[i]
    ensures commands.Valid()
    ensures var r := SystemFrom(env, SystemResult(old(SharedOf(commands, world, resources)), []),
                                old(InspectorsOf(states)), containers, 0);
      ok == r.Some? && (ok ==> SharedOf(commands, world, resources) == r.value.shared && InspectorsOf(states) == r.value.done)
    ensures ok ==> forall i :: 0 <= i < |states| ==> Settled(states[i]) && states[i].rootKeys == old(states[i].rootKeys)
  {
    ghost var olds := InspectorsOf(states);
    ghost var final := SystemFrom(env, SystemResult(SharedOf(commands, world, resources), []), olds, containers, 0);
    ghost var done: seq<Inspector> := [];
    var i := 0;
    while i < |states|
      invariant 0 <= i <= |states| && commands.Valid() && |done| == i
      invariant forall k :: 0 <= k < i ==> InspectorOf(states[k]) == done[k]
      invariant forall k :: i <= k < |states| ==> InspectorOf(states[k]) == olds[k]
      invariant SystemFrom(env, SystemResult(SharedOf(commands, world, resources), done), olds, containers, i) == final
    {
      ok, done := UpdateStep(env, commands, world, resources, containers, states, i, olds, done, final);
      if !ok {
        return;
      }
      i := i + 1;
    }
    ok := true;
    assert InspectorsOf(states) == done;
    forall k | 0 <= k < |states|
      ensures Settled(states[k]) && states[k].rootKeys == old(states[k].rootKeys)
    {
      assert ConsistentTables(olds[k].entries, olds[k].alive);
      SystemFromSettles(env, SystemResult(old(SharedOf(commands, world, resources)), []), olds, containers, 0, final.value, k);
    }
  }

  // The labels of entity nodes.

  /** The `Name` and `Labels` components of an entity, when it has them. */
  datatype Naming = Naming(name: Option<string>, labels: Option<seq<string>>)

  /** `labels` separated by `", "`, as the label loop writes them. */
  function Join(labels: seq<string>): string
    decreases |labels|
  {
    if |labels| == 0 then ""
    else if |labels| == 1 then labels[0]
    else Join(labels[..|labels| - 1]) + ", " + labels[|labels| - 1]
  }

  /** The total length of `labels`. */
  function TotalLength(labels: seq<string>): nat
  {
    if |labels| == 0 then 0 else TotalLength(labels[..|labels| - 1]) + |labels[|labels| - 1]|
  }

  /** A joined text holds every label and one separator between each two. */
  lemma {:induction false} JoinLength(labels: seq<string>)
    requires |labels| > 0
    ensures |Join(labels)| == TotalLength(labels) + 2 * (|labels| - 1)
    decreases |labels|
  {
    if |labels| > 1 {
      JoinLength(labels[..|labels| - 1]);
    }
  }

  /** Joining two non-empty runs of labels is joining each and separating the two. */
  lemma {:induction false} JoinConcat(a: seq<string>, b: seq<string>)
    requires |a| > 0 && |b| > 0
    ensures Join(a + b) == Join(a) + ", " + Join(b)
    decreases |b|
  {
    var ab := a + b;
    if |b| == 1 {
      assert ab[..|ab| - 1] == a;
    } else {
      var b' := b[..|b| - 1];
      assert ab[..|ab| - 1] == a + b';
      JoinConcat(a, b');
    }
  }

  /**
   * The text of an entity label: the target's `Debug` text, then a space and
   * its name when it has one, then its labels in brackets, separated by
   * commas, when it has `Labels`.
   */
  function LabelText(env: Env, target: Entity, naming: Naming): (r: string)
    ensures |r| >= |env.entityDebug(target)| && r[..|env.entityDebug(target)|] == env.entityDebug(target)
    ensures naming.labels.Some? ==> |r| >= 2 && r[|r| - 1] == ']'
    ensures naming.labels.None? && naming.name.Some? ==> |r| > |naming.name.value| && r[|r| - |naming.name.value|..] == naming.name.value
    ensures naming.labels.None? && naming.name.None? ==> r == env.entityDebug(target)
  {
    var withName := env.entityDebug(target) + (if naming.name.Some? then " " + naming.name.value else "");
    if naming.labels.Some? then withName + " [" + Join(naming.labels.value) + "]" else withName
  }

  /**
   * The text of a label, built as the source does: the `Debug` text, a
   * space and the name pushed, then the bracket, each label preceded by a
   * separator after the first, and the closing bracket.
   */
  method BuildLabel(env: Env, target: Entity, naming: Naming) returns (value: string)
    ensures value == LabelText(env, target, naming)
  {
    value := env.entityDebug(target);
    if naming.name.Some? {
      value := value + [' '];
      value := value + naming.name.value;
    }
    if naming.labels.Some? {
      var labels := naming.labels.value;
      ghost var head := value;
      value := value + " [";
      var i := 0;
      while i < |labels|
        invariant 0 <= i <= |labels|
        invariant value == head + " [" + Join(labels[..i])
      {
        assert labels[..i + 1][..i] == labels[..i];
        if i > 0 {
          value := value + ", ";
        }
        value := value + labels[i];
        i := i + 1;
      }
      assert labels[..i] == labels;
      value := value + [']'];
    }
  }

  /** An entity label widget: its entity, the `Text` it shows, and the entity it follows (`EntityLabel`). */
  class LabelWidget {
    const entity: Entity
    const target: Entity
    var text: string

    constructor (entity: Entity, target: Entity)
      ensures this.entity == entity && this.target == target && text == ""
    {
      this.entity := entity;
      this.target := target;
      text := "";
    }
  }

  /** A label is recomputed when its `EntityLabel` was just added or its target's name or labels changed. */
  predicate Recompute(w: LabelWidget, added: set<Entity>, changedTargets: set<Entity>)
  {
    w.entity in added || w.target in changedTargets
  }

  /** A label that needs its text recomputed, but whose target is gone: the `unwrap` panics. */
  predicate Orphaned(w: LabelWidget, added: set<Entity>, changedTargets: set<Entity>, namings: map<Entity, Naming>)
  {
    Recompute(w, added, changedTargets) && w.target !in namings
  }

  /**
   * `update_entity_labels`: every label just added, or whose target's name
   * or labels changed, gets the text of its target; the others keep theirs.
   * `namings` holds the name and labels of every entity of the world; a
   * label to recompute whose target is not there panics (`ok` false).
   */
  method UpdateEntityLabels(env: Env, widgets: seq<LabelWidget>, added: set<Entity>, changedTargets: set<Entity>,
                            namings: map<Entity, Naming>) returns (ok: bool)
    requires forall i, j :: 0 <= i < j < |widgets| ==> widgets[i] != widgets[j]
    modifies set i | 0 <= i < |widgets| :: widgets[i]
    ensures ok <==> forall i :: 0 <= i < |widgets| ==> !Orphaned(widgets[i], added, changedTargets, namings)
    ensures ok ==> forall i :: 0 <= i < |widgets| ==>
      widgets[i].text == if Recompute(widgets[i], added, changedTargets)
                         then LabelText(env, widgets[i].target, namings[widgets[i].target])
                         else old(widgets[i].text)
  {
    var i := 0;
    while i < |widgets|
      invariant 0 <= i <= |widgets|
      invariant forall k :: 0 <= k < i ==> !Orphaned(widgets[k], added, changedTargets, namings)
      invariant forall k :: 0 <= k < i ==>
        widgets[k].text == if Recompute(widgets[k], added, changedTargets)
                           then LabelText(env, widgets[k].target, namings[widgets[k].target])
                           else old(widgets[k].text)
      invariant forall k :: i <= k < |widgets| ==> widgets[k].text == old(widgets[k].text)
    {
      var w := widgets[i];
      if w.entity in added || w.target in changedTargets {
        if w.target !in namings {
          return false;
        }
        w.text := BuildLabel(env, w.target, namings[w.target]);
      }
      i := i + 1;
    }
    return true;
  }
}

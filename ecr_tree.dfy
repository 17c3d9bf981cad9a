/**
 * The data of the reflection tree inspector (widgets/ecr_tree/mod.rs): the
 * keys that identify what is shown, the entries the inspector keeps for
 * them, the reflected values it walks, and the `State` component that holds
 * the tables. Bevy's reflection, type registry and `ron` are foreign: the
 * model takes them as the functions of an `Env`.
 */
module EcrTree {
  import opened Base
  import opened Ui

  /** A `TypeId`. */
  type TypeId = nat

  /** The `TypeId` of `bool`; its numeric value is immaterial. */
  const BoolType: TypeId := 0

  /**
   * Where a reflected value lives. The source uses the value's memory
   * address; the model uses the root it belongs to (a component or a
   * resource) and the path of field indices from that root.
   */
  datatype Address = Address(root: Key, path: seq<nat>)

  /** A `Key`: what an entry of the inspector stands for. */
  datatype Key =
    | ResourceKey(typeId: TypeId)
    | EntityKey(entity: Entity)
    | ComponentKey(entity: Entity, typeId: TypeId)
    | ReflectNode(address: Address, typeId: TypeId, variantIndex: Option<nat>)
    | ReflectLeaf(address: Address, typeId: TypeId, variantIndex: Option<nat>)

  /** The payload of an enum's active variant. */
  datatype Variant = Unit | NewType(payload: Value) | TupleVariant(payload: Value) | StructVariant(payload: Value)

  /** What a plain (`ReflectMut::Value`) value holds: a `bool`, or anything else, opaque. */
  datatype Data = BoolData(b: bool) | OpaqueData(id: nat)

  /** How a reflected value is built, as `reflect_mut` reports it. */
  datatype Shape =
    | Struct(names: seq<string>, fields: seq<Value>)
    | Tuple(fields: seq<Value>)
    | TupleStruct(fields: seq<Value>)
    | List(fields: seq<Value>)
    | Map(keys: seq<Value>, fields: seq<Value>)
    | Enum(variantNames: seq<string>, active: nat, variant: Variant)
    | Plain(data: Data)

  /** A reflected value and its type. */
  datatype Value = Value(typeId: TypeId, shape: Shape)

  /** The contents of an inspector entry. */
  datatype EntryType =
    | Node(container: Option<Entity>)
    | Leaf(value: Value, fieldMutated: bool, widgetMutated: Option<Value>)

  /** An `Entry`: the widget that shows a key, and what the inspector remembers about it. */
  datatype Entry = Entry(widget: Entity, inner: EntryType)

  /** The widget spawners a leaf can be created with (`FnSpawnWidget` values). */
  datatype Spawner = SpawnDefault | SpawnBool | SpawnUnitActive | SpawnWrongVariant

  /** The parts of the inspector style the model uses: the two chevron icons. */
  datatype Style = Style(iconChevronDown: Material, iconChevronUp: Material)

  /** What the type registry knows about a type. */
  datatype Registration = Registration(shortName: string, reflectComponent: bool, reflectResource: bool)

  /**
   * The foreign functions the inspector calls: the type registry, a type's
   * full name, whether a value is serialisable and what `ron` makes of it,
   * the `ReflectSerializer` text (with its error text on failure), the
   * `ReflectDeserializer`, `reflect_partial_eq` and `Debug` of an entity.
   */
  datatype Env = Env(
    registry: map<TypeId, Registration>,
    typeName: TypeId -> string,
    serializable: Value -> bool,
    ron: Value -> Option<string>,
    reflectText: Value -> Text,
    deserialize: Text -> Option<Value>,
    partialEq: (Value, Value) -> Option<bool>,
    entityDebug: Entity -> string)

  /** `serialize_reflect`: `ron` of a serialisable value, `None` when it is not serialisable or `ron` fails. */
  function SerializeReflect(env: Env, v: Value): (r: Option<string>)
    ensures r.Some? <==> env.serializable(v) && env.ron(v).Some?
    ensures r.Some? ==> r == env.ron(v)
  {
    if !env.serializable(v) then None else env.ron(v)
  }

  /** An `EntryAccess` component: which inspector's entry a widget edits. */
  datatype EntryAccess = EntryAccess(stateEntity: Entity, key: Key)

  /** The `State` component of an inspector. */
  class State {
    var stateEntity: Option<Entity>
    var rootKeys: seq<Key>
    var entries: map<Key, Entry>
    var entriesAlive: map<Key, bool>
    var specializedWidgets: map<TypeId, Spawner>
    var style: Style

    /** `State::new`: no entries, no root keys, and `bool` shown by its check-box spawner. */
    constructor (stateEntity: Entity, style: Style)
      ensures this.stateEntity == Some(stateEntity) && this.style == style
      ensures entries == map[] && entriesAlive == map[] && rootKeys == []
      ensures specializedWidgets == map[BoolType := SpawnBool]
    {
      this.stateEntity := Some(stateEntity);
      entries := map[];
      entriesAlive := map[];
      specializedWidgets := map[BoolType := SpawnBool];
      this.style := style;
      rootKeys := [];
    }

    /** What callers of `get_root_keys_mut` do with it: replace the root keys. */
    method SetRootKeys(keys: seq<Key>)
      modifies this
      ensures rootKeys == keys
      ensures entries == old(entries) && entriesAlive == old(entriesAlive)
      ensures specializedWidgets == old(specializedWidgets) && stateEntity == old(stateEntity) && style == old(style)
    {
      rootKeys := keys;
    }

    /** What callers of `get_widgets_mut` do with it: register a spawner for a type. */
    method RegisterWidget(t: TypeId, spawner: Spawner)
      modifies this
      ensures specializedWidgets == old(specializedWidgets)[t := spawner]
      ensures entries == old(entries) && entriesAlive == old(entriesAlive)
      ensures rootKeys == old(rootKeys) && stateEntity == old(stateEntity) && style == old(style)
    {
      specializedWidgets := specializedWidgets[t := spawner];
    }
  }

  /**
   * The tables a visit changes, as one value: the entries, the liveness
   * flags, and the widgets spawned so far with the next free entity.
   */
  datatype Tables = Tables(entries: map<Key, Entry>, alive: map<Key, bool>, nextId: nat, spawned: map<Entity, Spawned>)

  /** The tables of `state` and `commands`. */
  ghost function TablesOf(state: State, commands: Commands): Tables
    reads state, commands
  {
    Tables(state.entries, state.entriesAlive, commands.nextId, commands.spawned)
  }

  /** What a visit leaves: the tables, whether it wrote a widget's value into the field, and the field's value. */
  datatype Visit = Visit(tables: Tables, mutated: bool, value: Value)

  /** `w` spawned as a fresh entity; returns the tables with it and its entity. */
  function SpawnIn(t: Tables, w: Spawned): (r: (Tables, Entity))
    ensures r.1 == t.nextId && r.0.nextId == t.nextId + 1 && r.0.spawned == t.spawned[t.nextId := w]
    ensures r.0.entries == t.entries && r.0.alive == t.alive
  {
    (t.(nextId := t.nextId + 1, spawned := t.spawned[t.nextId := w]), t.nextId)
  }

  /**
   * The entry of `key` fetched, or created with contents `inner` and a
   * freshly spawned widget `w`; either way marked alive.
   */
  function Fetch(t: Tables, key: Key, w: Spawned, inner: EntryType): (r: Tables)
    ensures key in r.entries && r.entries.Keys == t.entries.Keys + {key} && r.alive == t.alive[key := true]
    ensures key in t.entries ==> r.entries == t.entries && r.nextId == t.nextId && r.spawned == t.spawned
    ensures key !in t.entries ==> r.entries == t.entries[key := Entry(t.nextId, inner)]
                                  && r.nextId == t.nextId + 1 && r.spawned == t.spawned[t.nextId := w]
  {
    var t1 := if key in t.entries then t
              else var (t0, e) := SpawnIn(t, w);
                   t0.(entries := t0.entries[key := Entry(e, inner)]);
    t1.(alive := t1.alive[key := true])
  }

  /** `Fetch` on the `State` and `Commands` of an inspector. */
  method FetchEntry(commands: Commands, state: State, key: Key, w: Spawned, inner: EntryType)
    requires commands.Valid()
    modifies state, commands
    ensures commands.Valid() && commands.despawned == old(commands.despawned)
    ensures state.rootKeys == old(state.rootKeys) && state.specializedWidgets == old(state.specializedWidgets)
    ensures state.stateEntity == old(state.stateEntity) && state.style == old(state.style)
    ensures TablesOf(state, commands) == Fetch(old(TablesOf(state, commands)), key, w, inner)
  {
    ghost var t := TablesOf(state, commands);
    if key !in state.entries {
      var widget := commands.Spawn(w);
      state.entries := state.entries[key := Entry(widget, inner)];
      assert TablesOf(state, commands) == Tables(t.entries[key := Entry(t.nextId, inner)], t.alive, t.nextId + 1, t.spawned[t.nextId := w]);
    }
    state.entriesAlive := state.entriesAlive[key := true];
  }

  /**
   * Every key names an entry of the matching kind: `ReflectLeaf` keys leaf
   * entries, all other keys node entries. The visits keep this, which is
   * why their `unreachable!()` branches are never taken.
   */
  ghost predicate KindsMatch(entries: map<Key, Entry>)
  {
    forall k :: k in entries ==> (k.ReflectLeaf? <==> entries[k].inner.Leaf?)
  }

  /** The keys whose leaf entry holds a value the widget has sent and the field has not yet received. */
  ghost function Pending(entries: map<Key, Entry>): set<Key>
  {
    set k | k in entries && entries[k].inner.Leaf? && entries[k].inner.widgetMutated.Some?
  }

  /**
   * How a visit may change the tables: keys are only added; an entry keeps
   * its widget and its kind, and a node entry does not change at all; a flag
   * set to alive stays so; no pending value appears; ids are only allocated;
   * entries and liveness flags that had the same keys still do.
   */
  ghost predicate Grows(t: Tables, u: Tables)
  {
    && t.entries.Keys <= u.entries.Keys
    && (forall k :: k in t.entries ==> u.entries[k].widget == t.entries[k].widget)
    && (forall k :: k in t.entries && t.entries[k].inner.Node? ==> u.entries[k] == t.entries[k])
    && (forall k :: k in t.entries && t.entries[k].inner.Leaf? ==> u.entries[k].inner.Leaf?)
    && t.alive.Keys <= u.alive.Keys
    && (forall k :: k in t.alive && t.alive[k] ==> u.alive[k])
    && Pending(u.entries) <= Pending(t.entries)
    && t.nextId <= u.nextId
    && (t.entries.Keys == t.alive.Keys ==> u.entries.Keys == u.alive.Keys)
  }

  /** `Grows` chains. */
  lemma GrowsTrans(t: Tables, u: Tables, w: Tables)
    requires Grows(t, u) && Grows(u, w)
    ensures Grows(t, w)
  {
  }
}

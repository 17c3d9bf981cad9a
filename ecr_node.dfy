/**
 * The node side of the reflection tree inspector (widgets/ecr_tree/node.rs).
 * A reflected value that no specialised widget handles is shown as a tree
 * node; once the user expands the node, the value's fields (or its enum
 * variants) are visited inside the node's children container, recursively,
 * down to the leaves of leaf.rs. A visit reports whether a widget value was
 * written into the reflected value, and yields the value as it stands after
 * the visit.
 */
module EcrNode {
  import opened Base
  import opened Ui
  import opened EcrTree
  import opened EcrLeaf

  /** The fields, elements or map values of a compound value, in order; none for plain values and enums. */
  function Children(v: Value): (r: seq<Value>)
    ensures forall i :: 0 <= i < |r| ==> r[i] < v
  {
    match v.shape
    case Struct(_, fs) => fs
    case Tuple(fs) => fs
    case TupleStruct(fs) => fs
    case List(fs) => fs
    case Map(_, fs) => fs
    case _ => []
  }

  /** `v` with its children replaced by `cs`. */
  function WithChildren(v: Value, cs: seq<Value>): (r: Value)
    requires |cs| == |Children(v)|
    ensures Children(r) == cs && r.typeId == v.typeId
    ensures cs == Children(v) ==> r == v
  {
    match v.shape
    case Struct(names, _) => Value(v.typeId, Struct(names, cs))
    case Tuple(_) => Value(v.typeId, Tuple(cs))
    case TupleStruct(_) => Value(v.typeId, TupleStruct(cs))
    case List(_) => Value(v.typeId, List(cs))
    case Map(keys, _) => Value(v.typeId, Map(keys, cs))
    case _ => v
  }

  /** Where child `i` of the value at `addr` lives. */
  function ChildAddress(addr: Address, i: nat): (r: Address)
    ensures r.root == addr.root && r.path == addr.path + [i]
  {
    Address(addr.root, addr.path + [i])
  }

  /**
   * The label `dispatch_reflect` gives child `i`: a struct field's name, a
   * tuple position, a list index in brackets, or a map key as `ron` writes
   * it (the index when the key is not serialisable), each followed by a
   * colon.
   */
  function ChildLabel(env: Env, v: Value, i: nat): (r: string)
  {
    match v.shape
    case Struct(names, _) => (if i < |names| then names[i] else "") + ": "
    case List(_) => "[" + NatToString(i) + "]:"
    case Map(keys, _) =>
      var key := if i < |keys| then SerializeReflect(env, keys[i]) else None;
      (if key.Some? then key.value else NatToString(i)) + ": "
    case _ => NatToString(i) + ": "
  }

  /** The label of a new node: its name and the type's short name, or its full name marked unregistered. */
  function NodeLabel(env: Env, v: Value, name: string): (r: string)
    ensures |r| >= |name| && r[..|name|] == name
    ensures v.typeId in env.registry ==> r[|name|..] == env.registry[v.typeId].shortName
    ensures v.typeId !in env.registry ==> r[|name|..] == env.typeName(v.typeId) + " (unregistered)"
  {
    if v.typeId in env.registry then name + env.registry[v.typeId].shortName
    else name + env.typeName(v.typeId) + " (unregistered)"
  }

  /** The label of the active variant's payload: `Name(` for a newtype, the name and the payload's type otherwise. */
  function VariantLabel(env: Env, name: string, variant: Variant): (r: string)
    requires !variant.Unit?
    ensures |r| >= |name| && r[..|name|] == name
    ensures variant.NewType? ==> r[|name|..] == "("
    ensures variant.StructVariant? ==> |r| > |name| && r[|name|] == ' '
    ensures variant.TupleVariant? ==> r[|name|..] == env.typeName(variant.payload.typeId)
  {
    match variant
    case NewType(_) => name + "("
    case TupleVariant(p) => name + env.typeName(p.typeId)
    case StructVariant(p) => name + " " + env.typeName(p.typeId)
  }

  /**
   * What a child label is made of: a struct field's name or a serialisable
   * map key followed by `": "`, a list index in brackets followed by a
   * colon, and `": "` after every other label.
   */
  lemma ChildLabelParts(env: Env, v: Value, i: nat)
    ensures var r := ChildLabel(env, v, i);
      && |r| >= 2
      && (v.shape.List? ==> r[0] == '[' && r[|r| - 2..] == "]:")
      && (!v.shape.List? ==> r[|r| - 2..] == ": ")
      && (v.shape.Struct? && i < |v.shape.names| ==> r[..|r| - 2] == v.shape.names[i])
      && (v.shape.Map? && i < |v.shape.keys| && SerializeReflect(env, v.shape.keys[i]).Some? ==>
            r[..|r| - 2] == SerializeReflect(env, v.shape.keys[i]).value)
  {
  }

  /**
   * The children of a tuple, tuple struct or list get pairwise distinct
   * labels: the index can be read back from the label.
   */
  lemma ChildLabelsDistinct(env: Env, v: Value, i: nat, j: nat)
    requires v.shape.Tuple? || v.shape.TupleStruct? || v.shape.List?
    requires i != j
    ensures ChildLabel(env, v, i) != ChildLabel(env, v, j)
  {
    var li, lj := ChildLabel(env, v, i), ChildLabel(env, v, j);
    if li == lj {
      if v.shape.List? {
        assert li[1..|li| - 2] == NatToString(i);
        assert lj[1..|lj| - 2] == NatToString(j);
      } else {
        assert li[..|li| - 2] == NatToString(i);
        assert lj[..|lj| - 2] == NatToString(j);
      }
      NatToStringInjective(i, j);
    }
  }

  /** The key of the node that shows `v` at `addr`. */
  function NodeKey(v: Value, addr: Address, variant: Option<nat>): Key
  {
    ReflectNode(addr, v.typeId, variant)
  }

  /**
   * `visit_reflect_node`: a value whose type has a specialised spawner is a
   * leaf (without variant index); otherwise its node entry is fetched, or
   * created collapsed with a freshly spawned labelled node widget, and
   * marked alive; an expanded node has its value dispatched into its
   * children container, a collapsed one stops here.
   */
  function VisitNode(env: Env, sp: map<TypeId, Spawner>, t: Tables, v: Value, addr: Address, name: string,
                     variant: Option<nat>, container: Entity): Visit
    decreases v, 2
  {
    if v.typeId in sp then VisitLeaf(env, t, sp[v.typeId], v, addr, name, None, container)
    else
      var key := NodeKey(v, addr, variant);
      var t1 := Fetch(t, key, InspectorNode(container, NodeLabel(env, v, name), None), Node(None));
      match t1.entries[key].inner
      case Node(Some(c)) => Dispatch(env, sp, t1, v, addr, c)
      case _ => Visit(t1, false, v)
  }

  /**
   * `dispatch_reflect`: a plain value is a leaf with the default spawner;
   * an enum visits its variants; any other value visits its children.
   */
  function Dispatch(env: Env, sp: map<TypeId, Spawner>, t: Tables, v: Value, addr: Address, container: Entity): Visit
    decreases v, 1
  {
    match v.shape
    case Plain(_) => VisitLeaf(env, t, SpawnDefault, v, addr, "", None, container)
    case Enum(_, _, _) => EnumFrom(env, sp, Visit(t, false, v), v, addr, container, 0)
    case _ =>
      var r := FieldsFrom(env, sp, FieldsVisit(t, false, []), v, addr, container, 0);
      Visit(r.tables, r.mutated, WithChildren(v, r.children))
  }

  /** The children loop so far: the tables, whether a child was written, and the children's new values. */
  datatype FieldsVisit = FieldsVisit(tables: Tables, mutated: bool, children: seq<Value>)

  /** The children loop from child `i` on; each child is visited as it was before the loop. */
  function FieldsFrom(env: Env, sp: map<TypeId, Spawner>, acc: FieldsVisit, v: Value, addr: Address,
                      container: Entity, i: nat): (r: FieldsVisit)
    decreases v, 0, |Children(v)| - i
    ensures i <= |Children(v)| ==> |r.children| == |acc.children| + |Children(v)| - i
  {
    if i >= |Children(v)| then acc
    else
      var r := VisitNode(env, sp, acc.tables, Children(v)[i], ChildAddress(addr, i), ChildLabel(env, v, i), None, container);
      FieldsFrom(env, sp, FieldsVisit(r.tables, acc.mutated || r.mutated, acc.children + [r.value]), v, addr, container, i + 1)
  }

  /** The variants loop from variant `i` on; `acc.value` is the enum as it stands. */
  function EnumFrom(env: Env, sp: map<TypeId, Spawner>, acc: Visit, v: Value, addr: Address, container: Entity, i: nat): Visit
    requires v.shape.Enum?
    decreases v, 0, |v.shape.variantNames| - i
  {
    if i >= |v.shape.variantNames| then acc
    else EnumFrom(env, sp, EnumStep(env, sp, acc, v, addr, container, i), v, addr, container, i + 1)
  }

  /**
   * Variant `i` of the enum `v`. The active variant is a leaf with the
   * active-unit spawner when it is a unit, and otherwise its payload is
   * visited as a node labelled after the variant; an inactive variant is a
   * leaf with the wrong-variant spawner, whose report of a written value is
   * ignored. All of them use the variant index in their key. When an
   * inactive variant's widget has already replaced the enum, the active
   * variant is skipped.
   */
  function EnumStep(env: Env, sp: map<TypeId, Spawner>, acc: Visit, v: Value, addr: Address, container: Entity, i: nat): Visit
    requires v.shape.Enum? && i < |v.shape.variantNames|
    decreases v, 0, 0
  {
    var name := v.shape.variantNames[i];
    if i != v.shape.active then
      var r := VisitLeaf(env, acc.tables, SpawnWrongVariant, acc.value, addr, name, Some(i), container);
      Visit(r.tables, acc.mutated, r.value)
    else if acc.value != v then acc
    else match v.shape.variant
      case Unit =>
        var r := VisitLeaf(env, acc.tables, SpawnUnitActive, v, addr, name, Some(i), container);
        Visit(r.tables, acc.mutated || r.mutated, r.value)
      case _ =>
        var p := v.shape.variant.payload;
        var r := VisitNode(env, sp, acc.tables, p, ChildAddress(addr, i), VariantLabel(env, name, v.shape.variant), Some(i), container);
        Visit(r.tables, acc.mutated || r.mutated, v.(shape := v.shape.(variant := v.shape.variant.(payload := r.value))))
  }

  /**
   * Each inactive variant has a leaf entry of its own: visiting inactive
   * variant `i` leaves the entry of its own key present, alive and a leaf
   * with nothing pending, and the entries of the enum's other variant
   * indices as they were.
   */
  lemma InactiveVariantsApart(env: Env, sp: map<TypeId, Spawner>, acc: Visit, v: Value, addr: Address,
                              container: Entity, i: nat)
    requires v.shape.Enum? && i < |v.shape.variantNames| && i != v.shape.active && KindsMatch(acc.tables.entries)
    ensures var r := EnumStep(env, sp, acc, v, addr, container, i);
      var own := ReflectLeaf(addr, acc.value.typeId, Some(i));
      && own in r.tables.entries && r.tables.alive[own]
      && r.tables.entries[own].inner.Leaf? && r.tables.entries[own].inner.widgetMutated.None?
      && forall j :: j != i && ReflectLeaf(addr, acc.value.typeId, Some(j)) in acc.tables.entries ==>
           r.tables.entries[ReflectLeaf(addr, acc.value.typeId, Some(j))]
           == acc.tables.entries[ReflectLeaf(addr, acc.value.typeId, Some(j))]
  {
    VisitLeafTables(env, acc.tables, SpawnWrongVariant, acc.value, addr, v.shape.variantNames[i], Some(i), container);
  }

  // What a visit does to the tables.

  /**
   * A visit from tables `t` that has reached tables `u` and report
   * `mutated` so far: the kinds of the entries are kept, the tables only
   * grew, and a written value was reported only when a pending one was
   * consumed.
   */
  ghost predicate Reaches(t: Tables, u: Tables, mutated: bool)
  {
    KindsMatch(u.entries) && Grows(t, u) && (mutated ==> Pending(u.entries) < Pending(t.entries))
  }

  /** `Grows` is reflexive. */
  lemma GrowsRefl(t: Tables)
    ensures Grows(t, t)
  {
  }

  /** A leaf visit reaches its tables soundly. */
  lemma LeafSound(env: Env, t: Tables, spawner: Spawner, v: Value, addr: Address, name: string,
                  variant: Option<nat>, container: Entity)
    requires KindsMatch(t.entries)
    ensures var r := VisitLeaf(env, t, spawner, v, addr, name, variant, container);
      Reaches(t, r.tables, r.mutated)
  {
    VisitLeafTables(env, t, spawner, v, addr, name, variant, container);
    VisitLeafValue(env, t, spawner, v, addr, name, variant, container);
    var key := LeafKey(v, addr, variant);
    var r := VisitLeaf(env, t, spawner, v, addr, name, variant, container);
    if r.mutated {
      assert key in Pending(t.entries) && key !in Pending(r.tables.entries);
    }
  }

  /** Fetching a node entry keeps the kinds and grows the tables. */
  lemma FetchNodeSound(t: Tables, key: Key, w: Spawned)
    requires KindsMatch(t.entries) && !key.ReflectLeaf?
    ensures var u := Fetch(t, key, w, Node(None));
      KindsMatch(u.entries) && Grows(t, u) && Pending(u.entries) == Pending(t.entries)
  {
    var u := Fetch(t, key, w, Node(None));
    assert Pending(u.entries) == Pending(t.entries);
  }

  /** A visit that reached `w` from `u`, after a growth from `t` to `u` that consumed nothing, reached `w` from `t`. */
  lemma ReachesAfter(t: Tables, u: Tables, w: Tables, mutated: bool)
    requires Grows(t, u) && Pending(u.entries) == Pending(t.entries) && Reaches(u, w, mutated)
    ensures Reaches(t, w, mutated)
  {
    GrowsTrans(t, u, w);
  }

  /** A node visit reaches its tables soundly: kinds kept, tables grown, a write reported only for a consumed pending value. */
  lemma {:induction false} VisitNodeSound(env: Env, sp: map<TypeId, Spawner>, t: Tables, v: Value, addr: Address,
                                          name: string, variant: Option<nat>, container: Entity)
    requires KindsMatch(t.entries)
    decreases v, 2
    ensures var r := VisitNode(env, sp, t, v, addr, name, variant, container);
      Reaches(t, r.tables, r.mutated)
  {
    if v.typeId in sp {
      LeafSound(env, t, sp[v.typeId], v, addr, name, None, container);
    } else {
      var key := NodeKey(v, addr, variant);
      var w := InspectorNode(container, NodeLabel(env, v, name), None);
      var t1 := Fetch(t, key, w, Node(None));
      FetchNodeSound(t, key, w);
      match t1.entries[key].inner
      case Node(Some(c)) =>
        DispatchSound(env, sp, t1, v, addr, c);
        var r := Dispatch(env, sp, t1, v, addr, c);
        ReachesAfter(t, t1, r.tables, r.mutated);
      case _ =>
    }
  }

  /** So does a dispatch. */
  lemma {:induction false} DispatchSound(env: Env, sp: map<TypeId, Spawner>, t: Tables, v: Value, addr: Address, container: Entity)
    requires KindsMatch(t.entries)
    decreases v, 1
    ensures var r := Dispatch(env, sp, t, v, addr, container);
      Reaches(t, r.tables, r.mutated)
  {
    match v.shape
    case Plain(_) => LeafSound(env, t, SpawnDefault, v, addr, "", None, container);
    case Enum(_, _, _) =>
      GrowsRefl(t);
      EnumFromSound(env, sp, t, Visit(t, false, v), v, addr, container, 0, Dispatch(env, sp, t, v, addr, container));
    case _ =>
      GrowsRefl(t);
      FieldsFromSound(env, sp, t, FieldsVisit(t, false, []), v, addr, container, 0,
                      FieldsFrom(env, sp, FieldsVisit(t, false, []), v, addr, container, 0));
  }

  /** The children loop is sound from where it started. */
  lemma {:induction false} FieldsFromSound(env: Env, sp: map<TypeId, Spawner>, t: Tables, acc: FieldsVisit, v: Value,
                                           addr: Address, container: Entity, i: nat, r: FieldsVisit)
    requires Reaches(t, acc.tables, acc.mutated)
    requires r == FieldsFrom(env, sp, acc, v, addr, container, i)
    decreases v, 0, |Children(v)| - i
    ensures Reaches(t, r.tables, r.mutated)
  {
    if i < |Children(v)| {
      var child := VisitNode(env, sp, acc.tables, Children(v)[i], ChildAddress(addr, i), ChildLabel(env, v, i), None, container);
      VisitNodeSound(env, sp, acc.tables, Children(v)[i], ChildAddress(addr, i), ChildLabel(env, v, i), None, container);
      GrowsTrans(t, acc.tables, child.tables);
      FieldsFromSound(env, sp, t, FieldsVisit(child.tables, acc.mutated || child.mutated, acc.children + [child.value]),
                      v, addr, container, i + 1, r);
    }
  }

  /** The variants loop is sound from where it started. */
  lemma {:induction false} EnumFromSound(env: Env, sp: map<TypeId, Spawner>, t: Tables, acc: Visit, v: Value,
                                         addr: Address, container: Entity, i: nat, r: Visit)
    requires v.shape.Enum? && Reaches(t, acc.tables, acc.mutated)
    requires r == EnumFrom(env, sp, acc, v, addr, container, i)
    decreases v, 0, |v.shape.variantNames| - i
    ensures Reaches(t, r.tables, r.mutated)
  {
    if i < |v.shape.variantNames| {
      var next := EnumStep(env, sp, acc, v, addr, container, i);
      EnumStepSound(env, sp, t, acc, v, addr, container, i);
      EnumFromSound(env, sp, t, next, v, addr, container, i + 1, r);
    }
  }

  /** One variant keeps the loop sound. */
  lemma {:induction false} EnumStepSound(env: Env, sp: map<TypeId, Spawner>, t: Tables, acc: Visit, v: Value,
                                         addr: Address, container: Entity, i: nat)
    requires v.shape.Enum? && i < |v.shape.variantNames| && Reaches(t, acc.tables, acc.mutated)
    decreases v, 0, 0
    ensures var r := EnumStep(env, sp, acc, v, addr, container, i);
      Reaches(t, r.tables, r.mutated)
  {
    var name := v.shape.variantNames[i];
    if i != v.shape.active {
      var r := VisitLeaf(env, acc.tables, SpawnWrongVariant, acc.value, addr, name, Some(i), container);
      LeafSound(env, acc.tables, SpawnWrongVariant, acc.value, addr, name, Some(i), container);
      GrowsTrans(t, acc.tables, r.tables);
    } else if acc.value == v {
      match v.shape.variant
      case Unit =>
        var r := VisitLeaf(env, acc.tables, SpawnUnitActive, v, addr, name, Some(i), container);
        LeafSound(env, acc.tables, SpawnUnitActive, v, addr, name, Some(i), container);
        GrowsTrans(t, acc.tables, r.tables);
      case _ =>
        var p := v.shape.variant.payload;
        var caption := VariantLabel(env, name, v.shape.variant);
        var r := VisitNode(env, sp, acc.tables, p, ChildAddress(addr, i), caption, Some(i), container);
        VisitNodeSound(env, sp, acc.tables, p, ChildAddress(addr, i), caption, Some(i), container);
        GrowsTrans(t, acc.tables, r.tables);
    }
  }

  // The node entry of a visit.

  /**
   * A value without a specialised spawner has its node entry, alive, after
   * the visit. A first visit creates it collapsed with a newly spawned
   * labelled node widget and goes no deeper; a collapsed node only becomes
   * alive; an existing node entry is kept as it was.
   */
  lemma VisitNodeEntry(env: Env, sp: map<TypeId, Spawner>, t: Tables, v: Value, addr: Address,
                       name: string, variant: Option<nat>, container: Entity)
    requires KindsMatch(t.entries) && v.typeId !in sp
    ensures var key := NodeKey(v, addr, variant);
      var r := VisitNode(env, sp, t, v, addr, name, variant, container);
      && key in r.tables.entries && r.tables.entries[key].inner.Node?
      && key in r.tables.alive && r.tables.alive[key]
      && (key in t.entries ==> r.tables.entries[key] == t.entries[key])
      && (key !in t.entries ==>
            r == Visit(Tables(t.entries[key := Entry(t.nextId, Node(None))], t.alive[key := true], t.nextId + 1,
                              t.spawned[t.nextId := InspectorNode(container, NodeLabel(env, v, name), None)]), false, v))
      && (key in t.entries && t.entries[key].inner == Node(None) ==> r == Visit(t.(alive := t.alive[key := true]), false, v))
  {
    var key := NodeKey(v, addr, variant);
    var w := InspectorNode(container, NodeLabel(env, v, name), None);
    var t1 := Fetch(t, key, w, Node(None));
    FetchNodeSound(t, key, w);
    match t1.entries[key].inner
    case Node(Some(c)) =>
      DispatchSound(env, sp, t1, v, addr, c);
    case _ =>
  }

  // A pass with nothing pending.

  /** A leaf visit with nothing pending writes nothing. */
  lemma LeafQuiet(env: Env, t: Tables, spawner: Spawner, v: Value, addr: Address, name: string,
                  variant: Option<nat>, container: Entity)
    requires KindsMatch(t.entries) && Pending(t.entries) == {}
    ensures var r := VisitLeaf(env, t, spawner, v, addr, name, variant, container);
      !r.mutated && r.value == v
  {
    var key := LeafKey(v, addr, variant);
    VisitLeafValue(env, t, spawner, v, addr, name, variant, container);
    assert key !in Pending(t.entries);
  }

  /**
   * When no widget holds a value the field has not yet received, a visit
   * writes nothing: it reports no mutation and yields the value unchanged,
   * so the inspected component or resource is not touched.
   */
  lemma {:induction false} VisitNodeQuiet(env: Env, sp: map<TypeId, Spawner>, t: Tables, v: Value, addr: Address,
                                          name: string, variant: Option<nat>, container: Entity)
    requires KindsMatch(t.entries) && Pending(t.entries) == {}
    decreases v, 2
    ensures var r := VisitNode(env, sp, t, v, addr, name, variant, container);
      !r.mutated && r.value == v
  {
    if v.typeId in sp {
      LeafQuiet(env, t, sp[v.typeId], v, addr, name, None, container);
    } else {
      var key := NodeKey(v, addr, variant);
      var w := InspectorNode(container, NodeLabel(env, v, name), None);
      var t1 := Fetch(t, key, w, Node(None));
      FetchNodeSound(t, key, w);
      match t1.entries[key].inner
      case Node(Some(c)) =>
        DispatchQuiet(env, sp, t1, v, addr, c);
      case _ =>
    }
  }

  /** The same for a dispatch. */
  lemma {:induction false} DispatchQuiet(env: Env, sp: map<TypeId, Spawner>, t: Tables, v: Value, addr: Address, container: Entity)
    requires KindsMatch(t.entries) && Pending(t.entries) == {}
    decreases v, 1
    ensures var r := Dispatch(env, sp, t, v, addr, container);
      !r.mutated && r.value == v
  {
    match v.shape
    case Plain(_) => LeafQuiet(env, t, SpawnDefault, v, addr, "", None, container);
    case Enum(_, _, _) =>
      EnumFromQuiet(env, sp, Visit(t, false, v), v, addr, container, 0, Dispatch(env, sp, t, v, addr, container));
    case _ =>
      var r := FieldsFrom(env, sp, FieldsVisit(t, false, []), v, addr, container, 0);
      FieldsFromQuiet(env, sp, FieldsVisit(t, false, []), v, addr, container, 0, r);
  }

  /** The children loop with nothing pending yields the children unchanged and reports no mutation. */
  lemma {:induction false} FieldsFromQuiet(env: Env, sp: map<TypeId, Spawner>, acc: FieldsVisit, v: Value,
                                           addr: Address, container: Entity, i: nat, r: FieldsVisit)
    requires KindsMatch(acc.tables.entries) && Pending(acc.tables.entries) == {}
    requires i <= |Children(v)| && !acc.mutated && acc.children == Children(v)[..i]
    requires r == FieldsFrom(env, sp, acc, v, addr, container, i)
    decreases v, 0, |Children(v)| - i
    ensures !r.mutated && r.children == Children(v)
  {
    if i < |Children(v)| {
      var child := VisitNode(env, sp, acc.tables, Children(v)[i], ChildAddress(addr, i), ChildLabel(env, v, i), None, container);
      VisitNodeSound(env, sp, acc.tables, Children(v)[i], ChildAddress(addr, i), ChildLabel(env, v, i), None, container);
      VisitNodeQuiet(env, sp, acc.tables, Children(v)[i], ChildAddress(addr, i), ChildLabel(env, v, i), None, container);
      assert Children(v)[..i] + [Children(v)[i]] == Children(v)[..i + 1];
      FieldsFromQuiet(env, sp, FieldsVisit(child.tables, acc.mutated || child.mutated, acc.children + [child.value]),
                      v, addr, container, i + 1, r);
    } else {
      assert Children(v)[..i] == Children(v);
    }
  }

  /** The variants loop with nothing pending leaves the enum as it was and reports no mutation. */
  lemma {:induction false} EnumFromQuiet(env: Env, sp: map<TypeId, Spawner>, acc: Visit, v: Value,
                                         addr: Address, container: Entity, i: nat, r: Visit)
    requires v.shape.Enum? && KindsMatch(acc.tables.entries) && Pending(acc.tables.entries) == {}
    requires !acc.mutated && acc.value == v
    requires r == EnumFrom(env, sp, acc, v, addr, container, i)
    decreases v, 0, |v.shape.variantNames| - i
    ensures !r.mutated && r.value == v
  {
    if i < |v.shape.variantNames| {
      var next := EnumStep(env, sp, acc, v, addr, container, i);
      EnumStepQuiet(env, sp, acc, v, addr, container, i);
      EnumFromQuiet(env, sp, next, v, addr, container, i + 1, r);
    }
  }

  /** One variant with nothing pending keeps the enum and leaves nothing pending. */
  lemma {:induction false} EnumStepQuiet(env: Env, sp: map<TypeId, Spawner>, acc: Visit, v: Value,
                                         addr: Address, container: Entity, i: nat)
    requires v.shape.Enum? && i < |v.shape.variantNames|
    requires KindsMatch(acc.tables.entries) && Pending(acc.tables.entries) == {} && !acc.mutated && acc.value == v
    decreases v, 0, 0
    ensures var r := EnumStep(env, sp, acc, v, addr, container, i);
      && !r.mutated && r.value == v && KindsMatch(r.tables.entries) && Pending(r.tables.entries) == {}
  {
    var name := v.shape.variantNames[i];
    var t := acc.tables;
    if i != v.shape.active {
      LeafSound(env, t, SpawnWrongVariant, v, addr, name, Some(i), container);
      LeafQuiet(env, t, SpawnWrongVariant, v, addr, name, Some(i), container);
    } else {
      match v.shape.variant
      case Unit =>
        LeafSound(env, t, SpawnUnitActive, v, addr, name, Some(i), container);
        LeafQuiet(env, t, SpawnUnitActive, v, addr, name, Some(i), container);
      case _ =>
        var p := v.shape.variant.payload;
        var caption := VariantLabel(env, name, v.shape.variant);
        VisitNodeSound(env, sp, t, p, ChildAddress(addr, i), caption, Some(i), container);
        VisitNodeQuiet(env, sp, t, p, ChildAddress(addr, i), caption, Some(i), container);
        assert v.(shape := v.shape.(variant := v.shape.variant.(payload := p))) == v;
    }
  }

  // The visit on the `State` and `Commands` of an inspector.

  /**
   * `visit_reflect_node`: the tables become those `VisitNode` describes,
   * and the report and the value's new contents are its own.
   */
  method VisitReflectNode(env: Env, commands: Commands, state: State, v: Value, addr: Address, name: string,
                          variant: Option<nat>, container: Entity) returns (mutated: bool, value: Value)
    requires commands.Valid()
    modifies state, commands
    decreases v, 3
    ensures commands.Valid() && commands.despawned == old(commands.despawned)
    ensures state.rootKeys == old(state.rootKeys) && state.specializedWidgets == old(state.specializedWidgets)
    ensures var r := VisitNode(env, old(state.specializedWidgets), old(TablesOf(state, commands)), v, addr, name, variant, container);
      TablesOf(state, commands) == r.tables && mutated == r.mutated && value == r.value
  {
    if v.typeId in state.specializedWidgets {
      mutated, value := VisitReflectLeaf(env, state.specializedWidgets[v.typeId], commands, state, v, addr, name, None, container);
      return;
    }
    var key := NodeKey(v, addr, variant);
    FetchEntry(commands, state, key, InspectorNode(container, NodeLabel(env, v, name), None), Node(None));
    mutated, value := false, v;
    match state.entries[key].inner {
      case Node(Some(c)) =>
        mutated, value := DispatchReflect(env, commands, state, v, addr, c);
      case _ =>
    }
  }

  /** `dispatch_reflect`, as `Dispatch` describes it. */
  method DispatchReflect(env: Env, commands: Commands, state: State, v: Value, addr: Address, container: Entity)
      returns (mutated: bool, value: Value)
    requires commands.Valid()
    modifies state, commands
    decreases v, 2
    ensures commands.Valid() && commands.despawned == old(commands.despawned)
    ensures state.rootKeys == old(state.rootKeys) && state.specializedWidgets == old(state.specializedWidgets)
    ensures var r := Dispatch(env, old(state.specializedWidgets), old(TablesOf(state, commands)), v, addr, container);
      TablesOf(state, commands) == r.tables && mutated == r.mutated && value == r.value
  {
    match v.shape {
      case Plain(_) =>
        mutated, value := VisitReflectLeaf(env, SpawnDefault, commands, state, v, addr, "", None, container);
      case Enum(_, _, _) =>
        mutated, value := DispatchEnum(env, commands, state, v, addr, container);
      case _ =>
        var children;
        mutated, children := DispatchFields(env, commands, state, v, addr, container);
        value := WithChildren(v, children);
    }
  }

  /** The children loop of `dispatch_reflect`: each child is visited in turn, as `FieldsFrom` describes. */
  method DispatchFields(env: Env, commands: Commands, state: State, v: Value, addr: Address, container: Entity)
      returns (mutated: bool, children: seq<Value>)
    requires commands.Valid()
    modifies state, commands
    decreases v, 1
    ensures commands.Valid() && commands.despawned == old(commands.despawned)
    ensures state.rootKeys == old(state.rootKeys) && state.specializedWidgets == old(state.specializedWidgets)
    ensures var r := FieldsFrom(env, old(state.specializedWidgets), FieldsVisit(old(TablesOf(state, commands)), false, []),
                                v, addr, container, 0);
      TablesOf(state, commands) == r.tables && mutated == r.mutated && children == r.children
  {
    ghost var sp := state.specializedWidgets;
    ghost var final := FieldsFrom(env, sp, FieldsVisit(TablesOf(state, commands), false, []), v, addr, container, 0);
    mutated, children := false, [];
    var i := 0;
    while i < |Children(v)|
      invariant 0 <= i <= |Children(v)|
      invariant commands.Valid() && commands.despawned == old(commands.despawned)
      invariant state.rootKeys == old(state.rootKeys) && state.specializedWidgets == sp
      invariant FieldsFrom(env, sp, FieldsVisit(TablesOf(state, commands), mutated, children), v, addr, container, i) == final
    {
      var m, c := VisitReflectNode(env, commands, state, Children(v)[i], ChildAddress(addr, i), ChildLabel(env, v, i), None, container);
      mutated, children := mutated || m, children + [c];
      i := i + 1;
    }
  }

  /** The variants loop of `dispatch_reflect`, as `EnumFrom` describes it. */
  method DispatchEnum(env: Env, commands: Commands, state: State, v: Value, addr: Address, container: Entity)
      returns (mutated: bool, value: Value)
    requires v.shape.Enum? && commands.Valid()
    modifies state, commands
    decreases v, 1
    ensures commands.Valid() && commands.despawned == old(commands.despawned)
    ensures state.rootKeys == old(state.rootKeys) && state.specializedWidgets == old(state.specializedWidgets)
    ensures var r := EnumFrom(env, old(state.specializedWidgets), Visit(old(TablesOf(state, commands)), false, v),
                              v, addr, container, 0);
      TablesOf(state, commands) == r.tables && mutated == r.mutated && value == r.value
  {
    ghost var sp := state.specializedWidgets;
    ghost var final := EnumFrom(env, sp, Visit(TablesOf(state, commands), false, v), v, addr, container, 0);
    mutated, value := false, v;
    var i := 0;
    while i < |v.shape.variantNames|
      invariant 0 <= i <= |v.shape.variantNames|
      invariant commands.Valid() && commands.despawned == old(commands.despawned)
      invariant state.rootKeys == old(state.rootKeys) && state.specializedWidgets == sp
      invariant EnumFrom(env, sp, Visit(TablesOf(state, commands), mutated, value), v, addr, container, i) == final
    {
      mutated, value := VisitVariant(env, commands, state, v, addr, container, i, mutated, value);
      i := i + 1;
    }
  }

  /** Variant `i` of the enum `v`, as `EnumStep` describes it, after the report `accMutated` and the enum as `accValue`. */
  method VisitVariant(env: Env, commands: Commands, state: State, v: Value, addr: Address, container: Entity, i: nat,
                      accMutated: bool, accValue: Value) returns (mutated: bool, value: Value)
    requires v.shape.Enum? && i < |v.shape.variantNames| && commands.Valid()
    modifies state, commands
    decreases v, 0
    ensures commands.Valid() && commands.despawned == old(commands.despawned)
    ensures state.rootKeys == old(state.rootKeys) && state.specializedWidgets == old(state.specializedWidgets)
    ensures var r := EnumStep(env, old(state.specializedWidgets), Visit(old(TablesOf(state, commands)), accMutated, accValue),
                              v, addr, container, i);
      TablesOf(state, commands) == r.tables && mutated == r.mutated && value == r.value
  {
    var name := v.shape.variantNames[i];
    if i != v.shape.active {
      var ignored;
      ignored, value := VisitReflectLeaf(env, SpawnWrongVariant, commands, state, accValue, addr, name, Some(i), container);
      mutated := accMutated;
    } else if accValue != v {
      mutated, value := accMutated, accValue;
    } else {
      match v.shape.variant {
        case Unit =>
          var m;
          m, value := VisitReflectLeaf(env, SpawnUnitActive, commands, state, v, addr, name, Some(i), container);
          mutated := accMutated || m;
        case _ =>
          var m, p := VisitReflectNode(env, commands, state, v.shape.variant.payload, ChildAddress(addr, i),
                                       VariantLabel(env, name, v.shape.variant), Some(i), container);
          mutated := accMutated || m;
          value := v.(shape := v.shape.(variant := v.shape.variant.(payload := p)));
      }
    }
  }

  // update_node_system. `containers` holds, for each tree-node widget that
  // changed this frame (the `Mutated<tree_node::Widget>` query), its
  // children container.

  /** The designated entry is a node whose widget is a tree node that changed this frame. */
  predicate NodeChanged(ins: Inspectors, containers: map<Entity, Option<Entity>>, a: EntryAccess)
  {
    a.stateEntity in ins && a.key in ins[a.stateEntity] && ins[a.stateEntity][a.key].inner.Node?
    && ins[a.stateEntity][a.key].widget in containers
  }

  /**
   * The first loop at the access `a` of a tree-node widget: a node entry
   * whose widget changed takes the widget's children container; any other
   * entry is left alone (a missing inspector or entry, or a leaf, only warns).
   */
  function NodeSyncOne(ins: Inspectors, containers: map<Entity, Option<Entity>>, a: EntryAccess): (r: Inspectors)
    ensures r.Keys == ins.Keys && forall e :: e in ins ==> r[e].Keys == ins[e].Keys
  {
    if NodeChanged(ins, containers, a) then SetEntry(ins, a, Node(containers[ins[a.stateEntity][a.key].widget]))
    else ins
  }

  /** The first loop from the `i`-th access on. */
  function NodeSyncFrom(ins: Inspectors, containers: map<Entity, Option<Entity>>, accesses: seq<EntryAccess>, i: nat): (r: Inspectors)
    decreases |accesses| - i
    ensures r.Keys == ins.Keys && forall e :: e in ins ==> r[e].Keys == ins[e].Keys
  {
    if i >= |accesses| then ins else NodeSyncFrom(NodeSyncOne(ins, containers, accesses[i]), containers, accesses, i + 1)
  }

  /** The first loop's body for one access. */
  method NodeSyncStep(states: map<Entity, State>, containers: map<Entity, Option<Entity>>, a: EntryAccess)
    requires StatesDistinct(states)
    modifies states.Values
    ensures EntriesOf(states) == NodeSyncOne(old(EntriesOf(states)), containers, a)
    ensures Rest(states) == old(Rest(states))
  {
    if a.stateEntity in states {
      var state := states[a.stateEntity];
      if a.key in state.entries {
        var entry := state.entries[a.key];
        if entry.inner.Node? && entry.widget in containers {
          SetEntryIn(states, a, Node(containers[entry.widget]), map[], map[]);
        }  // a leaf: "Invalid acces"
      }
    }
  }

  /** The `ExpandIcon` of a node widget, with the image material it shows. */
  class ExpandIcon {
    const widget: Entity
    const iconChevronDown: Material
    const iconChevronUp: Material
    var material: Material

    /** The icon as `spawn_widget_node` creates it: showing the down chevron. */
    constructor (widget: Entity, style: Style)
      ensures this.widget == widget && iconChevronDown == style.iconChevronDown && iconChevronUp == style.iconChevronUp
      ensures material == style.iconChevronDown
    {
      this.widget := widget;
      iconChevronDown := style.iconChevronDown;
      iconChevronUp := style.iconChevronUp;
      material := style.iconChevronDown;
    }
  }

  /**
   * The material an icon of `widget` shows after the second loop: the up
   * chevron when the node changed this frame and is expanded, the down
   * chevron when it changed and is collapsed, `current` when it did not change.
   */
  function IconMaterial(containers: map<Entity, Option<Entity>>, widget: Entity, down: Material, up: Material,
                        current: Material): Material
  {
    if widget !in containers then current
    else if containers[widget].Some? then up
    else down
  }

  /** Distinct icons of the query are distinct components. */
  ghost predicate IconsDistinct(icons: seq<ExpandIcon>)
  {
    forall j, k :: 0 <= j < k < |icons| ==> icons[j] != icons[k]
  }

  /** The first loop of `update_node_system`, as `NodeSyncFrom` describes it; the icons are untouched. */
  method SyncNodes(states: map<Entity, State>, containers: map<Entity, Option<Entity>>, accesses: seq<EntryAccess>)
    requires StatesDistinct(states)
    modifies states.Values
    ensures EntriesOf(states) == NodeSyncFrom(old(EntriesOf(states)), containers, accesses, 0)
    ensures Rest(states) == old(Rest(states))
  {
    ghost var ins := EntriesOf(states);
    ghost var final := NodeSyncFrom(ins, containers, accesses, 0);
    var i := 0;
    while i < |accesses|
      invariant 0 <= i <= |accesses|
      invariant NodeSyncFrom(ins, containers, accesses, i) == final && EntriesOf(states) == ins
      invariant Rest(states) == old(Rest(states))
    {
      NodeSyncStep(states, containers, accesses[i]);
      ins := NodeSyncOne(ins, containers, accesses[i]);
      i := i + 1;
    }
  }

  /** The second loop of `update_node_system`: each icon of a widget that changed shows the chevron of its expansion. */
  method UpdateIcons(icons: seq<ExpandIcon>, containers: map<Entity, Option<Entity>>)
    requires IconsDistinct(icons)
    modifies set j | 0 <= j < |icons| :: icons[j]
    ensures forall j :: 0 <= j < |icons| ==>
      icons[j].material == IconMaterial(containers, icons[j].widget, icons[j].iconChevronDown, icons[j].iconChevronUp,
                                        old(icons[j].material))
  {
    var k := 0;
    while k < |icons|
      invariant 0 <= k <= |icons|
      invariant forall j :: 0 <= j < k ==>
        icons[j].material == IconMaterial(containers, icons[j].widget, icons[j].iconChevronDown, icons[j].iconChevronUp,
                                          old(icons[j].material))
      invariant forall j :: k <= j < |icons| ==> icons[j].material == old(icons[j].material)
    {
      var icon := icons[k];
      if icon.widget in containers {
        if containers[icon.widget].Some? {
          icon.material := icon.iconChevronUp;
        } else {
          icon.material := icon.iconChevronDown;
        }
      }
      k := k + 1;
    }
  }

  /**
   * `update_node_system`: every node entry whose tree-node widget changed
   * this frame takes the widget's children container, in the order of
   * `accesses`; then every icon of such a widget shows the chevron that
   * matches its expansion, and the other icons keep theirs.
   */
  method UpdateNodeSystem(states: map<Entity, State>, containers: map<Entity, Option<Entity>>,
                          accesses: seq<EntryAccess>, icons: seq<ExpandIcon>)
    requires StatesDistinct(states) && IconsDistinct(icons)
    modifies states.Values, set j | 0 <= j < |icons| :: icons[j]
    ensures EntriesOf(states) == NodeSyncFrom(old(EntriesOf(states)), containers, accesses, 0)
    ensures Rest(states) == old(Rest(states))
    ensures forall j :: 0 <= j < |icons| ==>
      icons[j].material == IconMaterial(containers, icons[j].widget, icons[j].iconChevronDown, icons[j].iconChevronUp,
                                        old(icons[j].material))
  {
    SyncNodes(states, containers, accesses);
    UpdateIcons(icons, containers);
  }

  /**
   * The first loop keeps every inspector's keys, every entry's widget and
   * kind, and every leaf; each node entry an access designates whose widget
   * changed ends with that widget's children container; an entry no
   * remaining access designates is untouched.
   */
  lemma {:induction false} NodeSyncFromFacts(ins: Inspectors, containers: map<Entity, Option<Entity>>,
                                             accesses: seq<EntryAccess>, i: nat, r: Inspectors)
    requires i <= |accesses| && r == NodeSyncFrom(ins, containers, accesses, i)
    decreases |accesses| - i
    ensures forall e, k :: e in ins && k in ins[e] ==>
      r[e][k].widget == ins[e][k].widget && (r[e][k].inner.Node? <==> ins[e][k].inner.Node?)
    ensures forall e, k :: e in ins && k in ins[e] && ins[e][k].inner.Leaf? ==> r[e][k] == ins[e][k]
    ensures forall j :: i <= j < |accesses| && NodeChanged(ins, containers, accesses[j]) ==>
      r[accesses[j].stateEntity][accesses[j].key].inner
        == Node(containers[ins[accesses[j].stateEntity][accesses[j].key].widget])
    ensures forall e, k :: e in ins && k in ins[e] && EntryAccess(e, k) !in accesses[i..] ==> r[e][k] == ins[e][k]
  {
    if i < |accesses| {
      var a := accesses[i];
      var ins1 := NodeSyncOne(ins, containers, a);
      NodeSyncFromFacts(ins1, containers, accesses, i + 1, r);
      assert forall b :: NodeChanged(ins1, containers, b) <==> NodeChanged(ins, containers, b);
      assert accesses[i..] == [a] + accesses[i + 1..];
      if NodeChanged(ins, containers, a) && a !in accesses[i + 1..] {
        assert r[a.stateEntity][a.key] == ins1[a.stateEntity][a.key];
      }
    }
  }

  /**
   * After both loops, the icon of a node entry's widget that changed this
   * frame shows the up chevron exactly when the entry, as the first loop
   * left it, has a children container (given distinct chevrons).
   */
  lemma IconMatchesEntry(ins: Inspectors, containers: map<Entity, Option<Entity>>, accesses: seq<EntryAccess>, j: nat,
                         down: Material, up: Material, current: Material)
    requires j < |accesses| && NodeChanged(ins, containers, accesses[j]) && up != down
    ensures var a := accesses[j];
      var r := NodeSyncFrom(ins, containers, accesses, 0);
      r[a.stateEntity][a.key].inner.Node?
      && (IconMaterial(containers, ins[a.stateEntity][a.key].widget, down, up, current) == up
          <==> r[a.stateEntity][a.key].inner.container.Some?)
  {
    NodeSyncFromFacts(ins, containers, accesses, 0, NodeSyncFrom(ins, containers, accesses, 0));
  }
}

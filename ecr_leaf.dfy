/**
 * The leaf protocol of the inspector (widgets/ecr_tree/leaf.rs). A leaf
 * entry caches the field's value, a flag saying the field changed and the
 * widget must be refreshed, and a value the widget sent that the field must
 * receive. The leaf visit moves a pending value into the field or notices
 * that the field changed; the check-box and text-box systems move values the
 * other way; the text box exchanges text through the serialised envelope.
 */
module EcrLeaf {
  import opened Base
  import opened Ui
  import opened Utf8
  import opened EcrTree
  import opened TextBuffer
  import InputBox
  import CheckBox

  /** `*downcast_ref::<bool>()`: the flag a `bool` value holds (false for any other value). */
  function AsBool(v: Value): bool
  {
    v.shape.Plain? && v.shape.data.BoolData? && v.shape.data.b
  }

  /** `Box::new(b)` as a reflected `bool`. */
  function BoolValue(b: bool): (v: Value)
    ensures AsBool(v) == b && v.typeId == BoolType
  {
    Value(BoolType, Plain(BoolData(b)))
  }

  /**
   * The widget a spawner creates under `container` for field `v` labelled
   * `name`: a text box, a check box captioned with the name and `bool` and
   * showing the flag, or the widget of an active unit variant or of an
   * inactive variant.
   */
  function LeafWidget(spawner: Spawner, v: Value, name: string, container: Entity): Spawned
  {
    match spawner
    case SpawnDefault => LeafInputBox(container)
    case SpawnBool => LeafCheckBox(container, name + "bool", AsBool(v))
    case SpawnUnitActive => ActiveUnitVariant(container, name)
    case SpawnWrongVariant => InactiveVariant(container, name)
  }

  /** The key of the leaf that shows `v` at `addr`. */
  function LeafKey(v: Value, addr: Address, variant: Option<nat>): Key
  {
    ReflectLeaf(addr, v.typeId, variant)
  }

  /**
   * `visit_reflect_leaf` of field `v`: fetch the entry or spawn the widget and
   * create it with the field's value, flagged as changed; mark it alive. Then
   * a pending widget value is written into the field and the cache, and the
   * visit reports a mutation; otherwise a field that `reflect_partial_eq`
   * does not find equal to the cache (an undecidable comparison counts as
   * different) refreshes the cache and sets the changed flag. A node entry
   * under a leaf key is left alone (the source's `unreachable!()`; see
   * `VisitLeafKeepsKinds`).
   */
  function VisitLeaf(env: Env, t: Tables, spawner: Spawner, v: Value, addr: Address, name: string,
                     variant: Option<nat>, container: Entity): Visit
  {
    var key := LeafKey(v, addr, variant);
    UpdateLeaf(env, Fetch(t, key, LeafWidget(spawner, v, name, container), Leaf(v, true, None)), key, v)
  }

  /** The update half of the leaf visit, on the fetched entry of `key`. */
  function UpdateLeaf(env: Env, t: Tables, key: Key, v: Value): Visit
    requires key in t.entries
  {
    var entry := t.entries[key];
    match entry.inner
    case Node(_) => Visit(t, false, v)
    case Leaf(cache, fieldMutated, widgetMutated) =>
      if widgetMutated.Some? then
        Visit(t.(entries := t.entries[key := Entry(entry.widget, Leaf(widgetMutated.value, fieldMutated, None))]),
              true, widgetMutated.value)
      else if env.partialEq(v, cache) != Some(true) then
        Visit(t.(entries := t.entries[key := Entry(entry.widget, Leaf(v, true, None))]), false, v)
      else Visit(t, false, v)
  }

  /**
   * What a leaf visit does to the tables: the leaf key is present and alive,
   * no other entry or flag changes, and the entry is a leaf with nothing
   * pending.
   */
  lemma VisitLeafTables(env: Env, t: Tables, spawner: Spawner, v: Value, addr: Address, name: string,
                        variant: Option<nat>, container: Entity)
    requires KindsMatch(t.entries)
    ensures var key := LeafKey(v, addr, variant);
      var r := VisitLeaf(env, t, spawner, v, addr, name, variant, container);
      && r.tables.entries.Keys == t.entries.Keys + {key}
      && (forall k :: k in t.entries && k != key ==> r.tables.entries[k] == t.entries[k])
      && r.tables.alive == t.alive[key := true]
      && r.tables.entries[key].inner.Leaf? && r.tables.entries[key].inner.widgetMutated.None?
      && (key in t.entries ==> r.tables.entries[key].widget == t.entries[key].widget)
      && KindsMatch(r.tables.entries) && Grows(t, r.tables)
  {
    var key := LeafKey(v, addr, variant);
    var r := VisitLeaf(env, t, spawner, v, addr, name, variant, container);
    if key in t.entries {
      assert t.entries[key].inner.Leaf?;
      assert r.tables.entries == t.entries[key := r.tables.entries[key]];
    } else {
      assert r.tables.entries == t.entries[key := Entry(t.nextId, Leaf(v, true, None))];
    }
    assert Pending(r.tables.entries) <= Pending(t.entries);
  }

  /**
   * What a leaf visit does to the field: it reports a mutation exactly when
   * a value was pending, and then the field takes it; otherwise the field
   * keeps its value. Afterwards the cache holds the field's value, or one
   * `reflect_partial_eq` finds equal to it.
   */
  lemma VisitLeafValue(env: Env, t: Tables, spawner: Spawner, v: Value, addr: Address, name: string,
                       variant: Option<nat>, container: Entity)
    requires KindsMatch(t.entries)
    ensures var key := LeafKey(v, addr, variant);
      var r := VisitLeaf(env, t, spawner, v, addr, name, variant, container);
      && key in r.tables.entries && r.tables.entries[key].inner.Leaf?
      && (r.mutated <==> key in t.entries && t.entries[key].inner.widgetMutated.Some?)
      && (r.mutated ==> r.value == t.entries[key].inner.widgetMutated.value)
      && (!r.mutated ==> r.value == v)
      && (r.tables.entries[key].inner.value == r.value
          || env.partialEq(r.value, r.tables.entries[key].inner.value) == Some(true))
  {
    var key := LeafKey(v, addr, variant);
    if key in t.entries {
      assert t.entries[key].inner.Leaf?;
    }
  }

  /**
   * The first visit of a leaf spawns its widget and creates the entry with
   * the field's value, flagged as changed and with nothing pending; it
   * reports no mutation.
   */
  lemma VisitLeafFirst(env: Env, t: Tables, spawner: Spawner, v: Value, addr: Address, name: string,
                       variant: Option<nat>, container: Entity)
    requires LeafKey(v, addr, variant) !in t.entries
    ensures var r := VisitLeaf(env, t, spawner, v, addr, name, variant, container);
      && r.tables.entries == t.entries[LeafKey(v, addr, variant) := Entry(t.nextId, Leaf(v, true, None))]
      && r.tables.spawned == t.spawned[t.nextId := LeafWidget(spawner, v, name, container)]
      && r.tables.nextId == t.nextId + 1
      && !r.mutated && r.value == v
  {
  }

  /**
   * A later visit with nothing pending, of a field `reflect_partial_eq`
   * finds equal to the cache, changes nothing but the liveness flag.
   */
  lemma VisitLeafQuiet(env: Env, t: Tables, spawner: Spawner, v: Value, addr: Address, name: string,
                       variant: Option<nat>, container: Entity)
    requires var key := LeafKey(v, addr, variant);
      key in t.entries && t.entries[key].inner.Leaf? && t.entries[key].inner.widgetMutated.None?
      && env.partialEq(v, t.entries[key].inner.value) == Some(true)
    ensures var r := VisitLeaf(env, t, spawner, v, addr, name, variant, container);
      r == Visit(t.(alive := t.alive[LeafKey(v, addr, variant) := true]), false, v)
  {
  }

  /** The second half of `visit_reflect_leaf`: apply a pending value, or notice a changed field. */
  method UpdateLeafEntry(env: Env, state: State, key: Key, v: Value) returns (mutated: bool, value: Value)
    requires key in state.entries
    modifies state
    ensures state.rootKeys == old(state.rootKeys) && state.specializedWidgets == old(state.specializedWidgets)
    ensures state.entriesAlive == old(state.entriesAlive)
    ensures var r := UpdateLeaf(env, old(Tables(state.entries, state.entriesAlive, 0, map[])), key, v);
      state.entries == r.tables.entries && mutated == r.mutated && value == r.value
  {
    mutated := false;
    value := v;
    var entry := state.entries[key];
    match entry.inner {
      case Leaf(cache, fieldMutated, widgetMutated) =>
        if widgetMutated.Some? {
          value := widgetMutated.value;
          state.entries := state.entries[key := Entry(entry.widget, Leaf(value, fieldMutated, None))];
          mutated := true;
        } else if env.partialEq(v, cache) != Some(true) {
          state.entries := state.entries[key := Entry(entry.widget, Leaf(v, true, None))];
        }
      case Node(_) =>
    }
  }

  /**
   * `visit_reflect_leaf` on the `State` and `Commands` of an inspector: the
   * tables become those `VisitLeaf` describes, the result and the field's
   * new value are its own.
   */
  method VisitReflectLeaf(env: Env, spawner: Spawner, commands: Commands, state: State, v: Value, addr: Address,
                          name: string, variant: Option<nat>, container: Entity)
      returns (mutated: bool, value: Value)
    requires commands.Valid()
    modifies state, commands
    ensures commands.Valid() && commands.despawned == old(commands.despawned)
    ensures state.rootKeys == old(state.rootKeys) && state.specializedWidgets == old(state.specializedWidgets)
    ensures var r := VisitLeaf(env, old(TablesOf(state, commands)), spawner, v, addr, name, variant, container);
      TablesOf(state, commands) == r.tables && mutated == r.mutated && value == r.value
  {
    var key := LeafKey(v, addr, variant);
    FetchEntry(commands, state, key, LeafWidget(spawner, v, name, container), Leaf(v, true, None));
    ghost var t1 := TablesOf(state, commands);
    mutated, value := UpdateLeafEntry(env, state, key, v);
    assert UpdateLeaf(env, t1, key, v).tables.entries == UpdateLeaf(env, Tables(t1.entries, t1.alive, 0, map[]), key, v).tables.entries;
  }

  // The envelope: the text box shows only the `value` part of the
  // `ReflectSerializer` text `{"type": ..., "value": ...}`.

  /** The bytes of `"value":`. */
  const Marker: Text := [0x22, 0x76, 0x61, 0x6C, 0x75, 0x65, 0x22, 0x3A]

  /** The marker occurs in `s` at byte `i`. */
  predicate OccursAt(s: Text, i: nat)
  {
    i + |Marker| <= |s| && s[i..i + |Marker|] == Marker
  }

  /** `str::find` of the marker, searching from byte `i`: its first occurrence at or after `i`. */
  function FindFrom(s: Text, i: nat): (r: Option<nat>)
    decreases |s| - i
    ensures r.Some? ==> i <= r.value && OccursAt(s, r.value)
    ensures forall j :: i <= j && (r.None? || j < r.value) ==> !OccursAt(s, j)
  {
    if i + |Marker| > |s| then None
    else if OccursAt(s, i) then Some(i)
    else FindFrom(s, i + 1)
  }

  /** `str::find` of the marker. */
  function Find(s: Text): Option<nat>
  {
    FindFrom(s, 0)
  }

  /** `Find` is the first occurrence: a text with the marker at `idx` and nowhere before finds it there. */
  lemma FindIsFirst(s: Text, idx: nat)
    requires OccursAt(s, idx) && forall j: nat :: j < idx ==> !OccursAt(s, j)
    ensures Find(s) == Some(idx)
  {
  }

  /**
   * The bytes `wrap_serialized_value` replaces and `extract_serialized_value`
   * returns: from just after the first marker to just before the last byte.
   * `None` where the source panics: no marker, a range that ends before it
   * starts, or an end that is not a character boundary.
   */
  function ValueRange(s: Text): (r: Option<(nat, nat)>)
    ensures r.Some? <==> Find(s).Some? && Find(s).value + |Marker| <= |s| - 1
                         && IsCharBoundary(s, Find(s).value + |Marker|) && IsCharBoundary(s, |s| - 1)
    ensures r.Some? ==> r.value == (Find(s).value + |Marker|, |s| - 1)
  {
    match Find(s)
    case None => None
    case Some(idx) =>
      var start := idx + |Marker|;
      if start <= |s| - 1 && IsCharBoundary(s, start) && IsCharBoundary(s, |s| - 1)
      then Some((start, |s| - 1)) else None
  }

  /** `wrap_serialized_value`: the serialised text with its value part replaced by `edited`. */
  function Wrap(s: Text, edited: Text): (r: Option<Text>)
    ensures r.Some? <==> ValueRange(s).Some?
  {
    match ValueRange(s)
    case None => None
    case Some((start, end)) => Some(s[..start] + edited + s[end..])
  }

  /** `extract_serialized_value`: the value part of the serialised text. */
  function Extract(s: Text): (r: Option<Text>)
    ensures r.Some? <==> ValueRange(s).Some?
    ensures r.Some? ==> StartsOnChar(r.value)
  {
    match ValueRange(s)
    case None => None
    case Some((start, end)) => Some(s[start..end])
  }

  /** Putting back the extracted value gives the serialised text back. */
  lemma WrapExtract(s: Text)
    requires Extract(s).Some?
    ensures Wrap(s, Extract(s).value) == Some(s)
  {
    var (start, end) := ValueRange(s).value;
    assert s[..start] + s[start..end] + s[end..] == s;
  }

  /** A well-formed text wrapped into the envelope is what the envelope then yields. */
  lemma ExtractWrap(s: Text, edited: Text)
    requires Wrap(s, edited).Some? && StartsOnChar(edited)
    ensures Extract(Wrap(s, edited).value) == Some(edited)
  {
    var (start, end) := ValueRange(s).value;
    var idx := Find(s).value;
    var w := Wrap(s, edited).value;
    assert w == s[..start] + edited + s[end..];
    assert |w| - 1 == start + |edited|;
    forall j: nat | j <= idx
      ensures OccursAt(w, j) <==> OccursAt(s, j)
    {
      if j + |Marker| <= start {
        assert w[j..j + |Marker|] == s[j..j + |Marker|];
      }
    }
    FindIsFirst(w, idx);
    assert w[start + |edited|] == s[end];
    assert w[start..start + |edited|] == edited;
  }

  /** Wrapping twice is wrapping the last text. */
  lemma WrapWrap(s: Text, t: Text, u: Text)
    requires Wrap(s, t).Some? && StartsOnChar(t)
    ensures Wrap(Wrap(s, t).value, u) == Wrap(s, u)
  {
    ExtractWrap(s, t);
    var (start, end) := ValueRange(s).value;
    var w := Wrap(s, t).value;
    assert ValueRange(w).value == (start, start + |t|);
    assert w[..start] == s[..start] && w[start + |t|..] == s[end..];
  }

  // The widget systems. `query_state` is a map from inspector entities to
  // their `State` components; the entries of all of them are `Inspectors`.

  /** The entries of every inspector, by the inspector's entity. */
  type Inspectors = map<Entity, map<Key, Entry>>

  /** The entries of the `State` components in `states`. */
  ghost function EntriesOf(states: map<Entity, State>): (r: Inspectors)
    reads states.Values
    ensures r.Keys == states.Keys && forall e :: e in states ==> r[e] == states[e].entries
  {
    map e | e in states :: states[e].entries
  }

  /** Distinct inspector entities have distinct `State` components. */
  ghost predicate StatesDistinct(states: map<Entity, State>)
  {
    forall e1, e2 :: e1 in states && e2 in states && e1 != e2 ==> states[e1] != states[e2]
  }

  /** What the widget systems leave alone in every `State`: all but the entries. */
  ghost function Rest(states: map<Entity, State>): (r: map<Entity, (seq<Key>, map<Key, bool>, map<TypeId, Spawner>)>)
    reads states.Values
  {
    map e | e in states :: (states[e].rootKeys, states[e].entriesAlive, states[e].specializedWidgets)
  }

  /** The leaf entry an `EntryAccess` designates, when its inspector exists and holds a leaf under its key. */
  function LeafAt(ins: Inspectors, a: EntryAccess): (r: Option<Entry>)
    ensures r.Some? <==> a.stateEntity in ins && a.key in ins[a.stateEntity] && ins[a.stateEntity][a.key].inner.Leaf?
    ensures r.Some? ==> r.value == ins[a.stateEntity][a.key]
  {
    if a.stateEntity in ins && a.key in ins[a.stateEntity] && ins[a.stateEntity][a.key].inner.Leaf?
    then Some(ins[a.stateEntity][a.key]) else None
  }

  /** `ins` with the designated entry's contents replaced, its widget kept. */
  function SetEntry(ins: Inspectors, a: EntryAccess, inner: EntryType): (r: Inspectors)
    requires a.stateEntity in ins && a.key in ins[a.stateEntity]
    ensures r.Keys == ins.Keys && r[a.stateEntity].Keys == ins[a.stateEntity].Keys
    ensures r[a.stateEntity][a.key] == Entry(ins[a.stateEntity][a.key].widget, inner)
    ensures forall e :: e in ins && e != a.stateEntity ==> r[e] == ins[e]
    ensures forall k :: k in ins[a.stateEntity] && k != a.key ==> r[a.stateEntity][k] == ins[a.stateEntity][k]
  {
    var es := ins[a.stateEntity];
    ins[a.stateEntity := es[a.key := Entry(es[a.key].widget, inner)]]
  }

  /** Writes entry `key` of one `State`; the check boxes and text boxes are untouched. */
  method WriteEntry(state: State, key: Key, entry: Entry,
                    ghost boxes: map<Entity, CheckBox.Widget>, ghost cursors: map<Entity, InputBox.Cursor>)
    modifies state
    ensures state.entries == old(state.entries)[key := entry]
    ensures state.rootKeys == old(state.rootKeys) && state.entriesAlive == old(state.entriesAlive)
    ensures state.specializedWidgets == old(state.specializedWidgets)
    ensures Checks(boxes) == old(Checks(boxes))
    ensures Edits(cursors) == old(Edits(cursors)) && CursorsValid(cursors) == old(CursorsValid(cursors))
  {
    state.entries := state.entries[key := entry];
  }

  /**
   * Writes the designated entry of the inspector's `State`; every other
   * `State`, and the check boxes and text boxes, are untouched.
   */
  method SetEntryIn(states: map<Entity, State>, a: EntryAccess, inner: EntryType,
                   ghost boxes: map<Entity, CheckBox.Widget>, ghost cursors: map<Entity, InputBox.Cursor>)
    requires StatesDistinct(states) && a.stateEntity in states && a.key in states[a.stateEntity].entries
    modifies states[a.stateEntity]
    ensures EntriesOf(states) == SetEntry(old(EntriesOf(states)), a, inner)
    ensures Rest(states) == old(Rest(states))
    ensures Checks(boxes) == old(Checks(boxes))
    ensures Edits(cursors) == old(Edits(cursors)) && CursorsValid(cursors) == old(CursorsValid(cursors))
  {
    var state := states[a.stateEntity];
    WriteEntry(state, a.key, Entry(state.entries[a.key].widget, inner), boxes, cursors);
    forall e | e in states && e != a.stateEntity
      ensures states[e].entries == old(states[e].entries)
      ensures states[e].rootKeys == old(states[e].rootKeys) && states[e].entriesAlive == old(states[e].entriesAlive)
      ensures states[e].specializedWidgets == old(states[e].specializedWidgets)
    {
      assert states[e] != state;
    }
  }

  // update_checkbox_system

  /**
   * One `ToggledEvent` of the first loop: a box with an `EntryAccess` whose
   * leaf entry exists gets the new flag as the entry's pending value; any
   * other event only warns.
   */
  function ToggledOne(ins: Inspectors, accesses: map<Entity, EntryAccess>, ev: CheckBox.ToggledEvent): Inspectors
  {
    if ev.entity in accesses && LeafAt(ins, accesses[ev.entity]).Some? then
      var a := accesses[ev.entity];
      SetEntry(ins, a, ins[a.stateEntity][a.key].inner.(widgetMutated := Some(BoolValue(ev.checked))))
    else ins
  }

  /** The first loop from event `i` on. */
  function ToggledFrom(ins: Inspectors, accesses: map<Entity, EntryAccess>, events: seq<CheckBox.ToggledEvent>, i: nat): Inspectors
    decreases |events| - i
  {
    if i >= |events| then ins else ToggledFrom(ToggledOne(ins, accesses, events[i]), accesses, events, i + 1)
  }

  /** The check boxes' flags, by entity. */
  ghost function Checks(boxes: map<Entity, CheckBox.Widget>): (r: map<Entity, bool>)
    reads boxes.Values
    ensures r.Keys == boxes.Keys && forall e :: e in boxes ==> r[e] == boxes[e].checked
  {
    map e | e in boxes :: boxes[e].checked
  }

  /** Distinct check box entities have distinct `Widget` components. */
  ghost predicate BoxesDistinct(boxes: map<Entity, CheckBox.Widget>)
  {
    forall e1, e2 :: e1 in boxes && e2 in boxes && e1 != e2 ==> boxes[e1] != boxes[e2]
  }

  /** What the second loop changes: the flags of the boxes and the entries. */
  datatype CheckSync = CheckSync(checks: map<Entity, bool>, ins: Inspectors)

  /**
   * The second loop at box `e`: when its leaf entry is flagged as changed,
   * the box is set to the entry's `bool` and the flag is cleared.
   */
  function SyncCheckOne(s: CheckSync, accesses: map<Entity, EntryAccess>, e: Entity): CheckSync
  {
    if e in accesses && LeafAt(s.ins, accesses[e]).Some? && LeafAt(s.ins, accesses[e]).value.inner.fieldMutated then
      var inner := LeafAt(s.ins, accesses[e]).value.inner;
      CheckSync(s.checks[e := AsBool(inner.value)], SetEntry(s.ins, accesses[e], inner.(fieldMutated := false)))
    else s
  }

  /** The second loop from the `i`-th box of the query on. */
  function SyncChecksFrom(s: CheckSync, accesses: map<Entity, EntryAccess>, order: seq<Entity>, i: nat): CheckSync
    decreases |order| - i
  {
    if i >= |order| then s else SyncChecksFrom(SyncCheckOne(s, accesses, order[i]), accesses, order, i + 1)
  }

  /** The first loop's body for one event. */
  method ToggledStep(states: map<Entity, State>, accesses: map<Entity, EntryAccess>, ev: CheckBox.ToggledEvent)
    requires StatesDistinct(states)
    modifies states.Values
    ensures EntriesOf(states) == ToggledOne(old(EntriesOf(states)), accesses, ev)
    ensures Rest(states) == old(Rest(states))
  {
    if ev.entity in accesses {
      var a := accesses[ev.entity];
      if a.stateEntity in states {
        var state := states[a.stateEntity];
        if a.key in state.entries {
          var entry := state.entries[a.key];
          if entry.inner.Leaf? {
            SetEntryIn(states, a, entry.inner.(widgetMutated := Some(BoolValue(ev.checked))), map[], map[]);
          }  // else "Invalid acces"
        }
      }
    }
  }

  /** `set` on the `Widget` of box `e`; the other boxes keep their flags, and the inspectors are untouched. */
  method SetCheckIn(boxes: map<Entity, CheckBox.Widget>, e: Entity, checked: bool, ghost states: map<Entity, State>)
    requires BoxesDistinct(boxes) && e in boxes
    modifies boxes[e]
    ensures Checks(boxes) == old(Checks(boxes))[e := checked]
    ensures EntriesOf(states) == old(EntriesOf(states)) && Rest(states) == old(Rest(states))
  {
    var checkbox := boxes[e];
    checkbox.Set(checked);
    forall f | f in boxes && f != e
      ensures boxes[f].checked == old(boxes[f].checked)
    {
      assert boxes[f] != checkbox;
    }
  }

  /** The second loop's body for box `e`. */
  method SyncCheckStep(states: map<Entity, State>, boxes: map<Entity, CheckBox.Widget>,
                       accesses: map<Entity, EntryAccess>, e: Entity)
    requires StatesDistinct(states) && BoxesDistinct(boxes) && e in boxes
    modifies states.Values, boxes[e]
    ensures var r := SyncCheckOne(old(CheckSync(Checks(boxes), EntriesOf(states))), accesses, e);
      Checks(boxes) == r.checks && EntriesOf(states) == r.ins
    ensures Rest(states) == old(Rest(states))
  {
    ghost var before := CheckSync(Checks(boxes), EntriesOf(states));
    if e in accesses {
      var a := accesses[e];
      if a.stateEntity in states {
        var state := states[a.stateEntity];
        if a.key in state.entries {
          var entry := state.entries[a.key];
          if entry.inner.Leaf? && entry.inner.fieldMutated {
            assert LeafAt(before.ins, a) == Some(entry);
            SetEntryIn(states, a, entry.inner.(fieldMutated := false), boxes, map[]);
            SetCheckIn(boxes, e, AsBool(entry.inner.value), states);
          }
        }
      }
    }
  }

  /**
   * `update_checkbox_system`: the toggled events first move the boxes'
   * flags into their entries as pending values; then every box of the query
   * (in `order`) whose entry is flagged as changed shows the entry's value
   * and clears the flag.
   */
  method UpdateCheckboxSystem(states: map<Entity, State>, boxes: map<Entity, CheckBox.Widget>,
                              accesses: map<Entity, EntryAccess>, order: seq<Entity>,
                              events: seq<CheckBox.ToggledEvent>)
    requires StatesDistinct(states) && BoxesDistinct(boxes)
    requires forall k :: 0 <= k < |order| ==> order[k] in boxes
    modifies states.Values, boxes.Values
    ensures var toggled := ToggledFrom(old(EntriesOf(states)), accesses, events, 0);
      var r := SyncChecksFrom(CheckSync(old(Checks(boxes)), toggled), accesses, order, 0);
      Checks(boxes) == r.checks && EntriesOf(states) == r.ins
    ensures Rest(states) == old(Rest(states))
  {
    ghost var ins := EntriesOf(states);
    ghost var final := ToggledFrom(ins, accesses, events, 0);
    var i := 0;
    while i < |events|
      invariant 0 <= i <= |events|
      invariant ToggledFrom(ins, accesses, events, i) == final && EntriesOf(states) == ins
      invariant Checks(boxes) == old(Checks(boxes)) && Rest(states) == old(Rest(states))
    {
      ToggledStep(states, accesses, events[i]);
      ins := ToggledOne(ins, accesses, events[i]);
      i := i + 1;
    }
    ghost var done := CheckSync(Checks(boxes), EntriesOf(states));
    ghost var synced := SyncChecksFrom(done, accesses, order, 0);
    var j := 0;
    while j < |order|
      invariant 0 <= j <= |order|
      invariant SyncChecksFrom(done, accesses, order, j) == synced
      invariant Checks(boxes) == done.checks && EntriesOf(states) == done.ins
      invariant Rest(states) == old(Rest(states))
    {
      SyncCheckStep(states, boxes, accesses, order[j]);
      done := SyncCheckOne(done, accesses, order[j]);
      j := j + 1;
    }
  }

  /** The designated leaf is flagged as changed. */
  predicate Flagged(ins: Inspectors, a: EntryAccess)
  {
    LeafAt(ins, a).Some? && LeafAt(ins, a).value.inner.fieldMutated
  }

  /** The flag box `e` shows after its turn in the second loop, from the state before it. */
  function ShownCheck(s: CheckSync, accesses: map<Entity, EntryAccess>, e: Entity): bool
    requires e in s.checks
  {
    if e in accesses && Flagged(s.ins, accesses[e]) then AsBool(LeafAt(s.ins, accesses[e]).value.inner.value)
    else s.checks[e]
  }

  /** The entries the boxes `order[i..]` designate. */
  function SyncedFrom(accesses: map<Entity, EntryAccess>, order: seq<Entity>, i: nat): set<EntryAccess>
  {
    set k | i <= k < |order| && order[k] in accesses :: accesses[order[k]]
  }

  /** Boxes `order[i..]` are distinct, known, and designate distinct entries. */
  predicate OrderDistinct(checks: map<Entity, bool>, accesses: map<Entity, EntryAccess>, order: seq<Entity>, i: nat)
  {
    && (forall k :: i <= k < |order| ==> order[k] in checks)
    && (forall p, q :: i <= p < q < |order| ==> order[p] != order[q])
    && (forall p, q :: i <= p < q < |order| && order[p] in accesses && order[q] in accesses ==>
          accesses[order[p]] != accesses[order[q]])
  }

  /**
   * The second loop at one box: that box shows its flagged entry's value
   * and the entry's flag is cleared; no other box or flag changes, and every
   * leaf keeps its value.
   */
  lemma SyncCheckOneFacts(s: CheckSync, accesses: map<Entity, EntryAccess>, e: Entity)
    requires e in s.checks
    ensures var r := SyncCheckOne(s, accesses, e);
      && r.checks == s.checks[e := ShownCheck(s, accesses, e)]
      && (forall a :: LeafAt(r.ins, a).Some? <==> LeafAt(s.ins, a).Some?)
      && (forall a :: LeafAt(s.ins, a).Some? ==> LeafAt(r.ins, a).value.inner.value == LeafAt(s.ins, a).value.inner.value)
      && (forall a :: Flagged(r.ins, a) <==> Flagged(s.ins, a) && !(e in accesses && a == accesses[e]))
  {
    var r := SyncCheckOne(s, accesses, e);
    if e in accesses && Flagged(s.ins, accesses[e]) {
      var b := accesses[e];
      forall a
        ensures LeafAt(r.ins, a).Some? <==> LeafAt(s.ins, a).Some?
        ensures LeafAt(s.ins, a).Some? ==> LeafAt(r.ins, a).value.inner.value == LeafAt(s.ins, a).value.inner.value
        ensures Flagged(r.ins, a) <==> Flagged(s.ins, a) && a != b
      {
        if a != b && a.stateEntity == b.stateEntity {
          assert a.key != b.key;
        }
      }
    }
  }

  /**
   * The second loop from box `i` on, when the boxes designate distinct
   * entries: each box shows the value of its entry if that was flagged and
   * keeps its flag otherwise; every other box is untouched; the designated
   * entries are no longer flagged, the others keep their flags, and every
   * leaf keeps its value.
   */
  lemma {:induction false} SyncChecksFromFacts(s: CheckSync, accesses: map<Entity, EntryAccess>, order: seq<Entity>, i: nat)
    requires OrderDistinct(s.checks, accesses, order, i)
    decreases |order| - i
    ensures var r := SyncChecksFrom(s, accesses, order, i);
      && r.checks.Keys == s.checks.Keys
      && (forall k :: i <= k < |order| ==> r.checks[order[k]] == ShownCheck(s, accesses, order[k]))
      && (forall e :: e in s.checks && (forall k :: i <= k < |order| ==> order[k] != e) ==> r.checks[e] == s.checks[e])
      && (forall a :: LeafAt(r.ins, a).Some? <==> LeafAt(s.ins, a).Some?)
      && (forall a :: LeafAt(s.ins, a).Some? ==> LeafAt(r.ins, a).value.inner.value == LeafAt(s.ins, a).value.inner.value)
      && (forall a :: Flagged(r.ins, a) <==> Flagged(s.ins, a) && a !in SyncedFrom(accesses, order, i))
  {
    if i < |order| {
      var e := order[i];
      var s1 := SyncCheckOne(s, accesses, e);
      SyncCheckOneFacts(s, accesses, e);
      SyncChecksFromFacts(s1, accesses, order, i + 1);
      var r := SyncChecksFrom(s, accesses, order, i);
      assert SyncedFrom(accesses, order, i) == SyncedFrom(accesses, order, i + 1) + (if e in accesses then {accesses[e]} else {});
      forall k | i < k < |order|
        ensures ShownCheck(s1, accesses, order[k]) == ShownCheck(s, accesses, order[k])
      {
        assert order[k] != e;
        if order[k] in accesses && e in accesses {
          assert accesses[order[k]] != accesses[e];
        }
      }
    }
  }

  /**
   * A toggle reaches the field: after the first loop handles a box's
   * `ToggledEvent`, the next visit of the box's leaf writes the box's flag
   * into the field and reports the mutation.
   */
  lemma ToggleReachesField(env: Env, ins: Inspectors, accesses: map<Entity, EntryAccess>, ev: CheckBox.ToggledEvent,
                           t: Tables, spawner: Spawner, v: Value, addr: Address, name: string,
                           variant: Option<nat>, container: Entity)
    requires ev.entity in accesses && accesses[ev.entity].key == LeafKey(v, addr, variant)
    requires LeafAt(ins, accesses[ev.entity]).Some?
    requires t.entries == ToggledOne(ins, accesses, ev)[accesses[ev.entity].stateEntity] && KindsMatch(t.entries)
    ensures var r := VisitLeaf(env, t, spawner, v, addr, name, variant, container);
      r.mutated && r.value == BoolValue(ev.checked) && AsBool(r.value) == ev.checked
  {
    VisitLeafValue(env, t, spawner, v, addr, name, variant, container);
  }

  /**
   * A field change reaches the box: when a visit finds the field different
   * from the cache and nothing pending, the second loop then sets the box
   * designating that leaf to the field's flag.
   */
  lemma FieldChangeReachesBox(env: Env, t: Tables, spawner: Spawner, v: Value, addr: Address, name: string,
                              variant: Option<nat>, container: Entity,
                              s: CheckSync, accesses: map<Entity, EntryAccess>, e: Entity)
    requires var key := LeafKey(v, addr, variant);
      && KindsMatch(t.entries) && key in t.entries && t.entries[key].inner.widgetMutated.None?
      && env.partialEq(v, t.entries[key].inner.value) != Some(true)
    requires e in s.checks && e in accesses && accesses[e].key == LeafKey(v, addr, variant)
    requires accesses[e].stateEntity in s.ins
    requires s.ins[accesses[e].stateEntity] == VisitLeaf(env, t, spawner, v, addr, name, variant, container).tables.entries
    ensures SyncCheckOne(s, accesses, e).checks[e] == AsBool(v)
  {
    assert t.entries[LeafKey(v, addr, variant)].inner.Leaf?;
  }

  // update_inputbox_system

  /**
   * One `UnfocusedEvent` of the first loop, for a box with an `EntryAccess`
   * whose leaf entry exists: a cancelled edit flags the entry so that the
   * box is refreshed; otherwise the edited text is put into the envelope of
   * the cached value's serialisation and deserialised, and a value that
   * deserialises becomes the entry's pending value (one that does not only
   * warns). `None` when the envelope panics. Any other event only warns.
   */
  function UnfocusedOne(env: Env, ins: Inspectors, accesses: map<Entity, EntryAccess>, ev: UnfocusedEvent): Option<Inspectors>
  {
    if ev.entity in accesses && LeafAt(ins, accesses[ev.entity]).Some? then
      var a := accesses[ev.entity];
      var inner := LeafAt(ins, a).value.inner;
      if ev.canceled then Some(SetEntry(ins, a, inner.(fieldMutated := true)))
      else match Wrap(env.reflectText(inner.value), ev.text)
        case None => None
        case Some(wrapped) =>
          match env.deserialize(wrapped)
          case Some(edited) => Some(SetEntry(ins, a, inner.(widgetMutated := Some(edited))))
          case None => Some(ins)
    else Some(ins)
  }

  /** The first loop from event `i` on; `None` once an event panics. */
  function UnfocusedFrom(env: Env, ins: Inspectors, accesses: map<Entity, EntryAccess>, events: seq<UnfocusedEvent>,
                         i: nat): Option<Inspectors>
    decreases |events| - i
  {
    if i >= |events| then Some(ins)
    else match UnfocusedOne(env, ins, accesses, events[i])
      case None => None
      case Some(ins1) => UnfocusedFrom(env, ins1, accesses, events, i + 1)
  }

  /** What the second loop changes: the text boxes' edits and the entries. */
  datatype BoxSync = BoxSync(edits: map<Entity, Edit>, ins: Inspectors)

  /**
   * The second loop at box `e`: when its leaf entry is flagged as changed,
   * a box without a `Cursor` panics (`None`); an unfocused box shows the
   * value part of the cached value's serialisation (a panic when the
   * envelope is malformed) and the flag is cleared; a focused box waits.
   */
  function SyncBoxOne(env: Env, s: BoxSync, accesses: map<Entity, EntryAccess>, e: Entity): Option<BoxSync>
  {
    if e in accesses && Flagged(s.ins, accesses[e]) then
      var inner := LeafAt(s.ins, accesses[e]).value.inner;
      if e !in s.edits then None
      else if s.edits[e].cursor.Some? then Some(s)
      else match Extract(env.reflectText(inner.value))
        case None => None
        case Some(text) =>
          Some(BoxSync(s.edits[e := Edit(text, None)], SetEntry(s.ins, accesses[e], inner.(fieldMutated := false))))
    else Some(s)
  }

  /** The second loop from the `i`-th box of the query on; `None` once a box panics. */
  function SyncBoxesFrom(env: Env, s: BoxSync, accesses: map<Entity, EntryAccess>, order: seq<Entity>, i: nat): Option<BoxSync>
    decreases |order| - i
  {
    if i >= |order| then Some(s)
    else match SyncBoxOne(env, s, accesses, order[i])
      case None => None
      case Some(s1) => SyncBoxesFrom(env, s1, accesses, order, i + 1)
  }

  /** The edits of the text boxes' cursors, by box entity. */
  ghost function Edits(cursors: map<Entity, InputBox.Cursor>): (r: map<Entity, Edit>)
    reads cursors.Values
    ensures r.Keys == cursors.Keys && forall e :: e in cursors ==> r[e] == cursors[e].Model()
  {
    map e | e in cursors :: cursors[e].Model()
  }

  /** Every cursor is valid, and distinct boxes have distinct cursors. */
  ghost predicate CursorsValid(cursors: map<Entity, InputBox.Cursor>)
    reads cursors.Values
  {
    && (forall e :: e in cursors ==> cursors[e].Valid())
    && (forall e1, e2 :: e1 in cursors && e2 in cursors && e1 != e2 ==> cursors[e1] != cursors[e2])
  }

  /** `text.sections[0].value` cleared and set to `text` on an unfocused box; the inspectors are untouched. */
  method ShowText(cursor: InputBox.Cursor, text: Text, ghost states: map<Entity, State>)
    requires cursor.Valid() && !cursor.IsFocused() && StartsOnChar(text)
    modifies cursor
    ensures cursor.Valid() && cursor.Model() == Edit(text, None) && cursor.value == text
    ensures EntriesOf(states) == old(EntriesOf(states)) && Rest(states) == old(Rest(states))
  {
    cursor.value := text;
    cursor.shown := text;
  }

  /** `ShowText` on the box `e`; the other boxes and the inspectors are untouched. */
  method ShowTextIn(cursors: map<Entity, InputBox.Cursor>, e: Entity, text: Text, ghost states: map<Entity, State>)
    requires CursorsValid(cursors) && e in cursors && !cursors[e].IsFocused() && StartsOnChar(text)
    modifies cursors[e]
    ensures CursorsValid(cursors) && Edits(cursors) == old(Edits(cursors))[e := Edit(text, None)]
    ensures EntriesOf(states) == old(EntriesOf(states)) && Rest(states) == old(Rest(states))
  {
    var cursor := cursors[e];
    ShowText(cursor, text, states);
    forall f | f in cursors && f != e
      ensures cursors[f].Model() == old(cursors[f].Model()) && cursors[f].Valid()
    {
      assert cursors[f] != cursor;
    }
  }

  /** The first loop's body for one event; `ok` is false where it panics. */
  method UnfocusedStep(env: Env, states: map<Entity, State>, accesses: map<Entity, EntryAccess>, ev: UnfocusedEvent,
                       ghost cursors: map<Entity, InputBox.Cursor>)
      returns (ok: bool)
    requires StatesDistinct(states)
    modifies states.Values
    ensures Edits(cursors) == old(Edits(cursors)) && CursorsValid(cursors) == old(CursorsValid(cursors))
    ensures var r := UnfocusedOne(env, old(EntriesOf(states)), accesses, ev);
      ok == r.Some? && (ok ==> EntriesOf(states) == r.value)
    ensures Rest(states) == old(Rest(states))
  {
    ok := true;
    if ev.entity in accesses {
      var a := accesses[ev.entity];
      if a.stateEntity in states {
        var state := states[a.stateEntity];
        if a.key in state.entries {
          var entry := state.entries[a.key];
          if entry.inner.Leaf? {
            if ev.canceled {
              SetEntryIn(states, a, entry.inner.(fieldMutated := true), map[], cursors);
            } else {
              var wrapped := Wrap(env.reflectText(entry.inner.value), ev.text);
              if wrapped.None? {
                return false;
              }
              var edited := env.deserialize(wrapped.value);
              if edited.Some? {
                SetEntryIn(states, a, entry.inner.(widgetMutated := edited), map[], cursors);
              }  // else "Could not deserialize field"
            }
          }
        }
      }
    }
  }

  /** The second loop at box `e` whose designated leaf `entry` is flagged; `ok` is false where it panics. */
  method SyncFlaggedBox(env: Env, states: map<Entity, State>, cursors: map<Entity, InputBox.Cursor>,
                        a: EntryAccess, e: Entity, entry: Entry)
      returns (ok: bool)
    requires StatesDistinct(states) && CursorsValid(cursors)
    requires LeafAt(EntriesOf(states), a) == Some(entry) && entry.inner.fieldMutated
    modifies states.Values, cursors.Values
    ensures CursorsValid(cursors) && Rest(states) == old(Rest(states))
    ensures var before := old(BoxSync(Edits(cursors), EntriesOf(states)));
      var r := if e !in before.edits then None
               else if before.edits[e].cursor.Some? then Some(before)
               else match Extract(env.reflectText(entry.inner.value))
                 case None => None
                 case Some(text) => Some(BoxSync(before.edits[e := Edit(text, None)],
                                                 SetEntry(before.ins, a, entry.inner.(fieldMutated := false))));
      ok == r.Some? && (ok ==> Edits(cursors) == r.value.edits && EntriesOf(states) == r.value.ins)
  {
    if e !in cursors {
      return false;
    }
    var cursor := cursors[e];
    if cursor.IsFocused() {
      return true;
    }
    var text := Extract(env.reflectText(entry.inner.value));
    if text.None? {
      return false;
    }
    SetEntryIn(states, a, entry.inner.(fieldMutated := false), map[], cursors);
    ShowTextIn(cursors, e, text.value, states);
    ok := true;
  }

  /** The second loop's body for box `e`; `ok` is false where it panics. */
  method SyncBoxStep(env: Env, states: map<Entity, State>, cursors: map<Entity, InputBox.Cursor>,
                     accesses: map<Entity, EntryAccess>, e: Entity)
      returns (ok: bool)
    requires StatesDistinct(states) && CursorsValid(cursors)
    modifies states.Values, cursors.Values
    ensures CursorsValid(cursors)
    ensures var r := SyncBoxOne(env, old(BoxSync(Edits(cursors), EntriesOf(states))), accesses, e);
      ok == r.Some? && (ok ==> Edits(cursors) == r.value.edits && EntriesOf(states) == r.value.ins)
    ensures Rest(states) == old(Rest(states))
  {
    ghost var before := BoxSync(Edits(cursors), EntriesOf(states));
    ok := true;
    if e in accesses {
      var a := accesses[e];
      if a.stateEntity in states {
        var state := states[a.stateEntity];
        if a.key in state.entries {
          var entry := state.entries[a.key];
          if entry.inner.Leaf? && entry.inner.fieldMutated {
            assert LeafAt(before.ins, a) == Some(entry);
            ok := SyncFlaggedBox(env, states, cursors, a, e, entry);
          }
        }
      }
    }
  }

  /** The first loop of `update_inputbox_system`; `ok` is false where it panics. */
  method ApplyUnfocusedEvents(env: Env, states: map<Entity, State>, accesses: map<Entity, EntryAccess>,
                              events: seq<UnfocusedEvent>, ghost cursors: map<Entity, InputBox.Cursor>)
      returns (ok: bool)
    requires StatesDistinct(states)
    modifies states.Values
    ensures Edits(cursors) == old(Edits(cursors)) && CursorsValid(cursors) == old(CursorsValid(cursors))
    ensures Rest(states) == old(Rest(states))
    ensures var r := UnfocusedFrom(env, old(EntriesOf(states)), accesses, events, 0);
      ok == r.Some? && (ok ==> EntriesOf(states) == r.value)
  {
    ghost var ins := EntriesOf(states);
    ghost var final := UnfocusedFrom(env, ins, accesses, events, 0);
    var i := 0;
    while i < |events|
      invariant 0 <= i <= |events|
      invariant UnfocusedFrom(env, ins, accesses, events, i) == final && EntriesOf(states) == ins
      invariant Edits(cursors) == old(Edits(cursors)) && CursorsValid(cursors) == old(CursorsValid(cursors))
      invariant Rest(states) == old(Rest(states))
    {
      ok := UnfocusedStep(env, states, accesses, events[i], cursors);
      if !ok {
        return;
      }
      ins := UnfocusedOne(env, ins, accesses, events[i]).value;
      i := i + 1;
    }
    ok := true;
  }

  /** The second loop of `update_inputbox_system`; `ok` is false where it panics. */
  method SyncBoxes(env: Env, states: map<Entity, State>, cursors: map<Entity, InputBox.Cursor>,
                   accesses: map<Entity, EntryAccess>, order: seq<Entity>)
      returns (ok: bool)
    requires StatesDistinct(states) && CursorsValid(cursors)
    modifies states.Values, cursors.Values
    ensures ok ==> CursorsValid(cursors) && Rest(states) == old(Rest(states))
    ensures var r := SyncBoxesFrom(env, old(BoxSync(Edits(cursors), EntriesOf(states))), accesses, order, 0);
      ok == r.Some? && (ok ==> Edits(cursors) == r.value.edits && EntriesOf(states) == r.value.ins)
  {
    ghost var done := BoxSync(Edits(cursors), EntriesOf(states));
    ghost var synced := SyncBoxesFrom(env, done, accesses, order, 0);
    var j := 0;
    while j < |order|
      invariant 0 <= j <= |order|
      invariant SyncBoxesFrom(env, done, accesses, order, j) == synced
      invariant Edits(cursors) == done.edits && EntriesOf(states) == done.ins
      invariant CursorsValid(cursors) && Rest(states) == old(Rest(states))
    {
      ok := SyncBoxStep(env, states, cursors, accesses, order[j]);
      if !ok {
        return;
      }
      done := SyncBoxOne(env, done, accesses, order[j]).value;
      j := j + 1;
    }
    ok := true;
  }

  /**
   * `update_inputbox_system`: the unfocus events first move the edited
   * texts into their entries (or flag them after a cancel); then every box
   * of the query (in `order`) whose entry is flagged and which is not being
   * edited shows the entry's value and clears the flag. `ok` is false where
   * the source panics, and then nothing is promised about the state.
   */
  method UpdateInputboxSystem(env: Env, states: map<Entity, State>, cursors: map<Entity, InputBox.Cursor>,
                              accesses: map<Entity, EntryAccess>, order: seq<Entity>, events: seq<UnfocusedEvent>)
      returns (ok: bool)
    requires StatesDistinct(states) && CursorsValid(cursors)
    modifies states.Values, cursors.Values
    ensures ok ==> CursorsValid(cursors) && Rest(states) == old(Rest(states))
    ensures var u := UnfocusedFrom(env, old(EntriesOf(states)), accesses, events, 0);
      var r := if u.Some? then SyncBoxesFrom(env, BoxSync(old(Edits(cursors)), u.value), accesses, order, 0) else None;
      ok == r.Some? && (ok ==> Edits(cursors) == r.value.edits && EntriesOf(states) == r.value.ins)
  {
    ok := ApplyUnfocusedEvents(env, states, accesses, events, cursors);
    if ok {
      ok := SyncBoxes(env, states, cursors, accesses, order);
    }
  }

  /**
   * An edit reaches the field: after the first loop handles a box's
   * confirmed `UnfocusedEvent` whose text, in the envelope, deserialises to
   * `edited`, the next visit of the box's leaf writes `edited` into the
   * field and reports the mutation.
   */
  lemma EditReachesField(env: Env, ins: Inspectors, accesses: map<Entity, EntryAccess>, ev: UnfocusedEvent,
                         t: Tables, spawner: Spawner, v: Value, addr: Address, name: string,
                         variant: Option<nat>, container: Entity, edited: Value)
    requires ev.entity in accesses && accesses[ev.entity].key == LeafKey(v, addr, variant)
    requires LeafAt(ins, accesses[ev.entity]).Some? && !ev.canceled
    requires var w := Wrap(env.reflectText(LeafAt(ins, accesses[ev.entity]).value.inner.value), ev.text);
      w.Some? && env.deserialize(w.value) == Some(edited)
    requires UnfocusedOne(env, ins, accesses, ev).Some?
    requires t.entries == UnfocusedOne(env, ins, accesses, ev).value[accesses[ev.entity].stateEntity]
    requires KindsMatch(t.entries)
    ensures var r := VisitLeaf(env, t, spawner, v, addr, name, variant, container);
      r.mutated && r.value == edited
  {
    VisitLeafValue(env, t, spawner, v, addr, name, variant, container);
  }

  /**
   * A text box left as it was shown sends back the field's own value: when
   * the unfocus event carries the value part of the cached value's
   * serialisation, the envelope rebuilds that serialisation exactly, and a
   * serialiser that round-trips the value makes the value itself pending.
   */
  lemma UnchangedEditPendsCache(env: Env, ins: Inspectors, accesses: map<Entity, EntryAccess>, ev: UnfocusedEvent)
    requires ev.entity in accesses && LeafAt(ins, accesses[ev.entity]).Some? && !ev.canceled
    requires var x := LeafAt(ins, accesses[ev.entity]).value.inner.value;
      Extract(env.reflectText(x)) == Some(ev.text) && env.deserialize(env.reflectText(x)) == Some(x)
    ensures var a := accesses[ev.entity];
      var inner := LeafAt(ins, a).value.inner;
      UnfocusedOne(env, ins, accesses, ev) == Some(SetEntry(ins, a, inner.(widgetMutated := Some(inner.value))))
  {
    WrapExtract(env.reflectText(LeafAt(ins, accesses[ev.entity]).value.inner.value));
  }

  /**
   * A cancelled edit restores the box: the entry is flagged, and the second
   * loop then shows the unfocused box the value part of the cached value's
   * serialisation again.
   */
  lemma CancelRestoresBox(env: Env, s: BoxSync, accesses: map<Entity, EntryAccess>, ev: UnfocusedEvent)
    requires ev.entity in accesses && LeafAt(s.ins, accesses[ev.entity]).Some? && ev.canceled
    requires ev.entity in s.edits && s.edits[ev.entity].cursor.None?
    requires Extract(env.reflectText(LeafAt(s.ins, accesses[ev.entity]).value.inner.value)).Some?
    ensures var u := UnfocusedOne(env, s.ins, accesses, ev);
      var x := LeafAt(s.ins, accesses[ev.entity]).value.inner.value;
      && u.Some? && Flagged(u.value, accesses[ev.entity])
      && var r := SyncBoxOne(env, BoxSync(s.edits, u.value), accesses, ev.entity);
         r.Some? && r.value.edits[ev.entity] == Edit(Extract(env.reflectText(x)).value, None)
         && !Flagged(r.value.ins, accesses[ev.entity])
  {
  }

  /**
   * What a box is shown goes back through the envelope unchanged: the text
   * the second loop puts in a box, wrapped into the serialisation it came
   * from, is that serialisation.
   */
  lemma ShownTextWrapsBack(env: Env, s: BoxSync, accesses: map<Entity, EntryAccess>, e: Entity)
    requires e in accesses && Flagged(s.ins, accesses[e]) && e in s.edits && s.edits[e].cursor.None?
    requires SyncBoxOne(env, s, accesses, e).Some?
    ensures var x := LeafAt(s.ins, accesses[e]).value.inner.value;
      var shown := SyncBoxOne(env, s, accesses, e).value.edits[e].shown;
      Wrap(env.reflectText(x), shown) == Some(env.reflectText(x))
  {
    WrapExtract(env.reflectText(LeafAt(s.ins, accesses[e]).value.inner.value));
  }

  /** The entries the events `events[i..]` designate. */
  function NamedFrom(accesses: map<Entity, EntryAccess>, events: seq<UnfocusedEvent>, i: nat): set<EntryAccess>
  {
    set k | i <= k < |events| && events[k].entity in accesses :: accesses[events[k].entity]
  }

  /** `ins2` has the inspectors and keys of `ins`, and the same leaves holding the same values. */
  ghost predicate SameLeaves(ins: Inspectors, ins2: Inspectors)
  {
    && ins2.Keys == ins.Keys && (forall x :: x in ins ==> ins2[x].Keys == ins[x].Keys)
    && (forall a :: LeafAt(ins2, a).Some? <==> LeafAt(ins, a).Some?)
    && (forall a :: LeafAt(ins, a).Some? ==> LeafAt(ins2, a).value.inner.value == LeafAt(ins, a).value.inner.value)
  }

  /** Entry `a` of `ins` exists and is the same in `ins2`. */
  ghost predicate EntryKept(ins: Inspectors, ins2: Inspectors, a: EntryAccess)
    requires ins2.Keys == ins.Keys && (forall x :: x in ins ==> ins2[x].Keys == ins[x].Keys)
  {
    a.stateEntity in ins && a.key in ins[a.stateEntity] ==> ins2[a.stateEntity][a.key] == ins[a.stateEntity][a.key]
  }

  /** One event of the first loop: no inspector, key or leaf value changes, and only the entry it names. */
  lemma UnfocusedOneFacts(env: Env, ins: Inspectors, accesses: map<Entity, EntryAccess>, ev: UnfocusedEvent)
    ensures var r := UnfocusedOne(env, ins, accesses, ev);
      r.Some? ==>
        && SameLeaves(ins, r.value)
        && forall a :: !(ev.entity in accesses && a == accesses[ev.entity]) ==> EntryKept(ins, r.value, a)
  {
    var r := UnfocusedOne(env, ins, accesses, ev);
    if r.Some? && ev.entity in accesses && LeafAt(ins, accesses[ev.entity]).Some? {
      var b := accesses[ev.entity];
      forall a | LeafAt(ins, a).Some? || a != b
        ensures LeafAt(r.value, a).Some? <==> LeafAt(ins, a).Some?
        ensures LeafAt(ins, a).Some? ==> LeafAt(r.value, a).value.inner.value == LeafAt(ins, a).value.inner.value
        ensures a != b ==> EntryKept(ins, r.value, a)
      {
        if a != b && a.stateEntity == b.stateEntity {
          assert a.key != b.key;
        }
      }
    }
  }

  /**
   * The first loop from event `i` on, when no event panics: no inspector,
   * key or leaf value changes, and an entry that no event names is
   * unchanged.
   */
  lemma {:induction false} UnfocusedFromFacts(env: Env, ins: Inspectors, accesses: map<Entity, EntryAccess>,
                                              events: seq<UnfocusedEvent>, i: nat)
    decreases |events| - i
    ensures var r := UnfocusedFrom(env, ins, accesses, events, i);
      r.Some? ==>
        && SameLeaves(ins, r.value)
        && forall a :: a !in NamedFrom(accesses, events, i) ==> EntryKept(ins, r.value, a)
  {
    if i < |events| {
      var u := UnfocusedOne(env, ins, accesses, events[i]);
      UnfocusedOneFacts(env, ins, accesses, events[i]);
      if u.Some? {
        UnfocusedFromFacts(env, u.value, accesses, events, i + 1);
        assert NamedFrom(accesses, events, i) == NamedFrom(accesses, events, i + 1)
          + (if events[i].entity in accesses then {accesses[events[i].entity]} else {});
      }
    }
  }

  /**
   * The edit box `e` shows after its turn in the second loop, from the state
   * before it: the value part of its flagged entry's serialisation when it
   * is unfocused, what it showed otherwise.
   */
  function ShownEdit(env: Env, s: BoxSync, accesses: map<Entity, EntryAccess>, e: Entity): Edit
    requires e in s.edits
  {
    if e in accesses && Flagged(s.ins, accesses[e]) && s.edits[e].cursor.None? then
      match Extract(env.reflectText(LeafAt(s.ins, accesses[e]).value.inner.value))
      case Some(text) => Edit(text, None)
      case None => s.edits[e]
    else s.edits[e]
  }

  /** The entries the unfocused boxes `order[i..]` designate: those whose flag the second loop clears. */
  function ClearedFrom(edits: map<Entity, Edit>, accesses: map<Entity, EntryAccess>, order: seq<Entity>, i: nat): set<EntryAccess>
  {
    set k | i <= k < |order| && order[k] in accesses && order[k] in edits && edits[order[k]].cursor.None? :: accesses[order[k]]
  }

  /** Boxes `order[i..]` are distinct and designate distinct entries. */
  predicate BoxOrderDistinct(accesses: map<Entity, EntryAccess>, order: seq<Entity>, i: nat)
  {
    && (forall p, q :: i <= p < q < |order| ==> order[p] != order[q])
    && (forall p, q :: i <= p < q < |order| && order[p] in accesses && order[q] in accesses ==>
          accesses[order[p]] != accesses[order[q]])
  }

  /**
   * The second loop at one box, when it does not panic: only that box's
   * edit changes, to `ShownEdit`; no inspector, key or leaf value changes;
   * only its entry's flag is cleared, and only when the box is unfocused;
   * every other entry is unchanged.
   */
  lemma SyncBoxOneFacts(env: Env, s: BoxSync, accesses: map<Entity, EntryAccess>, e: Entity)
    ensures var r := SyncBoxOne(env, s, accesses, e);
      r.Some? ==>
        && r.value.edits == (if e in s.edits then s.edits[e := ShownEdit(env, s, accesses, e)] else s.edits)
        && SameLeaves(s.ins, r.value.ins)
        && (forall a :: Flagged(r.value.ins, a) <==>
              Flagged(s.ins, a) && !(e in accesses && a == accesses[e] && e in s.edits && s.edits[e].cursor.None?))
        && (forall a :: !(e in accesses && a == accesses[e]) ==> EntryKept(s.ins, r.value.ins, a))
  {
    var r := SyncBoxOne(env, s, accesses, e);
    if r.Some? && e in accesses && Flagged(s.ins, accesses[e]) && s.edits[e].cursor.None? {
      var b := accesses[e];
      forall a
        ensures LeafAt(r.value.ins, a).Some? <==> LeafAt(s.ins, a).Some?
        ensures LeafAt(s.ins, a).Some? ==> LeafAt(r.value.ins, a).value.inner.value == LeafAt(s.ins, a).value.inner.value
        ensures Flagged(r.value.ins, a) <==> Flagged(s.ins, a) && a != b
        ensures a != b ==> EntryKept(s.ins, r.value.ins, a)
      {
        if a != b && a.stateEntity == b.stateEntity {
          assert a.key != b.key;
        }
      }
    }
  }

  /** The entries the boxes `order[i..]` designate: box `i`'s entry, and those of the boxes after it. */
  lemma SyncedFromStep(accesses: map<Entity, EntryAccess>, order: seq<Entity>, i: nat)
    requires i < |order|
    ensures SyncedFrom(accesses, order, i) == SyncedFrom(accesses, order, i + 1)
      + (if order[i] in accesses then {accesses[order[i]]} else {})
  {
    assert SyncedFrom(accesses, order, i) == SyncedFrom(accesses, order, i + 1)
      + (if order[i] in accesses then {accesses[order[i]]} else {});
  }

  /** The entries the unfocused boxes `order[i..]` designate: box `i`'s entry when it is unfocused, and those after it. */
  lemma ClearedFromStep(edits: map<Entity, Edit>, accesses: map<Entity, EntryAccess>, order: seq<Entity>, i: nat)
    requires i < |order|
    ensures ClearedFrom(edits, accesses, order, i) == ClearedFrom(edits, accesses, order, i + 1)
      + (if order[i] in accesses && order[i] in edits && edits[order[i]].cursor.None? then {accesses[order[i]]} else {})
  {
    assert ClearedFrom(edits, accesses, order, i) == ClearedFrom(edits, accesses, order, i + 1)
      + (if order[i] in accesses && order[i] in edits && edits[order[i]].cursor.None? then {accesses[order[i]]} else {});
  }

  /** The boxes' half of `SyncBoxesFromFacts`. */
  lemma {:induction false} SyncBoxesFromEdits(env: Env, s: BoxSync, accesses: map<Entity, EntryAccess>,
                                              order: seq<Entity>, i: nat, r: BoxSync)
    requires BoxOrderDistinct(accesses, order, i) && SyncBoxesFrom(env, s, accesses, order, i) == Some(r)
    decreases |order| - i
    ensures r.edits.Keys == s.edits.Keys
    ensures forall k :: i <= k < |order| && order[k] in s.edits ==> r.edits[order[k]] == ShownEdit(env, s, accesses, order[k])
    ensures forall e :: e in s.edits && (forall k :: i <= k < |order| ==> order[k] != e) ==> r.edits[e] == s.edits[e]
  {
    if i < |order| {
      var e := order[i];
      SyncBoxOneFacts(env, s, accesses, e);
      var t := SyncBoxOne(env, s, accesses, e).value;
      SyncBoxesFromEdits(env, t, accesses, order, i + 1, r);
      forall k | i < k < |order| && order[k] in s.edits
        ensures ShownEdit(env, t, accesses, order[k]) == ShownEdit(env, s, accesses, order[k])
      {
        assert order[k] != e;
        if order[k] in accesses && e in accesses {
          assert accesses[order[k]] != accesses[e];
        }
      }
    }
  }

  /** The entries' half of `SyncBoxesFromFacts`. */
  lemma {:induction false} SyncBoxesFromEntries(env: Env, s: BoxSync, accesses: map<Entity, EntryAccess>,
                                                order: seq<Entity>, i: nat, r: BoxSync)
    requires BoxOrderDistinct(accesses, order, i) && SyncBoxesFrom(env, s, accesses, order, i) == Some(r)
    decreases |order| - i
    ensures SameLeaves(s.ins, r.ins)
    ensures forall a :: Flagged(r.ins, a) <==> Flagged(s.ins, a) && a !in ClearedFrom(s.edits, accesses, order, i)
    ensures forall a :: a !in SyncedFrom(accesses, order, i) ==> EntryKept(s.ins, r.ins, a)
  {
    if i < |order| {
      var e := order[i];
      SyncBoxOneFacts(env, s, accesses, e);
      var t := SyncBoxOne(env, s, accesses, e).value;
      SyncBoxesFromEntries(env, t, accesses, order, i + 1, r);
      SyncedFromStep(accesses, order, i);
      assert ClearedFrom(t.edits, accesses, order, i + 1) == ClearedFrom(s.edits, accesses, order, i + 1) by {
        forall k | i < k < |order|
          ensures order[k] in t.edits <==> order[k] in s.edits
          ensures order[k] in s.edits ==> t.edits[order[k]] == s.edits[order[k]]
        {
          assert order[k] != e;
        }
      }
      ClearedFromStep(s.edits, accesses, order, i);
    }
  }

  /**
   * The second loop from box `i` on, when the boxes designate distinct
   * entries and no box panics: each box of `order[i..]` shows `ShownEdit`
   * and every other box is untouched; no inspector, key or leaf value
   * changes; exactly the entries of the unfocused boxes lose their flag, so
   * a flagged entry of a focused box keeps it; an entry that no box
   * designates is unchanged.
   */
  lemma SyncBoxesFromFacts(env: Env, s: BoxSync, accesses: map<Entity, EntryAccess>, order: seq<Entity>, i: nat, r: BoxSync)
    requires BoxOrderDistinct(accesses, order, i) && SyncBoxesFrom(env, s, accesses, order, i) == Some(r)
    ensures r.edits.Keys == s.edits.Keys
    ensures forall k :: i <= k < |order| && order[k] in s.edits ==> r.edits[order[k]] == ShownEdit(env, s, accesses, order[k])
    ensures forall e :: e in s.edits && (forall k :: i <= k < |order| ==> order[k] != e) ==> r.edits[e] == s.edits[e]
    ensures SameLeaves(s.ins, r.ins)
    ensures forall a :: Flagged(r.ins, a) <==> Flagged(s.ins, a) && a !in ClearedFrom(s.edits, accesses, order, i)
    ensures forall a :: a !in SyncedFrom(accesses, order, i) ==> EntryKept(s.ins, r.ins, a)
  {
    SyncBoxesFromEdits(env, s, accesses, order, i, r);
    SyncBoxesFromEntries(env, s, accesses, order, i, r);
  }
}

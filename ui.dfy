/**
 * The widget layer the inspector drives, reduced to what the model needs:
 * entity ids, UI interaction states, keyboard input, and `Commands` as an
 * allocator of fresh entity ids that remembers what was spawned and which
 * entities were despawned. Layout and styles are opaque handles.
 */
module Ui {
  import opened Base

  /** An ECS entity id (the world's entities and the widgets share one id space). */
  type Entity = nat

  /** A `Handle<ColorMaterial>`. */
  type Material = nat

  /** Bevy's `Interaction` component. */
  datatype Interaction = Clicked | Hovered | NoInteraction

  /** The keys the text boxes react to; every other key is `OtherKey`. */
  datatype KeyCode = Return | Escape | Left | Right | Back | Delete | OtherKey(code: nat)

  /** A `ReceivedCharacter` event: the window it was typed in and the character. */
  datatype ReceivedCharacter = ReceivedCharacter(windowId: nat, ch: char)

  /** `char::is_control`: the Unicode general category Cc. */
  predicate IsControl(c: char)
  {
    c < ' ' || ('\U{7F}' <= c <= '\U{9F}')
  }

  /** Whether a text box takes the character of event `e`: typed in the primary window and not a control character. */
  predicate Typed(e: ReceivedCharacter, primary: nat)
  {
    e.windowId == primary && !IsControl(e.ch)
  }

  /** The characters a focused text box inserts: typed in the primary window, not control characters. */
  function TypedChars(events: seq<ReceivedCharacter>, primary: nat): (r: seq<char>)
    ensures |r| <= |events|
    ensures forall i :: 0 <= i < |r| ==> !IsControl(r[i])
    ensures forall c :: c in r <==> exists i :: 0 <= i < |events| && Typed(events[i], primary) && events[i].ch == c
  {
    if events == [] then []
    else
      var last := events[|events| - 1];
      TypedChars(events[..|events| - 1], primary) + (if Typed(last, primary) then [last.ch] else [])
  }

  /**
   * The characters are taken event by event, in order: those of a
   * concatenation are those of each part.
   */
  lemma {:induction false} TypedCharsConcat(a: seq<ReceivedCharacter>, b: seq<ReceivedCharacter>, primary: nat)
    ensures TypedChars(a + b, primary) == TypedChars(a, primary) + TypedChars(b, primary)
    decreases |b|
  {
    if b == [] {
      assert a + b == a;
    } else {
      var b', last := b[..|b| - 1], b[|b| - 1];
      var tail := if Typed(last, primary) then [last.ch] else [];
      assert (a + b)[..|a + b| - 1] == a + b';
      assert TypedChars(a + b, primary) == TypedChars(a + b', primary) + tail;
      TypedCharsConcat(a, b', primary);
    }
  }

  /** A single event gives its character exactly when the box takes it. */
  lemma TypedCharsOne(e: ReceivedCharacter, primary: nat)
    ensures TypedChars([e], primary) == if Typed(e, primary) then [e.ch] else []
  {
    assert [e][..0] == [];
  }

  /** What a spawn command created, as far as the inspector is concerned. */
  datatype Spawned =
    | InspectorNode(parent: Entity, caption: string, entityLabel: Option<Entity>)  // an inspector tree node and its label
    | LeafInputBox(parent: Entity)                                  // a text box (generic leaf editor)
    | LeafCheckBox(parent: Entity, caption: string, checked: bool)  // a labelled check box (bool leaf)
    | ActiveUnitVariant(parent: Entity, caption: string)            // the active unit variant of an enum
    | InactiveVariant(parent: Entity, caption: string)              // an inactive enum variant
    | ChildrenContainer(parent: Entity)                             // the container a node creates when expanded
    | NodeRoot(material: Material)                                  // the root container of a tree node
    | ExpandButton(widget: Entity, material: Material)              // the button that expands a tree node
    | CheckBoxIcon(material: Material)                              // the image entity of a check box
    | RadioGroup(material: Material)                                // the container of a radio group
    | RadioButtonWidget(widget: Entity, material: Material)         // one button of a radio group

  /** Bevy's `Commands`: spawning yields a fresh entity; despawning is recorded. */
  class Commands {
    var nextId: nat
    var spawned: map<Entity, Spawned>
    var despawned: set<Entity>

    /** Every entity spawned so far is below the next fresh id. */
    ghost predicate Valid()
      reads this
    {
      forall e :: e in spawned ==> e < nextId
    }

    constructor (firstFree: nat)
      ensures Valid() && nextId == firstFree && spawned == map[] && despawned == {}
    {
      nextId := firstFree;
      spawned := map[];
      despawned := {};
    }

    method Spawn(w: Spawned) returns (e: Entity)
      requires Valid()
      modifies this
      ensures Valid()
      ensures e == old(nextId) && nextId == e + 1
      ensures e !in old(spawned)
      ensures spawned == old(spawned)[e := w] && despawned == old(despawned)
    {
      e := nextId;
      spawned := spawned[e := w];
      nextId := nextId + 1;
    }

    /**
     * `despawn_recursive`: the entity (and, in the real widget tree, its
     * descendants) goes away; despawning an entity that does not exist only warns.
     */
    method DespawnRecursive(e: Entity)
      requires Valid()
      modifies this
      ensures Valid()
      ensures despawned == old(despawned) + {e}
      ensures nextId == old(nextId) && spawned == old(spawned)
    {
      despawned := despawned + {e};
    }
  }
}

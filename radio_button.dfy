/**
 * The radio button group of widgets/radio_button.rs: a container entity
 * whose `Widget` component lists its buttons and the index of the selected
 * one. Clicking a button selects it, or clears the selection when it was
 * already selected; the interaction system repaints the buttons and sends a
 * `SelectionChangedEvent`.
 */
module RadioButton {
  import opened Base
  import opened Ui

  /** The colours of a radio group (the layout styles are left out). */
  datatype Style = Style(colorContainer: Material, colorButton: Material, colorButtonHovered: Option<Material>,
                         colorButtonClicked: Option<Material>, colorButtonSelected: Option<Material>)

  /** `iter().position`: the index of the first occurrence of `b`, if any. */
  function Position(buttons: seq<Entity>, b: Entity): (r: Option<nat>)
    ensures r.Some? ==> r.value < |buttons| && buttons[r.value] == b && forall j :: 0 <= j < r.value ==> buttons[j] != b
    ensures r.None? <==> b !in buttons
  {
    if buttons == [] then None
    else if buttons[0] == b then Some(0)
    else match Position(buttons[1..], b)
      case None => None
      case Some(j) => Some(j + 1)
  }

  /** In a group without repeated buttons, the position of button `i` is `i`. */
  lemma {:induction false} PositionOfDistinct(buttons: seq<Entity>, i: nat)
    requires i < |buttons| && Distinct(buttons)
    ensures Position(buttons, buttons[i]) == Some(i)
  {
    assert forall j :: 0 <= j < |buttons| && j != i ==> buttons[j] != buttons[i];
  }

  /**
   * The selection `select` leaves: `None` when the button's position equals
   * the previous selection (which also covers a button outside the group
   * while nothing is selected), the button's position otherwise.
   */
  function NewSelection(previous: Option<nat>, position: Option<nat>): (r: Option<nat>)
    ensures r.Some? ==> r == position
    ensures r.None? <==> position.None? || position == previous
  {
    if position == previous then None else position
  }

  /**
   * `is_selected`: the button's position equals the selection. A button
   * outside the group therefore counts as selected exactly when nothing is.
   */
  predicate IsSelectedIn(buttons: seq<Entity>, selection: Option<nat>, b: Entity)
  {
    Position(buttons, b) == selection
  }

  /** A button outside the group reports selected exactly when nothing is selected. */
  lemma NonMemberSelected(buttons: seq<Entity>, selection: Option<nat>, b: Entity)
    requires b !in buttons
    ensures IsSelectedIn(buttons, selection, b) <==> selection.None?
  {
  }

  /** In a group without repeated buttons, the selected member is the one at the selected index. */
  lemma SelectedMember(buttons: seq<Entity>, selection: Option<nat>, i: nat)
    requires i < |buttons| && Distinct(buttons)
    ensures IsSelectedIn(buttons, selection, buttons[i]) <==> selection == Some(i)
  {
    PositionOfDistinct(buttons, i);
  }

  /** The `Widget` component of a radio group: its buttons, the selection and the style. */
  class Widget {
    const buttons: seq<Entity>
    var selection: Option<nat>
    const style: Style

    /** The selection, when there is one, indexes a button. */
    ghost predicate Valid()
      reads this
    {
      selection.None? || selection.value < |buttons|
    }

    constructor (buttons: seq<Entity>, selection: Option<nat>, style: Style)
      ensures this.buttons == buttons && this.selection == selection && this.style == style
    {
      this.buttons := buttons;
      this.selection := selection;
      this.style := style;
    }

    /** `is_selected`. */
    predicate IsSelected(b: Entity)
      reads this
    {
      IsSelectedIn(buttons, selection, b)
    }

    /**
     * `select`: a click on `b` selects it, or clears the selection when `b`
     * was selected; returns the previous selection and its button. Looking
     * up the previous button panics when the previous selection is out of
     * range (`ok` false), after the selection has been updated.
     */
    method Select(b: Entity) returns (previous: Option<(nat, Entity)>, ok: bool)
      modifies this
      ensures Valid()
      ensures selection == NewSelection(old(selection), Position(buttons, b))
      ensures old(IsSelected(b)) ==> selection == None
      ensures !old(IsSelected(b)) ==> IsSelected(b)
      ensures ok <==> old(Valid())
      ensures ok ==> previous == if old(selection).Some? then Some((old(selection).value, buttons[old(selection).value])) else None
    {
      var prev := selection;
      var position := Position(buttons, b);
      if position == prev {
        selection := None;
      } else {
        selection := position;
      }
      if prev.Some? && prev.value >= |buttons| {
        previous, ok := None, false;
      } else {
        previous, ok := if prev.Some? then Some((prev.value, buttons[prev.value])) else None, true;
      }
    }
  }

  /** The material `spawn_radio_buttons` gives button `i`: the selected colour for the selected index when set. */
  function InitialMaterial(style: Style, selection: Option<nat>, i: nat): Material
  {
    if Some(i) == selection && style.colorButtonSelected.Some? then style.colorButtonSelected.value else style.colorButton
  }

  /**
   * The material `interact_system` gives the button it handles: the clicked
   * or hovered colour when the style has one (otherwise the material stays
   * `current`); when idle, the selected colour if the button is selected and
   * the style has one, the button colour otherwise.
   */
  function ButtonMaterial(style: Style, interaction: Interaction, selected: bool, current: Material): (m: Material)
    ensures interaction == Clicked ==> m == current || Some(m) == style.colorButtonClicked
    ensures interaction == Hovered ==> m == current || Some(m) == style.colorButtonHovered
    ensures interaction == NoInteraction ==> m == style.colorButton || (selected && Some(m) == style.colorButtonSelected)
    ensures interaction == NoInteraction && !selected ==> m == style.colorButton
  {
    match interaction
    case Clicked => if style.colorButtonClicked.Some? then style.colorButtonClicked.value else current
    case Hovered => if style.colorButtonHovered.Some? then style.colorButtonHovered.value else current
    case NoInteraction =>
      if selected && style.colorButtonSelected.Some? then style.colorButtonSelected.value else style.colorButton
  }

  /**
   * A freshly spawned button already wears the colour the interaction system
   * gives it when idle.
   */
  lemma InitialMaterialIsIdle(buttons: seq<Entity>, style: Style, selection: Option<nat>, i: nat, current: Material)
    requires i < |buttons| && Distinct(buttons)
    ensures InitialMaterial(style, selection, i)
         == ButtonMaterial(style, NoInteraction, IsSelectedIn(buttons, selection, buttons[i]), current)
  {
    SelectedMember(buttons, selection, i);
  }

  /** What `spawn_radio_buttons` adds to the world once it has spawned `number` buttons, from the free id `root` on. */
  function GroupSpawns(root: Entity, number: nat, selection: Option<nat>, style: Style): map<Entity, Spawned>
  {
    if number == 0 then map[root := RadioGroup(style.colorContainer)]
    else GroupSpawns(root, number - 1, selection, style)[root + number := RadioButtonWidget(root, InitialMaterial(style, selection, number - 1))]
  }

  /**
   * The spawn adds exactly the ids `root` to `root + number`: the group
   * first, then button `k` at `root + 1 + k` with its initial material.
   */
  lemma {:induction false} GroupSpawnsShape(root: Entity, number: nat, selection: Option<nat>, style: Style)
    ensures var r := GroupSpawns(root, number, selection, style);
      && (forall e :: e in r <==> root <= e <= root + number)
      && r[root] == RadioGroup(style.colorContainer)
      && forall e :: root < e <= root + number ==> r[e] == RadioButtonWidget(root, InitialMaterial(style, selection, e - root - 1))
  {
    if number > 0 {
      GroupSpawnsShape(root, number - 1, selection, style);
    }
  }

  /** The entities `from`, `from + 1`, ..., `from + n - 1`. */
  function Ids(from: Entity, n: nat): seq<Entity>
  {
    if n == 0 then [] else Ids(from, n - 1) + [from + n - 1]
  }

  /** `Ids` counts up from `from` and so never repeats an entity. */
  lemma {:induction false} IdsShape(from: Entity, n: nat)
    ensures |Ids(from, n)| == n && Distinct(Ids(from, n)) && forall k :: 0 <= k < n ==> Ids(from, n)[k] == from + k
  {
    if n > 0 {
      IdsShape(from, n - 1);
    }
  }

  /** One more spawned button. */
  method SpawnButton(commands: Commands, root: Entity, i: nat, selection: Option<nat>, style: Style) returns (button: Entity)
    requires commands.Valid() && commands.nextId == root + 1 + i
    modifies commands
    ensures commands.Valid() && button == old(commands.nextId) && commands.nextId == button + 1
    ensures commands.spawned == old(commands.spawned)[button := RadioButtonWidget(root, InitialMaterial(style, selection, i))]
    ensures commands.despawned == old(commands.despawned)
  {
    var material := if Some(i) == selection && style.colorButtonSelected.Some? then style.colorButtonSelected.value
                    else style.colorButton;
    button := commands.Spawn(RadioButtonWidget(root, material));
  }

  /**
   * `spawn_radio_buttons`: the container, then `number` buttons in order,
   * each a child of the container with its initial material, then the
   * `Widget` on the container. The build callback is not modelled.
   */
  method SpawnRadioButtons(commands: Commands, number: nat, selection: Option<nat>, style: Style)
      returns (root: Entity, buttons: seq<Entity>, w: Widget)
    requires commands.Valid()
    modifies commands
    ensures commands.Valid() && fresh(w)
    ensures root == old(commands.nextId) && commands.nextId == root + 1 + number
    ensures buttons == Ids(root + 1, number) && |buttons| == number && Distinct(buttons)
    ensures commands.spawned == old(commands.spawned) + GroupSpawns(root, number, selection, style)
    ensures commands.despawned == old(commands.despawned)
    ensures w.buttons == buttons && w.selection == selection && w.style == style
    ensures w.Valid() <==> selection.None? || selection.value < number
  {
    root := commands.Spawn(RadioGroup(style.colorContainer));
    ghost var before := old(commands.spawned);
    assert commands.spawned == before + GroupSpawns(root, 0, selection, style);
    buttons := [];
    for i := 0 to number
      invariant commands.Valid() && commands.nextId == root + 1 + i
      invariant buttons == Ids(root + 1, i)
      invariant commands.spawned == before + GroupSpawns(root, i, selection, style)
      invariant commands.despawned == old(commands.despawned)
    {
      var button := SpawnButton(commands, root, i, selection, style);
      assert before + GroupSpawns(root, i + 1, selection, style)
          == (before + GroupSpawns(root, i, selection, style))[button := RadioButtonWidget(root, InitialMaterial(style, selection, i))];
      buttons := buttons + [button];
    }
    IdsShape(root + 1, number);
    w := new Widget(buttons, selection, style);
  }

  /** A `SelectionChangedEvent`. */
  datatype SelectionChangedEvent = SelectionChangedEvent(widget: Entity, newSelection: Option<nat>, previousSelection: Option<nat>)

  /** The parts of a radio `Widget` that never change after spawning. */
  datatype Group = Group(buttons: seq<Entity>, style: Style)

  /** A button whose interaction changed: its entity, its interaction, and its group's entity. */
  datatype ChangedButton = ChangedButton(button: Entity, interaction: Interaction, widget: Entity)

  /**
   * The state `interact_system` works on: whether it has not panicked, each
   * group's selection, each entity's material, the events sent.
   */
  datatype RadioPass = RadioPass(ok: bool, selections: map<Entity, Option<nat>>, materials: map<Entity, Material>,
                                 sent: seq<SelectionChangedEvent>)

  /**
   * One changed button. A click paints it with the clicked colour, selects it
   * (or clears the selection), resets the previously selected button to the
   * button colour and sends the new and previous selections; hovering paints
   * it with the hovered colour; going idle paints it with the selected or the
   * button colour. The button's material or its group missing is the
   * `unwrap` panic of the first two lookups; a panicked pass stays as it is.
   */
  function RadioOne(acc: RadioPass, groups: map<Entity, Group>, c: ChangedButton): (r: RadioPass)
    ensures r.selections.Keys == acc.selections.Keys && r.materials.Keys >= acc.materials.Keys
    ensures |acc.sent| <= |r.sent| <= |acc.sent| + 1
    ensures !acc.ok ==> r == acc
    ensures r.ok ==> acc.ok && c.widget in groups && c.widget in acc.selections && c.button in acc.materials
  {
    if !acc.ok then acc
    else if c.widget !in groups || c.widget !in acc.selections || c.button !in acc.materials then acc.(ok := false)
    else if c.interaction != Clicked then acc.(materials := Painted(acc, groups[c.widget], c))
    else RadioClick(acc, groups[c.widget], c)
  }

  /** The materials once the changed button `c` of group `g` is painted for its interaction. */
  function Painted(acc: RadioPass, g: Group, c: ChangedButton): map<Entity, Material>
    requires c.widget in acc.selections && c.button in acc.materials
  {
    var selected := IsSelectedIn(g.buttons, acc.selections[c.widget], c.button);
    acc.materials[c.button := ButtonMaterial(g.style, c.interaction, selected, acc.materials[c.button])]
  }

  /**
   * A click on button `c` of group `g`: select, repaint the previous button,
   * send the event. A previous selection outside the group panics when
   * `select` looks up its button, and a previous button without a material
   * panics at its `unwrap`.
   */
  function RadioClick(acc: RadioPass, g: Group, c: ChangedButton): RadioPass
    requires c.widget in acc.selections && c.button in acc.materials
  {
    var previous := acc.selections[c.widget];
    if previous.Some? && previous.value >= |g.buttons| then acc.(ok := false)
    else
      var now := NewSelection(previous, Position(g.buttons, c.button));
      var painted := Painted(acc, g, c);
      if previous.Some? && g.buttons[previous.value] !in painted then acc.(ok := false)
      else
        var reset := if previous.Some? then painted[g.buttons[previous.value] := g.style.colorButton] else painted;
        RadioPass(acc.ok, acc.selections[c.widget := now], reset, acc.sent + [SelectionChangedEvent(c.widget, now, previous)])
  }

  /**
   * A click on button `i` of a group without repeated buttons panics exactly
   * when the previous selection is out of range or its button has no
   * material. Otherwise the selection becomes `i`, or nothing when `i` was
   * selected; the event carries the new and the previous selection; the
   * previously selected button is back to the button colour; the other
   * groups keep their selections.
   */
  lemma RadioOneClick(acc: RadioPass, groups: map<Entity, Group>, c: ChangedButton, i: nat)
    requires acc.ok && c.interaction == Clicked && c.widget in groups && c.widget in acc.selections && c.button in acc.materials
    requires i < |groups[c.widget].buttons| && groups[c.widget].buttons[i] == c.button && Distinct(groups[c.widget].buttons)
    ensures var r := RadioOne(acc, groups, c);
      var previous := acc.selections[c.widget];
      var buttons := groups[c.widget].buttons;
      && (r.ok <==> previous.None? || (previous.value < |buttons| && buttons[previous.value] in acc.materials))
      && (r.ok ==> r.selections == acc.selections[c.widget := if previous == Some(i) then None else Some(i)])
      && (r.ok ==> r.sent == acc.sent + [SelectionChangedEvent(c.widget, r.selections[c.widget], previous)])
      && (r.ok && previous.Some? ==> r.materials[buttons[previous.value]] == groups[c.widget].style.colorButton)
  {
    PositionOfDistinct(groups[c.widget].buttons, i);
  }

  /** Whether every selection in `selections` indexes a button of its group. */
  ghost predicate SelectionsValid(selections: map<Entity, Option<nat>>, groups: map<Entity, Group>)
  {
    forall e :: e in selections && e in groups && selections[e].Some? ==> selections[e].value < |groups[e].buttons|
  }

  /** `interact_system` over the changed buttons from `i` on, as a left fold from `acc`. */
  function RadioFrom(changed: seq<ChangedButton>, groups: map<Entity, Group>, i: nat, acc: RadioPass): (r: RadioPass)
    requires i <= |changed|
    ensures |acc.sent| <= |r.sent| <= |acc.sent| + |changed| - i
    ensures r.selections.Keys == acc.selections.Keys && r.materials.Keys >= acc.materials.Keys
    decreases |changed| - i
  {
    if i == |changed| then acc
    else RadioFrom(changed, groups, i + 1, RadioOne(acc, groups, changed[i]))
  }

  /** Once panicked, the pass changes nothing more. */
  lemma {:induction false} RadioFromPanicked(changed: seq<ChangedButton>, groups: map<Entity, Group>, i: nat, acc: RadioPass)
    requires i <= |changed| && !acc.ok
    ensures RadioFrom(changed, groups, i, acc) == acc
    decreases |changed| - i
  {
    if i < |changed| {
      RadioFromPanicked(changed, groups, i + 1, RadioOne(acc, groups, changed[i]));
    }
  }

  /** The pass keeps every selection pointing at a button of its group. */
  lemma {:induction false} RadioFromValid(changed: seq<ChangedButton>, groups: map<Entity, Group>, i: nat, acc: RadioPass)
    requires i <= |changed| && SelectionsValid(acc.selections, groups)
    ensures SelectionsValid(RadioFrom(changed, groups, i, acc).selections, groups)
    decreases |changed| - i
  {
    if i < |changed| {
      var next := RadioOne(acc, groups, changed[i]);
      assert SelectionsValid(next.selections, groups);
      RadioFromValid(changed, groups, i + 1, next);
    }
  }

  /**
   * A pass whose changed buttons all have a material and a group, over
   * groups whose selections are in range and whose buttons all have a
   * material, never panics.
   */
  lemma {:induction false} RadioFromOk(changed: seq<ChangedButton>, groups: map<Entity, Group>, i: nat, acc: RadioPass)
    requires i <= |changed| && acc.ok && SelectionsValid(acc.selections, groups)
    requires forall k :: i <= k < |changed| ==>
      changed[k].widget in groups && changed[k].widget in acc.selections && changed[k].button in acc.materials
    requires forall e, j :: e in groups && 0 <= j < |groups[e].buttons| ==> groups[e].buttons[j] in acc.materials
    ensures RadioFrom(changed, groups, i, acc).ok
    decreases |changed| - i
  {
    if i < |changed| {
      var next := RadioOne(acc, groups, changed[i]);
      assert next.ok;
      assert SelectionsValid(next.selections, groups);
      RadioFromOk(changed, groups, i + 1, next);
    }
  }

  /** The `Handle<ColorMaterial>` components, by entity. */
  class MaterialStore {
    var handles: map<Entity, Material>

    constructor (handles: map<Entity, Material>)
      ensures this.handles == handles
    {
      this.handles := handles;
    }
  }

  /** The selection of each group, by the group's entity. */
  ghost function Selections(widgets: map<Entity, Widget>): (r: map<Entity, Option<nat>>)
    reads widgets.Values
    ensures r.Keys == widgets.Keys && forall e :: e in widgets ==> r[e] == widgets[e].selection
  {
    map e | e in widgets :: widgets[e].selection
  }

  /** The buttons and style of each group, by the group's entity. */
  function Groups(widgets: map<Entity, Widget>): (r: map<Entity, Group>)
    ensures r.Keys == widgets.Keys && forall e :: e in widgets ==> r[e] == Group(widgets[e].buttons, widgets[e].style)
  {
    map e | e in widgets :: Group(widgets[e].buttons, widgets[e].style)
  }

  /** Distinct group entities have distinct `Widget` components. */
  predicate WidgetsDistinct(widgets: map<Entity, Widget>)
  {
    forall e1, e2 :: e1 in widgets && e2 in widgets && e1 != e2 ==> widgets[e1] != widgets[e2]
  }

  /** `select` on the `Widget` of group `w`: the other groups keep their selections. */
  method SelectIn(widgets: map<Entity, Widget>, w: Entity, b: Entity) returns (previous: Option<(nat, Entity)>, ok: bool)
    requires w in widgets && WidgetsDistinct(widgets)
    modifies widgets[w]
    ensures Selections(widgets) == old(Selections(widgets))[w := NewSelection(old(widgets[w].selection), Position(widgets[w].buttons, b))]
    ensures ok <==> old(widgets[w].Valid())
    ensures var p := old(widgets[w].selection);
      ok ==> previous == if p.Some? then Some((p.value, widgets[w].buttons[p.value])) else None
  {
    var widget := widgets[w];
    previous, ok := widget.Select(b);
    forall e | e in widgets && e != w
      ensures widgets[e].selection == old(widgets[e].selection)
    {
      assert widgets[e] != widget;
    }
  }

  /** A click on a radio button, as `RadioClick` says, up to its panics. */
  method ClickOne(c: ChangedButton, widgets: map<Entity, Widget>, store: MaterialStore, ghost acc: RadioPass,
                  sent: seq<SelectionChangedEvent>)
      returns (sentAfter: seq<SelectionChangedEvent>, ok: bool)
    requires c.interaction == Clicked && c.widget in widgets && c.button in store.handles && WidgetsDistinct(widgets)
    requires acc.ok && Selections(widgets) == acc.selections && store.handles == acc.materials && sent == acc.sent
    modifies widgets[c.widget], store
    ensures var r := RadioClick(acc, Group(widgets[c.widget].buttons, widgets[c.widget].style), c);
      && ok == r.ok
      && (ok ==> Selections(widgets) == r.selections && store.handles == r.materials && sentAfter == r.sent)
  {
    var widget := widgets[c.widget];
    ghost var g := Group(widget.buttons, widget.style);
    var handles: map<Entity, Material> := store.handles;
    if widget.style.colorButtonClicked.Some? {
      handles := handles[c.button := widget.style.colorButtonClicked.value];
    }
    assert handles == Painted(acc, g, c);
    var previous;
    previous, ok := SelectIn(widgets, c.widget, c.button);
    sentAfter := sent;
    if !ok {
      return;
    }
    if previous.Some? {
      if previous.value.1 !in handles {
        ok := false;
        return;
      }
      handles := handles[previous.value.1 := widget.style.colorButton];
    }
    sentAfter := sent + [SelectionChangedEvent(c.widget, widget.selection, if previous.Some? then Some(previous.value.0) else None)];
    store.handles := handles;
  }

  /** The body of `interact_system` for one changed button, as `RadioOne` says, up to its panics. */
  method InteractOne(c: ChangedButton, widgets: map<Entity, Widget>, store: MaterialStore, ghost acc: RadioPass,
                     sent: seq<SelectionChangedEvent>)
      returns (sentAfter: seq<SelectionChangedEvent>, ok: bool)
    requires c.widget in widgets && c.button in store.handles && WidgetsDistinct(widgets)
    requires acc.ok && Selections(widgets) == acc.selections && store.handles == acc.materials && sent == acc.sent
    modifies widgets[c.widget], store
    ensures var r := RadioOne(acc, Groups(widgets), c);
      && ok == r.ok
      && (ok ==> Selections(widgets) == r.selections && store.handles == r.materials && sentAfter == r.sent)
  {
    sentAfter := sent;
    var widget := widgets[c.widget];
    assert Groups(widgets)[c.widget] == Group(widget.buttons, widget.style);
    ok := true;
    match c.interaction {
      case Clicked =>
        sentAfter, ok := ClickOne(c, widgets, store, acc, sent);
      case Hovered =>
        if widget.style.colorButtonHovered.Some? {
          store.handles := store.handles[c.button := widget.style.colorButtonHovered.value];
        }
      case NoInteraction =>
        if widget.IsSelected(c.button) && widget.style.colorButtonSelected.Some? {
          store.handles := store.handles[c.button := widget.style.colorButtonSelected.value];
        } else {
          store.handles := store.handles[c.button := widget.style.colorButton];
        }
    }
  }

  /**
   * `interact_system`: the buttons whose interaction changed, in query
   * order, `widgets` the radio `Widget`s by their entity and `store` the
   * button materials. It stops at the first panic (`ok` false).
   */
  method InteractSystem(changed: seq<ChangedButton>, widgets: map<Entity, Widget>, store: MaterialStore)
      returns (sent: seq<SelectionChangedEvent>, ok: bool)
    requires WidgetsDistinct(widgets)
    modifies widgets.Values, store
    ensures var r := RadioFrom(changed, Groups(widgets), 0, RadioPass(true, old(Selections(widgets)), old(store.handles), []));
      && ok == r.ok
      && (ok ==> Selections(widgets) == r.selections && store.handles == r.materials && sent == r.sent)
  {
    ghost var groups := Groups(widgets);
    ghost var done := RadioPass(true, Selections(widgets), store.handles, []);
    ghost var final := RadioFrom(changed, groups, 0, done);
    sent, ok := [], true;
    var i := 0;
    while i < |changed| && ok
      invariant 0 <= i <= |changed| && done.ok == ok
      invariant RadioFrom(changed, groups, i, done) == final
      invariant ok ==> Selections(widgets) == done.selections && store.handles == done.materials && sent == done.sent
    {
      var c := changed[i];
      ghost var next := RadioOne(done, groups, c);
      if c.button !in store.handles || c.widget !in widgets {
        ok := false;
      } else {
        sent, ok := InteractOne(c, widgets, store, done, sent);
      }
      done := next;
      i := i + 1;
    }
    if !ok {
      RadioFromPanicked(changed, groups, i, done);
    }
  }
}

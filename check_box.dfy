/**
 * The check box widget of widgets/check_box.rs: an image entity whose
 * `Widget` component holds the checked flag. A click toggles the flag and
 * sends a `ToggledEvent`; the update system picks the icon from the flag and
 * whether the box is hovered.
 */
module CheckBox {
  import opened Base
  import opened Ui

  /** The icons of a check box (the layout style is left out). */
  datatype Style = Style(iconToggleOn: Material, iconToggleOff: Material,
                         iconToggleOnHovered: Option<Material>, iconToggleOffHovered: Option<Material>)

  /** The `Widget` component of a check box. */
  class Widget {
    const style: Style
    var checked: bool

    constructor (checked: bool, style: Style)
      ensures this.checked == checked && this.style == style
    {
      this.checked := checked;
      this.style := style;
    }

    /** `set`. */
    method Set(checked: bool)
      modifies this
      ensures IsChecked() == checked
    {
      this.checked := checked;
    }

    /** `is_checked`. */
    predicate IsChecked()
      reads this
    {
      checked
    }

    /** `toggle`: negates the flag and returns the new value. */
    method Toggle() returns (r: bool)
      modifies this
      ensures IsChecked() == !old(IsChecked()) && r == IsChecked()
    {
      checked := !checked;
      r := checked;
    }
  }

  /**
   * The icon `update_mutated_system` chooses: the on icons when checked, the
   * off icons otherwise; the hovered variant only when the box is hovered and
   * the style has one. `interaction` is `None` for an entity without an
   * `Interaction` component.
   */
  function Icon(style: Style, checked: bool, interaction: Option<Interaction>): (m: Material)
    ensures checked ==> m == style.iconToggleOn || Some(m) == style.iconToggleOnHovered
    ensures !checked ==> m == style.iconToggleOff || Some(m) == style.iconToggleOffHovered
    ensures interaction != Some(Hovered) ==> m == (if checked then style.iconToggleOn else style.iconToggleOff)
    ensures interaction == Some(Hovered) && checked && style.iconToggleOnHovered.Some? ==> m == style.iconToggleOnHovered.value
    ensures interaction == Some(Hovered) && !checked && style.iconToggleOffHovered.Some? ==> m == style.iconToggleOffHovered.value
  {
    if checked then
      if interaction == Some(Hovered) && style.iconToggleOnHovered.Some? then style.iconToggleOnHovered.value
      else style.iconToggleOn
    else if interaction == Some(Hovered) && style.iconToggleOffHovered.Some? then style.iconToggleOffHovered.value
    else style.iconToggleOff
  }

  /**
   * `spawn_check_box`: one image entity with the on icon when `checked` and
   * the off icon otherwise, which is the icon the update system gives an idle
   * box; the `Widget` holds `checked`. The build callback is not modelled.
   */
  method SpawnCheckBox(commands: Commands, checked: bool, style: Style) returns (widget: Entity, w: Widget)
    requires commands.Valid()
    modifies commands
    ensures commands.Valid() && fresh(w)
    ensures w.IsChecked() == checked && w.style == style
    ensures widget == old(commands.nextId) && commands.nextId == widget + 1
    ensures commands.spawned == old(commands.spawned)[widget := CheckBoxIcon(Icon(style, checked, Some(NoInteraction)))]
    ensures commands.despawned == old(commands.despawned)
  {
    var material := if checked then style.iconToggleOn else style.iconToggleOff;
    widget := commands.Spawn(CheckBoxIcon(material));
    w := new Widget(checked, style);
  }

  /** The `Handle<ColorMaterial>` component of a check box entity. */
  class Image {
    var material: Material

    constructor (material: Material)
      ensures this.material == material
    {
      this.material := material;
    }
  }

  /**
   * `update_mutated_system`: each check box whose widget or interaction
   * changed gets the icon `Icon` chooses; `images[k]` and `interactions[k]`
   * belong to the entity of `widgets[k]`.
   */
  method UpdateMutatedSystem(widgets: seq<Widget>, images: seq<Image>, interactions: seq<Option<Interaction>>)
    requires |widgets| == |images| == |interactions| && Distinct(images)
    modifies set k | 0 <= k < |images| :: images[k]
    ensures forall k :: 0 <= k < |images| ==> images[k].material == Icon(widgets[k].style, widgets[k].IsChecked(), interactions[k])
  {
    var i := 0;
    while i < |images|
      invariant 0 <= i <= |images|
      invariant forall k :: 0 <= k < i ==> images[k].material == Icon(widgets[k].style, widgets[k].IsChecked(), interactions[k])
    {
      var checkbox := widgets[i];
      var material := images[i];
      if checkbox.IsChecked() {
        if interactions[i] == Some(Hovered) && checkbox.style.iconToggleOnHovered.Some? {
          material.material := checkbox.style.iconToggleOnHovered.value;
        } else {
          material.material := checkbox.style.iconToggleOn;
        }
      } else if interactions[i] == Some(Hovered) && checkbox.style.iconToggleOffHovered.Some? {
        material.material := checkbox.style.iconToggleOffHovered.value;
      } else {
        material.material := checkbox.style.iconToggleOff;
      }
      forall k | 0 <= k < i
        ensures images[k].material == Icon(widgets[k].style, widgets[k].IsChecked(), interactions[k])
      {
        assert images[k] != material;
      }
      i := i + 1;
    }
  }

  /** A `ToggledEvent`: the check box entity and its flag after the click. */
  datatype ToggledEvent = ToggledEvent(entity: Entity, checked: bool)

  /** The checked flag of each widget. */
  ghost function Checks(widgets: seq<Widget>): (r: seq<bool>)
    reads widgets
    ensures |r| == |widgets| && forall k :: 0 <= k < |widgets| ==> r[k] == widgets[k].checked
  {
    seq(|widgets|, k reads widgets requires 0 <= k < |widgets| => widgets[k].checked)
  }

  /** The flags after the clicks: exactly the clicked boxes flip. */
  function AfterClicks(checks: seq<bool>, interactions: seq<Interaction>): (r: seq<bool>)
    requires |checks| == |interactions|
    ensures |r| == |checks|
    ensures forall k :: 0 <= k < |checks| ==> r[k] == (if interactions[k] == Clicked then !checks[k] else checks[k])
  {
    seq(|checks|, k requires 0 <= k < |checks| => if interactions[k] == Clicked then !checks[k] else checks[k])
  }

  /** Two rounds of the same clicks restore every flag. */
  lemma AfterClicksTwice(checks: seq<bool>, interactions: seq<Interaction>)
    requires |checks| == |interactions|
    ensures AfterClicks(AfterClicks(checks, interactions), interactions) == checks
  {
    var twice := AfterClicks(AfterClicks(checks, interactions), interactions);
    assert forall k :: 0 <= k < |checks| ==> twice[k] == checks[k];
  }

  /** What `interact_system` has produced so far: the flags of the boxes handled and the events sent. */
  datatype Toggles = Toggles(checks: seq<bool>, sent: seq<ToggledEvent>)

  /** One more box, of entity `entity` with flag `checked`: a click flips the flag and sends the new one. */
  function ToggleOne(acc: Toggles, entity: Entity, checked: bool, interaction: Interaction): Toggles
  {
    if interaction == Clicked then Toggles(acc.checks + [!checked], acc.sent + [ToggledEvent(entity, !checked)])
    else Toggles(acc.checks + [checked], acc.sent)
  }

  /**
   * `interact_system` over the boxes from `i` on, as a left fold from `acc`:
   * the boxes have the given entities, flags before the clicks and
   * interactions.
   */
  function TogglesFrom(entities: seq<Entity>, checks: seq<bool>, interactions: seq<Interaction>, i: nat, acc: Toggles): (r: Toggles)
    requires |entities| == |checks| == |interactions| && i <= |checks|
    ensures |r.checks| == |acc.checks| + |checks| - i && |acc.sent| <= |r.sent| <= |acc.sent| + |checks| - i
    decreases |checks| - i
  {
    if i == |checks| then acc
    else TogglesFrom(entities, checks, interactions, i + 1, ToggleOne(acc, entities[i], checks[i], interactions[i]))
  }

  /** The fold flips exactly the clicked boxes. */
  lemma {:induction false} TogglesFromChecks(entities: seq<Entity>, checks: seq<bool>, interactions: seq<Interaction>, i: nat,
                                             acc: Toggles)
    requires |entities| == |checks| == |interactions| && i <= |checks|
    requires acc.checks == AfterClicks(checks, interactions)[..i]
    ensures TogglesFrom(entities, checks, interactions, i, acc).checks == AfterClicks(checks, interactions)
    decreases |checks| - i
  {
    var after := AfterClicks(checks, interactions);
    if i == |checks| {
      assert after[..i] == after;
    } else {
      var next := ToggleOne(acc, entities[i], checks[i], interactions[i]);
      assert after[..i + 1] == after[..i] + [after[i]];
      TogglesFromChecks(entities, checks, interactions, i + 1, next);
    }
  }

  /** Whether one of the boxes from `i` on is clicked and has `ev` as its event. */
  ghost predicate ClickTogglesTo(entities: seq<Entity>, checks: seq<bool>, interactions: seq<Interaction>, i: nat,
                                 ev: ToggledEvent)
    requires |entities| == |checks| == |interactions|
  {
    exists k :: i <= k < |checks| && interactions[k] == Clicked && ev == ToggledEvent(entities[k], !checks[k])
  }

  /**
   * The events of the boxes from `i` on: one per clicked box, carrying the
   * flag after the toggle (for a clicked box, `!checks[k]` is its entry in
   * `AfterClicks`), after those sent before.
   */
  lemma {:induction false} TogglesFromSent(entities: seq<Entity>, checks: seq<bool>, interactions: seq<Interaction>, i: nat,
                                           acc: Toggles, ev: ToggledEvent)
    requires |entities| == |checks| == |interactions| && i <= |checks|
    ensures ev in TogglesFrom(entities, checks, interactions, i, acc).sent <==>
      ev in acc.sent || ClickTogglesTo(entities, checks, interactions, i, ev)
    decreases |checks| - i
  {
    if i < |checks| {
      var next := ToggleOne(acc, entities[i], checks[i], interactions[i]);
      TogglesFromSent(entities, checks, interactions, i + 1, next, ev);
      if ClickTogglesTo(entities, checks, interactions, i, ev) {
        var k :| i <= k < |checks| && interactions[k] == Clicked && ev == ToggledEvent(entities[k], !checks[k]);
        if k > i {
          assert ClickTogglesTo(entities, checks, interactions, i + 1, ev);
        }
      }
    }
  }

  /**
   * The body of `interact_system` for box `i`: a click toggles it and sends
   * the new flag; the other boxes are untouched.
   */
  method InteractOne(widgets: seq<Widget>, i: nat, entity: Entity, interaction: Interaction, ghost checks: seq<bool>,
                     ghost acc: Toggles, sent: seq<ToggledEvent>)
      returns (sentAfter: seq<ToggledEvent>)
    requires i < |widgets| == |checks| && Distinct(widgets)
    requires Checks(widgets) == acc.checks + checks[i..] && |acc.checks| == i && sent == acc.sent
    modifies widgets[i]
    ensures var r := ToggleOne(acc, entity, checks[i], interaction);
      Checks(widgets) == r.checks + checks[i + 1..] && sentAfter == r.sent
  {
    var checkbox := widgets[i];
    assert checkbox.checked == checks[i];
    sentAfter := sent;
    if interaction == Clicked {
      var checked := checkbox.Toggle();
      sentAfter := sent + [ToggledEvent(entity, checked)];
    }
    forall k | 0 <= k < |widgets| && k != i
      ensures widgets[k].checked == old(widgets[k].checked)
    {
      assert widgets[k] != checkbox;
    }
    ReplaceFirst(acc.checks, checks[i..], checkbox.checked);
    assert checks[i..][1..] == checks[i + 1..];
  }

  /**
   * `interact_system`: the check boxes whose interaction changed, in query
   * order. Exactly the clicked boxes flip (`TogglesFromChecks`), and each
   * click sends the new flag (`TogglesFromSent`).
   */
  method InteractSystem(entities: seq<Entity>, widgets: seq<Widget>, interactions: seq<Interaction>)
      returns (sent: seq<ToggledEvent>)
    requires |entities| == |widgets| == |interactions| && Distinct(widgets)
    modifies set k | 0 <= k < |widgets| :: widgets[k]
    ensures var r := TogglesFrom(entities, old(Checks(widgets)), interactions, 0, Toggles([], []));
      Checks(widgets) == r.checks && sent == r.sent
  {
    ghost var checks := Checks(widgets);
    ghost var done := Toggles([], []);
    ghost var final := TogglesFrom(entities, checks, interactions, 0, done);
    assert checks[0..] == checks;
    sent := [];
    var i := 0;
    while i < |widgets|
      invariant 0 <= i <= |widgets| && |done.checks| == i
      invariant TogglesFrom(entities, checks, interactions, i, done) == final
      invariant Checks(widgets) == done.checks + checks[i..] && sent == done.sent
    {
      sent := InteractOne(widgets, i, entities[i], interactions[i], checks, done, sent);
      done := ToggleOne(done, entities[i], checks[i], interactions[i]);
      i := i + 1;
    }
  }
}

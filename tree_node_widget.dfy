/**
 * The expandable tree node widget of widgets/tree_node.rs: a root container
 * holding an expand button and, while the node is expanded, a children
 * container. The `Widget` component remembers the children container; the
 * button system toggles it on a click, sends an `ExpandedEvent`, and picks
 * the button's material from the style.
 */
module TreeNodeWidget {
  import opened Base
  import opened Ui

  /** The colours of a tree node (the layout styles are left out). */
  datatype Style = Style(colorRootContainer: Material, colorButton: Material,
                         colorButtonHovered: Option<Material>, colorButtonClicked: Option<Material>,
                         colorButtonExpanded: Option<Material>, colorChildrenContainer: Material)

  /** What `spawn_tree_node` returns: the widget's root entity and its button. */
  datatype Builder = Builder(widget: Entity, button: Entity)

  /** The children container after a toggle: an existing one goes away, otherwise `next` becomes it. */
  function Toggled(container: Option<Entity>, next: Entity): Option<Entity>
  {
    if container.Some? then None else Some(next)
  }

  /** The `Widget` component of a tree node. */
  class Widget {
    var childrenContainer: Option<Entity>
    const style: Style

    /** The component `spawn_tree_node` inserts: not expanded. */
    constructor (style: Style)
      ensures childrenContainer == None && this.style == style
    {
      childrenContainer := None;
      this.style := style;
    }

    /**
     * `toggle_expand`: despawn and forget an existing children container, or
     * spawn a new one under the node's entity.
     */
    method ToggleExpand(treeNodeEntity: Entity, commands: Commands)
      requires commands.Valid()
      modifies this, commands
      ensures commands.Valid()
      ensures childrenContainer == Toggled(old(childrenContainer), old(commands.nextId))
      ensures IsExpanded() == !old(IsExpanded())
      ensures match old(childrenContainer)
        case Some(c) =>
          commands.despawned == old(commands.despawned) + {c}
          && commands.spawned == old(commands.spawned) && commands.nextId == old(commands.nextId)
        case None =>
          commands.spawned == old(commands.spawned)[old(commands.nextId) := ChildrenContainer(treeNodeEntity)]
          && commands.despawned == old(commands.despawned) && commands.nextId == old(commands.nextId) + 1
    {
      match childrenContainer
      case Some(containerEntity) =>
        childrenContainer := None;
        commands.DespawnRecursive(containerEntity);
      case None =>
        var container := commands.Spawn(ChildrenContainer(treeNodeEntity));
        childrenContainer := Some(container);
    }

    /** `is_expanded`. */
    predicate IsExpanded()
      reads this
      ensures IsExpanded() <==> GetChildrenContainer().Some?
    {
      childrenContainer.Some?
    }

    /** `get_children_container`. */
    function GetChildrenContainer(): Option<Entity>
      reads this
    {
      childrenContainer
    }
  }

  /**
   * `spawn_tree_node`: the root container, then the expand button inside it
   * (with the idle button colour and a link back to the root), then the
   * `Widget` component on the root, not expanded. The caller's build
   * callback is not modelled.
   */
  method SpawnTreeNode(commands: Commands, style: Style) returns (b: Builder, w: Widget)
    requires commands.Valid()
    modifies commands
    ensures commands.Valid() && fresh(w)
    ensures w.style == style && !w.IsExpanded()
    ensures b.widget == old(commands.nextId) && b.button == b.widget + 1 && commands.nextId == b.button + 1
    ensures commands.spawned == old(commands.spawned)[b.widget := NodeRoot(style.colorRootContainer)]
                                                     [b.button := ExpandButton(b.widget, style.colorButton)]
    ensures commands.despawned == old(commands.despawned)
  {
    var root := commands.Spawn(NodeRoot(style.colorRootContainer));
    var button := commands.Spawn(ExpandButton(root, style.colorButton));
    w := new Widget(style);
    b := Builder(root, button);
  }

  /**
   * The material `interact_button_system` gives the button: the clicked or
   * hovered colour when the style has one (otherwise the material stays
   * `current`); when idle, the expanded colour if the node is expanded and
   * the style has one, the button colour otherwise.
   */
  function ButtonMaterial(style: Style, interaction: Interaction, expanded: bool, current: Material): (m: Material)
    ensures interaction == Clicked ==> m == current || Some(m) == style.colorButtonClicked
    ensures interaction == Hovered ==> m == current || Some(m) == style.colorButtonHovered
    ensures interaction == NoInteraction ==> m == style.colorButton || (expanded && Some(m) == style.colorButtonExpanded)
    ensures interaction == NoInteraction && !expanded ==> m == style.colorButton
  {
    match interaction
    case Clicked => if style.colorButtonClicked.Some? then style.colorButtonClicked.value else current
    case Hovered => if style.colorButtonHovered.Some? then style.colorButtonHovered.value else current
    case NoInteraction =>
      if expanded && style.colorButtonExpanded.Some? then style.colorButtonExpanded.value else style.colorButton
  }

  /** The expand button entity: its material and the widget it belongs to (its parent). */
  class Button {
    var material: Material
    const widget: Entity

    constructor (widget: Entity, material: Material)
      ensures this.widget == widget && this.material == material
    {
      this.widget := widget;
      this.material := material;
    }
  }

  /** An `ExpandedEvent`: the widget and whether it is expanded after the click. */
  datatype ExpandedEvent = ExpandedEvent(widget: Entity, expanded: bool)

  /**
   * The state a button pass works on: the children containers and button
   * materials of the widgets handled so far, the events sent, and the
   * `Commands` record.
   */
  datatype ButtonsPass = ButtonsPass(containers: seq<Option<Entity>>, materials: seq<Material>, sent: seq<ExpandedEvent>,
                                     nextId: nat, spawned: map<Entity, Spawned>, despawned: set<Entity>)

  /**
   * The children container and `Commands` part of one more button, of widget
   * `parent`: a click toggles the node (despawning the container or spawning
   * one under `parent`) and sends an `ExpandedEvent` with the state after
   * the toggle; any other interaction keeps the container.
   */
  function ToggleOne(acc: ButtonsPass, parent: Entity, container: Option<Entity>, interaction: Interaction): ButtonsPass
  {
    if interaction != Clicked then
      acc.(containers := acc.containers + [container])
    else
      var after := Toggled(container, acc.nextId);
      match container
      case Some(c) =>
        acc.(containers := acc.containers + [after], sent := acc.sent + [ExpandedEvent(parent, false)],
             despawned := acc.despawned + {c})
      case None =>
        acc.(containers := acc.containers + [after], sent := acc.sent + [ExpandedEvent(parent, true)],
             nextId := acc.nextId + 1, spawned := acc.spawned[acc.nextId := ChildrenContainer(parent)])
  }

  /** One more button: its material from the style, then `ToggleOne`. */
  function ButtonOne(acc: ButtonsPass, parent: Entity, style: Style, container: Option<Entity>,
                     material: Material, interaction: Interaction): ButtonsPass
  {
    ToggleOne(acc, parent, container, interaction).(
      materials := acc.materials + [ButtonMaterial(style, interaction, container.Some?, material)])
  }

  /**
   * `interact_button_system` over the buttons whose interaction changed:
   * `parents[k]` is the widget of button `k`, whose style, children container
   * and button material are `styles[k]`, `containers[k]`, `materials[k]`.
   */
  function ButtonsPassOver(parents: seq<Entity>, styles: seq<Style>, containers: seq<Option<Entity>>, materials: seq<Material>,
                           interactions: seq<Interaction>, start: ButtonsPass): (r: ButtonsPass)
    requires |parents| == |styles| == |containers| == |materials| == |interactions|
    ensures |r.containers| == |start.containers| + |containers| && |r.materials| == |start.materials| + |materials|
    ensures r.containers[..|start.containers|] == start.containers && r.materials[..|start.materials|] == start.materials
    ensures |r.sent| >= |start.sent| && r.sent[..|start.sent|] == start.sent
    ensures r.nextId >= start.nextId && r.despawned >= start.despawned
  {
    if containers == [] then start
    else
      var n := |containers| - 1;
      var prev := ButtonsPassOver(parents[..n], styles[..n], containers[..n], materials[..n], interactions[..n], start);
      ButtonOne(prev, parents[n], styles[n], containers[n], materials[n], interactions[n])
  }

  /**
   * The same pass as a left fold from button `i` on, as the system's loop
   * runs it.
   */
  function ButtonsFrom(parents: seq<Entity>, styles: seq<Style>, containers: seq<Option<Entity>>, materials: seq<Material>,
                       interactions: seq<Interaction>, i: nat, acc: ButtonsPass): (r: ButtonsPass)
    requires |parents| == |styles| == |containers| == |materials| == |interactions| && i <= |containers|
    ensures |r.containers| == |acc.containers| + |containers| - i
    decreases |containers| - i
  {
    if i == |containers| then acc
    else ButtonsFrom(parents, styles, containers, materials, interactions, i + 1,
                     ButtonOne(acc, parents[i], styles[i], containers[i], materials[i], interactions[i]))
  }

  /** A button pass keeps the entities below its first fresh id as they were. */
  lemma {:induction false} PassKeepsSpawned(parents: seq<Entity>, styles: seq<Style>, containers: seq<Option<Entity>>,
                                            materials: seq<Material>, interactions: seq<Interaction>, start: ButtonsPass, e: Entity)
    requires |parents| == |styles| == |containers| == |materials| == |interactions| && e < start.nextId
    ensures var r := ButtonsPassOver(parents, styles, containers, materials, interactions, start);
      (e in r.spawned <==> e in start.spawned) && (e in start.spawned ==> r.spawned[e] == start.spawned[e])
  {
    if containers != [] {
      var n := |containers| - 1;
      PassKeepsSpawned(parents[..n], styles[..n], containers[..n], materials[..n], interactions[..n], start, e);
    }
  }

  /** One more button extends the pass over the buttons before it. */
  lemma PassStep(parents: seq<Entity>, styles: seq<Style>, containers: seq<Option<Entity>>, materials: seq<Material>,
                 interactions: seq<Interaction>, start: ButtonsPass, i: nat)
    requires |parents| == |styles| == |containers| == |materials| == |interactions| && i < |containers|
    ensures ButtonsPassOver(parents[..i + 1], styles[..i + 1], containers[..i + 1], materials[..i + 1], interactions[..i + 1], start)
      == ButtonOne(ButtonsPassOver(parents[..i], styles[..i], containers[..i], materials[..i], interactions[..i], start),
                   parents[i], styles[i], containers[i], materials[i], interactions[i])
  {
    assert parents[..i + 1][..i] == parents[..i] && styles[..i + 1][..i] == styles[..i];
    assert containers[..i + 1][..i] == containers[..i] && materials[..i + 1][..i] == materials[..i];
    assert interactions[..i + 1][..i] == interactions[..i];
  }

  /** The fold from button `i`, started on the pass over the first `i` buttons, is the whole pass. */
  lemma {:induction false} ButtonsFromPass(parents: seq<Entity>, styles: seq<Style>, containers: seq<Option<Entity>>,
                                           materials: seq<Material>, interactions: seq<Interaction>, start: ButtonsPass, i: nat)
    requires |parents| == |styles| == |containers| == |materials| == |interactions| && i <= |containers|
    ensures ButtonsFrom(parents, styles, containers, materials, interactions, i,
                        ButtonsPassOver(parents[..i], styles[..i], containers[..i], materials[..i], interactions[..i], start))
         == ButtonsPassOver(parents, styles, containers, materials, interactions, start)
    decreases |containers| - i
  {
    if i == |containers| {
      assert parents[..i] == parents && styles[..i] == styles && containers[..i] == containers;
      assert materials[..i] == materials && interactions[..i] == interactions;
    } else {
      PassStep(parents, styles, containers, materials, interactions, start, i);
      ButtonsFromPass(parents, styles, containers, materials, interactions, start, i + 1);
    }
  }

  /**
   * What a button pass does to button `k`: a click flips whether its node is
   * expanded, dropping the container into the despawned set or creating a
   * fresh one under the widget; any other interaction keeps the container.
   * The button's material is `ButtonMaterial` of the state before the click.
   */
  lemma {:induction false} PassPerButton(parents: seq<Entity>, styles: seq<Style>, containers: seq<Option<Entity>>,
                                         materials: seq<Material>, interactions: seq<Interaction>, start: ButtonsPass, k: nat)
    requires |parents| == |styles| == |containers| == |materials| == |interactions| && k < |containers|
    ensures var r := ButtonsPassOver(parents, styles, containers, materials, interactions, start);
      var after := r.containers[|start.containers| + k];
      && r.materials[|start.materials| + k] == ButtonMaterial(styles[k], interactions[k], containers[k].Some?, materials[k])
      && (interactions[k] != Clicked ==> after == containers[k])
      && (interactions[k] == Clicked && containers[k].Some? ==> after == None && containers[k].value in r.despawned)
      && (interactions[k] == Clicked && containers[k].None? ==>
            after.Some? && start.nextId <= after.value < r.nextId && after.value in r.spawned
            && r.spawned[after.value] == ChildrenContainer(parents[k]))
  {
    var n := |containers| - 1;
    var prev := ButtonsPassOver(parents[..n], styles[..n], containers[..n], materials[..n], interactions[..n], start);
    var r := ButtonsPassOver(parents, styles, containers, materials, interactions, start);
    if k < n {
      PassPerButton(parents[..n], styles[..n], containers[..n], materials[..n], interactions[..n], start, k);
      assert containers[..n][k] == containers[k] && interactions[..n][k] == interactions[k];
      assert parents[..n][k] == parents[k] && styles[..n][k] == styles[k] && materials[..n][k] == materials[k];
      assert r.containers[|start.containers| + k] == prev.containers[|start.containers| + k];
      assert r.materials[|start.materials| + k] == prev.materials[|start.materials| + k];
    }
  }

  /** Whether one of the first `n` buttons is clicked and has `ev` as its `ExpandedEvent`. */
  ghost predicate ClickSends(parents: seq<Entity>, containers: seq<Option<Entity>>, interactions: seq<Interaction>,
                             ev: ExpandedEvent, n: nat)
    requires n <= |parents| == |containers| == |interactions|
  {
    exists k :: 0 <= k < n && interactions[k] == Clicked && ev == ExpandedEvent(parents[k], containers[k].None?)
  }

  /** One more button adds the event of its click, if any, to the events of the buttons before it. */
  lemma PassSentStep(parents: seq<Entity>, styles: seq<Style>, containers: seq<Option<Entity>>,
                     materials: seq<Material>, interactions: seq<Interaction>, start: ButtonsPass, m: nat)
    requires |parents| == |styles| == |containers| == |materials| == |interactions| && m < |containers|
    ensures ButtonsPassOver(parents[..m + 1], styles[..m + 1], containers[..m + 1], materials[..m + 1], interactions[..m + 1], start).sent[|start.sent|..]
      == ButtonsPassOver(parents[..m], styles[..m], containers[..m], materials[..m], interactions[..m], start).sent[|start.sent|..]
         + (if interactions[m] == Clicked then [ExpandedEvent(parents[m], containers[m].None?)] else [])
  {
    PassStep(parents, styles, containers, materials, interactions, start, m);
  }

  /** Button `m` clicked with `ev` as its event, or one of the buttons before it. */
  lemma ClickSendsStep(parents: seq<Entity>, containers: seq<Option<Entity>>, interactions: seq<Interaction>,
                       ev: ExpandedEvent, m: nat)
    requires m < |parents| == |containers| == |interactions|
    ensures ClickSends(parents, containers, interactions, ev, m + 1)
      <==> ClickSends(parents, containers, interactions, ev, m)
           || (interactions[m] == Clicked && ev == ExpandedEvent(parents[m], containers[m].None?))
  {
    if ClickSends(parents, containers, interactions, ev, m + 1) {
      var k :| 0 <= k < m + 1 && interactions[k] == Clicked && ev == ExpandedEvent(parents[k], containers[k].None?);
      if k < m {
        assert ClickSends(parents, containers, interactions, ev, m);
      }
    }
  }

  /**
   * The `ExpandedEvent`s of the pass over the first `n` buttons: one for each
   * clicked button, naming its widget and whether the node is expanded after
   * the click.
   */
  lemma {:induction false} PassSent(parents: seq<Entity>, styles: seq<Style>, containers: seq<Option<Entity>>,
                                    materials: seq<Material>, interactions: seq<Interaction>, start: ButtonsPass,
                                    ev: ExpandedEvent, n: nat)
    requires |parents| == |styles| == |containers| == |materials| == |interactions| && n <= |containers|
    ensures var r := ButtonsPassOver(parents[..n], styles[..n], containers[..n], materials[..n], interactions[..n], start);
      ev in r.sent[|start.sent|..] <==> ClickSends(parents, containers, interactions, ev, n)
  {
    if n > 0 {
      var m := n - 1;
      PassSent(parents, styles, containers, materials, interactions, start, ev, m);
      PassSentStep(parents, styles, containers, materials, interactions, start, m);
      ClickSendsStep(parents, containers, interactions, ev, m);
    }
  }

  /** The parent widget of each button. */
  function Parents(buttons: seq<Button>): (r: seq<Entity>)
    ensures |r| == |buttons| && forall k :: 0 <= k < |buttons| ==> r[k] == buttons[k].widget
  {
    seq(|buttons|, k requires 0 <= k < |buttons| => buttons[k].widget)
  }

  /** The style of each widget. */
  function Styles(widgets: seq<Widget>): (r: seq<Style>)
    ensures |r| == |widgets| && forall k :: 0 <= k < |widgets| ==> r[k] == widgets[k].style
  {
    seq(|widgets|, k requires 0 <= k < |widgets| => widgets[k].style)
  }

  /** The children container of each widget. */
  ghost function Containers(widgets: seq<Widget>): (r: seq<Option<Entity>>)
    reads widgets
    ensures |r| == |widgets| && forall k :: 0 <= k < |widgets| ==> r[k] == widgets[k].childrenContainer
  {
    seq(|widgets|, k reads widgets requires 0 <= k < |widgets| => widgets[k].childrenContainer)
  }

  /** The material of each button. */
  ghost function Materials(buttons: seq<Button>): (r: seq<Material>)
    reads buttons
    ensures |r| == |buttons| && forall k :: 0 <= k < |buttons| ==> r[k] == buttons[k].material
  {
    seq(|buttons|, k reads buttons requires 0 <= k < |buttons| => buttons[k].material)
  }

  /** Whether `commands` holds the `Commands` record of `acc`. */
  ghost predicate Records(commands: Commands, acc: ButtonsPass)
    reads commands
  {
    commands.nextId == acc.nextId && commands.spawned == acc.spawned && commands.despawned == acc.despawned
  }

  /** The material the button system gives button `i`; the other buttons keep theirs. */
  method PaintButton(buttons: seq<Button>, i: nat, style: Style, interaction: Interaction, expanded: bool,
                     ghost ms: seq<Material>, ghost done: seq<Material>)
    requires i < |buttons| == |ms| && Distinct(buttons)
    requires Materials(buttons) == done + ms[i..] && |done| == i
    modifies buttons[i]
    ensures Materials(buttons) == done + [ButtonMaterial(style, interaction, expanded, ms[i])] + ms[i + 1..]
  {
    var button := buttons[i];
    assert button.material == ms[i];
    var m := button.material;
    match interaction {
      case Clicked =>
        if style.colorButtonClicked.Some? {
          m := style.colorButtonClicked.value;
        }
      case Hovered =>
        if style.colorButtonHovered.Some? {
          m := style.colorButtonHovered.value;
        }
      case NoInteraction =>
        if expanded && style.colorButtonExpanded.Some? {
          m := style.colorButtonExpanded.value;
        } else {
          m := style.colorButton;
        }
    }
    button.material := m;
    forall k | 0 <= k < |buttons| && k != i
      ensures buttons[k].material == old(buttons[k].material)
    {
      assert buttons[k] != button;
    }
    ReplaceFirst(done, ms[i..], button.material);
    assert ms[i..][1..] == ms[i + 1..];
  }

  /**
   * The toggle of `interact_button_system` for a button of `widgets[i]`,
   * whose parent entity is `parent`: a click toggles the widget and sends an
   * `ExpandedEvent`; the other widgets are untouched.
   */
  method ToggleButton(widgets: seq<Widget>, i: nat, parent: Entity, interaction: Interaction, commands: Commands,
                      ghost es: seq<Option<Entity>>, ghost acc: ButtonsPass, sent: seq<ExpandedEvent>)
      returns (sentAfter: seq<ExpandedEvent>)
    requires i < |widgets| == |es| && Distinct(widgets) && commands.Valid()
    requires Containers(widgets) == acc.containers + es[i..] && |acc.containers| == i
    requires Records(commands, acc) && sent == acc.sent
    modifies widgets[i], commands
    ensures commands.Valid()
    ensures var r := ToggleOne(acc, parent, es[i], interaction);
      Containers(widgets) == r.containers + es[i + 1..] && Records(commands, r) && sentAfter == r.sent
  {
    var widget := widgets[i];
    assert widget.childrenContainer == es[i];
    sentAfter := sent;
    if interaction == Clicked {
      widget.ToggleExpand(parent, commands);
      sentAfter := sent + [ExpandedEvent(parent, widget.IsExpanded())];
    }
    forall k | 0 <= k < |widgets| && k != i
      ensures widgets[k].childrenContainer == old(widgets[k].childrenContainer)
    {
      assert widgets[k] != widget;
    }
    ReplaceFirst(acc.containers, es[i..], widget.childrenContainer);
    assert es[i..][1..] == es[i + 1..];
  }

  /**
   * The body of `interact_button_system` for button `i`, whose widget is
   * `widgets[i]`: the material first, then the toggle, as `ButtonOne` says.
   */
  method InteractButton(buttons: seq<Button>, widgets: seq<Widget>, i: nat, interaction: Interaction, commands: Commands,
                        ghost es: seq<Option<Entity>>, ghost ms: seq<Material>, ghost acc: ButtonsPass, sent: seq<ExpandedEvent>)
      returns (sentAfter: seq<ExpandedEvent>)
    requires i < |buttons| == |widgets| == |es| == |ms| && Distinct(widgets) && Distinct(buttons) && commands.Valid()
    requires Containers(widgets) == acc.containers + es[i..] && |acc.containers| == i
    requires Materials(buttons) == acc.materials + ms[i..] && |acc.materials| == i
    requires Records(commands, acc) && sent == acc.sent
    modifies widgets[i], buttons[i], commands
    ensures commands.Valid()
    ensures var r := ButtonOne(acc, buttons[i].widget, widgets[i].style, es[i], ms[i], interaction);
      && Containers(widgets) == r.containers + es[i + 1..] && Materials(buttons) == r.materials + ms[i + 1..]
      && Records(commands, r) && sentAfter == r.sent
  {
    assert widgets[i].IsExpanded() == es[i].Some?;
    PaintButton(buttons, i, widgets[i].style, interaction, widgets[i].IsExpanded(), ms, acc.materials);
    sentAfter := ToggleButton(widgets, i, buttons[i].widget, interaction, commands, es, acc, sent);
  }

  /**
   * `interact_button_system`: the buttons whose interaction changed, in query
   * order, `widgets[k]` the `Widget` of button `k`'s parent (each tree node
   * has one expand button, so they are distinct).
   */
  method InteractButtonSystem(buttons: seq<Button>, widgets: seq<Widget>, interactions: seq<Interaction>, commands: Commands)
      returns (sent: seq<ExpandedEvent>)
    requires |buttons| == |widgets| == |interactions| && Distinct(widgets) && Distinct(buttons) && commands.Valid()
    modifies set k | 0 <= k < |widgets| :: widgets[k], set k | 0 <= k < |buttons| :: buttons[k], commands
    ensures commands.Valid()
    ensures var r := ButtonsFrom(Parents(buttons), Styles(widgets), old(Containers(widgets)), old(Materials(buttons)), interactions, 0,
                                 ButtonsPass([], [], [], old(commands.nextId), old(commands.spawned), old(commands.despawned)));
      Containers(widgets) == r.containers && Materials(buttons) == r.materials && Records(commands, r) && sent == r.sent
  {
    ghost var es := Containers(widgets);
    ghost var ms := Materials(buttons);
    ghost var parents := Parents(buttons);
    ghost var styles := Styles(widgets);
    ghost var done := ButtonsPass([], [], [], commands.nextId, commands.spawned, commands.despawned);
    ghost var final := ButtonsFrom(parents, styles, es, ms, interactions, 0, done);
    assert es[0..] == es && ms[0..] == ms;
    sent := [];
    var i := 0;
    while i < |buttons|
      invariant 0 <= i <= |buttons| && commands.Valid()
      invariant |done.containers| == |done.materials| == i && ButtonsFrom(parents, styles, es, ms, interactions, i, done) == final
      invariant Containers(widgets) == done.containers + es[i..] && Materials(buttons) == done.materials + ms[i..]
      invariant Records(commands, done) && sent == done.sent
    {
      sent := InteractButton(buttons, widgets, i, interactions[i], commands, es, ms, done, sent);
      done := ButtonOne(done, parents[i], styles[i], es[i], ms[i], interactions[i]);
      i := i + 1;
    }
  }
}

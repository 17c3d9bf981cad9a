/**
 * The older, stand-alone tree node of tree_node.rs. It has the same shape as
 * the widget of widgets/tree_node.rs (root container, expand button, children
 * container spawned on demand) and the same colours, but its button system
 * sends no event. The colours, the material chooser and the button pass are
 * shared with `TreeNodeWidget`.
 */
module LegacyTreeNode {
  import opened Base
  import opened Ui
  import opened TreeNodeWidget

  /** The `TreeNode` component (its marker components are left out). */
  class TreeNode {
    var containerEntity: Option<Entity>
    const style: Style

    /** The component `spawn_tree_node` inserts: not expanded. */
    constructor (style: Style)
      ensures containerEntity == None && this.style == style
    {
      containerEntity := None;
      this.style := style;
    }

    /**
     * `toggle_expand`: despawn and forget an existing children container, or
     * spawn a new one as a child of `entity`.
     */
    method ToggleExpand(entity: Entity, commands: Commands)
      requires commands.Valid()
      modifies this, commands
      ensures commands.Valid()
      ensures containerEntity == Toggled(old(containerEntity), old(commands.nextId))
      ensures IsExpanded() == !old(IsExpanded())
      ensures match old(containerEntity)
        case Some(c) =>
          commands.despawned == old(commands.despawned) + {c}
          && commands.spawned == old(commands.spawned) && commands.nextId == old(commands.nextId)
        case None =>
          commands.spawned == old(commands.spawned)[old(commands.nextId) := ChildrenContainer(entity)]
          && commands.despawned == old(commands.despawned) && commands.nextId == old(commands.nextId) + 1
    {
      match containerEntity
      case Some(container) =>
        containerEntity := None;
        commands.DespawnRecursive(container);
      case None =>
        var container := commands.Spawn(ChildrenContainer(entity));
        containerEntity := Some(container);
    }

    /** `is_expanded`. */
    predicate IsExpanded()
      reads this
      ensures IsExpanded() <==> GetChildrenContainer().Some?
    {
      containerEntity.Some?
    }

    /** `get_children_container`. */
    function GetChildrenContainer(): Option<Entity>
      reads this
    {
      containerEntity
    }
  }

  /**
   * `spawn_tree_node`: the root container, the expand button inside it with
   * the idle button colour, then the `TreeNode` component on the root, not
   * expanded. Returns the root entity; the button becomes the current entity.
   */
  method SpawnTreeNode(commands: Commands, style: Style) returns (root: Entity, button: Entity, node: TreeNode)
    requires commands.Valid()
    modifies commands
    ensures commands.Valid() && fresh(node)
    ensures node.style == style && !node.IsExpanded()
    ensures root == old(commands.nextId) && button == root + 1 && commands.nextId == button + 1
    ensures commands.spawned == old(commands.spawned)[root := NodeRoot(style.colorRootContainer)]
                                                     [button := ExpandButton(root, style.colorButton)]
    ensures commands.despawned == old(commands.despawned)
  {
    root := commands.Spawn(NodeRoot(style.colorRootContainer));
    button := commands.Spawn(ExpandButton(root, style.colorButton));
    node := new TreeNode(style);
  }

  /** The children container of each tree node. */
  ghost function NodeContainers(nodes: seq<TreeNode>): (r: seq<Option<Entity>>)
    reads nodes
    ensures |r| == |nodes| && forall k :: 0 <= k < |nodes| ==> r[k] == nodes[k].containerEntity
  {
    seq(|nodes|, k reads nodes requires 0 <= k < |nodes| => nodes[k].containerEntity)
  }

  /** The style of each tree node. */
  function NodeStyles(nodes: seq<TreeNode>): (r: seq<Style>)
    ensures |r| == |nodes| && forall k :: 0 <= k < |nodes| ==> r[k] == nodes[k].style
  {
    seq(|nodes|, k requires 0 <= k < |nodes| => nodes[k].style)
  }

  /**
   * The toggle of `interact_button` for a button of `nodes[i]`, whose entity
   * is `parent`: a click toggles the node; the other nodes are untouched.
   */
  method ToggleNode(nodes: seq<TreeNode>, i: nat, parent: Entity, interaction: Interaction, commands: Commands,
                    ghost es: seq<Option<Entity>>, ghost acc: ButtonsPass)
    requires i < |nodes| == |es| && Distinct(nodes) && commands.Valid()
    requires NodeContainers(nodes) == acc.containers + es[i..] && |acc.containers| == i
    requires Records(commands, acc)
    modifies nodes[i], commands
    ensures commands.Valid()
    ensures var r := ToggleOne(acc, parent, es[i], interaction);
      NodeContainers(nodes) == r.containers + es[i + 1..] && Records(commands, r)
  {
    var node := nodes[i];
    assert node.containerEntity == es[i];
    if interaction == Clicked {
      node.ToggleExpand(parent, commands);
    }
    forall k | 0 <= k < |nodes| && k != i
      ensures nodes[k].containerEntity == old(nodes[k].containerEntity)
    {
      assert nodes[k] != node;
    }
    ReplaceFirst(acc.containers, es[i..], node.containerEntity);
    assert es[i..][1..] == es[i + 1..];
  }

  /** The body of `interact_button` for button `i`, whose tree node is `nodes[i]`. */
  method InteractOne(buttons: seq<Button>, nodes: seq<TreeNode>, i: nat, interaction: Interaction, commands: Commands,
                     ghost es: seq<Option<Entity>>, ghost ms: seq<Material>, ghost acc: ButtonsPass)
    requires i < |buttons| == |nodes| == |es| == |ms| && Distinct(nodes) && Distinct(buttons) && commands.Valid()
    requires NodeContainers(nodes) == acc.containers + es[i..] && |acc.containers| == i
    requires Materials(buttons) == acc.materials + ms[i..] && |acc.materials| == i
    requires Records(commands, acc)
    modifies nodes[i], buttons[i], commands
    ensures commands.Valid()
    ensures var r := ButtonOne(acc, buttons[i].widget, nodes[i].style, es[i], ms[i], interaction);
      && NodeContainers(nodes) == r.containers + es[i + 1..] && Materials(buttons) == r.materials + ms[i + 1..]
      && Records(commands, r)
  {
    assert nodes[i].IsExpanded() == es[i].Some?;
    PaintButton(buttons, i, nodes[i].style, interaction, nodes[i].IsExpanded(), ms, acc.materials);
    ToggleNode(nodes, i, buttons[i].widget, interaction, commands, es, acc);
  }

  /**
   * `interact_button`: the buttons whose interaction changed, in query order,
   * `nodes[k]` the `TreeNode` of button `k`'s parent. The containers, the
   * materials and the `Commands` record are those of the widget version's
   * button pass; the events that pass lists are not sent here.
   */
  method InteractButton(buttons: seq<Button>, nodes: seq<TreeNode>, interactions: seq<Interaction>, commands: Commands)
    requires |buttons| == |nodes| == |interactions| && Distinct(nodes) && Distinct(buttons) && commands.Valid()
    modifies set k | 0 <= k < |nodes| :: nodes[k], set k | 0 <= k < |buttons| :: buttons[k], commands
    ensures commands.Valid()
    ensures var r := ButtonsFrom(Parents(buttons), NodeStyles(nodes), old(NodeContainers(nodes)), old(Materials(buttons)), interactions, 0,
                                 ButtonsPass([], [], [], old(commands.nextId), old(commands.spawned), old(commands.despawned)));
      NodeContainers(nodes) == r.containers && Materials(buttons) == r.materials && Records(commands, r)
  {
    ghost var es := NodeContainers(nodes);
    ghost var ms := Materials(buttons);
    ghost var parents := Parents(buttons);
    ghost var styles := NodeStyles(nodes);
    ghost var done := ButtonsPass([], [], [], commands.nextId, commands.spawned, commands.despawned);
    ghost var final := ButtonsFrom(parents, styles, es, ms, interactions, 0, done);
    assert es[0..] == es && ms[0..] == ms;
    var i := 0;
    while i < |buttons|
      invariant 0 <= i <= |buttons| && commands.Valid()
      invariant |done.containers| == |done.materials| == i && ButtonsFrom(parents, styles, es, ms, interactions, i, done) == final
      invariant NodeContainers(nodes) == done.containers + es[i..] && Materials(buttons) == done.materials + ms[i..]
      invariant Records(commands, done)
    {
      InteractOne(buttons, nodes, i, interactions[i], commands, es, ms, done);
      done := ButtonOne(done, parents[i], styles[i], es[i], ms[i], interactions[i]);
      i := i + 1;
    }
  }
}

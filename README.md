# bevy inspector widgets and reflection tree, in Dafny

This project models the widgets of a Bevy inspector crate and the tree inspector
built on them. The tree inspector is the `ecr_tree` reflection tree: it shows
entities, components and resources, and edits their reflected fields in
place. The model follows the source's own split:

- **Text boxes.** `TextBuffer` gives the abstract state of a text box: the
  shown bytes and an optional cursor offset. `Utf8` models the `String` bytes,
  character boundaries and the UTF-8 encoding of a `char`.
  - `InputBox.Cursor` (src/widgets/input_box.rs) and `EditBoxWidget.EditBox`
    (src/edit_box.rs) are classes that splice the cursor character into the
    text they edit. Each method is proved against the abstract operation.
  - The keyboard and mouse systems loop over the boxes. They are proved
    against fold functions, whose properties are proved as lemmas.
- **Other widgets.** `CheckBox`, `RadioButton`, `TreeNodeWidget` (the tree
  node of src/widgets/tree_node.rs) and `LegacyTreeNode` (src/tree_node.rs).
  - Each is a class per component the systems update.
  - Spawning is modelled on a `Ui.Commands` record of spawned and despawned
    entities.
  - Each interaction system is a loop proved against a fold whose properties
    are lemmas.
- **Tree inspector data.** `EcrTree` (src/widgets/ecr_tree/mod.rs) holds the
  inspector's `State` (entries, liveness flags, root keys, specialised widget
  spawners), its keys and entries, and the reflected values.
- **Leaves and nodes.** `EcrLeaf` (leaf.rs) and `EcrNode` (node.rs) are the
  visits that create the widgets of a reflected value and carry edits both
  ways between the widgets and the value. They also cover the systems that
  synchronise check boxes, text boxes and expand icons.
- **The update pass.** `Ecr` (ecr.rs) is `update_system`: it marks every
  entry dead, visits each root key (entity, component, resource), then
  sweeps the entries that were not visited. `Ecr` also holds the entity
  label system.

Foreign code is passed in as functions of an `EcrTree.Env`. That covers the
type registry, `ron`, the reflect serialiser and deserialiser,
`reflect_partial_eq` and `Debug` of an entity. Pointer positions, glyph hits
and interactions are inputs. Most `unwrap`, `unreachable!` and
`unimplemented!` calls of the inspector become error outcomes (`ok == false`
or `None`); the invariants show which of them cannot happen. So do the
panics of the radio group's interaction system. Two inspector `unwrap`s are
folded into a neighbouring outcome instead (`EcrLeaf.UnfocusedOne` and
`EcrNode.ChildLabel` under "Left out"). The other widget systems' query
and window `unwrap`s become preconditions or inputs; "Left out" names
each of them.

Where the code and its comments disagree, the model follows the code. The
one exception is the unclosed component label under "Findings": the update
pass uses the corrected label, and the as-written one is modelled beside it. In
`interact_keyboard` of src/edit_box.rs (lines 146-189), Return sends
`canceled: true` and Escape sends `canceled: false`. The comment on the field
(line 116) says the opposite, and so does the newer input box (lines
286-301). `EditBoxWidget.InteractKeyboard` is the as-written behaviour: it
uses Return as the cancelling key. `InputBox.InteractKeyboardSystem` uses
Escape.

## Model

| member | source | states |
|---|---|---|
| Base.NatToString | src/widgets/ecr_tree/node.rs:47-88 | the decimal index label of a tuple or list field: at least one digit, only digits, one digit exactly below ten |
| Base.NatToStringRoundTrip | src/widgets/ecr_tree/node.rs:47-88 | the index label reads back as the index it was made from |
| Base.NatToStringInjective | src/widgets/ecr_tree/node.rs:47-88 | different field indices get different labels |
| Ui.TypedChars | src/widgets/input_box.rs:311-317 | the characters inserted from the character events: no control characters, and a character is inserted exactly when some primary-window event that is not a control character carries it |
| Ui.TypedCharsConcat | src/widgets/input_box.rs:311-317 | the characters are taken event by event, in order: a concatenation of events gives the concatenation of their characters |
| Ui.TypedCharsOne | src/widgets/input_box.rs:311-317 | a single event gives its character exactly when it is typed in the primary window and is not a control character |
| Utf8.Encode | src/widgets/input_box.rs:172-177 | a `char` encodes to 1 to 4 bytes: a lead byte, then continuation bytes |
| Utf8.NextBoundary | src/widgets/input_box.rs:152-171 | the first character boundary after an offset, with no boundary in between |
| Utf8.PrevBoundary | src/widgets/input_box.rs:131-151 | the last character boundary before an offset, with no boundary in between |
| Utf8.PrevCharStart | src/widgets/input_box.rs:136-141 | the backward scan over `is_char_boundary` stops at the previous boundary |
| Utf8.NextCharEnd | src/widgets/input_box.rs:157-162 | the forward scan over `is_char_boundary` stops at the next boundary |
| Utf8.InsertChar | src/widgets/input_box.rs:172-177 | `String::insert` lengthens the text by the character's UTF-8 length |
| Utf8.RemoveChar | src/widgets/input_box.rs:178-202 | `String::remove` shortens the text by exactly the removed character's byte length and keeps the bytes before it |
| Utf8.CursorBytes | src/widgets/input_box.rs:109-116 | a focused text holds the cursor character's bytes at the cursor, between two boundaries |
| Utf8.UnfocusCursored | src/widgets/input_box.rs:117-123 | removing the cursor character gives back exactly the text it was inserted into |
| Utf8.SetPosLands | src/widgets/input_box.rs:124-130 | a boundary of the focused text right of the cursor, shifted by the cursor size, is a boundary of the plain text |
| Utf8.NoBoundaryInsideCursor | src/widgets/input_box.rs:124-130 | no character boundary falls inside the cursor character |
| Utf8.InsertCursored | src/widgets/input_box.rs:172-177 | inserting before the cursor character equals inserting into the plain text and moving the cursor past the new character |
| Utf8.RemoveBeforeCursored | src/widgets/input_box.rs:178-193 | removing the character before the cursor character equals removing it from the plain text and moving the cursor back onto its start |
| Utf8.RemoveAfterCursored | src/widgets/input_box.rs:194-202 | removing the character after the cursor character equals removing the next character of the plain text, the cursor staying put |
| Utf8.SwapLeftCursored | src/widgets/input_box.rs:131-151 | swapping the cursor character with the previous character equals moving the cursor to the previous boundary |
| Utf8.SwapRightCursored | src/widgets/input_box.rs:152-171 | swapping the cursor character with the next character equals moving the cursor to the next boundary |
| Utf8.MoveRightAssembled | src/widgets/input_box.rs:163-169 | the three pieces `move_cursor_right` reassembles form the text with the cursor one character further |
| Utf8.NextAfterPrev | src/widgets/input_box.rs:131-171 | stepping back one character then forward returns to the same boundary |
| Utf8.PrevAfterNext | src/widgets/input_box.rs:131-171 | stepping forward one character then back returns to the same boundary |
| Utf8.InsertedChar | src/widgets/input_box.rs:172-193 | the character just inserted starts one character back, and removing it restores the text |
| Utf8.InsertKeepsChars | src/widgets/input_box.rs:172-177 | insertion keeps the text a valid string and ends on a boundary |
| Utf8.RemoveKeepsChars | src/widgets/input_box.rs:178-202 | removal keeps the text a valid string with a boundary where the character was |
| TextBuffer.Focus | src/widgets/input_box.rs:109-116 | focusing keeps the text valid and always leaves a cursor |
| TextBuffer.Unfocus | src/widgets/input_box.rs:117-123 | unfocusing leaves a valid text and no cursor |
| TextBuffer.SetPos | src/widgets/input_box.rs:124-130 | moving the cursor to a clicked offset keeps the text valid |
| TextBuffer.MoveLeft | src/widgets/input_box.rs:131-151 | moving left keeps the text and cursor valid |
| TextBuffer.MoveRight | src/widgets/input_box.rs:152-171 | moving right keeps the text and cursor valid |
| TextBuffer.Insert | src/widgets/input_box.rs:172-177 | inserting keeps the text valid |
| TextBuffer.RemoveBefore | src/widgets/input_box.rs:178-193 | Backspace keeps the text valid |
| TextBuffer.RemoveAfter | src/widgets/input_box.rs:194-202 | Delete keeps the text valid |
| TextBuffer.MoveRightRaw | src/widgets/input_box.rs:152-171 | the bytes `move_cursor_right` writes are the shown buffer of the moved cursor |
| TextBuffer.MoveRightUndoesLeft | src/widgets/input_box.rs:131-171 | Right after Left restores a cursor that was not at the start, and Left moves it back |
| TextBuffer.MoveLeftUndoesRight | src/widgets/input_box.rs:131-171 | Left after Right restores a cursor that was not at the end, and Right moves it forward |
| TextBuffer.BackspaceUndoesInsert | src/widgets/input_box.rs:172-193 | Backspace after typing a character restores the box |
| TextBuffer.Typing | src/widgets/input_box.rs:311-317 | typing keeps the text valid, does nothing to an unfocused box and never changes focus |
| TextBuffer.TypingNext | src/widgets/input_box.rs:311-317 | one more character event inserts its character exactly when it is from the primary window and not a control character |
| TextBuffer.TypingMovesCursor | src/widgets/input_box.rs:172-177 | typed characters move the cursor forward by their encoded length |
| TextBuffer.TypingInsertsAtCursor | src/widgets/input_box.rs:172-177 | typed characters appear, encoded and in order, at the cursor |
| TextBuffer.AfterKeysOutcome | src/widgets/input_box.rs:285-318 | an unfocused box ignores the keys; Return unfocuses and skips the characters; otherwise Escape unfocuses; any other key keeps focus |
| TextBuffer.KeyboardPassUnread | src/widgets/input_box.rs:310-317 | the shared character reader is drained exactly when some box was focused and Return was not pressed |
| TextBuffer.KeyboardPassPerBox | src/widgets/input_box.rs:283-318 | each box ends as its own key handling leaves it, with characters only if no earlier box was focused |
| TextBuffer.KeyboardPassSent | src/widgets/input_box.rs:286-301 | the events sent are one unfocus event per box unfocused, with the box's text and the cancel flag |
| TextBuffer.KeyboardFromPass | src/widgets/input_box.rs:283-320 | the loop's fold from any box on equals the whole pass |
| InputBox.Cursor.constructor | src/widgets/input_box.rs:208-216 | a new cursor is unfocused, over an empty text, with the default cursor character |
| InputBox.Cursor.Focus | src/widgets/input_box.rs:109-116 | focusing an unfocused box inserts the cursor character at the offset; the box equals the abstract focus |
| InputBox.Cursor.Unfocus | src/widgets/input_box.rs:117-123 | unfocusing leaves exactly the shown text |
| InputBox.Cursor.SetPos | src/widgets/input_box.rs:124-130 | the box equals the abstract cursor move |
| InputBox.Cursor.MoveCursorLeft | src/widgets/input_box.rs:131-151 | the bytes and cursor equal the abstract move to the previous character |
| InputBox.Cursor.MoveCursorRight | src/widgets/input_box.rs:152-171 | the bytes and cursor equal the abstract move to the next character |
| InputBox.Cursor.InsertCharacter | src/widgets/input_box.rs:172-177 | the box equals the abstract insertion |
| InputBox.Cursor.RemoveCharacterBefore | src/widgets/input_box.rs:178-193 | the box equals the abstract Backspace |
| InputBox.Cursor.RemoveCharacterAfter | src/widgets/input_box.rs:194-202 | the box equals the abstract Delete |
| InputBox.Cursor.IsFocused | src/widgets/input_box.rs:203-206 | focused exactly when there is a cursor |
| InputBox.InsertTyped | src/widgets/input_box.rs:311-317 | the character loop equals typing the accepted characters |
| InputBox.KeyboardStep | src/widgets/input_box.rs:284-318 | one box of the keyboard loop does the fold's step |
| InputBox.InteractKeyboardSystem | src/widgets/input_box.rs:277-320 | the boxes, the events sent and the unread characters are those of the keyboard fold, with Escape cancelling |
| InputBox.AfterClick | src/widgets/input_box.rs:244-268 | a click focuses the box or moves its cursor, leaving the text |
| InputBox.ClickPass | src/widgets/input_box.rs:240-273 | a clicked box gets a cursor over the same text, any other box is unchanged, at most one event per box |
| InputBox.ClickPassCursor | src/widgets/input_box.rs:244-268 | a clicked box is focused at, or has its cursor moved to, the offset of the first glyph right of the pointer, or the end of its string when there is none |
| InputBox.ClickPassSentStep | src/widgets/input_box.rs:261-268 | one more widget adds its `FocusedEvent` exactly when its box was clicked while unfocused |
| InputBox.ClickPassSent | src/widgets/input_box.rs:240-273 | a `FocusedEvent` names a widget exactly when its box was clicked while unfocused |
| InputBox.ClickFromPass | src/widgets/input_box.rs:240-273 | the mouse loop's fold from any box on equals the whole pass |
| InputBox.ClickStep | src/widgets/input_box.rs:241-272 | one box of the mouse loop does the fold's step |
| InputBox.InteractMouseSystem | src/widgets/input_box.rs:230-275 | with no pointer nothing changes and nothing is sent; otherwise the boxes and events are the mouse fold's |
| EditBoxWidget.EditBox.constructor | src/edit_box.rs:9-15 | a new edit box shows its text unfocused |
| EditBoxWidget.EditBox.Focus | src/edit_box.rs:18-26 | focusing an unfocused box appends the cursor character at the end of its text and puts the cursor there; the box equals the abstract focus |
| EditBoxWidget.EditBox.Unfocus | src/edit_box.rs:27-33 | unfocusing leaves exactly the shown text |
| EditBoxWidget.EditBox.MoveCursorLeft | src/edit_box.rs:34-54 | the box equals the abstract move left |
| EditBoxWidget.EditBox.MoveCursorRight | src/edit_box.rs:55-73 | the box equals the abstract move right |
| EditBoxWidget.EditBox.InsertCharacter | src/edit_box.rs:75-80 | the box equals the abstract insertion |
| EditBoxWidget.EditBox.RemoveCharacterBefore | src/edit_box.rs:81-96 | the box equals the abstract Backspace |
| EditBoxWidget.EditBox.RemoveCharacterAfter | src/edit_box.rs:97-106 | the box equals the abstract Delete and the cursor stays |
| EditBoxWidget.EditBox.IsEditing | src/edit_box.rs:107-109 | editing exactly when there is a cursor |
| EditBoxWidget.InsertTyped | src/edit_box.rs:180-186 | the character loop equals typing the accepted characters |
| EditBoxWidget.KeyboardStep | src/edit_box.rs:155-187 | one box of the keyboard loop does the fold's step |
| EditBoxWidget.InteractKeyboard | src/edit_box.rs:146-189 | the boxes, events and unread characters are the keyboard fold's, with Return as the cancelling key, as written |
| EditBoxWidget.ClickPass | src/edit_box.rs:124-145 | a click on an unfocused box puts the cursor at the end of its text; every other box is unchanged |
| EditBoxWidget.ClickPassSent | src/edit_box.rs:130-137 | a focus event names a box exactly when that box was clicked while unfocused |
| EditBoxWidget.ClickFromPass | src/edit_box.rs:124-145 | the mouse loop's fold from any box on equals the whole pass |
| EditBoxWidget.ClickStep | src/edit_box.rs:129-141 | one box of the mouse loop does the fold's step |
| EditBoxWidget.InteractMouse | src/edit_box.rs:124-145 | the boxes and events are the mouse fold's |
| CheckBox.Widget.constructor | src/widgets/check_box.rs:31-72 | a new widget has the given flag and style |
| CheckBox.Widget.Set | src/widgets/check_box.rs:76-78 | afterwards the box is checked exactly as asked |
| CheckBox.Widget.Toggle | src/widgets/check_box.rs:82-85 | toggling flips the flag and returns the new one |
| CheckBox.Icon | src/widgets/check_box.rs:94-117 | the icon shows the flag; a hover shows the hovered icon when the style has one |
| CheckBox.SpawnCheckBox | src/widgets/check_box.rs:31-72 | spawning creates one icon entity with the icon of the flag and a widget with the flag |
| CheckBox.UpdateMutatedSystem | src/widgets/check_box.rs:94-117 | every image shows the icon of its widget's flag and interaction |
| CheckBox.AfterClicks | src/widgets/check_box.rs:119-131 | a click flips a box's flag; other boxes keep theirs |
| CheckBox.AfterClicksTwice | src/widgets/check_box.rs:119-131 | the same clicks twice restore every flag |
| CheckBox.TogglesFromChecks | src/widgets/check_box.rs:119-131 | the interaction loop leaves the flags of `AfterClicks` |
| CheckBox.TogglesFromSent | src/widgets/check_box.rs:119-131 | an event is sent exactly when its box was clicked, carrying the new flag |
| CheckBox.InteractOne | src/widgets/check_box.rs:124-130 | one box of the loop does the fold's step |
| CheckBox.InteractSystem | src/widgets/check_box.rs:119-131 | the flags and events are the fold's |
| RadioButton.Position | src/widgets/radio_button.rs:98-107 | the index of the first button equal to the entity, if any |
| RadioButton.PositionOfDistinct | src/widgets/radio_button.rs:98-107 | in a group of distinct buttons, each button's position is its index |
| RadioButton.NewSelection | src/widgets/radio_button.rs:98-107 | selecting the selected button clears the selection; a button outside the group clears it; otherwise it is selected |
| RadioButton.NonMemberSelected | src/widgets/radio_button.rs:109-112 | an entity outside the group counts as selected exactly when nothing is selected |
| RadioButton.SelectedMember | src/widgets/radio_button.rs:109-112 | a button of the group is selected exactly when the selection is its index |
| RadioButton.Widget.constructor | src/widgets/radio_button.rs:48-94 | a new widget holds its buttons, selection and style |
| RadioButton.Widget.Select | src/widgets/radio_button.rs:98-107 | selecting toggles the button's selection and leaves a valid one; it panics exactly when the previous selection is out of range (line 106), and otherwise returns the previous selection with its button |
| RadioButton.ButtonMaterial | src/widgets/radio_button.rs:123-162 | a click or hover paints the clicked or hovered colour when the style has one; no interaction paints the selected or plain colour |
| RadioButton.InitialMaterialIsIdle | src/widgets/radio_button.rs:48-94 | a button is spawned in the colour no interaction would give it |
| RadioButton.GroupSpawnsShape | src/widgets/radio_button.rs:48-94 | spawning creates the group entity and then one button per index, numbered in order |
| RadioButton.IdsShape | src/widgets/radio_button.rs:48-94 | the spawned buttons are distinct and consecutive |
| RadioButton.SpawnButton | src/widgets/radio_button.rs:66-83 | one button is spawned under the group with its initial colour |
| RadioButton.SpawnRadioButtons | src/widgets/radio_button.rs:48-94 | the group and its buttons are spawned, and the widget holds the buttons in order with the given selection, which is valid exactly when it is below the number of buttons |
| RadioButton.RadioOneClick | src/widgets/radio_button.rs:133-147 | a click panics exactly when the previous selection is out of range or its button has no material (lines 106, 139); otherwise it selects or clears, repaints the previously selected button, and sends the new and previous selections |
| RadioButton.RadioFrom | src/widgets/radio_button.rs:123-162 | at most one event per changed button; no group is added or removed |
| RadioButton.RadioFromPanicked | src/widgets/radio_button.rs:129-161 | once the pass has panicked, the remaining buttons change nothing |
| RadioButton.RadioFromValid | src/widgets/radio_button.rs:123-162 | every selection stays an index of its group's buttons |
| RadioButton.RadioFromOk | src/widgets/radio_button.rs:129-141 | with every changed button's material and group present, every selection in range and every button with a material, the pass never panics |
| RadioButton.MaterialStore.constructor | src/widgets/radio_button.rs:123-162 | the store holds the given materials |
| RadioButton.SelectIn | src/widgets/radio_button.rs:98-107 | selecting in one widget changes only that widget's selection, and panics exactly when that widget's previous selection is out of range |
| RadioButton.ClickOne | src/widgets/radio_button.rs:133-147 | one click panics exactly when the fold's click step does, and otherwise does that step |
| RadioButton.InteractOne | src/widgets/radio_button.rs:129-161 | one changed button with a material and a group panics exactly when the fold's step does, and otherwise does that step |
| RadioButton.InteractSystem | src/widgets/radio_button.rs:123-162 | the system panics exactly when the fold does, the material and group `unwrap`s of lines 130-131 included; otherwise the selections, materials and events are the fold's |
| TreeNodeWidget.Widget.constructor | src/widgets/tree_node.rs:44-102 | a new node is collapsed |
| TreeNodeWidget.Widget.ToggleExpand | src/widgets/tree_node.rs:106-131 | toggling flips expansion: an existing children container is despawned, otherwise a new one is spawned under the node |
| TreeNodeWidget.Widget.IsExpanded | src/widgets/tree_node.rs:133-139 | expanded exactly when there is a children container |
| TreeNodeWidget.SpawnTreeNode | src/widgets/tree_node.rs:44-102 | spawning creates the root container and its button, collapsed |
| TreeNodeWidget.ButtonMaterial | src/widgets/tree_node.rs:149-186 | a click or hover paints the clicked or hovered colour when the style has one; no interaction paints the expanded or plain colour |
| TreeNodeWidget.Button.constructor | src/widgets/tree_node.rs:44-102 | a new button belongs to its widget with its colour |
| TreeNodeWidget.ButtonsPassOver | src/widgets/tree_node.rs:149-186 | a pass only appends: the earlier containers, materials and events are kept |
| TreeNodeWidget.ButtonsFromPass | src/widgets/tree_node.rs:149-186 | the loop's fold from any button on equals the whole pass |
| TreeNodeWidget.PassKeepsSpawned | src/widgets/tree_node.rs:149-186 | the pass never changes an entity spawned before it |
| TreeNodeWidget.PassPerButton | src/widgets/tree_node.rs:149-186 | each button is painted for its interaction; a click despawns its container or spawns a fresh one; other interactions keep it |
| TreeNodeWidget.PassSent | src/widgets/tree_node.rs:149-186 | an expanded event is sent exactly when its node was clicked, carrying the new state |
| TreeNodeWidget.PaintButton | src/widgets/tree_node.rs:160-184 | one button is painted and the others keep their material |
| TreeNodeWidget.ToggleButton | src/widgets/tree_node.rs:161-171 | one clicked node is toggled as the fold says |
| TreeNodeWidget.InteractButton | src/widgets/tree_node.rs:158-185 | one button of the loop does the fold's step |
| TreeNodeWidget.InteractButtonSystem | src/widgets/tree_node.rs:149-186 | containers, materials, commands and events are the fold's |
| LegacyTreeNode.TreeNode.constructor | src/tree_node.rs:36-85 | a new node is collapsed |
| LegacyTreeNode.TreeNode.ToggleExpand | src/tree_node.rs:89-114 | toggling flips expansion, despawning or spawning the children container |
| LegacyTreeNode.TreeNode.IsExpanded | src/tree_node.rs:116-122 | expanded exactly when there is a children container |
| LegacyTreeNode.SpawnTreeNode | src/tree_node.rs:36-85 | spawning creates the root and its button, collapsed |
| LegacyTreeNode.ToggleNode | src/tree_node.rs:137-142 | one clicked node is toggled as the fold says |
| LegacyTreeNode.InteractOne | src/tree_node.rs:134-156 | one button of the loop does the fold's step |
| LegacyTreeNode.InteractButton | src/tree_node.rs:126-157 | containers, materials and commands are the fold's |
| EcrTree.SerializeReflect | src/widgets/ecr_tree/mod.rs:125-129 | a value has a text exactly when it is serialisable and `ron` succeeds, and then it is `ron`'s text |
| EcrTree.State.constructor | src/widgets/ecr_tree/mod.rs:81-95 | a new state is empty and shows `bool` with the check-box spawner |
| EcrTree.State.SetRootKeys | src/widgets/ecr_tree/mod.rs:96-98 | only the root keys change |
| EcrTree.State.RegisterWidget | src/widgets/ecr_tree/mod.rs:99-101 | only the spawner of the one type changes |
| EcrTree.Fetch | src/widgets/ecr_tree/node.rs:204-232 | an entry is fetched, or created with a freshly spawned widget, and is marked alive either way |
| EcrTree.FetchEntry | src/widgets/ecr_tree/node.rs:204-232 | the state and commands change exactly as `Fetch` says |
| EcrTree.GrowsTrans | src/widgets/ecr_tree/ecr.rs:18-115 | the way visits change the tables composes |
| EcrLeaf.BoolValue | src/widgets/ecr_tree/leaf.rs:180-231 | the `bool` a check box writes reads back as that flag |
| EcrLeaf.VisitLeafTables | src/widgets/ecr_tree/leaf.rs:20-85 | a leaf visit adds or keeps only its own key, marks it alive, keeps its widget, leaves no pending value, and keeps the tables consistent |
| EcrLeaf.VisitLeafValue | src/widgets/ecr_tree/leaf.rs:20-85 | the field is written exactly when the widget sent a value, and then with that value; afterwards the cached value equals the field or compares equal to it |
| EcrLeaf.VisitLeafFirst | src/widgets/ecr_tree/leaf.rs:30-60 | the first visit spawns the leaf widget, caches the value as changed and does not write the field |
| EcrLeaf.VisitLeafQuiet | src/widgets/ecr_tree/leaf.rs:61-84 | a visit of an unchanged value with nothing pending only marks the entry alive |
| EcrLeaf.UpdateLeafEntry | src/widgets/ecr_tree/leaf.rs:64-85 | the entry changes as the leaf update says, and only the entry |
| EcrLeaf.VisitReflectLeaf | src/widgets/ecr_tree/leaf.rs:20-85 | the state, commands, write and value are the leaf visit's |
| EcrLeaf.FindFrom | src/widgets/ecr_tree/leaf.rs:334-339 | the first occurrence of the value marker at or after an offset |
| EcrLeaf.FindIsFirst | src/widgets/ecr_tree/leaf.rs:334-339 | the search finds the first occurrence |
| EcrLeaf.ValueRange | src/widgets/ecr_tree/leaf.rs:326-339 | the value part lies after the marker and before the closing brace, when both are char boundaries |
| EcrLeaf.Wrap | src/widgets/ecr_tree/leaf.rs:326-332 | wrapping succeeds exactly when the envelope has a value part |
| EcrLeaf.Extract | src/widgets/ecr_tree/leaf.rs:334-339 | extracting succeeds exactly when the envelope has a value part, and gives a valid string |
| EcrLeaf.WrapExtract | src/widgets/ecr_tree/leaf.rs:326-339 | wrapping the extracted value gives back the envelope |
| EcrLeaf.ExtractWrap | src/widgets/ecr_tree/leaf.rs:326-339 | extracting from a wrapped edit gives back the edit |
| EcrLeaf.WrapWrap | src/widgets/ecr_tree/leaf.rs:326-339 | wrapping twice is the same as wrapping the last edit once |
| EcrLeaf.LeafAt | src/widgets/ecr_tree/leaf.rs:188-190 | an access finds a leaf exactly when its inspector, key and leaf entry exist |
| EcrLeaf.SetEntry | src/widgets/ecr_tree/leaf.rs:190-192 | only the one entry's contents change |
| EcrLeaf.WriteEntry | src/widgets/ecr_tree/leaf.rs:190-192 | one entry is replaced and nothing else changes |
| EcrLeaf.SetEntryIn | src/widgets/ecr_tree/leaf.rs:190-192 | the inspectors change as `SetEntry` says, and the boxes do not |
| EcrLeaf.ToggledStep | src/widgets/ecr_tree/leaf.rs:187-204 | one toggle event records the new flag as pending in its entry |
| EcrLeaf.SetCheckIn | src/widgets/ecr_tree/leaf.rs:216-220 | one box is set and the inspectors do not change |
| EcrLeaf.SyncCheckStep | src/widgets/ecr_tree/leaf.rs:208-229 | one box of the second loop does the sync step |
| EcrLeaf.UpdateCheckboxSystem | src/widgets/ecr_tree/leaf.rs:180-231 | the boxes and entries are those of the toggle loop followed by the sync loop |
| EcrLeaf.SyncCheckOneFacts | src/widgets/ecr_tree/leaf.rs:207-231 | a box shows its entry's flag when the field changed; only that entry's change flag is cleared and no cached value changes |
| EcrLeaf.SyncChecksFromFacts | src/widgets/ecr_tree/leaf.rs:207-231 | after the loop each box shows its value; the others keep theirs; exactly the synced entries lose their flag |
| EcrLeaf.UnfocusedOneFacts | src/widgets/ecr_tree/leaf.rs:242-286 | one unfocus event adds no inspector or key, changes no leaf value, and touches only the entry it names |
| EcrLeaf.UnfocusedFromFacts | src/widgets/ecr_tree/leaf.rs:241-287 | unless the event loop panics, it adds no inspector or key, changes no leaf value, and leaves every entry no event names unchanged |
| EcrLeaf.SyncedFromStep | src/widgets/ecr_tree/leaf.rs:289-324 | the entries the remaining boxes designate are the next box's entry and those after it |
| EcrLeaf.ClearedFromStep | src/widgets/ecr_tree/leaf.rs:298-313 | the entries whose flag the remaining boxes clear are the next box's entry, when unfocused, and those after it |
| EcrLeaf.SyncBoxOneFacts | src/widgets/ecr_tree/leaf.rs:290-322 | one box of the second loop changes only its own text, adds no inspector or key, changes no leaf value, clears only its entry's flag and only when unfocused |
| EcrLeaf.SyncBoxesFromEdits | src/widgets/ecr_tree/leaf.rs:289-324 | after the box loop each box shows the value part of its flagged entry when unfocused and keeps its edit when focused; a box outside the loop is untouched |
| EcrLeaf.SyncBoxesFromEntries | src/widgets/ecr_tree/leaf.rs:289-324 | the box loop adds no inspector or key and changes no leaf value; exactly the unfocused boxes' entries lose their flag; an entry no box designates is unchanged |
| EcrLeaf.SyncBoxesFromFacts | src/widgets/ecr_tree/leaf.rs:289-324 | the box loop, when no box panics: the boxes as `SyncBoxesFromEdits` says and the entries as `SyncBoxesFromEntries` says |
| EcrLeaf.ToggleReachesField | src/widgets/ecr_tree/leaf.rs:180-205 | a toggled box's flag is written into the field at the next visit |
| EcrLeaf.FieldChangeReachesBox | src/widgets/ecr_tree/leaf.rs:76-231 | a field changed elsewhere shows in its check box after the next visit |
| EcrLeaf.ShowText | src/widgets/ecr_tree/leaf.rs:299-311 | an unfocused box is given the text to show |
| EcrLeaf.ShowTextIn | src/widgets/ecr_tree/leaf.rs:299-311 | only one box's text changes, and the inspectors do not |
| EcrLeaf.UnfocusedStep | src/widgets/ecr_tree/leaf.rs:242-286 | one unfocus event changes the entries as the event step says, or the call panics |
| EcrLeaf.SyncFlaggedBox | src/widgets/ecr_tree/leaf.rs:298-313 | a flagged entry: no box panics, a focused box waits, otherwise it shows the value part and the flag is cleared |
| EcrLeaf.SyncBoxStep | src/widgets/ecr_tree/leaf.rs:290-322 | one box of the second loop does the sync step |
| EcrLeaf.ApplyUnfocusedEvents | src/widgets/ecr_tree/leaf.rs:241-287 | the event loop leaves the entries of the event fold, or panics as it does |
| EcrLeaf.SyncBoxes | src/widgets/ecr_tree/leaf.rs:289-324 | the box loop leaves the boxes and entries of the sync fold, or panics as it does |
| EcrLeaf.UpdateInputboxSystem | src/widgets/ecr_tree/leaf.rs:233-324 | the boxes and entries are those of the event loop followed by the sync loop, with its panics |
| EcrLeaf.EditReachesField | src/widgets/ecr_tree/leaf.rs:256-273 | a confirmed edit that deserialises is written into the field at the next visit |
| EcrLeaf.UnchangedEditPendsCache | src/widgets/ecr_tree/leaf.rs:256-273 | confirming the shown text unchanged pends the cached value itself |
| EcrLeaf.CancelRestoresBox | src/widgets/ecr_tree/leaf.rs:233-324 | a cancelled edit makes the box show the field's value again and clears the flag |
| EcrLeaf.ShownTextWrapsBack | src/widgets/ecr_tree/leaf.rs:303-339 | the text a box shows wraps back into the serialised text it came from |
| EcrNode.Children | src/widgets/ecr_tree/node.rs:33-106 | the children of a value are smaller than it |
| EcrNode.WithChildren | src/widgets/ecr_tree/node.rs:33-106 | the value with its children replaced has those children and the same type; the same children give the same value |
| EcrNode.FieldsFrom | src/widgets/ecr_tree/node.rs:33-106 | the field loop leaves the children in order, one per field |
| EcrNode.LeafSound | src/widgets/ecr_tree/leaf.rs:20-85 | a leaf visit keeps every entry's kind, only grows the tables, and reports a write only when it consumed a pending value |
| EcrNode.VisitNodeSound | src/widgets/ecr_tree/node.rs:180-242 | a node visit keeps every entry's kind, only grows the tables, and reports a write only when it consumed a pending value |
| EcrNode.DispatchSound | src/widgets/ecr_tree/node.rs:24-178 | dispatching keeps every entry's kind, only grows the tables, and reports a write only when it consumed a pending value |
| EcrNode.FieldsFromSound | src/widgets/ecr_tree/node.rs:33-106 | the field loops keep every entry's kind, only grow the tables, and report a write only when one consumed a pending value |
| EcrNode.EnumFromSound | src/widgets/ecr_tree/node.rs:121-176 | the variant loop keeps every entry's kind, only grows the tables, and reports a write only when one consumed a pending value |
| EcrNode.InactiveVariantsApart | src/widgets/ecr_tree/node.rs:162-173 | an inactive variant gets a live leaf entry of its own under its variant index, and the entries of the enum's other variant indices are untouched |
| EcrNode.EnumStepSound | src/widgets/ecr_tree/node.rs:123-175 | one variant keeps every entry's kind, only grows the tables, and reports a write only when it consumed a pending value |
| EcrNode.FetchNodeSound | src/widgets/ecr_tree/node.rs:204-232 | fetching a node entry keeps the tables consistent and pends nothing |
| EcrNode.VisitNodeEntry | src/widgets/ecr_tree/node.rs:180-242 | a node without a specialised widget gets a node entry, alive, that keeps its widget; a new one spawns its labelled widget; a collapsed one only marks it alive |
| EcrNode.LeafQuiet | src/widgets/ecr_tree/leaf.rs:64-85 | with nothing pending a leaf visit writes nothing |
| EcrNode.VisitNodeQuiet | src/widgets/ecr_tree/node.rs:180-242 | with nothing pending a node visit writes nothing and keeps the value |
| EcrNode.DispatchQuiet | src/widgets/ecr_tree/node.rs:24-178 | with nothing pending dispatching writes nothing and keeps the value |
| EcrNode.FieldsFromQuiet | src/widgets/ecr_tree/node.rs:33-106 | with nothing pending the field loop keeps every child |
| EcrNode.EnumFromQuiet | src/widgets/ecr_tree/node.rs:121-176 | with nothing pending the variant loop keeps the value |
| EcrNode.EnumStepQuiet | src/widgets/ecr_tree/node.rs:123-175 | with nothing pending one variant keeps the value and the tables stay consistent |
| EcrNode.VisitReflectNode | src/widgets/ecr_tree/node.rs:180-242 | the state, commands, write flag and value are the node visit's |
| EcrNode.DispatchReflect | src/widgets/ecr_tree/node.rs:24-178 | the state, commands, write flag and value are the dispatch's |
| EcrNode.DispatchFields | src/widgets/ecr_tree/node.rs:33-106 | the field loops do as the field fold says |
| EcrNode.DispatchEnum | src/widgets/ecr_tree/node.rs:121-176 | the variant loop does as the variant fold says |
| EcrNode.VisitVariant | src/widgets/ecr_tree/node.rs:123-175 | one variant does the fold's step |
| EcrNode.ChildLabelParts | src/widgets/ecr_tree/node.rs:33-106 | a child's label is the struct field's name or the serialisable map key followed by `": "`, a list index in brackets followed by a colon, and every other label ends with `": "` |
| EcrNode.ChildLabelsDistinct | src/widgets/ecr_tree/node.rs:47-85 | the children of a tuple, tuple struct or list get pairwise distinct labels |
| EcrNode.NodeLabel | src/widgets/ecr_tree/node.rs:214-219 | a node's label starts with its name, then the registered type's short name, or the type's full name marked `(unregistered)` |
| EcrNode.VariantLabel | src/widgets/ecr_tree/node.rs:140-154 | the active variant's label starts with the variant name; a newtype variant adds `(`, a tuple variant its payload's type name, a struct variant a space before it |
| EcrNode.NodeSyncOne | src/widgets/ecr_tree/node.rs:337-353 | the sync step adds or removes no inspector and no key |
| EcrNode.NodeSyncFrom | src/widgets/ecr_tree/node.rs:337-353 | the sync loop adds or removes no inspector and no key |
| EcrNode.NodeSyncStep | src/widgets/ecr_tree/node.rs:338-352 | one access does the sync step, and nothing else of the states changes |
| EcrNode.ExpandIcon.constructor | src/widgets/ecr_tree/node.rs:249-329 | a new icon points down |
| EcrNode.SyncNodes | src/widgets/ecr_tree/node.rs:337-353 | the node entries are those of the sync fold |
| EcrNode.UpdateIcons | src/widgets/ecr_tree/node.rs:355-368 | each icon shows the chevron of its node's expansion |
| EcrNode.UpdateNodeSystem | src/widgets/ecr_tree/node.rs:331-369 | node entries follow their widgets' children containers, and the icons show expansion |
| EcrNode.NodeSyncFromFacts | src/widgets/ecr_tree/node.rs:337-353 | the sync keeps widgets, kinds and leaves; a synced node records its widget's container; an entry no access names is unchanged |
| EcrNode.IconMatchesEntry | src/widgets/ecr_tree/node.rs:331-369 | an icon points up exactly when its node entry records a children container |
| Ecr.MarkedLabelsClose | src/widgets/ecr_tree/ecr.rs:253-260 | the resource labels close their parenthesis; the component label as written does not |
| Ecr.VisitComponent | src/widgets/ecr_tree/ecr.rs:237-315 | a component visit keeps the world's shape and the resources |
| Ecr.ComponentsFrom | src/widgets/ecr_tree/ecr.rs:220-231 | the component loop keeps the world's shape and the resources |
| Ecr.FindType | src/widgets/ecr_tree/ecr.rs:66-71 | the first component of the type, or none of the entity's components has it |
| Ecr.MarkDead | src/widgets/ecr_tree/ecr.rs:29-32 | every flag is set to dead and no key is added |
| Ecr.SweptEntries | src/widgets/ecr_tree/ecr.rs:94-106 | exactly the entries not flagged dead remain, unchanged |
| Ecr.SweptAlive | src/widgets/ecr_tree/ecr.rs:94-106 | exactly the live flags remain |
| Ecr.MarkAllDead | src/widgets/ecr_tree/ecr.rs:29-32 | the flags are all dead and nothing else changes |
| Ecr.SweepOne | src/widgets/ecr_tree/ecr.rs:97-106 | a dead key loses its entry and flag and its widget is despawned; a live key is kept |
| Ecr.SweepFromStep | src/widgets/ecr_tree/ecr.rs:94-106 | the sweep of one key more removes that key if dead |
| Ecr.Sweep | src/widgets/ecr_tree/ecr.rs:94-106 | the sweep leaves the swept tables and despawns exactly the dead entries' widgets |
| Ecr.VisitComponentIn | src/widgets/ecr_tree/ecr.rs:237-315 | the state, commands and world are the component visit's |
| Ecr.VisitComponentsIn | src/widgets/ecr_tree/ecr.rs:220-231 | the component loop is the component fold |
| Ecr.VisitEntityIn | src/widgets/ecr_tree/ecr.rs:187-235 | the entity visit succeeds exactly when its function does, with the same result |
| Ecr.VisitResourceIn | src/widgets/ecr_tree/ecr.rs:117-185 | the resource visit succeeds exactly when its function does, with the same result |
| Ecr.VisitRootIn | src/widgets/ecr_tree/ecr.rs:39-90 | one root key is visited as its function says, panicking on reflect keys |
| Ecr.VisitRootsIn | src/widgets/ecr_tree/ecr.rs:37-92 | the root loop is the root fold, and panics as it does |
| Ecr.UpdateState | src/widgets/ecr_tree/ecr.rs:25-110 | one inspector is marked dead, visited and swept: its tables, commands, world and resources are the pass's |
| Ecr.GrowsKeepsMarked | src/widgets/ecr_tree/ecr.rs:37-92 | a key marked alive with a node entry stays so under later visits |
| Ecr.DispatchAfterFetch | src/widgets/ecr_tree/ecr.rs:153-183 | dispatching a fetched root keeps its node entry alive and the tables consistent |
| Ecr.VisitComponentGrows | src/widgets/ecr_tree/ecr.rs:237-315 | a component visit keeps the tables consistent |
| Ecr.VisitComponentEntry | src/widgets/ecr_tree/ecr.rs:237-315 | a component visit marks its node entry alive and keeps its widget; a new one spawns its labelled widget; a collapsed one only marks it alive |
| Ecr.ComponentsFromFacts | src/widgets/ecr_tree/ecr.rs:220-231 | the component loop keeps the tables consistent |
| Ecr.VisitEntityEntry | src/widgets/ecr_tree/ecr.rs:187-235 | an entity visit marks its node entry alive and keeps its widget; a new one spawns its label node; a collapsed one only marks it alive |
| Ecr.VisitResourceEntry | src/widgets/ecr_tree/ecr.rs:117-185 | a resource visit marks its node entry alive and keeps its widget; a new one spawns its labelled widget |
| Ecr.VisitRootEntry | src/widgets/ecr_tree/ecr.rs:37-92 | a root visit that succeeds leaves its key alive with a node entry |
| Ecr.RootsFromFacts | src/widgets/ecr_tree/ecr.rs:37-92 | after the root loop every root key is alive with a node entry |
| Ecr.ReflectRootPanics | src/widgets/ecr_tree/ecr.rs:84-89 | a reflect node or leaf among the root keys makes the pass panic |
| Ecr.PassOutcome | src/widgets/ecr_tree/ecr.rs:18-115 | after a pass every root key has a node entry, the kinds stay consistent, and every entry dropped had its widget despawned |
| Ecr.NewStateConsistent | src/widgets/ecr_tree/mod.rs:81-95 | a new state is consistent |
| Ecr.PassSettles | src/widgets/ecr_tree/ecr.rs:18-115 | a pass over a consistent state leaves it settled: every flag alive and every root key a node entry |
| Ecr.InspectorPassSettles | src/widgets/ecr_tree/ecr.rs:25-110 | one inspector's pass, when it does not panic, leaves consistent tables settled for the same root keys, with the same spawners, and forgets nothing despawned |
| Ecr.UpdateOne | src/widgets/ecr_tree/ecr.rs:25-110 | the commands, world, resources and the inspector's entries, liveness flags and root keys are those `InspectorPass` leaves, and the call panics exactly when that pass does; a consistent inspector is settled afterwards, with the same root keys |
| Ecr.SystemFromDone | src/widgets/ecr_tree/ecr.rs:18-115 | when no pass panics, the inspector loop yields one inspector per state, after the ones it started with |
| Ecr.SystemFromSettles | src/widgets/ecr_tree/ecr.rs:18-115 | when no pass panics, each inspector whose tables were consistent is settled for its own root keys afterwards, with the same spawners |
| Ecr.UpdateStep | src/widgets/ecr_tree/ecr.rs:25-110 | one inspector's pass is the inspector loop's next step, panics included, and the other inspectors are untouched |
| Ecr.UpdateSystem | src/widgets/ecr_tree/ecr.rs:18-115 | the commands, world, resources and every inspector are what the inspector loop leaves when the shared commands, world and resources are threaded through the passes in query order, and the system panics exactly when that loop does; afterwards every inspector is settled with the same root keys |
| Ecr.JoinLength | src/widgets/ecr_tree/ecr.rs:336-345 | the joined labels are as long as the labels plus one separator between each pair |
| Ecr.JoinConcat | src/widgets/ecr_tree/ecr.rs:336-345 | joining two lists is joining each with one separator between |
| Ecr.LabelText | src/widgets/ecr_tree/ecr.rs:327-346 | a label starts with the entity's Debug text; with labels it ends in `]`; with only a name it ends with the name; with neither it is the Debug text |
| Ecr.BuildLabel | src/widgets/ecr_tree/ecr.rs:329-346 | the push loop builds exactly the label text |
| Ecr.LabelWidget.constructor | src/widgets/ecr_tree/ecr.rs:202 | a new label widget names its target and shows nothing yet |
| Ecr.UpdateEntityLabels | src/widgets/ecr_tree/ecr.rs:321-348 | no panic exactly when every label to recompute has a target; then those labels show their target's text and the others are unchanged |

## Left out

- Memory addresses: a reflected value is identified by its root key and field path, where the code uses its address.
- The type registry, `ron`, the reflect serialiser and deserialiser, `reflect_partial_eq` and `Debug` of an entity are foreign. They are uninterpreted functions of `EcrTree.Env`.
- EcrLeaf.UnfocusedOne: the `ron` deserializer is created with `from_str(...).unwrap()` (src/widgets/ecr_tree/leaf.rs:263-264). The model folds that step into `env.deserialize`, so a failure there takes the warn branch (lines 270-272) instead of panicking. `from_str` only reads the text's extension header, and the wrapped text starts with the serializer's own output.
- EcrNode.ChildLabel: `s.name_at(i).unwrap()` (src/widgets/ecr_tree/node.rs:35) becomes the empty name when a struct has fewer names than fields. A reflected struct has a name for every field, so the panic is not modelled.
- EcrLeaf.BoolValue: the `bool` downcast is modelled as `AsBool` (false for any other value); a failed downcast's panic is not modelled.
- `Reflect::set` is total in the model; its type-mismatch panic is not modelled.
- EcrNode.DispatchEnum: the active variant's payload is visited only while the enum value is unchanged in this pass, so that termination is structural. A widget-written enum is not re-entered in the same pass.
- RadioButton.InteractSystem: after a panic (`ok == false`) the selections and materials written before it are not stated, because the real system aborts.
- TreeNodeWidget.InteractButtonSystem: the `unwrap` on the button's parent widget (src/widgets/tree_node.rs:159, and src/tree_node.rs:135 for `LegacyTreeNode.InteractButton`) is a precondition: button `k` belongs to widget `k`.
- The `EntryAccess` component inserted on a spawned leaf widget is not stored; the synchronising systems take the accesses as input.
- Children containers of node widgets are a map from widget to container, given as input to the node systems.
- Ecr.UpdateState: after a panic (`ok == false`) the model states nothing about the partial state, because the real system aborts.
- The `extra` feature gate on resource types is not modelled; every registered resource is visited.
- The `enum` feature gate (src/widgets/ecr_tree/node.rs:120) is taken as enabled: `EcrNode.Dispatch` always visits an enum's variants. With the feature off, the code has no arm for enums.
- EcrLeaf.LeafKey: the key includes the variant index, as `Key::ReflectLeaf` in src/widgets/ecr_tree/mod.rs:34-39 and the callers in node.rs (109-118, 128-137, 163-172, 191-200) have it. The leaf.rs copy (lines 30-33) builds the key without it; under that version all inactive variants of an enum would share one leaf entry.
- Ecr.VisitComponent: a registered component type without `ReflectComponent` is spawned with the corrected label `Ecr.ComponentLabel` (closed with `)`), not the unclosed label src/widgets/ecr_tree/ecr.rs:257 writes; see "Findings".
- Ecr.VisitComponentIn: spawns the corrected component label, as `Ecr.VisitComponent` does.
- Ecr.VisitComponentEntry: its new-entry clause names the corrected component label, as `Ecr.VisitComponent` does.
- `Commands::apply` and `set_current_entity` are not modelled; spawned and despawned entities are recorded in `Ui.Commands`.
- Layout, styles other than colours and icons, and the `build_fn` callbacks of the spawners are left out. They do not affect the inspector's state.
- `spawn_widget_node` (node.rs:249-329) is abstracted to one spawned node with its label. The children container appears only through the expand system.
- Mouse hit-testing against glyph positions is an input: the clicked byte offset, assumed to be a character boundary as glyph offsets are.
- Event readers, windows and queries are inputs: sequences in query order, interaction lists and the primary window id.
- InputBox.InteractMouseSystem: the text lookup `query_cursor.get_mut(widget.text).unwrap()` (src/widgets/input_box.rs:242) is a precondition: `boxes[k]` is the cursor of widget `k`, so the lookup never fails.
- InputBox.InteractKeyboardSystem: `windows.get_primary().unwrap()` (src/widgets/input_box.rs:312) is an input, the primary window id. With no primary window the source panics when a focused box reads a character event; the model does not.
- EditBoxWidget.InteractKeyboard: `windows.get_primary().unwrap()` (src/edit_box.rs:181) is an input in the same way, and the missing-window panic is not modelled either.
- Ecr.UpdateSystem: after a panic (`ok == false`) the model states nothing about the partial state, as for `Ecr.UpdateState`. `Ecr.UpdateOne` and `Ecr.UpdateStep` do the same.
- src/resource.rs and src/entity.rs, which set root keys, are not part of this model. Root keys are an input of `Ecr.UpdateSystem`.
- src/debug_menu.rs, src/diagnostic.rs and src/scene.rs are not part of this model.
- A text component's `sections[0]` is modelled as the one text the widget edits.
- `ComponentFlags` and the unsafe world borrows are reduced to a `mutated` set of `(entity, type)` pairs.
- Ecr.UpdateEntityLabels: when it panics (`ok == false`), the labels updated before the orphaned one are not stated.

## Findings

| source | as written | input that shows it | evidently intended | confidence | as-written member | corrected member |
|---|---|---|---|---|---|---|
| src/widgets/ecr_tree/ecr.rs:257 | the label of a registered component without `ReflectComponent` is `"<name> (not a ReflectComponent"`, with no closing parenthesis | any component whose type is registered without `ReflectComponent` | `"<name> (not a ReflectComponent)"`, closed like the resource labels | not executed | Ecr.ComponentLabelAsWritten | Ecr.ComponentLabel |

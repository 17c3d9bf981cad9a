/**
 * The older edit box widget of edit_box.rs: an `EditBox` component that
 * edits, in place, the `String` of the `Text` component on the same entity.
 * It differs from the input box in three ways: its cursor character is `'|'`,
 * focusing puts the cursor at the end of the text, and its keyboard system
 * flags the event of a box unfocused by Return (not Escape) as cancelled.
 * Clicking a focused box does nothing.
 */
module EditBoxWidget {
  import opened Base
  import opened Utf8
  import opened Ui
  import opened TextBuffer

  /** `EditBox::default().cursor_char`, also written literally by the move operations. */
  const BarChar: char := '|'

  /** An `EditBox` together with the `String` it edits. */
  class EditBox {
    var cursorPos: Option<nat>
    const cursorChar: char
    var value: Text
    ghost var shown: Text

    /** The text the user sees and the cursor's position in it. */
    ghost function Model(): Edit
      reads this
    {
      Edit(shown, cursorPos)
    }

    /** The string is the shown text with `'|'` at the cursor, if editing. */
    ghost predicate Valid()
      reads this
    {
      WellFormed(Model()) && value == Raw(Model(), cursorChar) && cursorChar == BarChar
    }

    /** `EditBox::default()` on an entity whose text is `text`. */
    constructor (text: Text)
      requires StartsOnChar(text)
      ensures Valid() && Model() == Edit(text, None) && value == text
    {
      cursorPos := None;
      cursorChar := BarChar;
      value := text;
      shown := text;
    }

    /** `focus`: push the cursor character at the end of the string. */
    method Focus()
      requires Valid()
      modifies this
      ensures Valid() && Model() == TextBuffer.Focus(old(Model()), |old(shown)|)
      ensures old(cursorPos).None? ==> value == old(value) + Encode(cursorChar) && cursorPos == Some(|old(value)|)
    {
      if cursorPos.Some? {
        return;  // "already focused" warning
      }
      var cursor := |value|;
      assert shown[..cursor] == shown && shown[cursor..] == [];
      value := value + Encode(cursorChar);
      cursorPos := Some(cursor);
    }

    /** `unfocus`: remove the cursor character; the string is the shown text again. */
    method Unfocus()
      requires Valid()
      modifies this
      ensures Valid() && Model() == TextBuffer.Unfocus(old(Model()))
      ensures value == old(shown)
    {
      match cursorPos
      case None =>  // "already unfocused" warning
      case Some(cursor) =>
        UnfocusCursored(shown, cursor, cursorChar);
        cursorPos := None;
        value := RemoveChar(value, cursor);
    }

    /** `move_cursor_left`: replace the character before the cursor and the cursor by `'|'` and that character. */
    method MoveCursorLeft()
      requires Valid()
      modifies this
      ensures Valid() && Model() == MoveLeft(old(Model()))
    {
      if cursorPos.Some? {
        var cursor := cursorPos.value;
        if cursor == 0 {
          return;
        }
        SwapLeftCursored(shown, cursor, cursorChar);
        var start := PrevCharStart(value, cursor);
        var previousChar := value[start..cursor];
        var newText := Encode(BarChar) + previousChar;
        Associative(value[..start], Encode(cursorChar), previousChar);
        value := value[..start] + newText + value[cursor + LenUtf8(cursorChar)..];
        cursorPos := Some(start);
      }
    }

    /** `move_cursor_right`: replace the cursor and the character after it by that character and `'|'`. */
    method MoveCursorRight()
      requires Valid()
      modifies this
      ensures Valid() && Model() == MoveRight(old(Model()))
    {
      if cursorPos.Some? {
        var cursor := cursorPos.value;
        var cursorSize := LenUtf8(cursorChar);
        if cursor + cursorSize >= |value| {
          return;
        }
        SwapRightCursored(shown, cursor, cursorChar);
        ghost var next := NextBoundary(shown, cursor);
        var end := NextCharEnd(value, cursor + cursorSize);
        assert end == next + cursorSize;
        var nextChar := value[cursor + cursorSize..end];
        var newText := nextChar + Encode(BarChar);
        Associative(value[..cursor], nextChar, Encode(cursorChar));
        ghost var swapped := SwapRight(value, cursor, end, cursorChar);
        assert value[..cursor] + newText + value[end..] == swapped;
        value := value[..cursor] + newText + value[end..];
        cursorPos := Some(end - cursorSize);
        assert value == Cursored(shown, next, cursorChar);
      }
    }

    /** `insert_character`: insert before the cursor character and advance the cursor past the new character. */
    method InsertCharacter(character: char)
      requires Valid()
      modifies this
      ensures Valid() && Model() == Insert(old(Model()), character)
    {
      if cursorPos.Some? {
        var cursor := cursorPos.value;
        InsertCursored(shown, cursor, cursorChar, character);
        value := InsertChar(value, cursor, character);
        cursorPos := Some(cursor + LenUtf8(character));
        shown := InsertChar(shown, cursor, character);
      }
    }

    /** `remove_character_before`: remove the character that ends at the cursor. */
    method RemoveCharacterBefore()
      requires Valid()
      modifies this
      ensures Valid() && Model() == RemoveBefore(old(Model()))
    {
      if cursorPos.Some? {
        var cursor := cursorPos.value;
        if cursor == 0 {
          return;
        }
        RemoveBeforeCursored(shown, cursor, cursorChar);
        var start := PrevCharStart(value, cursor);
        value := RemoveChar(value, start);
        cursorPos := Some(start);
        shown := RemoveChar(shown, start);
      }
    }

    /** `remove_character_after`: remove the character that follows the cursor character; the cursor stays. */
    method RemoveCharacterAfter()
      requires Valid()
      modifies this
      ensures Valid() && Model() == RemoveAfter(old(Model()))
      ensures cursorPos == old(cursorPos)
    {
      if cursorPos.Some? {
        var cursor := cursorPos.value;
        var cursorSize := LenUtf8(cursorChar);
        if cursor + cursorSize >= |value| {
          return;
        }
        RemoveAfterCursored(shown, cursor, cursorChar);
        value := RemoveChar(value, cursor + cursorSize);
        shown := RemoveChar(shown, cursor);
        cursorPos := Some(cursor);
      }
    }

    /** `is_editing`. */
    predicate IsEditing()
      reads this
      ensures IsEditing() <==> Model().cursor.Some?
    {
      cursorPos.Some?
    }
  }

  /** The models of a sequence of boxes. */
  ghost function Models(boxes: seq<EditBox>): (r: seq<Edit>)
    reads boxes
    ensures |r| == |boxes| && forall k :: 0 <= k < |boxes| ==> r[k] == boxes[k].Model()
  {
    seq(|boxes|, k reads boxes requires 0 <= k < |boxes| => boxes[k].Model())
  }

  /** Every box is valid. */
  ghost predicate AllValid(boxes: seq<EditBox>)
    reads boxes
  {
    forall k :: 0 <= k < |boxes| ==> boxes[k].Valid()
  }

  /**
   * The character loop of `interact_keyboard` for one box: every pending
   * character typed in the primary window that is not a control character is
   * inserted; reading the events consumes them.
   */
  method InsertTyped(box: EditBox, unread: seq<ReceivedCharacter>, primary: nat)
    requires box.Valid()
    modifies box
    ensures box.Valid() && box.Model() == Typing(old(box.Model()), TypedChars(unread, primary))
  {
    ghost var start := box.Model();
    var j := 0;
    while j < |unread|
      invariant 0 <= j <= |unread|
      invariant box.Valid() && box.Model() == Typing(start, TypedChars(unread[..j], primary))
    {
      var character := unread[j];
      TypingNext(start, unread, j, primary);
      if character.windowId == primary && !IsControl(character.ch) {
        box.InsertCharacter(character.ch);
      }
      j := j + 1;
    }
    assert unread[..|unread|] == unread;
  }

  /**
   * The body of `interact_keyboard` for box `i` of the query, on entity
   * `entity`: the box does what `AfterKeys` describes, with Return as the
   * key whose event says `canceled: true`; the other boxes are untouched.
   */
  method KeyboardStep(boxes: seq<EditBox>, i: nat, entity: Entity, keys: set<KeyCode>, primary: nat,
                      ghost acc: KeyboardResult, sent: seq<UnfocusedEvent>, unread: seq<ReceivedCharacter>)
      returns (sentAfter: seq<UnfocusedEvent>, unreadAfter: seq<ReceivedCharacter>)
    requires i < |boxes| && AllValid(boxes) && Distinct(boxes)
    requires Models(boxes)[..i] == acc.edits && sent == acc.sent && unread == acc.unread
    modifies boxes[i]
    ensures AllValid(boxes)
    ensures var r := KeyStep(acc, entity, old(boxes[i].Model()), keys, primary, Return);
      && Models(boxes) == r.edits + old(Models(boxes))[i + 1..]
      && sentAfter == r.sent && unreadAfter == r.unread
  {
    var box := boxes[i];
    assert box.Valid();
    sentAfter, unreadAfter := sent, unread;
    if box.cursorPos.Some? {
      if Return in keys {
        box.Unfocus();
        sentAfter := sent + [UnfocusedEvent(entity, box.value, true)];
      } else {
        if Escape in keys {
          box.Unfocus();
          sentAfter := sent + [UnfocusedEvent(entity, box.value, false)];
        } else if Left in keys {
          box.MoveCursorLeft();
        } else if Right in keys {
          box.MoveCursorRight();
        } else if Back in keys {
          box.RemoveCharacterBefore();
        } else if Delete in keys {
          box.RemoveCharacterAfter();
        }
        InsertTyped(box, unread, primary);
        unreadAfter := [];
      }
    }
    forall k | 0 <= k < |boxes| && k != i
      ensures boxes[k].Valid() && boxes[k].Model() == old(boxes[k].Model())
    {
      assert boxes[k] != box;
    }
    ReplaceNext(acc.edits, old(Models(boxes)), i, box.Model());
  }

  /**
   * `interact_keyboard`: the boxes in query order, `entities[k]` the entity
   * of box `k`. The outcome is the keyboard pass folded from the first box
   * (`KeyboardFromPass` equates it with `KeyboardPass`), with Return as the
   * cancelling key.
   */
  method InteractKeyboard(boxes: seq<EditBox>, entities: seq<Entity>, keys: set<KeyCode>,
                          events: seq<ReceivedCharacter>, primary: nat)
      returns (sent: seq<UnfocusedEvent>, unread: seq<ReceivedCharacter>)
    requires |entities| == |boxes| && AllValid(boxes) && Distinct(boxes)
    modifies set k | 0 <= k < |boxes| :: boxes[k]
    ensures AllValid(boxes)
    ensures var r := KeyboardFrom(entities, old(Models(boxes)), 0, KeyboardResult([], [], events), keys, primary, Return);
      Models(boxes) == r.edits && sent == r.sent && unread == r.unread
  {
    ghost var es := Models(boxes);
    forall k | 0 <= k < |boxes| ensures WellFormed(es[k]) {
      assert boxes[k].Valid();
    }
    ghost var final := KeyboardFrom(entities, es, 0, KeyboardResult([], [], events), keys, primary, Return);
    sent, unread := [], events;
    ghost var done := KeyboardResult([], [], events);
    var i := 0;
    while i < |boxes|
      invariant 0 <= i <= |boxes| && AllValid(boxes)
      invariant |done.edits| == i && KeyboardFrom(entities, es, i, done, keys, primary, Return) == final
      invariant Models(boxes)[..i] == done.edits && Models(boxes)[i..] == es[i..]
      invariant sent == done.sent && unread == done.unread
    {
      assert boxes[i].Model() == es[i];
      sent, unread := KeyboardStep(boxes, i, entities[i], keys, primary, done, sent, unread);
      done := KeyStep(done, entities[i], es[i], keys, primary, Return);
      i := i + 1;
    }
  }

  /** A `FocusedEvent`: the edit box entity that was clicked into focus. */
  datatype FocusedEvent = FocusedEvent(entity: Entity)

  /** The result of a mouse pass: the boxes' new states and the `FocusedEvent`s sent. */
  datatype ClickResult = ClickResult(edits: seq<Edit>, sent: seq<FocusedEvent>)

  /** A mouse pass handles one more box, `entity`, in the state `e`. */
  function ClickOne(acc: ClickResult, entity: Entity, e: Edit, interaction: Interaction): (r: ClickResult)
  {
    if interaction == Clicked && e.cursor.None? then
      ClickResult(acc.edits + [Edit(e.shown, Some(|e.shown|))], acc.sent + [FocusedEvent(entity)])
    else
      ClickResult(acc.edits + [e], acc.sent)
  }

  /**
   * `interact_mouse` over the boxes whose interaction changed: a click on a
   * box that is not being edited puts the cursor at the end of its text and
   * sends a `FocusedEvent`; any other box is left as it is.
   */
  function ClickPass(entities: seq<Entity>, es: seq<Edit>, interactions: seq<Interaction>): (r: ClickResult)
    requires |entities| == |es| == |interactions|
    ensures |r.edits| == |es| && |r.sent| <= |es|
    ensures forall k :: 0 <= k < |es| ==>
      r.edits[k] == if interactions[k] == Clicked && es[k].cursor.None? then Edit(es[k].shown, Some(|es[k].shown|)) else es[k]
  {
    if es == [] then ClickResult([], [])
    else
      var n := |es| - 1;
      ClickOne(ClickPass(entities[..n], es[..n], interactions[..n]), entities[n], es[n], interactions[n])
  }

  /** One more box adds its `FocusedEvent`, if it was clicked while not being edited, to the events of the boxes before it. */
  lemma ClickPassSentStep(entities: seq<Entity>, es: seq<Edit>, interactions: seq<Interaction>, m: nat)
    requires m < |entities| == |es| == |interactions|
    ensures ClickPass(entities[..m + 1], es[..m + 1], interactions[..m + 1]).sent
      == ClickPass(entities[..m], es[..m], interactions[..m]).sent
         + (if interactions[m] == Clicked && es[m].cursor.None? then [FocusedEvent(entities[m])] else [])
  {
    var n := m + 1;
    assert entities[..n][..m] == entities[..m] && es[..n][..m] == es[..m] && interactions[..n][..m] == interactions[..m];
  }

  /** A `FocusedEvent` names a box exactly when that box was clicked while not being edited. */
  lemma {:induction false} ClickPassSent(entities: seq<Entity>, es: seq<Edit>, interactions: seq<Interaction>, x: Entity, n: nat)
    requires n <= |entities| == |es| == |interactions|
    ensures FocusedEvent(x) in ClickPass(entities[..n], es[..n], interactions[..n]).sent
      <==> ClickedIdle(entities, es, interactions, x, n)
  {
    if n > 0 {
      var m := n - 1;
      ClickPassSent(entities, es, interactions, x, m);
      ClickPassSentStep(entities, es, interactions, m);
      ClickedIdleStep(entities, es, interactions, x, m);
    }
  }

  /** The rest of a mouse pass, from box `i` on, after `acc` was reached: the order the system visits them. */
  function ClickFrom(entities: seq<Entity>, es: seq<Edit>, interactions: seq<Interaction>, i: nat, acc: ClickResult): (r: ClickResult)
    requires |entities| == |es| == |interactions| && i <= |es|
    decreases |es| - i
  {
    if i == |es| then acc
    else ClickFrom(entities, es, interactions, i + 1, ClickOne(acc, entities[i], es[i], interactions[i]))
  }

  /** Continuing a mouse pass over the first `i` boxes with the rest gives the pass over all of them. */
  lemma {:induction false} ClickFromPass(entities: seq<Entity>, es: seq<Edit>, interactions: seq<Interaction>, i: nat)
    requires |entities| == |es| == |interactions| && i <= |es|
    ensures ClickFrom(entities, es, interactions, i, ClickPass(entities[..i], es[..i], interactions[..i]))
      == ClickPass(entities, es, interactions)
    decreases |es| - i
  {
    if i == |es| {
      assert entities[..i] == entities && es[..i] == es && interactions[..i] == interactions;
    } else {
      assert entities[..i + 1][..i] == entities[..i] && es[..i + 1][..i] == es[..i];
      assert interactions[..i + 1][..i] == interactions[..i];
      ClickFromPass(entities, es, interactions, i + 1);
    }
  }

  /**
   * The body of `interact_mouse` for box `i` of the query: the box does what
   * `ClickOne` describes, the other boxes are untouched.
   */
  method ClickStep(boxes: seq<EditBox>, i: nat, entity: Entity, interaction: Interaction,
                   ghost es: seq<Edit>, ghost acc: ClickResult, sent: seq<FocusedEvent>) returns (sentAfter: seq<FocusedEvent>)
    requires i < |boxes| == |es| && AllValid(boxes) && Distinct(boxes)
    requires Models(boxes) == acc.edits + es[i..] && |acc.edits| == i && sent == acc.sent
    modifies boxes[i]
    ensures AllValid(boxes)
    ensures var r := ClickOne(acc, entity, es[i], interaction);
      Models(boxes) == r.edits + es[i + 1..] && sentAfter == r.sent
  {
    var box := boxes[i];
    assert box.Valid() && box.Model() == es[i];
    sentAfter := sent;
    if interaction == Clicked {
      if box.cursorPos.None? {
        box.Focus();
        sentAfter := sent + [FocusedEvent(entity)];
      }
    }
    forall k | 0 <= k < |boxes| && k != i
      ensures boxes[k].Valid() && boxes[k].Model() == old(boxes[k].Model())
    {
      assert boxes[k] != box;
    }
    ReplaceFirst(acc.edits, es[i..], box.Model());
    assert es[i..][1..] == es[i + 1..];
  }

  /**
   * `interact_mouse`: the boxes whose interaction changed, in query order,
   * `entities[k]` the entity of box `k`. The outcome is the mouse pass folded
   * from the first box (`ClickFromPass` equates it with `ClickPass`).
   */
  method InteractMouse(boxes: seq<EditBox>, entities: seq<Entity>, interactions: seq<Interaction>)
      returns (sent: seq<FocusedEvent>)
    requires |entities| == |boxes| == |interactions| && AllValid(boxes) && Distinct(boxes)
    modifies set k | 0 <= k < |boxes| :: boxes[k]
    ensures AllValid(boxes)
    ensures var r := ClickFrom(entities, old(Models(boxes)), interactions, 0, ClickResult([], []));
      Models(boxes) == r.edits && sent == r.sent
  {
    sent := [];
    ghost var es := Models(boxes);
    ghost var final := ClickFrom(entities, es, interactions, 0, ClickResult([], []));
    ghost var done := ClickResult([], []);
    var i := 0;
    while i < |boxes|
      invariant 0 <= i <= |boxes| && AllValid(boxes)
      invariant |done.edits| == i && ClickFrom(entities, es, interactions, i, done) == final
      invariant Models(boxes) == done.edits + es[i..] && sent == done.sent
    {
      sent := ClickStep(boxes, i, entities[i], interactions[i], es, done, sent);
      done := ClickOne(done, entities[i], es[i], interactions[i]);
      i := i + 1;
    }
  }
}

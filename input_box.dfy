/**
 * The input box widget: a `Cursor` component that edits, in place, the
 * `String` of the `Text` component on the same entity, and the two systems
 * that drive it (mouse clicks and the keyboard). The string is kept here as
 * the field `value` of the class; the text the user sees and the cursor
 * offset in it are the ghost state `Model()`, and every method promises the
 * `TextBuffer` operation on it.
 */
module InputBox {
  import opened Base
  import opened Utf8
  import opened Ui
  import opened TextBuffer

  /** `Cursor::default().cursor_char`: U+1D100, MUSICAL SYMBOL SINGLE BARLINE (four bytes in UTF-8). */
  const CursorChar: char := '\U{1D100}'

  /** A `Cursor` together with the `String` it edits. */
  class Cursor {
    var cursorPos: Option<nat>
    const cursorChar: char
    var value: Text
    ghost var shown: Text

    /** The text the user sees and the cursor's position in it. */
    ghost function Model(): Edit
      reads this
    {
      Edit(shown, cursorPos)
    }

    /** The string is the shown text with the cursor character at the cursor, if focused. */
    ghost predicate Valid()
      reads this
    {
      WellFormed(Model()) && value == Raw(Model(), cursorChar)
    }

    /** `Cursor::default()` on the empty `String` a new input box starts with. */
    constructor ()
      ensures Valid() && Model() == Edit([], None) && cursorChar == CursorChar && value == []
    {
      cursorPos := None;
      cursorChar := CursorChar;
      value := [];
      shown := [];
    }

    /** `focus`: insert the cursor character at byte `cursor` (Rust panics unless it is a boundary). */
    method Focus(cursor: nat)
      requires Valid() && (cursorPos.None? ==> IsCharBoundary(value, cursor))
      modifies this
      ensures Valid() && Model() == TextBuffer.Focus(old(Model()), cursor)
      ensures old(cursorPos).None? ==> value == InsertChar(old(value), cursor, cursorChar)
    {
      if cursorPos.Some? {
        return;  // "already focused" warning
      }
      value := InsertChar(value, cursor, cursorChar);
      cursorPos := Some(cursor);
    }

    /** `unfocus`: remove the cursor character; the string is the shown text again. */
    method Unfocus()
      requires Valid()
      modifies this
      ensures Valid() && Model() == TextBuffer.Unfocus(old(Model()))
      ensures value == old(shown)
    {
      match cursorPos
      case None =>  // "already unfocused" warning
      case Some(cursor) =>
        UnfocusCursored(shown, cursor, cursorChar);
        cursorPos := None;
        value := RemoveChar(value, cursor);
    }

    /**
     * `set_pos`: `cursor_pos.unwrap()` panics when unfocused; an offset right
     * of the cursor is shifted back by the cursor's width (a `usize`, so it
     * must not go below zero), and the cursor is moved there by unfocusing and focusing.
     */
    method SetPos(newCursor: nat)
      requires Valid() && cursorPos.Some?
      requires newCursor > cursorPos.value ==> newCursor >= LenUtf8(cursorChar)
      requires IsCharBoundary(shown, SetPosTarget(cursorPos.value, newCursor, cursorChar))
      modifies this
      ensures Valid() && Model() == TextBuffer.SetPos(old(Model()), newCursor, cursorChar)
    {
      var target := newCursor;
      if target > cursorPos.value {
        target := target - LenUtf8(cursorChar);
      }
      Unfocus();
      Focus(target);
    }

    /** `move_cursor_left`: swap the cursor with the character before it, found by the boundary search. */
    method MoveCursorLeft()
      requires Valid()
      modifies this
      ensures Valid() && Model() == MoveLeft(old(Model()))
    {
      if cursorPos.Some? {
        var cursor := cursorPos.value;
        if cursor == 0 {
          return;
        }
        SwapLeftCursored(shown, cursor, cursorChar);
        var start := PrevCharStart(value, cursor);
        var previousChar := value[start..cursor];
        var newText := Encode(cursorChar) + previousChar;
        Associative(value[..start], Encode(cursorChar), previousChar);
        value := value[..start] + newText + value[cursor + LenUtf8(cursorChar)..];
        cursorPos := Some(start);
      }
    }

    /** `move_cursor_right`: swap the cursor with the character after it, found by the boundary search. */
    method MoveCursorRight()
      requires Valid()
      modifies this
      ensures Valid() && Model() == MoveRight(old(Model()))
    {
      if cursorPos.Some? {
        var cursor := cursorPos.value;
        var cursorSize := LenUtf8(cursorChar);
        if cursor + cursorSize >= |value| {
          return;
        }
        var end := NextCharEnd(value, cursor + cursorSize);
        MoveRightRaw(Model(), cursorChar, end);
        var nextChar := value[cursor + cursorSize..end];
        var newText := nextChar + Encode(cursorChar);
        value := value[..cursor] + newText + value[end..];
        cursorPos := Some(end - cursorSize);
      }
    }

    /** `insert_character`: insert before the cursor character and advance the cursor past the new character. */
    method InsertCharacter(character: char)
      requires Valid()
      modifies this
      ensures Valid() && Model() == Insert(old(Model()), character)
    {
      if cursorPos.Some? {
        var cursor := cursorPos.value;
        InsertCursored(shown, cursor, cursorChar, character);
        value := InsertChar(value, cursor, character);
        cursorPos := Some(cursor + LenUtf8(character));
        shown := InsertChar(shown, cursor, character);
      }
    }

    /** `remove_character_before`: remove the character that ends at the cursor. */
    method RemoveCharacterBefore()
      requires Valid()
      modifies this
      ensures Valid() && Model() == RemoveBefore(old(Model()))
    {
      if cursorPos.Some? {
        var cursor := cursorPos.value;
        if cursor == 0 {
          return;
        }
        RemoveBeforeCursored(shown, cursor, cursorChar);
        var start := PrevCharStart(value, cursor);
        value := RemoveChar(value, start);
        cursorPos := Some(start);
        shown := RemoveChar(shown, start);
      }
    }

    /** `remove_character_after`: remove the character that follows the cursor character. */
    method RemoveCharacterAfter()
      requires Valid()
      modifies this
      ensures Valid() && Model() == RemoveAfter(old(Model()))
    {
      if cursorPos.Some? {
        var cursor := cursorPos.value;
        var cursorSize := LenUtf8(cursorChar);
        if cursor + cursorSize >= |value| {
          return;
        }
        RemoveAfterCursored(shown, cursor, cursorChar);
        value := RemoveChar(value, cursor + cursorSize);
        shown := RemoveChar(shown, cursor);
      }
    }

    /** `is_focused`. */
    predicate IsFocused()
      reads this
      ensures IsFocused() <==> Model().cursor.Some?
    {
      cursorPos.Some?
    }
  }

  /** The models of a sequence of boxes. */
  ghost function Models(boxes: seq<Cursor>): (r: seq<Edit>)
    reads boxes
    ensures |r| == |boxes| && forall k :: 0 <= k < |boxes| ==> r[k] == boxes[k].Model()
  {
    seq(|boxes|, k reads boxes requires 0 <= k < |boxes| => boxes[k].Model())
  }

  /** Every box is valid. */
  ghost predicate AllValid(boxes: seq<Cursor>)
    reads boxes
  {
    forall k :: 0 <= k < |boxes| ==> boxes[k].Valid()
  }

  /**
   * The character loop of the keyboard system for one box: every pending
   * character typed in the primary window that is not a control character is
   * inserted; reading the events consumes them.
   */
  method InsertTyped(box: Cursor, unread: seq<ReceivedCharacter>, primary: nat)
    requires box.Valid()
    modifies box
    ensures box.Valid() && box.Model() == Typing(old(box.Model()), TypedChars(unread, primary))
  {
    ghost var start := box.Model();
    var j := 0;
    while j < |unread|
      invariant 0 <= j <= |unread|
      invariant box.Valid() && box.Model() == Typing(start, TypedChars(unread[..j], primary))
    {
      var character := unread[j];
      TypingNext(start, unread, j, primary);
      if character.windowId == primary && !IsControl(character.ch) {
        box.InsertCharacter(character.ch);
      }
      j := j + 1;
    }
    assert unread[..|unread|] == unread;
  }

  /**
   * The body of the keyboard system for box `i` of the query, whose entity's
   * parent is `owner`: the box does what `AfterKeys` describes, the other boxes
   * are untouched, and the step yields the event the box sends and the
   * character events left unread afterwards.
   */
  method KeyboardStep(boxes: seq<Cursor>, i: nat, owner: Entity, keys: set<KeyCode>, primary: nat,
                      ghost acc: KeyboardResult, sent: seq<UnfocusedEvent>, unread: seq<ReceivedCharacter>)
      returns (sentAfter: seq<UnfocusedEvent>, unreadAfter: seq<ReceivedCharacter>)
    requires i < |boxes| && AllValid(boxes) && Distinct(boxes)
    requires Models(boxes)[..i] == acc.edits && sent == acc.sent && unread == acc.unread
    modifies boxes[i]
    ensures AllValid(boxes)
    ensures var r := KeyStep(acc, owner, old(boxes[i].Model()), keys, primary, Escape);
      && Models(boxes) == r.edits + old(Models(boxes))[i + 1..]
      && sentAfter == r.sent && unreadAfter == r.unread
  {
    var box := boxes[i];
    assert box.Valid();
    sentAfter, unreadAfter := sent, unread;
    if box.cursorPos.Some? {
      if Return in keys {
        box.Unfocus();
        sentAfter := sent + [UnfocusedEvent(owner, box.value, false)];
      } else {
        if Escape in keys {
          box.Unfocus();
          sentAfter := sent + [UnfocusedEvent(owner, box.value, true)];
        } else if Left in keys {
          box.MoveCursorLeft();
        } else if Right in keys {
          box.MoveCursorRight();
        } else if Back in keys {
          box.RemoveCharacterBefore();
        } else if Delete in keys {
          box.RemoveCharacterAfter();
        }
        InsertTyped(box, unread, primary);
        unreadAfter := [];
      }
    }
    forall k | 0 <= k < |boxes| && k != i
      ensures boxes[k].Valid() && boxes[k].Model() == old(boxes[k].Model())
    {
      assert boxes[k] != box;
    }
    ReplaceNext(acc.edits, old(Models(boxes)), i, box.Model());
  }

  /**
   * `interact_keyboard_system`: the boxes in query order, `owners[k]` the
   * parent entity of box `k`. Escape marks the event as cancelled.
   */
  method InteractKeyboardSystem(boxes: seq<Cursor>, owners: seq<Entity>, keys: set<KeyCode>,
                                events: seq<ReceivedCharacter>, primary: nat)
      returns (sent: seq<UnfocusedEvent>, unread: seq<ReceivedCharacter>)
    requires |owners| == |boxes| && AllValid(boxes) && Distinct(boxes)
    modifies set k | 0 <= k < |boxes| :: boxes[k]
    ensures AllValid(boxes)
    ensures var r := KeyboardFrom(owners, old(Models(boxes)), 0, KeyboardResult([], [], events), keys, primary, Escape);
      Models(boxes) == r.edits && sent == r.sent && unread == r.unread
  {
    ghost var es := Models(boxes);
    forall k | 0 <= k < |boxes| ensures WellFormed(es[k]) {
      assert boxes[k].Valid();
    }
    ghost var final := KeyboardFrom(owners, es, 0, KeyboardResult([], [], events), keys, primary, Escape);
    sent, unread := [], events;
    ghost var done := KeyboardResult([], [], events);
    var i := 0;
    while i < |boxes|
      invariant 0 <= i <= |boxes| && AllValid(boxes)
      invariant |done.edits| == i && KeyboardFrom(owners, es, i, done, keys, primary, Escape) == final
      invariant Models(boxes)[..i] == done.edits && Models(boxes)[i..] == es[i..]
      invariant sent == done.sent && unread == done.unread
    {
      assert boxes[i].Model() == es[i];
      sent, unread := KeyboardStep(boxes, i, owners[i], keys, primary, done, sent, unread);
      done := KeyStep(done, owners[i], es[i], keys, primary, Escape);
      i := i + 1;
    }
  }

  /** A `FocusedEvent`: the widget entity that was clicked into focus. */
  datatype FocusedEvent = FocusedEvent(entity: Entity)

  /** The offset a click puts the cursor at: the glyph under the pointer, or the end of the string. */
  function ClickOffset(raw: Text, hit: Option<nat>): nat
  {
    match hit
    case None => |raw|
    case Some(i) => i
  }

  /**
   * A click on a box: an unfocused box is focused at the clicked offset `i`,
   * a focused one has its cursor moved there. `i` is a boundary of the string
   * (glyphs start on characters).
   */
  function AfterClick(e: Edit, i: nat): (r: Edit)
    requires WellFormed(e) && IsCharBoundary(Raw(e, CursorChar), i)
    ensures WellFormed(r) && r.shown == e.shown && r.cursor.Some?
  {
    match e.cursor
    case None => TextBuffer.Focus(e, i)
    case Some(p) =>
      SetPosLands(e.shown, p, CursorChar, i);
      TextBuffer.SetPos(e, i, CursorChar)
  }

  /** The result of a mouse pass: the boxes' new states and the `FocusedEvent`s sent. */
  datatype ClickResult = ClickResult(edits: seq<Edit>, sent: seq<FocusedEvent>)

  /** Whether a pointer hit `hit` on a box showing `raw` is at a character boundary, as glyph offsets are. */
  predicate HitOnBoundary(raw: Text, hit: Option<nat>)
  {
    hit.Some? ==> IsCharBoundary(raw, hit.value)
  }

  /** A mouse pass handles one more widget, `entity`, whose box is in the state `e`. */
  function ClickOne(acc: ClickResult, entity: Entity, e: Edit, interaction: Interaction, hit: Option<nat>): (r: ClickResult)
    requires WellFormed(e) && HitOnBoundary(Raw(e, CursorChar), hit)
  {
    if interaction == Clicked then
      ClickResult(acc.edits + [AfterClick(e, ClickOffset(Raw(e, CursorChar), hit))],
                  if e.cursor.None? then acc.sent + [FocusedEvent(entity)] else acc.sent)
    else
      ClickResult(acc.edits + [e], acc.sent)
  }

  /**
   * `interact_mouse_system` over the widgets whose interaction changed:
   * clicked boxes get their cursor at the clicked offset, and those that were
   * not focused send a `FocusedEvent`; hovering does nothing.
   */
  function ClickPass(entities: seq<Entity>, es: seq<Edit>, interactions: seq<Interaction>, hits: seq<Option<nat>>): (r: ClickResult)
    requires |entities| == |es| == |interactions| == |hits|
    requires forall k :: 0 <= k < |es| ==> WellFormed(es[k]) && HitOnBoundary(Raw(es[k], CursorChar), hits[k])
    ensures |r.edits| == |es| && |r.sent| <= |es|
    ensures forall k :: 0 <= k < |es| ==> WellFormed(r.edits[k]) && r.edits[k].shown == es[k].shown
    ensures forall k :: 0 <= k < |es| ==> if interactions[k] == Clicked then r.edits[k].cursor.Some? else r.edits[k] == es[k]
  {
    if es == [] then ClickResult([], [])
    else
      var n := |es| - 1;
      ClickOne(ClickPass(entities[..n], es[..n], interactions[..n], hits[..n]), entities[n], es[n], interactions[n], hits[n])
  }

  /**
   * Where a click puts the cursor: a clicked box is focused at, or has its
   * cursor moved to, the glyph offset under the pointer, or the end of its
   * string when no glyph lies right of the pointer.
   */
  lemma {:induction false} ClickPassCursor(entities: seq<Entity>, es: seq<Edit>, interactions: seq<Interaction>,
                                           hits: seq<Option<nat>>, k: nat)
    requires |entities| == |es| == |interactions| == |hits| && k < |es| && interactions[k] == Clicked
    requires forall j :: 0 <= j < |es| ==> WellFormed(es[j]) && HitOnBoundary(Raw(es[j], CursorChar), hits[j])
    ensures WellFormed(es[k]) && IsCharBoundary(Raw(es[k], CursorChar), ClickOffset(Raw(es[k], CursorChar), hits[k]))
    ensures ClickPass(entities, es, interactions, hits).edits[k]
      == AfterClick(es[k], ClickOffset(Raw(es[k], CursorChar), hits[k]))
    decreases |es|
  {
    var n := |es| - 1;
    assert HitOnBoundary(Raw(es[k], CursorChar), hits[k]);
    if k < n {
      assert es[..n][k] == es[k] && interactions[..n][k] == interactions[k] && hits[..n][k] == hits[k];
      ClickPassCursor(entities[..n], es[..n], interactions[..n], hits[..n], k);
    }
  }

  /** One more widget adds its `FocusedEvent`, if its box was clicked while not focused, to the events of the widgets before it. */
  lemma ClickPassSentStep(entities: seq<Entity>, es: seq<Edit>, interactions: seq<Interaction>, hits: seq<Option<nat>>, m: nat)
    requires m < |entities| == |es| == |interactions| == |hits|
    requires forall k :: 0 <= k < |es| ==> WellFormed(es[k]) && HitOnBoundary(Raw(es[k], CursorChar), hits[k])
    ensures ClickPass(entities[..m + 1], es[..m + 1], interactions[..m + 1], hits[..m + 1]).sent
      == ClickPass(entities[..m], es[..m], interactions[..m], hits[..m]).sent
         + (if interactions[m] == Clicked && es[m].cursor.None? then [FocusedEvent(entities[m])] else [])
  {
    var n := m + 1;
    assert entities[..n][..m] == entities[..m] && es[..n][..m] == es[..m];
    assert interactions[..n][..m] == interactions[..m] && hits[..n][..m] == hits[..m];
  }

  /** A `FocusedEvent` names a widget exactly when its box was clicked while not focused. */
  lemma {:induction false} ClickPassSent(entities: seq<Entity>, es: seq<Edit>, interactions: seq<Interaction>,
                                         hits: seq<Option<nat>>, x: Entity, n: nat)
    requires n <= |entities| == |es| == |interactions| == |hits|
    requires forall k :: 0 <= k < |es| ==> WellFormed(es[k]) && HitOnBoundary(Raw(es[k], CursorChar), hits[k])
    ensures FocusedEvent(x) in ClickPass(entities[..n], es[..n], interactions[..n], hits[..n]).sent
      <==> ClickedIdle(entities, es, interactions, x, n)
  {
    if n > 0 {
      var m := n - 1;
      ClickPassSent(entities, es, interactions, hits, x, m);
      ClickPassSentStep(entities, es, interactions, hits, m);
      ClickedIdleStep(entities, es, interactions, x, m);
    }
  }

  /** The rest of a mouse pass, from widget `i` on, after `acc` was reached: the order the system visits them. */
  function ClickFrom(entities: seq<Entity>, es: seq<Edit>, interactions: seq<Interaction>, hits: seq<Option<nat>>,
                     i: nat, acc: ClickResult): (r: ClickResult)
    requires |entities| == |es| == |interactions| == |hits| && i <= |es|
    requires forall k :: 0 <= k < |es| ==> WellFormed(es[k]) && HitOnBoundary(Raw(es[k], CursorChar), hits[k])
    decreases |es| - i
  {
    if i == |es| then acc
    else ClickFrom(entities, es, interactions, hits, i + 1, ClickOne(acc, entities[i], es[i], interactions[i], hits[i]))
  }

  /** Continuing a mouse pass over the first `i` widgets with the rest gives the pass over all of them. */
  lemma {:induction false} ClickFromPass(entities: seq<Entity>, es: seq<Edit>, interactions: seq<Interaction>,
                                         hits: seq<Option<nat>>, i: nat)
    requires |entities| == |es| == |interactions| == |hits| && i <= |es|
    requires forall k :: 0 <= k < |es| ==> WellFormed(es[k]) && HitOnBoundary(Raw(es[k], CursorChar), hits[k])
    ensures ClickFrom(entities, es, interactions, hits, i, ClickPass(entities[..i], es[..i], interactions[..i], hits[..i]))
      == ClickPass(entities, es, interactions, hits)
    decreases |es| - i
  {
    if i == |es| {
      assert entities[..i] == entities && es[..i] == es && interactions[..i] == interactions && hits[..i] == hits;
    } else {
      assert entities[..i + 1][..i] == entities[..i] && es[..i + 1][..i] == es[..i];
      assert interactions[..i + 1][..i] == interactions[..i] && hits[..i + 1][..i] == hits[..i];
      ClickFromPass(entities, es, interactions, hits, i + 1);
    }
  }

  /**
   * The body of the mouse system for widget `i` of the query: the box does
   * what `ClickOne` describes, the other boxes are untouched.
   */
  method ClickStep(boxes: seq<Cursor>, i: nat, entity: Entity, interaction: Interaction, hit: Option<nat>,
                   ghost acc: ClickResult, sent: seq<FocusedEvent>) returns (sentAfter: seq<FocusedEvent>)
    requires i < |boxes| && AllValid(boxes) && Distinct(boxes)
    requires boxes[i].cursorChar == CursorChar && HitOnBoundary(boxes[i].value, hit)
    requires Models(boxes)[..i] == acc.edits && sent == acc.sent
    modifies boxes[i]
    ensures AllValid(boxes)
    ensures var r := ClickOne(acc, entity, old(boxes[i].Model()), interaction, hit);
      Models(boxes) == r.edits + old(Models(boxes))[i + 1..] && sentAfter == r.sent
  {
    var box := boxes[i];
    assert box.Valid();
    sentAfter := sent;
    if interaction == Clicked {
      var newCursor := |box.value|;
      if hit.Some? {
        newCursor := hit.value;
      }
      if box.cursorPos.Some? {
        SetPosLands(box.shown, box.cursorPos.value, box.cursorChar, newCursor);
        box.SetPos(newCursor);
      } else {
        box.Focus(newCursor);
        sentAfter := sent + [FocusedEvent(entity)];
      }
    }
    forall k | 0 <= k < |boxes| && k != i
      ensures boxes[k].Valid() && boxes[k].Model() == old(boxes[k].Model())
    {
      assert boxes[k] != box;
    }
    ReplaceNext(acc.edits, old(Models(boxes)), i, box.Model());
  }

  /**
   * `interact_mouse_system`: nothing happens unless the pointer is in the
   * primary window; `hits[k]` is the byte offset of the first glyph right of
   * the pointer in box `k`, if any (the layout search is not modelled).
   */
  method InteractMouseSystem(boxes: seq<Cursor>, entities: seq<Entity>, interactions: seq<Interaction>,
                             hits: seq<Option<nat>>, pointerInWindow: bool) returns (sent: seq<FocusedEvent>)
    requires |entities| == |boxes| == |interactions| == |hits| && AllValid(boxes) && Distinct(boxes)
    requires forall k :: 0 <= k < |boxes| ==> boxes[k].cursorChar == CursorChar && HitOnBoundary(boxes[k].value, hits[k])
    modifies set k | 0 <= k < |boxes| :: boxes[k]
    ensures AllValid(boxes)
    ensures !pointerInWindow ==> Models(boxes) == old(Models(boxes)) && sent == []
    ensures pointerInWindow ==>
      var r := ClickFrom(entities, old(Models(boxes)), interactions, hits, 0, ClickResult([], []));
      Models(boxes) == r.edits && sent == r.sent
  {
    sent := [];
    if !pointerInWindow {
      return;
    }
    ghost var es := Models(boxes);
    forall k | 0 <= k < |boxes| ensures WellFormed(es[k]) && HitOnBoundary(Raw(es[k], CursorChar), hits[k]) {
      assert boxes[k].Valid();
    }
    ghost var final := ClickFrom(entities, es, interactions, hits, 0, ClickResult([], []));
    ghost var done := ClickResult([], []);
    var i := 0;
    while i < |boxes|
      invariant 0 <= i <= |boxes| && AllValid(boxes)
      invariant |done.edits| == i && ClickFrom(entities, es, interactions, hits, i, done) == final
      invariant Models(boxes)[..i] == done.edits && Models(boxes)[i..] == es[i..]
      invariant sent == done.sent
    {
      assert boxes[i].Model() == es[i] && boxes[i].Valid();
      sent := ClickStep(boxes, i, entities[i], interactions[i], hits[i], done, sent);
      done := ClickOne(done, entities[i], es[i], interactions[i], hits[i]);
      i := i + 1;
    }
  }
}

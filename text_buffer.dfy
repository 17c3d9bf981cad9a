/**
 * The editing logic shared by the two text boxes (`Cursor` in input_box.rs
 * and `EditBox` in edit_box.rs), stated on what the user sees: the text
 * without the cursor character, and the cursor's byte offset in it (`None`
 * when the box is not focused). The buffer the boxes really hold is `Raw`:
 * the shown text with the cursor character spliced in at the cursor. The
 * widget classes edit that buffer byte by byte and promise, operation by
 * operation, the result these functions describe.
 */
module TextBuffer {
  import opened Base
  import opened Utf8
  import opened Ui

  /** The text the user is editing and the cursor's byte offset in it. */
  datatype Edit = Edit(shown: Text, cursor: Option<nat>)

  /** The shown text is a valid string and the cursor sits on one of its character boundaries. */
  predicate WellFormed(e: Edit)
  {
    StartsOnChar(e.shown) && (e.cursor.Some? ==> IsCharBoundary(e.shown, e.cursor.value))
  }

  /** The `String` the box holds: while focused, the cursor character `cc` sits at the cursor. */
  function Raw(e: Edit, cc: char): Text
    requires WellFormed(e)
  {
    match e.cursor
    case None => e.shown
    case Some(p) => Cursored(e.shown, p, cc)
  }

  /** `focus`: an unfocused box gets its cursor at `i`; a focused box stays as it is. */
  function Focus(e: Edit, i: nat): (r: Edit)
    requires WellFormed(e) && (e.cursor.None? ==> IsCharBoundary(e.shown, i))
    ensures WellFormed(r) && r.cursor.Some?
  {
    if e.cursor.Some? then e else Edit(e.shown, Some(i))
  }

  /** `unfocus`: the cursor goes away, the text stays. */
  function Unfocus(e: Edit): (r: Edit)
    requires WellFormed(e)
    ensures WellFormed(r) && r.cursor.None?
  {
    Edit(e.shown, None)
  }

  /** Where `set_pos` puts the cursor: an offset right of the cursor is shifted back by the cursor's width. */
  function SetPosTarget(p: nat, i: nat, cc: char): nat
    requires i > p ==> i >= LenUtf8(cc)
  {
    if i > p then i - LenUtf8(cc) else i
  }

  /**
   * `set_pos(i)`: `i` is an offset in the buffer with the cursor in it; the
   * cursor is taken out and put back at the corresponding offset of the shown text.
   */
  function SetPos(e: Edit, i: nat, cc: char): (r: Edit)
    requires WellFormed(e) && e.cursor.Some?
    requires i > e.cursor.value ==> i >= LenUtf8(cc)
    requires IsCharBoundary(e.shown, SetPosTarget(e.cursor.value, i, cc))
    ensures WellFormed(r)
  {
    Focus(Unfocus(e), SetPosTarget(e.cursor.value, i, cc))
  }

  /** `move_cursor_left`: the cursor moves to the start of the character before it. */
  function MoveLeft(e: Edit): (r: Edit)
    requires WellFormed(e)
    ensures WellFormed(r)
  {
    match e.cursor
    case None => e
    case Some(p) => if p == 0 then e else Edit(e.shown, Some(PrevBoundary(e.shown, p)))
  }

  /** `move_cursor_right`: the cursor moves to the end of the character after it. */
  function MoveRight(e: Edit): (r: Edit)
    requires WellFormed(e)
    ensures WellFormed(r)
  {
    match e.cursor
    case None => e
    case Some(p) => if p >= |e.shown| then e else Edit(e.shown, Some(NextBoundary(e.shown, p)))
  }

  /** `insert_character(c)`: `c` goes in at the cursor, which moves past it. */
  function Insert(e: Edit, c: char): (r: Edit)
    requires WellFormed(e)
    ensures WellFormed(r)
  {
    match e.cursor
    case None => e
    case Some(p) =>
      InsertKeepsChars(e.shown, p, c);
      Edit(InsertChar(e.shown, p, c), Some(p + LenUtf8(c)))
  }

  /** `remove_character_before`: the character that ends at the cursor is removed; the cursor moves to its start. */
  function RemoveBefore(e: Edit): (r: Edit)
    requires WellFormed(e)
    ensures WellFormed(r)
  {
    match e.cursor
    case None => e
    case Some(p) =>
      if p == 0 then e
      else
        var s := PrevBoundary(e.shown, p);
        RemoveKeepsChars(e.shown, s);
        Edit(RemoveChar(e.shown, s), Some(s))
  }

  /** `remove_character_after`: the character that starts at the cursor is removed; the cursor stays. */
  function RemoveAfter(e: Edit): (r: Edit)
    requires WellFormed(e)
    ensures WellFormed(r)
  {
    match e.cursor
    case None => e
    case Some(p) =>
      if p >= |e.shown| then e
      else
        RemoveKeepsChars(e.shown, p);
        Edit(RemoveChar(e.shown, p), Some(p))
  }

  /**
   * `move_cursor_right` on the `String` of a focused box: with `end` the end
   * of the character after the cursor, the text before the cursor, that
   * character, the cursor and the rest are the `String` of `MoveRight`.
   */
  lemma MoveRightRaw(e: Edit, cc: char, end: nat)
    requires WellFormed(e) && e.cursor.Some? && e.cursor.value + LenUtf8(cc) < |Raw(e, cc)|
    requires end == NextBoundary(Raw(e, cc), e.cursor.value + LenUtf8(cc))
    ensures var t := Raw(e, cc); var p := e.cursor.value;
      && p + LenUtf8(cc) <= end <= |t| && MoveRight(e) == Edit(e.shown, Some(end - LenUtf8(cc)))
      && t[..p] + (t[p + LenUtf8(cc)..end] + Encode(cc)) + t[end..] == Raw(MoveRight(e), cc)
  {
    var p := e.cursor.value;
    var t := Cursored(e.shown, p, cc);
    assert Raw(e, cc) == t;
    assert p < |e.shown|;
    MoveRightAssembled(e.shown, p, cc, end);
    var q := NextBoundary(e.shown, p);
    assert MoveRight(e) == Edit(e.shown, Some(q));
    assert Raw(MoveRight(e), cc) == Cursored(e.shown, q, cc);
  }

  /** Moving left then right returns the cursor to where it was (away from the start of the text). */
  lemma MoveRightUndoesLeft(e: Edit)
    requires WellFormed(e) && e.cursor.Some? && e.cursor.value > 0
    ensures MoveLeft(e).cursor.value < e.cursor.value
    ensures MoveRight(MoveLeft(e)) == e
  {
    NextAfterPrev(e.shown, e.cursor.value);
  }

  /** Moving right then left returns the cursor to where it was (away from the end of the text). */
  lemma MoveLeftUndoesRight(e: Edit)
    requires WellFormed(e) && e.cursor.Some? && e.cursor.value < |e.shown|
    ensures MoveRight(e).cursor.value > e.cursor.value
    ensures MoveLeft(MoveRight(e)) == e
  {
    PrevAfterNext(e.shown, e.cursor.value);
  }

  /** Backspace right after typing a character removes exactly that character. */
  lemma BackspaceUndoesInsert(e: Edit, c: char)
    requires WellFormed(e)
    ensures RemoveBefore(Insert(e, c)) == e
  {
    if e.cursor.Some? {
      InsertedChar(e.shown, e.cursor.value, c);
    }
  }

  /** `insert_character` applied to each of `cs` in turn. */
  function Typing(e: Edit, cs: seq<char>): (r: Edit)
    requires WellFormed(e)
    ensures WellFormed(r)
    ensures e.cursor.None? ==> r == e
    ensures r.cursor.Some? == e.cursor.Some?
  {
    if cs == [] then e else Insert(Typing(e, cs[..|cs| - 1]), cs[|cs| - 1])
  }

  /** Reading one more character event: it is typed when it comes from the primary window and is not a control character. */
  lemma TypingNext(e: Edit, events: seq<ReceivedCharacter>, j: nat, primary: nat)
    requires WellFormed(e) && j < |events|
    ensures var c := events[j];
      var before := Typing(e, TypedChars(events[..j], primary));
      Typing(e, TypedChars(events[..j + 1], primary))
        == if c.windowId == primary && !IsControl(c.ch) then Insert(before, c.ch) else before
  {
    var c := events[j];
    var before := TypedChars(events[..j], primary);
    assert events[..j + 1][..j] == events[..j];
    if c.windowId == primary && !IsControl(c.ch) {
      assert TypedChars(events[..j + 1], primary) == before + [c.ch];
      assert (before + [c.ch])[..|before|] == before;
    } else {
      assert TypedChars(events[..j + 1], primary) == before;
    }
  }

  /** Typing moves the cursor past the encodings of the typed characters. */
  lemma {:induction false} TypingMovesCursor(e: Edit, cs: seq<char>, p: nat)
    requires WellFormed(e) && e.cursor == Some(p)
    ensures Typing(e, cs).cursor == Some(p + |EncodeAll(cs)|)
  {
    if cs != [] {
      var n := |cs| - 1;
      TypingMovesCursor(e, cs[..n], p);
      assert |EncodeAll(cs)| == |EncodeAll(cs[..n])| + LenUtf8(cs[n]);
    }
  }

  /** Inserting `x` right after a block `w` spliced in at `p` extends the block. */
  lemma SpliceGrows(v: Text, p: nat, w: Text, x: Text)
    requires p <= |v|
    ensures var u := v[..p] + w + v[p..];
      u[..p + |w|] + x + u[p + |w|..] == v[..p] + (w + x) + v[p..]
  {
    var u := v[..p] + w + v[p..];
    assert u[..p + |w|] == v[..p] + w;
    assert u[p + |w|..] == v[p..];
  }

  /** Typed characters appear at the cursor, encoded and in order. */
  lemma {:induction false} TypingInsertsAtCursor(e: Edit, cs: seq<char>, p: nat)
    requires WellFormed(e) && e.cursor == Some(p)
    ensures p <= |e.shown|
    ensures Typing(e, cs).shown == e.shown[..p] + EncodeAll(cs) + e.shown[p..]
  {
    var v := e.shown;
    if cs == [] {
      assert v[..p] + v[p..] == v;
    } else {
      var n := |cs| - 1;
      TypingInsertsAtCursor(e, cs[..n], p);
      TypingMovesCursor(e, cs[..n], p);
      var w := EncodeAll(cs[..n]);
      SpliceGrows(v, p, w, Encode(cs[n]));
      assert EncodeAll(cs) == w + Encode(cs[n]);
    }
  }

  /** Which key unfocused the box, and whether the box read the pending character events. */
  datatype KeyOutcome = KeyOutcome(edit: Edit, unfocusedBy: Option<KeyCode>, drained: bool)

  /**
   * One text box in the keyboard system. A focused box: Return unfocuses it
   * and skips the character events; otherwise Escape unfocuses it, or else the
   * first of Left, Right, Back, Delete that was just pressed edits; then the
   * typed characters are inserted (which does nothing once unfocused).
   * Unfocused boxes are skipped.
   */
  function AfterKeys(e: Edit, keys: set<KeyCode>, typed: seq<char>): (r: KeyOutcome)
    requires WellFormed(e)
    ensures WellFormed(r.edit)
  {
    if e.cursor.None? then KeyOutcome(e, None, false)
    else if Return in keys then KeyOutcome(Unfocus(e), Some(Return), false)
    else if Escape in keys then KeyOutcome(Typing(Unfocus(e), typed), Some(Escape), true)
    else
      var edited :=
        if Left in keys then MoveLeft(e)
        else if Right in keys then MoveRight(e)
        else if Back in keys then RemoveBefore(e)
        else if Delete in keys then RemoveAfter(e)
        else e;
      KeyOutcome(Typing(edited, typed), None, true)
  }

  /**
   * What the keys do to a box: Return and Escape unfocus a focused box and are
   * reported, only Return leaves the character events unread, and an
   * unfocused box is left alone.
   */
  lemma AfterKeysOutcome(e: Edit, keys: set<KeyCode>, typed: seq<char>)
    requires WellFormed(e)
    ensures var r := AfterKeys(e, keys, typed);
      && (e.cursor.None? ==> r == KeyOutcome(e, None, false))
      && (e.cursor.Some? ==> (r.drained <==> Return !in keys))
      && (e.cursor.Some? && Return in keys ==> r.unfocusedBy == Some(Return))
      && (e.cursor.Some? && Return !in keys && Escape in keys ==> r.unfocusedBy == Some(Escape))
      && (r.unfocusedBy.Some? <==> e.cursor.Some? && (Return in keys || Escape in keys))
      && (r.unfocusedBy.Some? ==> r.edit == Unfocus(e))
      && (r.unfocusedBy.None? ==> r.edit.cursor.Some? == e.cursor.Some?)
  {
  }

  /** An `UnfocusedEvent`: the entity, the edited text, and whether the edit was cancelled. */
  datatype UnfocusedEvent = UnfocusedEvent(entity: Entity, text: Text, canceled: bool)

  /** The result of a keyboard pass: the boxes' new states, the events sent, the character events left unread. */
  datatype KeyboardResult = KeyboardResult(edits: seq<Edit>, sent: seq<UnfocusedEvent>, unread: seq<ReceivedCharacter>)

  /**
   * The keyboard system over the boxes in query order. The character-event
   * reader is shared: the first box that reads it drains it, so later boxes
   * see no characters. The event of a box unfocused by `cancelKey` carries
   * `canceled: true`; `owners[k]` is the entity named in box `k`'s event.
   */
  function KeyboardPass(owners: seq<Entity>, es: seq<Edit>, keys: set<KeyCode>,
                        events: seq<ReceivedCharacter>, primary: nat, cancelKey: KeyCode): (r: KeyboardResult)
    requires |owners| == |es| && forall k :: 0 <= k < |es| ==> WellFormed(es[k])
    ensures |r.edits| == |es| && forall k :: 0 <= k < |es| ==> WellFormed(r.edits[k])
    ensures r.unread == events || r.unread == []
  {
    if es == [] then KeyboardResult([], [], events)
    else
      var n := |es| - 1;
      var prev := KeyboardPass(owners[..n], es[..n], keys, events, primary, cancelKey);
      var out := AfterKeys(es[n], keys, TypedChars(prev.unread, primary));
      var sent := match out.unfocusedBy
        case None => prev.sent
        case Some(key) => prev.sent + [UnfocusedEvent(owners[n], out.edit.shown, key == cancelKey)];
      KeyboardResult(prev.edits + [out.edit], sent, if out.drained then [] else prev.unread)
  }

  /** Whether some box before index `k` was focused when the pass began. */
  predicate FocusedBefore(es: seq<Edit>, k: nat)
  {
    exists j :: 0 <= j < k && j < |es| && es[j].cursor.Some?
  }

  lemma FocusedBeforePrefix(es: seq<Edit>, n: nat, k: nat)
    requires k <= n <= |es|
    ensures FocusedBefore(es[..n], k) == FocusedBefore(es, k)
  {
    if FocusedBefore(es, k) {
      var j :| 0 <= j < k && j < |es| && es[j].cursor.Some?;
      assert es[..n][j] == es[j];
    }
  }

  /** The character events are left unread unless Return is not pressed and some box is focused. */
  lemma {:induction false} KeyboardPassUnread(owners: seq<Entity>, es: seq<Edit>, keys: set<KeyCode>,
                                              events: seq<ReceivedCharacter>, primary: nat, cancelKey: KeyCode)
    requires |owners| == |es| && forall k :: 0 <= k < |es| ==> WellFormed(es[k])
    ensures KeyboardPass(owners, es, keys, events, primary, cancelKey).unread
      == if FocusedBefore(es, |es|) && Return !in keys then [] else events
  {
    if es != [] {
      var n := |es| - 1;
      KeyboardPassUnread(owners[..n], es[..n], keys, events, primary, cancelKey);
      var prev := KeyboardPass(owners[..n], es[..n], keys, events, primary, cancelKey);
      var out := AfterKeys(es[n], keys, TypedChars(prev.unread, primary));
      assert KeyboardPass(owners, es, keys, events, primary, cancelKey).unread
        == if out.drained then [] else prev.unread;
      FocusedBeforePrefix(es, n, n);
      assert FocusedBefore(es, |es|) <==> FocusedBefore(es, n) || es[n].cursor.Some?;
    }
  }

  /**
   * In a keyboard pass each box is handled on its own, and it receives the
   * typed characters exactly when no focused box came before it (with Return
   * pressed nobody inserts anything, so what it receives does not matter).
   */
  lemma {:induction false} KeyboardPassPerBox(owners: seq<Entity>, es: seq<Edit>, keys: set<KeyCode>,
                                              events: seq<ReceivedCharacter>, primary: nat, cancelKey: KeyCode, k: nat)
    requires |owners| == |es| && forall k :: 0 <= k < |es| ==> WellFormed(es[k])
    requires k < |es|
    ensures KeyboardPass(owners, es, keys, events, primary, cancelKey).edits[k]
      == AfterKeys(es[k], keys, if FocusedBefore(es, k) then [] else TypedChars(events, primary)).edit
  {
    var n := |es| - 1;
    var prev := KeyboardPass(owners[..n], es[..n], keys, events, primary, cancelKey);
    var r := KeyboardPass(owners, es, keys, events, primary, cancelKey);
    FocusedBeforePrefix(es, n, k);
    if k < n {
      KeyboardPassPerBox(owners[..n], es[..n], keys, events, primary, cancelKey, k);
      assert es[..n][k] == es[k];
      assert r.edits[k] == prev.edits[k];
    } else {
      KeyboardPassUnread(owners[..n], es[..n], keys, events, primary, cancelKey);
      var typed := if FocusedBefore(es, n) then [] else TypedChars(events, primary);
      assert r.edits[n] == AfterKeys(es[n], keys, TypedChars(prev.unread, primary)).edit;
      if Return in keys {
        AfterKeysOutcome(es[n], keys, typed);
        AfterKeysOutcome(es[n], keys, TypedChars(prev.unread, primary));
      } else if FocusedBefore(es, n) {
        assert prev.unread == [];
      }
    }
  }

  /**
   * The `UnfocusedEvent`s a keyboard pass sends, stated box by box: when
   * Return or Escape was just pressed, every box focused at the start of the
   * pass reports its text without the cursor, flagged as cancelled when the
   * key that wins (Return before Escape) is `cancelKey`; otherwise nothing.
   */
  function UnfocusEvents(owners: seq<Entity>, es: seq<Edit>, keys: set<KeyCode>, cancelKey: KeyCode): seq<UnfocusedEvent>
    requires |owners| == |es|
  {
    if es == [] || (Return !in keys && Escape !in keys) then []
    else
      var n := |es| - 1;
      var key := if Return in keys then Return else Escape;
      UnfocusEvents(owners[..n], es[..n], keys, cancelKey)
      + (if es[n].cursor.Some? then [UnfocusedEvent(owners[n], es[n].shown, key == cancelKey)] else [])
  }

  /** A keyboard pass sends exactly the events `UnfocusEvents` lists. */
  lemma {:induction false} KeyboardPassSent(owners: seq<Entity>, es: seq<Edit>, keys: set<KeyCode>,
                                            events: seq<ReceivedCharacter>, primary: nat, cancelKey: KeyCode)
    requires |owners| == |es| && forall k :: 0 <= k < |es| ==> WellFormed(es[k])
    ensures KeyboardPass(owners, es, keys, events, primary, cancelKey).sent == UnfocusEvents(owners, es, keys, cancelKey)
  {
    if es != [] {
      var n := |es| - 1;
      KeyboardPassSent(owners[..n], es[..n], keys, events, primary, cancelKey);
      var prev := KeyboardPass(owners[..n], es[..n], keys, events, primary, cancelKey);
      AfterKeysOutcome(es[n], keys, TypedChars(prev.unread, primary));
    }
  }

  /** A keyboard pass handles one more box, owned by `owner`, in the state `e`. */
  function KeyStep(acc: KeyboardResult, owner: Entity, e: Edit, keys: set<KeyCode>, primary: nat, cancelKey: KeyCode): (r: KeyboardResult)
    requires WellFormed(e)
  {
    var out := AfterKeys(e, keys, TypedChars(acc.unread, primary));
    var sent := match out.unfocusedBy
      case None => acc.sent
      case Some(key) => acc.sent + [UnfocusedEvent(owner, out.edit.shown, key == cancelKey)];
    KeyboardResult(acc.edits + [out.edit], sent, if out.drained then [] else acc.unread)
  }

  /** The rest of a keyboard pass, from box `i` on, after `acc` was reached: the order the system visits the boxes. */
  function KeyboardFrom(owners: seq<Entity>, es: seq<Edit>, i: nat, acc: KeyboardResult,
                        keys: set<KeyCode>, primary: nat, cancelKey: KeyCode): (r: KeyboardResult)
    requires |owners| == |es| && i <= |es| && forall k :: 0 <= k < |es| ==> WellFormed(es[k])
    decreases |es| - i
  {
    if i == |es| then acc
    else KeyboardFrom(owners, es, i + 1, KeyStep(acc, owners[i], es[i], keys, primary, cancelKey), keys, primary, cancelKey)
  }

  /** Continuing a pass over the first `i` boxes with the rest gives the pass over all of them. */
  lemma {:induction false} KeyboardFromPass(owners: seq<Entity>, es: seq<Edit>, i: nat, keys: set<KeyCode>,
                                            events: seq<ReceivedCharacter>, primary: nat, cancelKey: KeyCode)
    requires |owners| == |es| && i <= |es| && forall k :: 0 <= k < |es| ==> WellFormed(es[k])
    ensures KeyboardFrom(owners, es, i, KeyboardPass(owners[..i], es[..i], keys, events, primary, cancelKey), keys, primary, cancelKey)
      == KeyboardPass(owners, es, keys, events, primary, cancelKey)
    decreases |es| - i
  {
    if i == |es| {
      assert owners[..i] == owners && es[..i] == es;
    } else {
      assert owners[..i + 1][..i] == owners[..i] && es[..i + 1][..i] == es[..i];
      KeyboardFromPass(owners, es, i + 1, keys, events, primary, cancelKey);
    }
  }

  /** Whether one of the first `n` text boxes is `x`, clicked while not being edited. */
  predicate ClickedIdle(entities: seq<Entity>, es: seq<Edit>, interactions: seq<Interaction>, x: Entity, n: nat)
    requires n <= |entities| == |es| == |interactions|
  {
    exists k :: 0 <= k < n && entities[k] == x && interactions[k] == Clicked && es[k].cursor.None?
  }

  /** Box `m` clicked while not being edited, or one of the boxes before it. */
  lemma ClickedIdleStep(entities: seq<Entity>, es: seq<Edit>, interactions: seq<Interaction>, x: Entity, m: nat)
    requires m < |entities| == |es| == |interactions|
    ensures ClickedIdle(entities, es, interactions, x, m + 1)
      <==> ClickedIdle(entities, es, interactions, x, m) || (entities[m] == x && interactions[m] == Clicked && es[m].cursor.None?)
  {
    if ClickedIdle(entities, es, interactions, x, m + 1) {
      var k :| 0 <= k < m + 1 && entities[k] == x && interactions[k] == Clicked && es[k].cursor.None?;
      if k < m {
        assert ClickedIdle(entities, es, interactions, x, m);
      }
    }
  }
}

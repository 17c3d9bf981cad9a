/**
 * The part of Rust's `String` that the text buffers rely on: UTF-8 encoding
 * of a `char`, `is_char_boundary`, `insert`, `remove`, and the two
 * boundary-search loops that `move_cursor_left`/`move_cursor_right` and the
 * removal operations run. A focused buffer is `Cursored(v, p, cc)`: the
 * visible text `v` with the cursor character `cc` spliced in at byte `p`;
 * the lemmas at the end show that each byte-level edit the buffers perform
 * on such a buffer is again `Cursored` of the edited visible text.
 */
module Utf8 {
  import opened Base

  /** A byte `10xxxxxx`: the middle of a multi-byte character. */
  predicate IsContinuation(b: byte) { 0x80 <= b < 0xC0 }

  /** `str::is_char_boundary`: 0 and the length are boundaries, indices past the end are not. */
  predicate IsCharBoundary(t: Text, i: nat)
  {
    i == 0 || i == |t| || (i < |t| && !IsContinuation(t[i]))
  }

  /** `char::len_utf8`. */
  function LenUtf8(c: char): (n: nat)
    ensures 1 <= n <= 4
  {
    var v := c as int;
    if v < 0x80 then 1 else if v < 0x800 then 2 else if v < 0x10000 then 3 else 4
  }

  /** The first byte of the encoding: the length marker and the top bits. */
  function LeadByte(c: char): (b: byte)
    ensures !IsContinuation(b)
  {
    var v := c as int;
    if v < 0x80 then v as byte
    else if v < 0x800 then (0xC0 + v / 0x40) as byte
    else if v < 0x10000 then (0xE0 + v / 0x1000) as byte
    else (0xF0 + v / 0x40000) as byte
  }

  /** `v` with its last `j` groups of six bits shifted out. */
  function Shift(v: nat, j: nat): nat
  {
    if j == 0 then v else Shift(v / 0x40, j - 1)
  }

  /** The first `k + 1` bytes of the encoding of `c`: its lead byte, then continuation bytes `10xxxxxx`. */
  function EncodePrefix(c: char, k: nat): (r: Text)
    requires k < LenUtf8(c)
    ensures |r| == k + 1 && r[0] == LeadByte(c)
    ensures forall i :: 1 <= i < |r| ==> IsContinuation(r[i])
  {
    if k == 0 then [LeadByte(c)]
    else EncodePrefix(c, k - 1) + [(0x80 + Shift(c as int, LenUtf8(c) - 1 - k) % 0x40) as byte]
  }

  /** The UTF-8 encoding of a scalar value. */
  function Encode(c: char): (r: Text)
    ensures |r| == LenUtf8(c)
    ensures !IsContinuation(r[0])
    ensures forall i :: 1 <= i < |r| ==> IsContinuation(r[i])
  {
    EncodePrefix(c, LenUtf8(c) - 1)
  }

  /** The end of the character that starts at `i`: the first boundary after `i`. */
  function NextBoundary(t: Text, i: nat): (r: nat)
    requires i < |t|
    ensures i < r <= |t| && IsCharBoundary(t, r)
    ensures forall j :: i < j < r ==> !IsCharBoundary(t, j)
    decreases |t| - i
  {
    if IsCharBoundary(t, i + 1) then i + 1 else NextBoundary(t, i + 1)
  }

  /** The start of the character that ends at `i`: the last boundary before `i`. */
  function PrevBoundary(t: Text, i: nat): (r: nat)
    requires 0 < i <= |t|
    ensures r < i && IsCharBoundary(t, r)
    ensures forall j :: r < j < i ==> !IsCharBoundary(t, j)
  {
    if IsCharBoundary(t, i - 1) then i - 1 else PrevBoundary(t, i - 1)
  }

  /** The encodings of `cs`, one after the other. */
  function EncodeAll(cs: seq<char>): (r: Text)
  {
    if cs == [] then [] else EncodeAll(cs[..|cs| - 1]) + Encode(cs[|cs| - 1])
  }

  /** `String::insert(i, c)`; Rust panics unless `i` is a boundary. */
  function InsertChar(t: Text, i: nat, c: char): (r: Text)
    requires IsCharBoundary(t, i)
    ensures |r| == |t| + LenUtf8(c)
  {
    t[..i] + Encode(c) + t[i..]
  }

  /** `String::remove(i)`: drops the character starting at boundary `i`. */
  function RemoveChar(t: Text, i: nat): (r: Text)
    requires i < |t| && IsCharBoundary(t, i)
    ensures |r| == |t| - (NextBoundary(t, i) - i) < |t|
  {
    t[..i] + t[NextBoundary(t, i)..]
  }

  /**
   * The loop `loop { s -= 1; if text.is_char_boundary(s) { break } }` started
   * at `pos`: the start of the character that ends at `pos`.
   */
  method PrevCharStart(t: Text, pos: nat) returns (s: nat)
    requires 0 < pos <= |t|
    ensures s == PrevBoundary(t, pos)
  {
    s := pos - 1;
    while !IsCharBoundary(t, s)
      invariant s < pos
      invariant forall j :: s < j < pos ==> !IsCharBoundary(t, j)
      decreases s
    {
      s := s - 1;
    }
    var pb := PrevBoundary(t, pos);
    assert !(s < pb) && !(pb < s);
  }

  /**
   * The loop `loop { e += 1; if text.is_char_boundary(e) { break } }` started
   * at `from`: the end of the character that starts at `from`.
   */
  method NextCharEnd(t: Text, from: nat) returns (e: nat)
    requires from < |t|
    ensures e == NextBoundary(t, from)
  {
    e := from + 1;
    while !IsCharBoundary(t, e)
      invariant from < e <= |t|
      invariant forall j :: from < j < e ==> !IsCharBoundary(t, j)
      decreases |t| - e
    {
      e := e + 1;
    }
    var nb := NextBoundary(t, from);
    assert !(e < nb) && !(nb < e);
  }

  // ---------------------------------------------------------------------
  // A buffer with a visible cursor character in it

  /** A Rust `String` is valid UTF-8, so in particular it does not start in the middle of a character. */
  predicate StartsOnChar(t: Text) { |t| == 0 || !IsContinuation(t[0]) }

  /** The buffer that shows the text `v` with the cursor character `cc` at byte `p`. */
  function Cursored(v: Text, p: nat, cc: char): Text
    requires p <= |v|
  {
    v[..p] + Encode(cc) + v[p..]
  }

  /** The three parts of a buffer with the cursor in it. */
  lemma CursoredParts(v: Text, p: nat, cc: char)
    requires p <= |v|
    ensures var t := Cursored(v, p, cc);
      && t[..p] == v[..p] && t[p..] == Encode(cc) + v[p..] && t[p + LenUtf8(cc)..] == v[p..]
      && IsCharBoundary(t, p)
  {
    var t := Cursored(v, p, cc);
    assert t[p] == Encode(cc)[0];
  }

  /** Splitting `a + b` after `a` and putting `e` in between. */
  lemma SpliceMiddle(a: Text, b: Text, e: Text)
    ensures (a + b)[..|a|] + e + (a + b)[|a|..] == a + e + b
  {
    assert (a + b)[..|a|] == a;
    assert (a + b)[|a|..] == b;
  }

  lemma Associative(a: Text, b: Text, c: Text)
    ensures a + (b + c) == a + b + c
  {
  }

  /** Bytes of the buffer before and after the cursor are those of the visible text. */
  lemma CursoredAt(v: Text, p: nat, cc: char, j: nat)
    requires p <= |v| && j < |v|
    ensures j < p ==> Cursored(v, p, cc)[j] == v[j]
    ensures p <= j ==> Cursored(v, p, cc)[j + LenUtf8(cc)] == v[j]
  {
  }

  /**
   * While focused, the cursor character occupies bytes `p..p+len_utf8(cc)`
   * of a valid string, and both ends are character boundaries.
   */
  lemma CursorBytes(v: Text, p: nat, cc: char)
    requires StartsOnChar(v) && IsCharBoundary(v, p)
    ensures var t := Cursored(v, p, cc);
      && StartsOnChar(t) && p + LenUtf8(cc) <= |t| && t[p..p + LenUtf8(cc)] == Encode(cc)
      && IsCharBoundary(t, p) && IsCharBoundary(t, p + LenUtf8(cc))
  {
    var t := Cursored(v, p, cc);
    CursoredParts(v, p, cc);
    if p > 0 { CursoredAt(v, p, cc, 0); }
    if p < |v| { CursoredAt(v, p, cc, p); }
  }

  /** `unfocus` on a focused buffer removes exactly the cursor character: the visible text is left. */
  lemma UnfocusCursored(v: Text, p: nat, cc: char)
    requires StartsOnChar(v) && IsCharBoundary(v, p)
    ensures p < |Cursored(v, p, cc)| && IsCharBoundary(Cursored(v, p, cc), p)
    ensures RemoveChar(Cursored(v, p, cc), p) == v
  {
    var t := Cursored(v, p, cc);
    var n := LenUtf8(cc);
    CursorBytes(v, p, cc);
    forall j | p < j < p + n ensures !IsCharBoundary(t, j) {
      assert t[j] == t[p..p + n][j - p];
    }
    var nb := NextBoundary(t, p);
    assert !(nb < p + n) && !(p + n < nb);
    CursoredParts(v, p, cc);
    assert RemoveChar(t, p) == v[..p] + v[p..];
  }

  /**
   * A boundary `i` of the focused buffer that lies right of the cursor lies past the
   * cursor character, and the position `set_pos` computes from it is a boundary of the visible text.
   */
  lemma SetPosLands(v: Text, p: nat, cc: char, i: nat)
    requires StartsOnChar(v) && IsCharBoundary(v, p) && IsCharBoundary(Cursored(v, p, cc), i)
    ensures i > p ==> i >= p + LenUtf8(cc)
    ensures IsCharBoundary(v, if i > p then i - LenUtf8(cc) else i)
  {
    NoBoundaryInsideCursor(v, p, cc, i);
    if i <= p {
      BoundaryBeforeCursor(v, p, cc, i);
    } else {
      BoundaryAfterCursor(v, p, cc, i);
    }
  }

  /** No offset strictly inside the cursor character is a boundary. */
  lemma NoBoundaryInsideCursor(v: Text, p: nat, cc: char, j: nat)
    requires StartsOnChar(v) && IsCharBoundary(v, p)
    ensures p < j && IsCharBoundary(Cursored(v, p, cc), j) ==> p + LenUtf8(cc) <= j
  {
    var t := Cursored(v, p, cc);
    var n := LenUtf8(cc);
    CursorBytes(v, p, cc);
    if p < j < p + n {
      assert t[j] == t[p..p + n][j - p];
    }
  }

  /** A boundary of the raw text before the cursor is a boundary of the visible text. */
  lemma BoundaryBeforeCursor(v: Text, p: nat, cc: char, i: nat)
    requires IsCharBoundary(v, p) && i <= p && IsCharBoundary(Cursored(v, p, cc), i)
    ensures IsCharBoundary(v, i)
  {
    if 0 < i < p { CursoredAt(v, p, cc, i); }
  }

  /** A boundary of the raw text after the cursor, shifted back by the cursor's length, is one of the visible text. */
  lemma BoundaryAfterCursor(v: Text, p: nat, cc: char, i: nat)
    requires IsCharBoundary(v, p) && p + LenUtf8(cc) <= i && IsCharBoundary(Cursored(v, p, cc), i)
    ensures IsCharBoundary(v, i - LenUtf8(cc))
  {
    if i - LenUtf8(cc) < |v| { CursoredAt(v, p, cc, i - LenUtf8(cc)); }
  }

  /** Inserting a character keeps a valid text valid, and its end is a boundary. */
  lemma InsertKeepsChars(v: Text, i: nat, c: char)
    requires StartsOnChar(v) && IsCharBoundary(v, i)
    ensures StartsOnChar(InsertChar(v, i, c))
    ensures IsCharBoundary(InsertChar(v, i, c), i + LenUtf8(c))
  {
    var w := InsertChar(v, i, c);
    if i > 0 { assert w[0] == v[0]; }
    if i < |v| { assert w[i + LenUtf8(c)] == v[i]; }
  }

  /** Removing a character keeps a valid text valid, and where it was is a boundary. */
  lemma RemoveKeepsChars(v: Text, i: nat)
    requires StartsOnChar(v) && IsCharBoundary(v, i) && i < |v|
    ensures StartsOnChar(RemoveChar(v, i))
    ensures IsCharBoundary(RemoveChar(v, i), i)
  {
    var w := RemoveChar(v, i);
    var e := NextBoundary(v, i);
    if i > 0 { assert w[0] == v[0]; }
    if e < |v| { assert w[i] == v[e]; }
  }

  /** The buffer after `move_cursor_left`: the cursor swapped with the character `t[s..pos]` before it. */
  function SwapLeft(t: Text, s: nat, pos: nat, cc: char): Text
    requires s <= pos && pos + LenUtf8(cc) <= |t|
  {
    t[..s] + Encode(cc) + t[s..pos] + t[pos + LenUtf8(cc)..]
  }

  /** The buffer after `move_cursor_right`: the cursor swapped with the character `t[pos+len..e]` after it. */
  function SwapRight(t: Text, pos: nat, e: nat, cc: char): Text
    requires pos + LenUtf8(cc) <= e <= |t|
  {
    t[..pos] + t[pos + LenUtf8(cc)..e] + Encode(cc) + t[e..]
  }

  /** Inserting `c` before the cursor is inserting it into the visible text, the cursor after it. */
  lemma InsertCursored(v: Text, p: nat, cc: char, c: char)
    requires IsCharBoundary(v, p)
    ensures IsCharBoundary(Cursored(v, p, cc), p)
    ensures InsertChar(Cursored(v, p, cc), p, c) == Cursored(InsertChar(v, p, c), p + LenUtf8(c), cc)
  {
    var t := Cursored(v, p, cc);
    CursoredParts(v, p, cc);
    var w := InsertChar(v, p, c);
    var m := LenUtf8(c);
    assert w[..p + m] == v[..p] + Encode(c);
    assert w[p + m..] == v[p..];
    assert InsertChar(t, p, c) == v[..p] + Encode(c) + (Encode(cc) + v[p..]);
  }

  /** Around the character before the cursor, the buffer has the visible text's boundaries. */
  lemma BoundariesBeforeCursor(v: Text, p: nat, cc: char)
    requires IsCharBoundary(v, p) && 0 < p <= |v|
    ensures var t := Cursored(v, p, cc);
      var s := PrevBoundary(v, p);
      && s == PrevBoundary(t, p) && NextBoundary(t, s) == p && NextBoundary(v, s) == p
  {
    var t := Cursored(v, p, cc);
    CursoredParts(v, p, cc);
    var s := PrevBoundary(v, p);
    forall j | s < j < p ensures !IsCharBoundary(t, j) {
      assert !IsCharBoundary(v, j);
      CursoredAt(v, p, cc, j);
    }
    assert IsCharBoundary(t, s) by {
      if s > 0 { CursoredAt(v, p, cc, s); }
    }
    var ps := PrevBoundary(t, p);
    assert !(ps < s) && !(s < ps);
    var nb := NextBoundary(t, s);
    assert !(nb < p) && !(p < nb);
    var nv := NextBoundary(v, s);
    assert !(nv < p) && !(p < nv);
  }

  /** Backspace in the buffer keeps the visible bytes before `s`, the cursor, and the visible bytes from `p` on. */
  lemma RemoveBeforeParts(v: Text, p: nat, cc: char)
    requires IsCharBoundary(v, p) && 0 < p <= |v|
    ensures NextBoundary(Cursored(v, p, cc), PrevBoundary(v, p)) == p
    ensures var s := PrevBoundary(v, p);
      RemoveChar(Cursored(v, p, cc), s) == v[..s] + Encode(cc) + v[p..]
  {
    var t := Cursored(v, p, cc);
    var s := PrevBoundary(v, p);
    BoundariesBeforeCursor(v, p, cc);
    CursoredParts(v, p, cc);
    assert t[..s] == v[..s];
    Associative(v[..s], Encode(cc), v[p..]);
  }

  /** Backspace at the cursor is removing the visible character `v[s..p]`, the cursor moving to `s`. */
  lemma RemoveBeforeCursored(v: Text, p: nat, cc: char)
    requires IsCharBoundary(v, p) && 0 < p <= |v|
    ensures var t := Cursored(v, p, cc);
      var s := PrevBoundary(v, p);
      && s == PrevBoundary(t, p) && NextBoundary(t, s) == p && NextBoundary(v, s) == p
      && RemoveChar(t, s) == Cursored(RemoveChar(v, s), s, cc)
  {
    var s := PrevBoundary(v, p);
    BoundariesBeforeCursor(v, p, cc);
    RemoveBeforeParts(v, p, cc);
    assert RemoveChar(v, s) == v[..s] + v[p..];
    SpliceMiddle(v[..s], v[p..], Encode(cc));
  }

  /** Past the cursor, the buffer has the visible text's boundaries, shifted by the cursor. */
  lemma BoundariesAfterCursor(v: Text, p: nat, cc: char)
    requires StartsOnChar(v) && IsCharBoundary(v, p) && p < |v|
    ensures var t := Cursored(v, p, cc);
      && p + LenUtf8(cc) < |t| && IsCharBoundary(t, p + LenUtf8(cc))
      && NextBoundary(t, p + LenUtf8(cc)) == NextBoundary(v, p) + LenUtf8(cc)
  {
    var t := Cursored(v, p, cc);
    var n := LenUtf8(cc);
    var e := NextBoundary(v, p);
    CursoredAt(v, p, cc, p);
    forall j | p + n < j < e + n ensures !IsCharBoundary(t, j) {
      assert !IsCharBoundary(v, j - n);
      CursoredAt(v, p, cc, j - n);
    }
    assert IsCharBoundary(t, e + n) by {
      if e < |v| { CursoredAt(v, p, cc, e); }
    }
    var nt := NextBoundary(t, p + n);
    assert !(nt < e + n) && !(e + n < nt);
  }

  /** Delete in the buffer keeps the visible bytes before `p`, the cursor, and the visible bytes after the deleted character. */
  lemma RemoveAfterParts(v: Text, p: nat, cc: char)
    requires StartsOnChar(v) && IsCharBoundary(v, p) && p < |v|
    ensures p + LenUtf8(cc) < |Cursored(v, p, cc)| && IsCharBoundary(Cursored(v, p, cc), p + LenUtf8(cc))
    ensures RemoveChar(Cursored(v, p, cc), p + LenUtf8(cc)) == v[..p] + Encode(cc) + v[NextBoundary(v, p)..]
  {
    var t := Cursored(v, p, cc);
    var n := LenUtf8(cc);
    var q := NextBoundary(v, p);
    BoundariesAfterCursor(v, p, cc);
    assert RemoveChar(t, p + n) == t[..p + n] + t[q + n..];
    assert t[..p + n] == v[..p] + Encode(cc);
    assert t[q + n..] == v[q..];
  }

  /** Delete at the cursor is removing the visible character that starts at `p`; the cursor stays. */
  lemma RemoveAfterCursored(v: Text, p: nat, cc: char)
    requires StartsOnChar(v) && IsCharBoundary(v, p) && p < |v|
    ensures var t := Cursored(v, p, cc);
      && p + LenUtf8(cc) < |t| && IsCharBoundary(t, p + LenUtf8(cc))
      && NextBoundary(t, p + LenUtf8(cc)) == NextBoundary(v, p) + LenUtf8(cc)
      && RemoveChar(t, p + LenUtf8(cc)) == Cursored(RemoveChar(v, p), p, cc)
  {
    var q := NextBoundary(v, p);
    BoundariesAfterCursor(v, p, cc);
    RemoveAfterParts(v, p, cc);
    assert RemoveChar(v, p) == v[..p] + v[q..];
    SpliceMiddle(v[..p], v[q..], Encode(cc));
  }

  /** The pieces `move_cursor_left` reassembles, in terms of the visible text. */
  lemma SwapLeftParts(v: Text, p: nat, cc: char, s: nat)
    requires s <= p <= |v|
    ensures SwapLeft(Cursored(v, p, cc), s, p, cc) == Cursored(v, s, cc)
  {
    var t := Cursored(v, p, cc);
    CursoredParts(v, p, cc);
    assert t[..s] == v[..s] && t[s..p] == v[s..p];
    assert v[s..] == v[s..p] + v[p..];
    Associative(v[..s] + Encode(cc), v[s..p], v[p..]);
  }

  /** `move_cursor_left` swaps the cursor with the visible character before it: the cursor moves to its start. */
  lemma SwapLeftCursored(v: Text, p: nat, cc: char)
    requires IsCharBoundary(v, p) && 0 < p <= |v|
    ensures var t := Cursored(v, p, cc);
      var s := PrevBoundary(v, p);
      && s == PrevBoundary(t, p) && p + LenUtf8(cc) <= |t|
      && SwapLeft(t, s, p, cc) == Cursored(v, s, cc)
  {
    BoundariesBeforeCursor(v, p, cc);
    SwapLeftParts(v, p, cc, PrevBoundary(v, p));
  }

  /** The pieces `move_cursor_right` reassembles, in terms of the visible text. */
  lemma SwapRightParts(v: Text, p: nat, cc: char, q: nat)
    requires p <= q <= |v|
    ensures SwapRight(Cursored(v, p, cc), p, q + LenUtf8(cc), cc) == v[..p] + v[p..q] + Encode(cc) + v[q..]
  {
    var t := Cursored(v, p, cc);
    var n := LenUtf8(cc);
    CursoredParts(v, p, cc);
    assert t[..p] == v[..p] && t[p + n..q + n] == v[p..q] && t[q + n..] == v[q..];
  }

  /** `move_cursor_right` swaps the cursor with the visible character after it: the cursor moves to its end. */
  lemma SwapRightCursored(v: Text, p: nat, cc: char)
    requires StartsOnChar(v) && IsCharBoundary(v, p) && p < |v|
    ensures var t := Cursored(v, p, cc);
      var q := NextBoundary(v, p);
      && p + LenUtf8(cc) < |t| && NextBoundary(t, p + LenUtf8(cc)) == q + LenUtf8(cc)
      && SwapRight(t, p, q + LenUtf8(cc), cc) == Cursored(v, q, cc)
  {
    var q := NextBoundary(v, p);
    BoundariesAfterCursor(v, p, cc);
    SwapRightParts(v, p, cc, q);
    assert v[..q] == v[..p] + v[p..q];
  }

  /**
   * `move_cursor_right` on the buffer with the cursor at `p`: with `e` the
   * end of the character after the cursor, the text before, that character,
   * the cursor and the rest make the visible text with the cursor after the
   * character.
   */
  lemma MoveRightAssembled(v: Text, p: nat, cc: char, e: nat)
    requires StartsOnChar(v) && IsCharBoundary(v, p) && p < |v|
    requires p + LenUtf8(cc) < |Cursored(v, p, cc)| && e == NextBoundary(Cursored(v, p, cc), p + LenUtf8(cc))
    ensures var t := Cursored(v, p, cc);
      && p + LenUtf8(cc) <= e <= |t| && e - LenUtf8(cc) == NextBoundary(v, p)
      && t[..p] + (t[p + LenUtf8(cc)..e] + Encode(cc)) + t[e..] == Cursored(v, NextBoundary(v, p), cc)
  {
    var t := Cursored(v, p, cc);
    SwapRightCursored(v, p, cc);
    Associative(t[..p], t[p + LenUtf8(cc)..e], Encode(cc));
  }
  // ---------------------------------------------------------------------
  // Stepping over one character and back

  /** Stepping back over the character that ends at a boundary, then forward over it, returns to the boundary. */
  lemma NextAfterPrev(t: Text, p: nat)
    requires IsCharBoundary(t, p) && 0 < p <= |t|
    ensures NextBoundary(t, PrevBoundary(t, p)) == p
  {
    var e := NextBoundary(t, PrevBoundary(t, p));
    assert !(e < p) && !(p < e);
  }

  /** Stepping forward over the character that starts at a boundary, then back over it, returns to the boundary. */
  lemma PrevAfterNext(t: Text, p: nat)
    requires IsCharBoundary(t, p) && p < |t|
    ensures PrevBoundary(t, NextBoundary(t, p)) == p
  {
    var s := PrevBoundary(t, NextBoundary(t, p));
    assert !(s < p) && !(p < s);
  }

  /** A character just inserted at `p` is the one that ends at `p + len_utf8(c)`, and removing it gives the text back. */
  lemma InsertedChar(v: Text, p: nat, c: char)
    requires StartsOnChar(v) && IsCharBoundary(v, p)
    ensures PrevBoundary(InsertChar(v, p, c), p + LenUtf8(c)) == p
    ensures RemoveChar(InsertChar(v, p, c), p) == v
  {
    var t := Cursored(v, p, c);
    assert t == InsertChar(v, p, c);
    CursorBytes(v, p, c);
    forall j | p < j < p + LenUtf8(c) ensures !IsCharBoundary(t, j) {
      NoBoundaryInsideCursor(v, p, c, j);
    }
    var s := PrevBoundary(t, p + LenUtf8(c));
    assert !(s < p) && !(p < s);
    UnfocusCursored(v, p, c);
  }
}

/** Small shared vocabulary: Rust's `Option`, bytes, and decimal formatting. */
module Base {

  /** Rust's `Option<T>`. */
  datatype Option<T> = None | Some(value: T)

  /** One byte of a UTF-8 `String`. */
  newtype byte = x: int | 0 <= x < 256

  /** The bytes of a Rust `String`; offsets into it are byte offsets, as in Rust. */
  type Text = seq<byte>

  predicate IsDigit(c: char) { '0' <= c <= '9' }

  /** Decimal rendering of a `usize`, as `format!("{}", n)` gives it. */
  function NatToString(n: nat): (r: string)
    ensures 1 <= |r|
    ensures forall i :: 0 <= i < |r| ==> IsDigit(r[i])
    ensures n < 10 <==> |r| == 1
    decreases n
  {
    var d := ['0' + (n % 10) as char];
    if n < 10 then d else NatToString(n / 10) + d
  }

  /** Reading a rendering back gives the number: the rendering is injective. */
  function DigitsValue(s: string): nat
    requires forall i :: 0 <= i < |s| ==> IsDigit(s[i])
  {
    if s == [] then 0
    else
      assert IsDigit(s[|s| - 1]);
      10 * DigitsValue(s[..|s| - 1]) + (s[|s| - 1] as int - '0' as int)
  }

  lemma {:induction false} NatToStringRoundTrip(n: nat)
    ensures DigitsValue(NatToString(n)) == n
    decreases n
  {
    var r := NatToString(n);
    if n >= 10 {
      NatToStringRoundTrip(n / 10);
      assert r[..|r| - 1] == NatToString(n / 10);
    }
  }

  lemma NatToStringInjective(m: nat, n: nat)
    requires NatToString(m) == NatToString(n)
    ensures m == n
  {
    NatToStringRoundTrip(m);
    NatToStringRoundTrip(n);
  }

  /** Replacing element `i` of `s`, when the elements before it are `done`, appends to `done`. */
  lemma ReplaceNext<T>(done: seq<T>, s: seq<T>, i: nat, x: T)
    requires i < |s| && s[..i] == done
    ensures s[i := x] == done + [x] + s[i + 1..]
  {
  }

  /** Replacing the element after `done` in `done + rest` appends to `done`. */
  lemma ReplaceFirst<T>(done: seq<T>, rest: seq<T>, x: T)
    requires rest != []
    ensures (done + rest)[|done| := x] == done + [x] + rest[1..]
  {
  }

  /** Each element of `xs` appears once (for a sequence of objects: no two positions alias). */
  predicate Distinct<T(==)>(xs: seq<T>)
  {
    forall j, k :: 0 <= j < k < |xs| ==> xs[j] != xs[k]
  }
}

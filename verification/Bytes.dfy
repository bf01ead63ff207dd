/** Bytes, little-endian integers and the byte order on strings that every other module uses. */
module Bytes {
  type byte = x: int | 0 <= x < 0x100
  type u16 = x: int | 0 <= x < 0x1_0000
  type u64 = x: int | 0 <= x < 0x1_0000_0000_0000_0000
  type bytes = seq<byte>

  datatype Option<+T> = None | Some(value: T) {
    predicate IsFailure() { None? }

    function PropagateFailure<U>(): Option<U>
      requires None?
    {
      None
    }

    function Extract(): T
      requires Some?
    {
      value
    }
  }

  datatype Result<+T, +E> = Ok(value: T) | Err(error: E)

  function Min(a: nat, b: nat): nat {
    if a < b then a else b
  }

  // ---------------------------------------------------------------- little-endian integers

  function Power256(n: nat): (p: nat)
    ensures p > 0
  {
    if n == 0 then 1 else 0x100 * Power256(n - 1)
  }

  /** The low `width` bytes of `v`, least significant first. */
  function LittleEndian(v: nat, width: nat): (b: bytes)
    ensures |b| == width
  {
    if width == 0 then [] else [v % 0x100] + LittleEndian(v / 0x100, width - 1)
  }

  function FromLittleEndian(b: bytes): nat {
    if b == [] then 0 else b[0] + 0x100 * FromLittleEndian(b[1..])
  }

  lemma PowerValues()
    ensures Power256(2) == 0x1_0000
    ensures Power256(4) == 0x1_0000_0000
    ensures Power256(8) == 0x1_0000_0000_0000_0000
  {
    assert Power256(1) == 0x100 * Power256(0);
    assert Power256(2) == 0x100 * Power256(1);
    assert Power256(3) == 0x100 * Power256(2);
    assert Power256(4) == 0x100 * Power256(3);
    assert Power256(5) == 0x100 * Power256(4);
    assert Power256(6) == 0x100 * Power256(5);
    assert Power256(7) == 0x100 * Power256(6);
    assert Power256(8) == 0x100 * Power256(7);
  }

  lemma {:induction false} LittleEndianValue(v: nat, width: nat)
    requires v < Power256(width)
    ensures FromLittleEndian(LittleEndian(v, width)) == v
  {
    if width > 0 {
      var b := LittleEndian(v, width);
      assert b[1..] == LittleEndian(v / 0x100, width - 1);
      LittleEndianValue(v / 0x100, width - 1);
    }
  }

  lemma {:induction false} LittleEndianBytes(b: bytes)
    ensures FromLittleEndian(b) < Power256(|b|)
    ensures LittleEndian(FromLittleEndian(b), |b|) == b
  {
    if b != [] {
      LittleEndianBytes(b[1..]);
      assert b == [b[0]] + b[1..];
      assert FromLittleEndian(b) % 0x100 == b[0];
      assert FromLittleEndian(b) / 0x100 == FromLittleEndian(b[1..]);
    }
  }

  function TwoBytes(b0: int, b1: int): int { b0 + 0x100 * b1 }

  function FourBytes(b0: int, b1: int, b2: int, b3: int): int { b0 + 0x100 * b1 + 0x1_0000 * b2 + 0x100_0000 * b3 }

  function EightBytes(b: bytes): int
    requires |b| >= 8
  {
    FourBytes(b[0], b[1], b[2], b[3]) + 0x1_0000_0000 * FourBytes(b[4], b[5], b[6], b[7])
  }

  /** The widths in use, written out: the first byte has the lowest weight. */
  lemma FixedWidths(b: bytes)
    ensures |b| == 2 ==> FromLittleEndian(b) == TwoBytes(b[0], b[1])
    ensures |b| == 4 ==> FromLittleEndian(b) == FourBytes(b[0], b[1], b[2], b[3])
    ensures |b| == 8 ==> FromLittleEndian(b) == EightBytes(b)
  {
    if |b| == 2 {
      assert FromLittleEndian(b[2..]) == 0 && b[1..][1..] == b[2..];
    }
    if |b| == 4 { FromFourOn(b); }
    if |b| == 8 {
      FromFourOn(b);
      FromFourOn(b[4..]);
      assert FromLittleEndian(b[4..][4..]) == 0;
    }
  }

  lemma FromFourOn(b: bytes)
    requires |b| >= 4
    ensures FromLittleEndian(b)
         == FourBytes(b[0], b[1], b[2], b[3]) + 0x1_0000_0000 * FromLittleEndian(b[4..])
  {
    assert b[1..][1..] == b[2..] && b[2..][1..] == b[3..] && b[3..][1..] == b[4..];
    assert FromLittleEndian(b) == b[0] + 0x100 * FromLittleEndian(b[1..]);
    assert FromLittleEndian(b[1..]) == b[1] + 0x100 * FromLittleEndian(b[2..]);
    assert FromLittleEndian(b[2..]) == b[2] + 0x100 * FromLittleEndian(b[3..]);
    assert FromLittleEndian(b[3..]) == b[3] + 0x100 * FromLittleEndian(b[4..]);
  }

  // ---------------------------------------------------------------- lexicographic order

  /** `std::string`'s operator<: the unsigned bytes compared left to right, a proper prefix first. */
  predicate Below(a: bytes, b: bytes) {
    b != [] && (a == [] || a[0] < b[0] || (a[0] == b[0] && Below(a[1..], b[1..])))
  }

  /** `a` agrees with `b` up to `k`, where it ends or has the smaller byte. */
  predicate DiffersAt(a: bytes, b: bytes, k: nat) {
    k <= |a| && k < |b| && a[..k] == b[..k] && (k == |a| || a[k] < b[k])
  }

  predicate Precedes(a: bytes, b: bytes) { exists k | 0 <= k <= |a| :: DiffersAt(a, b, k) }

  /** The order without recursion: at the first difference the smaller byte, or the end, comes first. */
  lemma {:induction false} BelowExactly(a: bytes, b: bytes)
    ensures Below(a, b) <==> Precedes(a, b)
  {
    if a != [] && b != [] && a[0] == b[0] {
      BelowExactly(a[1..], b[1..]);
      if k :| 0 <= k <= |a| - 1 && DiffersAt(a[1..], b[1..], k) {
        assert a[..k + 1] == [a[0]] + a[1..][..k] && b[..k + 1] == [b[0]] + b[1..][..k];
        assert DiffersAt(a, b, k + 1);
      }
      if k :| 0 <= k <= |a| && DiffersAt(a, b, k) {
        assert k > 0;
        assert a[1..][..k - 1] == a[..k][1..] && b[1..][..k - 1] == b[..k][1..];
        assert DiffersAt(a[1..], b[1..], k - 1);
      }
    } else {
      if k :| 0 <= k <= |a| && DiffersAt(a, b, k) { FirstDiffers(a, b, k); }
      if Below(a, b) { assert DiffersAt(a, b, 0); }
    }
  }

  lemma FirstDiffers(a: bytes, b: bytes, k: nat)
    requires DiffersAt(a, b, k)
    ensures k > 0 ==> a != [] && b != [] && a[0] == b[0]
  {
    if k > 0 { assert a[..k][0] == b[..k][0]; }
  }

  lemma {:induction false} BelowIrreflexive(a: bytes)
    ensures !Below(a, a)
  {
    if a != [] { BelowIrreflexive(a[1..]); }
  }

  lemma {:induction false} BelowTransitive(a: bytes, b: bytes, c: bytes)
    requires Below(a, b) && Below(b, c)
    ensures Below(a, c)
  {
    if a != [] && a[0] == b[0] && b[0] == c[0] {
      BelowTransitive(a[1..], b[1..], c[1..]);
    }
  }

  lemma {:induction false} BelowTotal(a: bytes, b: bytes)
    ensures a == b || Below(a, b) || Below(b, a)
  {
    if a != [] && b != [] {
      BelowTotal(a[1..], b[1..]);
      if a[0] == b[0] && a[1..] == b[1..] {
        assert a == [a[0]] + a[1..] && b == [b[0]] + b[1..];
      }
    }
  }

  /** Strictly increasing: sorted and without duplicates. */
  predicate StrictlySorted(s: seq<bytes>) {
    forall i, j :: 0 <= i < j < |s| ==> Below(s[i], s[j])
  }

  function ToSet(s: seq<bytes>): (r: set<bytes>)
    ensures forall x :: x in r <==> x in s
  {
    set x | x in s
  }

  /** A strictly increasing sequence is determined by the set of its elements. */
  lemma {:induction false} StrictlySortedUnique(s: seq<bytes>, t: seq<bytes>)
    requires StrictlySorted(s) && StrictlySorted(t) && ToSet(s) == ToSet(t)
    ensures s == t
  {
    assert s != [] ==> s[0] in ToSet(s);
    assert t != [] ==> t[0] in ToSet(t);
    if s != [] && t != [] {
      FirstIsLeast(s, t);
      FirstIsLeast(t, s);
      BelowTotal(s[0], t[0]);
      TailSet(s);
      TailSet(t);
      StrictlySortedUnique(s[1..], t[1..]);
      assert s == [s[0]] + s[1..] && t == [t[0]] + t[1..];
    }
  }

  lemma FirstIsLeast(s: seq<bytes>, t: seq<bytes>)
    requires s != [] && t != [] && StrictlySorted(s) && StrictlySorted(t) && ToSet(s) == ToSet(t)
    ensures !Below(t[0], s[0])
  {
    assert t[0] in ToSet(s);
    var i :| 0 <= i < |s| && s[i] == t[0];
    if Below(t[0], s[0]) {
      if i > 0 { BelowTransitive(t[0], s[0], s[i]); }
      BelowIrreflexive(t[0]);
    }
  }

  lemma TailSet(s: seq<bytes>)
    requires s != [] && StrictlySorted(s)
    ensures ToSet(s[1..]) == ToSet(s) - {s[0]}
  {
    BelowIrreflexive(s[0]);
    forall x ensures x in s[1..] <==> x in s && x != s[0] {
      if x in s[1..] {
        var i :| 0 <= i < |s| - 1 && s[1..][i] == x;
        assert s[i + 1] == x && Below(s[0], s[i + 1]);
      }
      if x in s && x != s[0] {
        var i :| 0 <= i < |s| && s[i] == x;
        assert s[1..][i - 1] == x;
      }
    }
  }

  /** The bytes of an ASCII message. */
  function Ascii(s: string): (b: bytes)
    ensures |b| == |s|
  {
    seq(|s|, i requires 0 <= i < |s| => s[i] as int % 0x100)
  }
}

/**
 Single-line UTF-8 for terminal input and display.  The specification is the encoder of sections 3
 and 4 of RFC 3629; the two loops work on bytes with masks and shifts, as bit-vectors.
 */
module Utf8 {
  type octet = bv8
  type text = seq<octet>

  // ---------------------------------------------------------------- the encoder

  /** A Unicode scalar value: at most U+10FFFF and not a surrogate. */
  predicate IsScalar(c: bv32) { c <= 0x10_FFFF && !(0xD800 <= c <= 0xDFFF) }

  /** A scalar value that may stand in a single line: not NUL, line feed or carriage return. */
  predicate InLine(c: bv32) { IsScalar(c) && c != 0 && c != 0x0A && c != 0x0D }

  /** The continuation octets, the last one first. */
  function Tail0(c: bv32): octet { 0x80 | ((c & 0x3F) as octet) }
  function Tail1(c: bv32): octet { 0x80 | (((c >> 6) & 0x3F) as octet) }
  function Tail2(c: bv32): octet { 0x80 | (((c >> 12) & 0x3F) as octet) }
  function Lead2(c: bv32): octet { 0xC0 | (((c >> 6) & 0x1F) as octet) }
  function Lead3(c: bv32): octet { 0xE0 | (((c >> 12) & 0x0F) as octet) }
  function Lead4(c: bv32): octet { 0xF0 | (((c >> 18) & 0x07) as octet) }

  /** The table of section 3: the shortest form of a scalar value. */
  function Encode(c: bv32): (t: text)
    ensures 1 <= |t| <= 4
  {
    if c <= 0x7F then [(c & 0x7F) as octet]
    else if c <= 0x7FF then [Lead2(c), Tail0(c)]
    else if c <= 0xFFFF then [Lead3(c), Tail1(c), Tail0(c)]
    else [Lead4(c), Tail2(c), Tail1(c), Tail0(c)]
  }

  function EncodeAll(cs: seq<bv32>): text {
    if cs == [] then [] else Encode(cs[0]) + EncodeAll(cs[1..])
  }

  // ---------------------------------------------------------------- one sequence of octets

  predicate IsTail(b: octet) { 0x80 <= b <= 0xBF }

  /** The second octet a three-octet lead allows: no overlong form, no surrogate. */
  predicate Second3(a: octet, b: octet) {
    (a == 0xE0 && 0xA0 <= b <= 0xBF) || (a == 0xED && 0x80 <= b <= 0x9F)
    || (((0xE1 <= a <= 0xEC) || (0xEE <= a <= 0xEF)) && IsTail(b))
  }

  /** The second octet a four-octet lead allows: no overlong form, nothing above U+10FFFF. */
  predicate Second4(a: octet, b: octet) {
    (a == 0xF0 && 0x90 <= b <= 0xBF) || (0xF1 <= a <= 0xF3 && IsTail(b)) || (a == 0xF4 && 0x80 <= b <= 0x8F)
  }

  /** How many octets the first scalar value of `t` takes; 0 if `t` does not begin with one allowed in a line. */
  function FirstLength(t: text): (n: nat)
    ensures n <= |t| && n <= 4
  {
    if t == [] then 0
    else if t[0] <= 0x7F then if t[0] == 0 || t[0] == 0x0A || t[0] == 0x0D then 0 else 1
    else if 0xC2 <= t[0] <= 0xDF then if |t| >= 2 && IsTail(t[1]) then 2 else 0
    else if 0xE0 <= t[0] <= 0xEF then if |t| >= 3 && Second3(t[0], t[1]) && IsTail(t[2]) then 3 else 0
    else if 0xF0 <= t[0] <= 0xF4 then
      if |t| >= 4 && Second4(t[0], t[1]) && IsTail(t[2]) && IsTail(t[3]) then 4 else 0
    else 0
  }

  function Decode1(a: octet): bv32 { a as bv32 }

  function Decode2(a: octet, b: octet): bv32 { ((a & 0x1F) as bv32 << 6) | ((b & 0x3F) as bv32) }

  function Decode3(a: octet, b: octet, c: octet): bv32 {
    ((a & 0x0F) as bv32 << 12) | ((b & 0x3F) as bv32 << 6) | ((c & 0x3F) as bv32)
  }

  function Decode4(a: octet, b: octet, c: octet, d: octet): bv32 {
    ((a & 0x07) as bv32 << 18) | ((b & 0x3F) as bv32 << 12) | ((c & 0x3F) as bv32 << 6) | ((d & 0x3F) as bv32)
  }

  function FirstScalar(t: text): bv32
    requires FirstLength(t) > 0
  {
    if FirstLength(t) == 1 then Decode1(t[0])
    else if FirstLength(t) == 2 then Decode2(t[0], t[1])
    else if FirstLength(t) == 3 then Decode3(t[0], t[1], t[2])
    else Decode4(t[0], t[1], t[2], t[3])
  }

  lemma Decoded1(a: octet)
    requires a <= 0x7F && a != 0 && a != 0x0A && a != 0x0D
    ensures InLine(Decode1(a)) && Decode1(a) <= 0x7F && (Decode1(a) & 0x7F) as octet == a
  {}

  lemma Decoded2(a: octet, b: octet)
    requires 0xC2 <= a <= 0xDF && IsTail(b)
    ensures var c := Decode2(a, b); InLine(c) && 0x80 <= c <= 0x7FF && Lead2(c) == a && Tail0(c) == b
  {}

  lemma Decoded3(a: octet, b: octet, d: octet)
    requires Second3(a, b) && IsTail(d)
    ensures var c := Decode3(a, b, d);
      InLine(c) && 0x800 <= c <= 0xFFFF && Lead3(c) == a && Tail1(c) == b && Tail0(c) == d
  {}

  lemma Decoded4(a: octet, b: octet, d: octet, e: octet)
    requires Second4(a, b) && IsTail(d) && IsTail(e)
    ensures var c := Decode4(a, b, d, e);
      InLine(c) && 0x1_0000 <= c && Lead4(c) == a && Tail2(c) == b && Tail1(c) == d && Tail0(c) == e
  {}

  lemma Encoded1(c: bv32)
    requires InLine(c) && c <= 0x7F
    ensures var a := (c & 0x7F) as octet; a <= 0x7F && a != 0 && a != 0x0A && a != 0x0D && Decode1(a) == c
  {}

  lemma Encoded2(c: bv32)
    requires 0x80 <= c <= 0x7FF
    ensures 0xC2 <= Lead2(c) <= 0xDF && IsTail(Tail0(c)) && Decode2(Lead2(c), Tail0(c)) == c
  {}

  lemma Encoded3(c: bv32)
    requires InLine(c) && 0x800 <= c <= 0xFFFF
    ensures 0xE0 <= Lead3(c) <= 0xEF && Second3(Lead3(c), Tail1(c)) && IsTail(Tail0(c))
  {}

  lemma Decoded3Again(c: bv32)
    requires 0x800 <= c <= 0xFFFF
    ensures Decode3(Lead3(c), Tail1(c), Tail0(c)) == c
  {}

  lemma Encoded4(c: bv32)
    requires InLine(c) && 0x1_0000 <= c
    ensures 0xF0 <= Lead4(c) <= 0xF4 && Second4(Lead4(c), Tail2(c)) && IsTail(Tail1(c)) && IsTail(Tail0(c))
  {}

  lemma Decoded4Again(c: bv32)
    requires 0x1_0000 <= c <= 0x10_FFFF
    ensures Decode4(Lead4(c), Tail2(c), Tail1(c), Tail0(c)) == c
  {}

  // ---------------------------------------------------------------- first scalar values

  /** Where a text begins with an allowed scalar value, that value's encoding is what it begins with. */
  lemma FirstDecodes(t: text)
    requires FirstLength(t) > 0
    ensures InLine(FirstScalar(t)) && Encode(FirstScalar(t)) == t[..FirstLength(t)]
  {
    hide Decode1, Decode2, Decode3, Decode4, Lead2, Lead3, Lead4, Tail0, Tail1, Tail2, InLine;
    if FirstLength(t) == 1 { Decoded1(t[0]); }
    else if FirstLength(t) == 2 { Decoded2(t[0], t[1]); }
    else if FirstLength(t) == 3 { Decoded3(t[0], t[1], t[2]); }
    else { Decoded4(t[0], t[1], t[2], t[3]); }
  }

  /** Where a text begins with the encoding of an allowed scalar value, that is found and nothing else. */
  lemma FirstIsFound(c: bv32, rest: text)
    requires InLine(c)
    ensures FirstLength(Encode(c) + rest) == |Encode(c)| && FirstScalar(Encode(c) + rest) == c
  {
    hide Decode1, Decode2, Decode3, Decode4, Lead2, Lead3, Lead4, Tail0, Tail1, Tail2;
    if c <= 0x7F {
      Encoded1(c);
    } else if c <= 0x7FF {
      Encoded2(c);
    } else if c <= 0xFFFF {
      Encoded3(c);
      Decoded3Again(c);
    } else {
      Encoded4(c);
      Decoded4Again(c);
    }
  }

  // ---------------------------------------------------------------- whole texts

  predicate Valid(t: text) {
    t == [] || (FirstLength(t) > 0 && Valid(t[FirstLength(t)..]))
  }

  function Decode(t: text): seq<bv32>
    requires Valid(t)
  {
    if t == [] then [] else [FirstScalar(t)] + Decode(t[FirstLength(t)..])
  }

  predicate AllInLine(cs: seq<bv32>) { forall c | c in cs :: InLine(c) }

  lemma NoScalars()
    ensures AllInLine([]) && EncodeAll([]) == []
  {}

  lemma EncodeCons(c: bv32, cs: seq<bv32>)
    ensures EncodeAll([c] + cs) == Encode(c) + EncodeAll(cs)
    ensures AllInLine([c] + cs) <==> InLine(c) && AllInLine(cs)
  {
    hide Encode, InLine;
    assert ([c] + cs)[1..] == cs;
    assert c in [c] + cs && forall d | d in cs :: d in [c] + cs;
  }

  lemma {:induction false} DecodeIsInverse(t: text)
    requires Valid(t)
    ensures AllInLine(Decode(t)) && EncodeAll(Decode(t)) == t
  {
    hide FirstLength, FirstScalar, Encode, EncodeAll, AllInLine;
    if t == [] {
      NoScalars();
    } else {
      var n := FirstLength(t);
      FirstDecodes(t);
      DecodeIsInverse(t[n..]);
      EncodeCons(FirstScalar(t), Decode(t[n..]));
      assert t == t[..n] + t[n..];
    }
  }

  lemma {:induction false} EncodeIsValid(cs: seq<bv32>)
    requires AllInLine(cs)
    ensures Valid(EncodeAll(cs)) && Decode(EncodeAll(cs)) == cs
  {
    if cs != [] {
      assert cs[0] in cs && forall c | c in cs[1..] :: c in cs;
      var rest := EncodeAll(cs[1..]);
      FirstIsFound(cs[0], rest);
      EncodeIsValid(cs[1..]);
      assert EncodeAll(cs)[|Encode(cs[0])|..] == rest;
      assert cs == [cs[0]] + cs[1..];
    }
  }

  /**
   The accepted texts are exactly the RFC 3629 encodings of scalar values without NUL, line feed and
   carriage return, and every accepted text is the encoding of exactly one such sequence.
   */
  lemma ValidExactly(t: text)
    ensures Valid(t) <==> exists cs :: AllInLine(cs) && EncodeAll(cs) == t
    ensures forall cs :: AllInLine(cs) && EncodeAll(cs) == t ==> Valid(t) && cs == Decode(t)
  {
    if Valid(t) { DecodeIsInverse(t); }
    forall cs | AllInLine(cs) && EncodeAll(cs) == t
      ensures Valid(t) && cs == Decode(t)
    {
      EncodeIsValid(cs);
    }
  }

  // ---------------------------------------------------------------- the loops

  /** `is_valid_single_line_utf8`. */
  method IsValidSingleLine(value: text) returns (valid: bool)
    ensures valid <==> Valid(value)
  {
    var index := 0;
    while index < |value|
      invariant index <= |value|
      invariant Valid(value) <==> Valid(value[index..])
    {
      ghost var here := value[index..];
      ghost var n := FirstLength(here);
      assert n > 0 ==> here[n..] == value[index + n..];
      var first := value[index];
      if first <= 0x7F {
        if first == 0 || first == 0x0A || first == 0x0D { return false; }
        index := index + 1;
        continue;
      }
      if first >= 0xC2 && first <= 0xDF {
        if index + 1 >= |value| || !IsTail(value[index + 1]) { return false; }
        index := index + 2;
        continue;
      }
      if first >= 0xE0 && first <= 0xEF {
        if index + 2 >= |value| { return false; }
        var second, third := value[index + 1], value[index + 2];
        var ordinarySecond := ((first >= 0xE1 && first <= 0xEC) || (first >= 0xEE && first <= 0xEF)) && IsTail(second);
        var validSecond :=
          (first == 0xE0 && second >= 0xA0 && second <= 0xBF) ||
          (first == 0xED && second >= 0x80 && second <= 0x9F) || ordinarySecond;
        if !validSecond || !IsTail(third) { return false; }
        index := index + 3;
        continue;
      }
      if first >= 0xF0 && first <= 0xF4 {
        if index + 3 >= |value| { return false; }
        var second, third, fourth := value[index + 1], value[index + 2], value[index + 3];
        var validSecond :=
          (first == 0xF0 && second >= 0x90 && second <= 0xBF) ||
          (first >= 0xF1 && first <= 0xF3 && IsTail(second)) ||
          (first == 0xF4 && second >= 0x80 && second <= 0x8F);
        if !validSecond || !IsTail(third) || !IsTail(fourth) { return false; }
        index := index + 4;
        continue;
      }
      return false;
    }
    return true;
  }

  /** `is_terminal_safe_code_point`. */
  predicate TerminalSafe(c: bv32) { c > 0x1F && (c < 0x7F || c > 0x9F) }

  /** Neither a C0 control character, nor delete, nor a C1 control character. */
  predicate Displayable(t: text) { Valid(t) && forall c | c in Decode(t) :: !(c <= 0x1F) && !(0x7F <= c <= 0x9F) }

  lemma SafeMeans(c: bv32)
    ensures TerminalSafe(c) <==> !(c <= 0x1F) && !(0x7F <= c <= 0x9F)
  {}

  lemma NothingLeft(t: text)
    requires t == []
    ensures Valid(t) && Decode(t) == []
  {}

  /** The decoding moves on by one scalar value. */
  lemma NextScalar(value: text, index: nat)
    requires index < |value| && Valid(value[index..])
    ensures var here := value[index..]; var n := FirstLength(here);
      && 0 < n && index + n <= |value| && Valid(value[index + n..])
      && Decode(here) == [FirstScalar(here)] + Decode(value[index + n..])
  {
    hide FirstLength, FirstScalar;
    var here := value[index..];
    assert here[FirstLength(here)..] == value[index + FirstLength(here)..];
  }

  /** The body of the second loop: the octets ahead are read without tests. */
  method Assemble(value: text, index: nat) returns (codePoint: bv32, next: nat)
    requires index < |value| && Valid(value[index..])
    ensures codePoint == FirstScalar(value[index..]) && next == index + FirstLength(value[index..])
  {
    var first := value[index];
    if first <= 0x7F {
      codePoint := first as bv32;
      next := index + 1;
    } else if first <= 0xDF {
      codePoint := ((first & 0x1F) as bv32 << 6) | ((value[index + 1] & 0x3F) as bv32);
      next := index + 2;
    } else if first <= 0xEF {
      codePoint := ((first & 0x0F) as bv32 << 12) | ((value[index + 1] & 0x3F) as bv32 << 6)
        | ((value[index + 2] & 0x3F) as bv32);
      next := index + 3;
    } else {
      codePoint := ((first & 0x07) as bv32 << 18) | ((value[index + 1] & 0x3F) as bv32 << 12)
        | ((value[index + 2] & 0x3F) as bv32 << 6) | ((value[index + 3] & 0x3F) as bv32);
      next := index + 4;
    }
  }

  /**
   `is_display_safe_single_line_utf8`: the second loop reads ahead without tests.  Every such read is in
   bounds, each code point it assembles is the next one of the unique decoding, and the answer is whether
   all of them may be displayed.
   */
  method IsDisplaySafeSingleLine(value: text) returns (safe: bool)
    ensures safe <==> Displayable(value)
  {
    hide Valid, Decode, TerminalSafe, FirstLength, FirstScalar;
    var valid := IsValidSingleLine(value);
    if !valid { return false; }
    var index := 0;
    assert value[0..] == value && [] + Decode(value) == Decode(value);
    ghost var seen: seq<bv32> := [];
    while index < |value|
      invariant index <= |value| && Valid(value[index..])
      invariant Decode(value) == seen + Decode(value[index..])
      invariant forall c | c in seen :: TerminalSafe(c)
    {
      ghost var here := value[index..];
      NextScalar(value, index);
      var codePoint;
      codePoint, index := Assemble(value, index);
      assert Decode(value) == seen + ([codePoint] + Decode(value[index..]));
      assert codePoint in Decode(value);
      if !TerminalSafe(codePoint) {
        SafeMeans(codePoint);
        return false;
      }
      seen := seen + [codePoint];
    }
    NothingLeft(value[index..]);
    assert Decode(value) == seen;
    forall c | c in Decode(value) ensures !(c <= 0x1F) && !(0x7F <= c <= 0x9F) { SafeMeans(c); }
    return true;
  }
}

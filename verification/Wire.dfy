/**
 The cursor primitives the codecs are written with: a reader and a writer over a fixed buffer,
 a size counter, and the encode closures that are run first over a counter and then over a writer.
 */
module Wire {
  import opened Bytes

  const SIZE_MAX: nat := 0xFFFF_FFFF_FFFF_FFFF
  const U32_MAX: nat := 0xFFFF_FFFF

  // ---------------------------------------------------------------- reading, on values

  /** A value and the bytes that follow it. */
  datatype Read<+T> = Read(value: T, rest: bytes)

  function TakeBytes(b: bytes, n: nat): Option<Read<bytes>> {
    if n <= |b| then Some(Read(b[..n], b[n..])) else None
  }

  function TakeUint(b: bytes, width: nat): Option<Read<nat>> {
    if width <= |b| then Some(Read(FromLittleEndian(b[..width]), b[width..])) else None
  }

  /** A u32 length of at most `maximum`, then that many bytes. */
  function TakeSized(b: bytes, maximum: nat): Option<Read<bytes>> {
    var size :- TakeUint(b, 4);
    if size.value > maximum || size.value > |size.rest| then None
    else Some(Read(size.rest[..size.value], size.rest[size.value..]))
  }

  /** The encoding of a byte string: its u32 length, then the bytes. */
  function Sized(v: bytes): (b: bytes)
    ensures |b| == 4 + |v|
  {
    LittleEndian(|v|, 4) + v
  }

  lemma TakeUintExact(b: bytes, width: nat, v: nat, rest: bytes)
    requires v < Power256(width)
    ensures TakeUint(b, width) == Some(Read(v, rest)) <==> b == LittleEndian(v, width) + rest
  {
    hide LittleEndian, FromLittleEndian, Power256;
    LittleEndianValue(v, width);
    if width <= |b| {
      LittleEndianBytes(b[..width]);
      assert b == b[..width] + b[width..];
    }
    if b == LittleEndian(v, width) + rest {
      assert b[..width] == LittleEndian(v, width) && b[width..] == rest;
    }
  }

  /** A sized string is read back exactly, and nothing else is read as that string. */
  lemma TakeSizedExact(b: bytes, maximum: nat, v: bytes, rest: bytes)
    requires maximum <= U32_MAX
    ensures TakeSized(b, maximum) == Some(Read(v, rest))
       <==> |v| <= maximum && b == Sized(v) + rest
  {
    hide LittleEndian, FromLittleEndian, Power256;
    PowerValues();
    if |b| >= 4 {
      LittleEndianBytes(b[..4]);
      var n := FromLittleEndian(b[..4]);
      TakeUintExact(b, 4, n, b[4..]);
      if TakeSized(b, maximum) == Some(Read(v, rest)) {
        assert b[4..] == v + rest;
        assert b == LittleEndian(|v|, 4) + (v + rest) == Sized(v) + rest;
      }
    }
    if |v| <= maximum && b == Sized(v) + rest {
      assert b == LittleEndian(|v|, 4) + (v + rest);
      TakeUintExact(b, 4, |v|, v + rest);
      assert (v + rest)[..|v|] == v && (v + rest)[|v|..] == rest;
    }
  }

  /** A string by its offsets: a four-byte length, then the bytes. */
  predicate IsSized(b: bytes, v: bytes) {
    |b| == 4 + |v| && FourBytes(b[0], b[1], b[2], b[3]) == |v| && b[4..] == v
  }

  lemma SizedLayout(b: bytes, v: bytes)
    requires |v| <= U32_MAX
    ensures b == Sized(v) <==> IsSized(b, v)
  {
    hide FromLittleEndian, LittleEndian, FourBytes;
    PowerValues();
    if |b| >= 4 {
      FixedWidths(b[..4]);
      TakeUintExact(b, 4, |v|, v);
    }
  }

  // ---------------------------------------------------------------- the reader

  /** A cursor over a span; a read that does not fit fails and leaves the cursor where it was. */
  class Reader {
    const data: bytes
    var cursor: nat

    ghost predicate Valid()
      reads this
    {
      cursor <= |data|
    }

    function Rest(): bytes
      requires Valid()
      reads this
    {
      data[cursor..]
    }

    constructor (data: bytes)
      ensures Valid() && this.data == data && Rest() == data
    {
      this.data := data;
      cursor := 0;
    }

    function Remaining(): (n: nat)
      requires Valid()
      reads this
      ensures n == |Rest()|
    {
      |data| - cursor
    }

    predicate Complete()
      requires Valid()
      reads this
      ensures Complete() <==> Rest() == []
    {
      cursor == |data|
    }

    method ReadBytes(n: nat) returns (ok: bool, value: bytes)
      requires Valid()
      modifies this
      ensures Valid()
      ensures match TakeBytes(old(Rest()), n)
        case Some(r) => ok && value == r.value && Rest() == r.rest
        case None => !ok && Rest() == old(Rest())
    {
      ok, value := Remaining() >= n, [];
      if ok {
        value := data[cursor..cursor + n];
        assert value == Rest()[..n] && data[cursor + n..] == Rest()[n..];
        cursor := cursor + n;
      }
    }

    method ReadUint(width: nat) returns (ok: bool, value: nat)
      requires Valid()
      modifies this
      ensures Valid()
      ensures match TakeUint(old(Rest()), width)
        case Some(r) => ok && value == r.value && Rest() == r.rest && value < Power256(width)
        case None => !ok && Rest() == old(Rest())
    {
      var raw;
      ok, raw := ReadBytes(width);
      value := FromLittleEndian(raw);
      LittleEndianBytes(raw);
    }

    /** `read_sized_bytes`: on failure the cursor may already be past the length. */
    method ReadSizedBytes(maximum: nat) returns (ok: bool, value: bytes)
      requires Valid()
      modifies this
      ensures Valid()
      ensures match TakeSized(old(Rest()), maximum)
        case Some(r) => ok && value == r.value && Rest() == r.rest
        case None => !ok
    {
      var size;
      value := [];
      ok, size := ReadUint(4);
      if ok {
        if size > maximum || size > Remaining() {
          ok := false;
        } else {
          ok, value := ReadBytes(size);
        }
      }
    }
  }

  // ---------------------------------------------------------------- encode closures

  /** One action of an encode closure: write something, or give up unless a test holds. */
  datatype Step =
    | Uint(value: nat, width: nat)
    | Raw(data: bytes)
    | Check(holds: bool)

  type Closure = seq<Step>

  function StepOutput(s: Step): bytes {
    match s
    case Uint(v, w) => LittleEndian(v, w)
    case Raw(d) => d
    case Check(_) => []
  }

  predicate StepPasses(s: Step) { s.Check? ==> s.holds }

  /** No test of the closure fails. */
  predicate Passes(c: Closure) { forall s | s in c :: StepPasses(s) }

  /** What a closure none of whose tests fails writes. */
  function Output(c: Closure): bytes {
    if c == [] then [] else StepOutput(c[0]) + Output(c[1..])
  }

  lemma {:induction false} OutputAppend(c: Closure, d: Closure)
    ensures Output(c + d) == Output(c) + Output(d)
    ensures Passes(c + d) <==> Passes(c) && Passes(d)
  {
    hide Passes;
    PassesAppend(c, d);
    if c == [] {
      assert c + d == d;
    } else {
      assert (c + d)[1..] == c[1..] + d;
      OutputAppend(c[1..], d);
    }
  }

  lemma PassesAppend(c: Closure, d: Closure)
    ensures Passes(c + d) <==> Passes(c) && Passes(d)
  {
    forall s ensures s in c + d <==> s in c || s in d {}
  }

  /** One more step adds its output and its test; a longer closure writes no less. */
  lemma OutputStep(c: Closure, i: nat)
    requires i < |c|
    ensures Output(c[..i + 1]) == Output(c[..i]) + StepOutput(c[i])
    ensures Passes(c[..i + 1]) <==> Passes(c[..i]) && StepPasses(c[i])
    ensures Passes(c) ==> Passes(c[..i + 1])
    ensures |Output(c[..i + 1])| <= |Output(c)|
  {
    assert c[..i + 1] == c[..i] + [c[i]];
    OutputAppend(c[..i], [c[i]]);
    OutputOne(c[i]);
    assert c == c[..i + 1] + c[i + 1..];
    OutputAppend(c[..i + 1], c[i + 1..]);
  }

  lemma OutputOne(s: Step)
    ensures Output([s]) == StepOutput(s)
    ensures Passes([s]) <==> StepPasses(s)
  {
    assert [s][1..] == [];
    assert s in [s];
  }

  /** `write_sized_bytes` and `write_string`: refuse what a u32 length cannot describe. */
  function SizedSteps(v: bytes): Closure {
    [Check(|v| <= U32_MAX)] + [Uint(|v|, 4)] + [Raw(v)]
  }

  lemma SizedStepsOutput(v: bytes)
    ensures Passes(SizedSteps(v)) <==> |v| <= U32_MAX
    ensures Output(SizedSteps(v)) == Sized(v)
  {
    hide LittleEndian, Output, Passes;
    var check, size, raw := Check(|v| <= U32_MAX), Uint(|v|, 4), Raw(v);
    OutputAppend([check] + [size], [raw]);
    OutputAppend([check], [size]);
    OutputOne(check);
    OutputOne(size);
    OutputOne(raw);
  }

  /** The first pass: counts instead of writing, and remembers an overflow of the machine size. */
  class SizeCounter {
    var size: nat
    var ok: bool

    ghost predicate Valid()
      reads this
    {
      size <= SIZE_MAX
    }

    constructor ()
      ensures Valid() && size == 0 && ok
    {
      size, ok := 0, true;
    }

    method Count(n: nat) returns (accepted: bool)
      requires Valid()
      modifies this
      ensures Valid()
      ensures accepted == (old(ok) && old(size) + n <= SIZE_MAX) == ok
      ensures size == if accepted then old(size) + n else old(size)
    {
      ok := ok && size + n <= SIZE_MAX;
      accepted := ok;
      if accepted { size := size + n; }
    }

    /** One write of the closure, or one test. */
    method Do(s: Step) returns (accepted: bool)
      requires Valid() && ok
      modifies this
      ensures Valid()
      ensures accepted <==> StepPasses(s) && old(size) + |StepOutput(s)| <= SIZE_MAX
      ensures accepted ==> ok && size == old(size) + |StepOutput(s)|
    {
      match s {
        case Check(holds) => accepted := holds;
        case Uint(_, w) => accepted := Count(w);
        case Raw(d) => accepted := Count(|d|);
      }
    }

    method Run(c: Closure) returns (accepted: bool)
      requires Valid() && ok
      modifies this
      ensures Valid()
      ensures accepted <==> Passes(c) && old(size) + |Output(c)| <= SIZE_MAX
      ensures accepted ==> ok && size == old(size) + |Output(c)|
    {
      for i := 0 to |c|
        invariant Valid() && ok
        invariant Passes(c[..i]) && size == old(size) + |Output(c[..i])|
      {
        OutputStep(c, i);
        accepted := Do(c[i]);
        if !accepted { return; }
      }
      assert c[..|c|] == c;
      accepted := true;
    }
  }

  /** The second pass: a cursor over a buffer of fixed size. */
  class Writer {
    const buffer: array<byte>
    var cursor: nat

    ghost predicate Valid()
      reads this
    {
      cursor <= buffer.Length
    }

    function Contents(): bytes
      requires Valid()
      reads this, buffer
    {
      buffer[..cursor]
    }

    constructor (buffer: array<byte>)
      ensures Valid() && this.buffer == buffer && cursor == 0 && Contents() == []
    {
      this.buffer := buffer;
      cursor := 0;
    }

    predicate Complete()
      reads this
    {
      cursor == buffer.Length
    }

    method WriteBytes(data: bytes) returns (ok: bool)
      requires Valid()
      modifies this, buffer
      ensures Valid()
      ensures ok <==> old(cursor) + |data| <= buffer.Length
      ensures Contents() == if ok then old(Contents()) + data else old(Contents())
    {
      ok := cursor + |data| <= buffer.Length;
      if ok {
        forall i | 0 <= i < |data| { buffer[cursor + i] := data[i]; }
        cursor := cursor + |data|;
      }
    }

    method Do(s: Step) returns (ok: bool)
      requires Valid()
      modifies this, buffer
      ensures Valid()
      ensures ok <==> StepPasses(s) && old(cursor) + |StepOutput(s)| <= buffer.Length
      ensures ok ==> Contents() == old(Contents()) + StepOutput(s)
    {
      match s {
        case Check(holds) => ok := holds;
        case Uint(v, w) => ok := WriteBytes(LittleEndian(v, w));
        case Raw(d) => ok := WriteBytes(d);
      }
    }

    method Run(c: Closure) returns (ok: bool)
      requires Valid()
      modifies this, buffer
      ensures Valid()
      ensures ok <==> Passes(c) && old(cursor) + |Output(c)| <= buffer.Length
      ensures ok ==> Contents() == old(Contents()) + Output(c)
    {
      for i := 0 to |c|
        invariant Valid()
        invariant Passes(c[..i]) && Contents() == old(Contents()) + Output(c[..i])
      {
        OutputStep(c, i);
        ok := Do(c[i]);
        if !ok { return; }
      }
      assert c[..|c|] == c;
      ok := true;
    }
  }

  // ---------------------------------------------------------------- the two passes

  /** What an encoder that first counts and then writes must produce. */
  function TwoPass(c: Closure, limit: nat): Option<bytes> {
    if Passes(c) && |Output(c)| <= limit then Some(Output(c)) else None
  }

  datatype Encoded = TooLong | Failed | Done(data: bytes)

  /**
   The size pass, the allocation and the write pass, of any closure.  `Failed`, the branch for a
   write pass that disagrees with the size pass, is never the result.
   */
  method EncodeTwoPass(c: Closure, limit: nat) returns (r: Encoded)
    requires limit <= SIZE_MAX
    ensures r == match TwoPass(c, limit) case Some(data) => Done(data) case None => TooLong
  {
    var counter := new SizeCounter();
    var counted := counter.Run(c);
    if !counted || !counter.ok || counter.size > limit {
      return TooLong;
    }
    var data := WriteOut(c, counter.size);
    r := if data.Some? then Done(data.value) else Failed;
  }

  /** The write pass over a new buffer, which it must fill exactly. */
  method WriteOut(c: Closure, size: nat) returns (data: Option<bytes>)
    ensures data == if Passes(c) && |Output(c)| == size then Some(Output(c)) else None
  {
    var buffer := new byte[size];
    var writer := new Writer(buffer);
    var written := writer.Run(c);
    data := None;
    if written && writer.Complete() {
      assert buffer[..] == writer.Contents();
      data := Some(buffer[..]);
    } else if written {
      assert |writer.Contents()| != size;
    }
  }
}

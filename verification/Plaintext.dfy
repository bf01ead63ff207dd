/** The plaintext of a vault file: how a map of secrets is serialized, and which texts are accepted. */
module Plaintext {
  import opened Bytes
  import opened Wire
  import opened Errors
  import SecretId

  type SecretMap = map<bytes, bytes>

  const MAX_SECRET_COUNT: nat := 10000
  const MAX_LEGACY_ID_SIZE: nat := 4096
  const MAX_SECRET_SIZE: nat := 0x10_0000
  const MAX_FILE_SIZE: nat := 64 * 0x10_0000
  const FILE_HEADER_SIZE: nat := 76
  const TAG_SIZE: nat := 16
  const MAX_PLAINTEXT_SIZE: nat := MAX_FILE_SIZE - FILE_HEADER_SIZE - TAG_SIZE

  // ---------------------------------------------------------------- the text of entries

  datatype Entry = Entry(id: bytes, value: bytes)

  function EntryText(e: Entry): (b: bytes)
    ensures |b| == 8 + |e.id| + |e.value|
  {
    Sized(e.id) + Sized(e.value)
  }

  /** An entry by its offsets: the identifier, then the value, each with its length. */
  lemma EntryLayout(b: bytes, e: Entry)
    requires |e.id| <= U32_MAX && |e.value| <= U32_MAX && |b| == 8 + |e.id| + |e.value|
    ensures b == EntryText(e) <==> IsSized(b[..4 + |e.id|], e.id) && IsSized(b[4 + |e.id|..], e.value)
  {
    hide IsSized, LittleEndian;
    SizedLayout(b[..4 + |e.id|], e.id);
    SizedLayout(b[4 + |e.id|..], e.value);
    assert b == b[..4 + |e.id|] + b[4 + |e.id|..];
  }

  function EntriesText(es: seq<Entry>): bytes {
    if es == [] then [] else EntryText(es[0]) + EntriesText(es[1..])
  }

  function PlaintextOf(es: seq<Entry>): bytes { LittleEndian(|es|, 4) + EntriesText(es) }

  /** A plaintext by its offsets: the number of entries, then the entries. */
  lemma PlaintextLayout(b: bytes, es: seq<Entry>)
    requires |b| >= 4 && |es| <= U32_MAX
    ensures b == PlaintextOf(es) <==> FourBytes(b[0], b[1], b[2], b[3]) == |es| && b[4..] == EntriesText(es)
  {
    hide LittleEndian, FromLittleEndian, FourBytes;
    PowerValues();
    FixedWidths(b[..4]);
    TakeUintExact(b, 4, |es|, EntriesText(es));
  }

  function Ids(es: seq<Entry>): (r: seq<bytes>)
    ensures |r| == |es| && forall i | 0 <= i < |es| :: r[i] == es[i].id
  {
    seq(|es|, i requires 0 <= i < |es| => es[i].id)
  }

  // ---------------------------------------------------------------- sorting

  /** `id` put at its place in a sorted sequence. */
  function Insert(id: bytes, s: seq<bytes>): (r: seq<bytes>)
    requires StrictlySorted(s) && id !in s
    ensures StrictlySorted(r) && ToSet(r) == ToSet(s) + {id}
  {
    if s == [] then [id]
    else
      BelowTotal(id, s[0]);
      TailSet(s);
      if Below(id, s[0]) then
        InsertFirst(id, s);
        [id] + s
      else
        var t := Insert(id, s[1..]);
        InsertLater(s[0], s[1..], id, t);
        [s[0]] + t
  }

  lemma InsertFirst(id: bytes, s: seq<bytes>)
    requires StrictlySorted(s) && s != [] && Below(id, s[0])
    ensures StrictlySorted([id] + s) && ToSet([id] + s) == ToSet(s) + {id}
  {
    var r := [id] + s;
    forall i, j | 0 <= i < j < |r| ensures Below(r[i], r[j]) {
      if i == 0 && j > 1 { BelowTransitive(id, s[0], s[j - 1]); }
    }
    forall x ensures x in r <==> x in s || x == id {}
  }

  lemma InsertLater(first: bytes, s: seq<bytes>, id: bytes, t: seq<bytes>)
    requires StrictlySorted([first] + s) && StrictlySorted(t) && ToSet(t) == ToSet(s) + {id}
    requires Below(first, id)
    ensures StrictlySorted([first] + t) && ToSet([first] + t) == ToSet([first] + s) + {id}
  {
    hide Below;
    var r, q := [first] + t, [first] + s;
    forall i, j | 0 <= i < j < |r| ensures Below(r[i], r[j]) {
      assert r[j] == t[j - 1] && t[j - 1] in ToSet(t);
      if i > 0 {
        assert r[i] == t[i - 1];
      } else if t[j - 1] != id {
        assert t[j - 1] in ToSet(s);
        var k :| 0 <= k < |s| && s[k] == t[j - 1];
        assert Below(q[0], q[k + 1]);
      }
    }
    forall x ensures x in r <==> x in q || x == id { assert x in t <==> x in ToSet(t); }
  }

  /** The elements of a set in strictly increasing order; by StrictlySortedUnique there is only one. */
  ghost function SortedIds(s: set<bytes>): (r: seq<bytes>)
    ensures StrictlySorted(r) && ToSet(r) == s
  {
    if s == {} then []
    else
      var x :| x in s;
      var t := SortedIds(s - {x});
      assert x in t <==> x in ToSet(t);
      Insert(x, t)
  }

  lemma {:induction false} SortedIdsCount(ids: seq<bytes>)
    requires StrictlySorted(ids)
    ensures |ToSet(ids)| == |ids|
  {
    if ids != [] {
      TailSet(ids);
      assert ids[0] in ToSet(ids);
      forall i, j | 0 <= i < j < |ids| - 1 ensures Below(ids[1..][i], ids[1..][j]) {}
      SortedIdsCount(ids[1..]);
    } else {
      assert ToSet(ids) == {};
    }
  }

  // ---------------------------------------------------------------- serializing

  function EntriesOf(ids: seq<bytes>, m: SecretMap): (es: seq<Entry>)
    requires forall id | id in ids :: id in m
    ensures |es| == |ids| && Ids(es) == ids
    ensures forall i | 0 <= i < |es| :: es[i] == Entry(ids[i], m[ids[i]])
  {
    seq(|ids|, i requires 0 <= i < |ids| => Entry(ids[i], m[ids[i]]))
  }

  ghost function SortedEntries(m: SecretMap): (es: seq<Entry>)
    ensures |es| == |m|
  {
    var ids := SortedIds(m.Keys);
    SortedIdsCount(ids);
    assert forall id | id in ids :: id in ToSet(ids);
    EntriesOf(ids, m)
  }

  function CountError(): Exception { RuntimeError(TooManyStored) }
  function IdError(): Exception { RuntimeError(BadStoredIdentifier) }
  function SizeError(): Exception { RuntimeError(PlaintextTooLarge) }

  predicate ValidIds(m: SecretMap) { forall id | id in m :: SecretId.IsValid(id) }

  /** The text of a map; it does not mention, and so cannot depend on, any order of iteration. */
  ghost function Serialized(m: SecretMap): Result<bytes, Exception> {
    if |m| > MAX_SECRET_COUNT then Err(CountError())
    else if !ValidIds(m) then Err(IdError())
    else if |PlaintextOf(SortedEntries(m))| > MAX_PLAINTEXT_SIZE then Err(SizeError())
    else Ok(PlaintextOf(SortedEntries(m)))
  }

  // ---------------------------------------------------------------- parsing

  /** One turn of the decoding loop. */
  function ParseEntry(b: bytes, decoded: SecretMap): Option<Read<SecretMap>> {
    var id :- TakeSized(b, MAX_LEGACY_ID_SIZE);
    if id.value == [] then None else
    var value :- TakeSized(id.rest, MAX_SECRET_SIZE);
    if !SecretId.IsValid(id.value) || id.value in decoded then None
    else Some(Read(decoded[id.value := value.value], value.rest))
  }

  function ParseEntries(n: nat, b: bytes, decoded: SecretMap): Option<Read<SecretMap>> {
    if n == 0 then Some(Read(decoded, b)) else
    var r :- ParseEntry(b, decoded);
    ParseEntries(n - 1, r.rest, r.value)
  }

  /** `deserialize_plaintext`; None stands for its exceptions, all of them runtime errors. */
  function ParsePlaintext(p: bytes): Option<SecretMap> {
    var count :- TakeUint(p, 4);
    if count.value > MAX_SECRET_COUNT then None else
    var r :- ParseEntries(count.value, count.rest, map[]);
    if r.rest != [] then None else Some(r.value)
  }

  predicate EntryOk(e: Entry) { SecretId.IsValid(e.id) && |e.value| <= MAX_SECRET_SIZE }

  /** Acceptable entries with new, distinct identifiers. */
  predicate Loadable(es: seq<Entry>, m: SecretMap) {
    es == [] || (EntryOk(es[0]) && es[0].id !in m && Loadable(es[1..], m[es[0].id := es[0].value]))
  }

  function Fill(es: seq<Entry>, m: SecretMap): SecretMap {
    if es == [] then m else Fill(es[1..], m[es[0].id := es[0].value])
  }

  lemma ParseEntryExact(b: bytes, decoded: SecretMap, e: Entry, rest: bytes)
    requires EntryOk(e) && e.id !in decoded && b == EntryText(e) + rest
    ensures ParseEntry(b, decoded) == Some(Read(decoded[e.id := e.value], rest))
  {
    assert b == Sized(e.id) + (Sized(e.value) + rest);
    TakeSizedExact(b, MAX_LEGACY_ID_SIZE, e.id, Sized(e.value) + rest);
    TakeSizedExact(Sized(e.value) + rest, MAX_SECRET_SIZE, e.value, rest);
  }

  lemma ParseEntrySound(b: bytes, decoded: SecretMap) returns (e: Entry)
    requires ParseEntry(b, decoded).Some?
    ensures EntryOk(e) && e.id !in decoded
    ensures ParseEntry(b, decoded).value.value == decoded[e.id := e.value]
    ensures b == EntryText(e) + ParseEntry(b, decoded).value.rest
  {
    var id := TakeSized(b, MAX_LEGACY_ID_SIZE).value;
    var value := TakeSized(id.rest, MAX_SECRET_SIZE).value;
    e := Entry(id.value, value.value);
    TakeSizedExact(b, MAX_LEGACY_ID_SIZE, id.value, id.rest);
    TakeSizedExact(id.rest, MAX_SECRET_SIZE, value.value, value.rest);
    assert b == Sized(e.id) + (Sized(e.value) + value.rest);
  }

  lemma EntriesCons(e: Entry, es: seq<Entry>, m: SecretMap, rest: bytes)
    ensures EntriesText([e] + es) + rest == EntryText(e) + (EntriesText(es) + rest)
    ensures Loadable([e] + es, m) <==> EntryOk(e) && e.id !in m && Loadable(es, m[e.id := e.value])
    ensures Fill([e] + es, m) == Fill(es, m[e.id := e.value])
  {
    assert ([e] + es)[1..] == es;
  }

  lemma {:induction false} ParseEntriesComplete(es: seq<Entry>, m: SecretMap, rest: bytes)
    requires Loadable(es, m)
    ensures ParseEntries(|es|, EntriesText(es) + rest, m) == Some(Read(Fill(es, m), rest))
  {
    if es == [] {
      assert EntriesText(es) + rest == rest;
    } else {
      var e, tail := es[0], EntriesText(es[1..]) + rest;
      assert es == [e] + es[1..];
      EntriesCons(e, es[1..], m, rest);
      ParseEntryExact(EntryText(e) + tail, m, e, tail);
      ParseEntriesComplete(es[1..], m[e.id := e.value], rest);
    }
  }

  ghost predicate EntriesParse(es: seq<Entry>, b: bytes, m: SecretMap, r: Read<SecretMap>) {
    Loadable(es, m) && r.value == Fill(es, m) && b == EntriesText(es) + r.rest
  }

  lemma EntriesParseCons(b: bytes, m: SecretMap, tail: seq<Entry>, r: Read<SecretMap>) returns (e: Entry)
    requires ParseEntry(b, m).Some?
    requires EntriesParse(tail, ParseEntry(b, m).value.rest, ParseEntry(b, m).value.value, r)
    ensures EntriesParse([e] + tail, b, m, r)
  {
    e := ParseEntrySound(b, m);
    EntriesCons(e, tail, m, r.rest);
  }

  lemma {:induction false} ParseEntriesSound(n: nat, b: bytes, m: SecretMap) returns (es: seq<Entry>)
    requires ParseEntries(n, b, m).Some?
    ensures |es| == n && EntriesParse(es, b, m, ParseEntries(n, b, m).value)
  {
    hide ParseEntry, EntryText;
    if n == 0 {
      es := [];
      assert b == [] + b;
    } else {
      var first := ParseEntry(b, m).value;
      var tail := ParseEntriesSound(n - 1, first.rest, first.value);
      var e := EntriesParseCons(b, m, tail, ParseEntries(n, b, m).value);
      es := [e] + tail;
    }
  }

  /** The accepted plaintexts are exactly the texts of at most 10000 acceptable, distinct entries. */
  lemma PlaintextExact(p: bytes, m: SecretMap)
    ensures ParsePlaintext(p) == Some(m)
       <==> exists es :: |es| <= MAX_SECRET_COUNT && Loadable(es, map[]) && p == PlaintextOf(es) && Fill(es, map[]) == m
  {
    PowerValues();
    if ParsePlaintext(p) == Some(m) {
      var count := TakeUint(p, 4).value;
      LittleEndianBytes(p[..4]);
      var es := ParseEntriesSound(count.value, count.rest, map[]);
      TakeUintExact(p, 4, |es|, EntriesText(es));
      assert EntriesText(es) + [] == EntriesText(es);
      assert |es| <= MAX_SECRET_COUNT && Loadable(es, map[]) && p == PlaintextOf(es) && Fill(es, map[]) == m;
    }
    if es :| |es| <= MAX_SECRET_COUNT && Loadable(es, map[]) && p == PlaintextOf(es) && Fill(es, map[]) == m {
      LoadableIsParsed(es);
    }
  }

  lemma LoadableIsParsed(es: seq<Entry>)
    requires |es| <= MAX_SECRET_COUNT && Loadable(es, map[])
    ensures ParsePlaintext(PlaintextOf(es)) == Some(Fill(es, map[]))
  {
    PowerValues();
    TakeUintExact(PlaintextOf(es), 4, |es|, EntriesText(es));
    assert EntriesText(es) + [] == EntriesText(es);
    ParseEntriesComplete(es, map[], []);
  }

  // ---------------------------------------------------------------- sizes

  /** The bytes a map's entries take, in whatever order they are written. */
  ghost function Weight(m: SecretMap): nat {
    if m == map[] then 0
    else
      var id :| id in m;
      8 + |id| + |m[id]| + Weight(m - {id})
  }

  lemma {:induction false} WeightRemove(m: SecretMap, id: bytes)
    requires id in m
    ensures Weight(m) == 8 + |id| + |m[id]| + Weight(m - {id})
    decreases |m|
  {
    var x :| x in m && Weight(m) == 8 + |x| + |m[x]| + Weight(m - {x});
    if x != id {
      assert (m - {x})[id] == m[id] && (m - {id})[x] == m[x];
      WeightRemove(m - {x}, id);
      WeightRemove(m - {id}, x);
      assert m - {x} - {id} == m - {id} - {x};
    }
  }

  lemma WeightAdd(m: SecretMap, id: bytes, value: bytes)
    ensures Weight(m[id := value]) == 8 + |id| + |value| + Weight(m - {id})
  {
    WeightRemove(m[id := value], id);
    assert m[id := value] - {id} == m - {id};
  }

  lemma {:induction false} FillWeight(es: seq<Entry>, m: SecretMap)
    requires Loadable(es, m)
    ensures Weight(Fill(es, m)) == Weight(m) + |EntriesText(es)|
    ensures |Fill(es, m)| == |m| + |es|
  {
    if es != [] {
      WeightAdd(m, es[0].id, es[0].value);
      assert m - {es[0].id} == m;
      FillWeight(es[1..], m[es[0].id := es[0].value]);
    }
  }

  // ---------------------------------------------------------------- the round trip

  /** What a map must satisfy for its text to be written and to be accepted again. */
  ghost predicate Persistable(m: SecretMap) {
    && |m| <= MAX_SECRET_COUNT
    && ValidIds(m)
    && (forall id | id in m :: |m[id]| <= MAX_SECRET_SIZE)
    && 4 + Weight(m) <= MAX_PLAINTEXT_SIZE
  }

  lemma {:induction false} FillKeeps(es: seq<Entry>, m: SecretMap)
    requires Loadable(es, m)
    ensures forall id | id in m :: id in Fill(es, m) && Fill(es, m)[id] == m[id]
  {
    hide EntryOk;
    if es != [] { FillKeeps(es[1..], m[es[0].id := es[0].value]); }
  }

  lemma {:induction false} FillKeys(es: seq<Entry>, m: SecretMap)
    requires Loadable(es, m)
    ensures Fill(es, m).Keys == m.Keys + ToSet(Ids(es))
  {
    hide EntryOk;
    if es != [] {
      FillKeys(es[1..], m[es[0].id := es[0].value]);
      assert Ids(es) == [es[0].id] + Ids(es[1..]);
    }
  }

  lemma {:induction false} FillEntries(es: seq<Entry>, m: SecretMap)
    requires Loadable(es, m)
    ensures forall e | e in es :: EntryOk(e) && e.id in Fill(es, m) && Fill(es, m)[e.id] == e.value
  {
    hide EntryOk;
    if es != [] {
      var next := m[es[0].id := es[0].value];
      FillEntries(es[1..], next);
      FillKeeps(es[1..], next);
      assert es[0].id in next && next[es[0].id] == es[0].value;
      assert es == [es[0]] + es[1..];
    }
  }

  lemma FillContents(es: seq<Entry>, m: SecretMap)
    requires Loadable(es, m)
    ensures forall e | e in es :: EntryOk(e) && e.id in Fill(es, m) && Fill(es, m)[e.id] == e.value
    ensures Fill(es, m).Keys == m.Keys + ToSet(Ids(es))
  {
    hide Loadable, Fill, EntryOk;
    FillEntries(es, m);
    FillKeys(es, m);
  }

  lemma {:induction false} SortedLoadable(ids: seq<bytes>, m: SecretMap, into: SecretMap)
    requires StrictlySorted(ids)
    requires forall id | id in ids :: id in m && id !in into && EntryOk(Entry(id, m[id]))
    ensures Loadable(EntriesOf(ids, m), into)
  {
    if ids != [] {
      var es := EntriesOf(ids, m);
      assert ids[0] in ids;
      forall id | id in ids[1..] ensures id in ids && id != ids[0] {
        TailSet(ids);
        assert id in ToSet(ids[1..]);
      }
      forall i, j | 0 <= i < j < |ids| - 1 ensures Below(ids[1..][i], ids[1..][j]) {}
      SortedLoadable(ids[1..], m, into[ids[0] := m[ids[0]]]);
      assert es[1..] == EntriesOf(ids[1..], m);
    }
  }

  lemma FillOfEntries(ids: seq<bytes>, m: SecretMap)
    requires StrictlySorted(ids) && (forall id :: id in ids <==> id in m)
    requires forall id | id in m :: EntryOk(Entry(id, m[id]))
    ensures Loadable(EntriesOf(ids, m), map[]) && Fill(EntriesOf(ids, m), map[]) == m
  {
    hide Loadable, Fill, EntryOk, Below;
    var es := EntriesOf(ids, m);
    SortedLoadable(ids, m, map[]);
    FillContents(es, map[]);
    var f := Fill(es, map[]);
    assert f.Keys == m.Keys;
    forall id | id in m ensures f[id] == m[id] {
      var i :| 0 <= i < |ids| && ids[i] == id;
      assert es[i] in es;
    }
  }

  lemma SortedEntriesFill(m: SecretMap)
    requires ValidIds(m) && forall id | id in m :: |m[id]| <= MAX_SECRET_SIZE
    ensures Loadable(SortedEntries(m), map[]) && Fill(SortedEntries(m), map[]) == m
  {
    hide Loadable, Fill, SecretId.IsValid, StrictlySorted;
    var ids := SortedIds(m.Keys);
    assert forall id :: id in ids <==> id in ToSet(ids);
    FillOfEntries(ids, m);
  }

  lemma EntryFirst(e: Entry, tail: bytes, f: Entry, ftail: bytes)
    requires EntryOk(e) && EntryOk(f) && EntryText(e) + tail == EntryText(f) + ftail
    ensures e == f && tail == ftail
  {
    var b := EntryText(e) + tail;
    ParseEntryExact(b, map[], e, tail);
    ParseEntryExact(b, map[], f, ftail);
    var m: SecretMap := map[e.id := e.value];
    assert e.id in m && m == map[f.id := f.value];
  }

  lemma {:induction false} EntriesTextInjective(es: seq<Entry>, fs: seq<Entry>)
    requires |es| == |fs| && EntriesText(es) == EntriesText(fs)
    requires (forall e | e in es :: EntryOk(e)) && (forall f | f in fs :: EntryOk(f))
    ensures es == fs
  {
    if es != [] {
      assert es[0] in es && fs[0] in fs;
      EntryFirst(es[0], EntriesText(es[1..]), fs[0], EntriesText(fs[1..]));
      EntriesTextInjective(es[1..], fs[1..]);
      assert es == [es[0]] + es[1..] && fs == [fs[0]] + fs[1..];
    }
  }

  /** The maps that serialize are exactly those within the count, identifier and size limits. */
  lemma SerializedExact(m: SecretMap)
    requires forall id | id in m :: |m[id]| <= MAX_SECRET_SIZE
    ensures Serialized(m).Ok? <==> Persistable(m)
    ensures Serialized(m).Ok? ==> |Serialized(m).value| == 4 + Weight(m)
  {
    hide Loadable, Fill, SecretId.IsValid, SortedEntries;
    if ValidIds(m) {
      SortedEntriesFill(m);
      FillWeight(SortedEntries(m), map[]);
    }
  }

  /** What is written is read back as the same map. */
  lemma SerializedRoundTrip(m: SecretMap)
    requires Persistable(m)
    ensures Serialized(m).Ok? && ParsePlaintext(Serialized(m).value) == Some(m)
  {
    SerializedExact(m);
    SortedEntriesFill(m);
    LoadableIsParsed(SortedEntries(m));
  }

  /** Everything that is accepted can be written again. */
  lemma ParsedIsPersistable(p: bytes)
    requires ParsePlaintext(p).Some? && |p| <= MAX_PLAINTEXT_SIZE
    ensures Persistable(ParsePlaintext(p).value)
  {
    var m := ParsePlaintext(p).value;
    PlaintextExact(p, m);
    var es :| |es| <= MAX_SECRET_COUNT && Loadable(es, map[]) && p == PlaintextOf(es) && Fill(es, map[]) == m;
    FillWeight(es, map[]);
    FilledIsOk(es);
  }

  lemma SameOrderSameText(es: seq<Entry>)
    requires Loadable(es, map[]) && StrictlySorted(Ids(es))
    ensures es == SortedEntries(Fill(es, map[]))
  {
    var m := Fill(es, map[]);
    var q := SortedEntries(m);
    FillContents(es, map[]);
    StrictlySortedUnique(Ids(es), SortedIds(m.Keys));
    forall i | 0 <= i < |es| ensures es[i] == q[i] {
      assert es[i] in es && es[i].id == Ids(es)[i];
    }
  }

  lemma SameTextSameOrder(es: seq<Entry>)
    requires Loadable(es, map[]) && PlaintextOf(es) == PlaintextOf(SortedEntries(Fill(es, map[])))
    ensures StrictlySorted(Ids(es))
  {
    hide Loadable, Fill, EntryOk, ValidIds, EntriesText;
    var m := Fill(es, map[]);
    var q := SortedEntries(m);
    FillContents(es, map[]);
    FillWeight(es, map[]);
    FilledIsOk(es);
    SortedEntriesFill(m);
    FillContents(q, map[]);
    assert EntriesText(es) == PlaintextOf(es)[4..] && EntriesText(q) == PlaintextOf(q)[4..];
    EntriesTextInjective(es, q);
  }

  lemma FilledIsOk(es: seq<Entry>)
    requires Loadable(es, map[])
    ensures ValidIds(Fill(es, map[]))
    ensures forall id | id in Fill(es, map[]) :: |Fill(es, map[])[id]| <= MAX_SECRET_SIZE
  {
    var m := Fill(es, map[]);
    FillContents(es, map[]);
    forall id | id in m ensures SecretId.IsValid(id) && |m[id]| <= MAX_SECRET_SIZE {
      assert id in Ids(es);
      var i :| 0 <= i < |es| && Ids(es)[i] == id;
      assert es[i] in es;
    }
  }

  /**
   Re-serializing an accepted text keeps its length and its map, and reproduces the text itself
   exactly when its identifiers were in increasing order.
   */
  lemma Normalizes(es: seq<Entry>)
    requires |es| <= MAX_SECRET_COUNT && Loadable(es, map[]) && |PlaintextOf(es)| <= MAX_PLAINTEXT_SIZE
    ensures var m := Fill(es, map[]);
      && Serialized(m).Ok?
      && |Serialized(m).value| == |PlaintextOf(es)|
      && ParsePlaintext(Serialized(m).value) == Some(m)
      && (Serialized(m).value == PlaintextOf(es) <==> StrictlySorted(Ids(es)))
  {
    var m := Fill(es, map[]);
    FilledIsOk(es);
    FillWeight(es, map[]);
    SerializedExact(m);
    SerializedRoundTrip(m);
    if Serialized(m).value == PlaintextOf(es) { SameTextSameOrder(es); }
    if StrictlySorted(Ids(es)) { SameOrderSameText(es); }
  }

  // ---------------------------------------------------------------- the mutations

  /** A put keeps a map persistable exactly when the count and the new size allow it. */
  lemma PutPersistable(m: SecretMap, id: bytes, value: bytes)
    requires Persistable(m) && SecretId.IsValid(id) && |value| <= MAX_SECRET_SIZE
    requires id in m || |m| < MAX_SECRET_COUNT
    ensures Persistable(m[id := value])
       <==> 4 + Weight(m - {id}) + 8 + |id| + |value| <= MAX_PLAINTEXT_SIZE
    ensures Persistable(m[id := value]) <==> Serialized(m[id := value]).Ok?
  {
    WeightAdd(m, id, value);
    SerializedExact(m[id := value]);
  }

  /** A remove never makes a map too large to be written. */
  lemma RemovePersistable(m: SecretMap, id: bytes)
    requires Persistable(m)
    ensures Persistable(m - {id})
  {
    if id in m {
      WeightRemove(m, id);
      assert (m - {id}).Keys == m.Keys - {id};
    } else {
      assert m - {id} == m;
    }
  }
}

/**
 The plaintext codec as the store runs it: identifiers collected in whatever order the hash table
 yields them, sorted, encoded in two passes, and decoded by a loop that fills a map.
 */
module PlaintextCodec {
  import opened Bytes
  import opened Wire
  import opened Errors
  import opened Plaintext
  import SecretId

  /** One turn of the encode closure's loop: find the value, write identifier and value. */
  function EntrySteps(id: bytes, m: SecretMap): Closure {
    [Check(id in m)] + (SizedSteps(id) + SizedSteps(if id in m then m[id] else []))
  }

  function AllEntrySteps(ids: seq<bytes>, m: SecretMap): Closure {
    if ids == [] then [] else EntrySteps(ids[0], m) + AllEntrySteps(ids[1..], m)
  }

  predicate Describable(id: bytes, m: SecretMap) {
    id in m && |id| <= U32_MAX && |m[id]| <= U32_MAX
  }

  lemma EntryStepsOutput(id: bytes, m: SecretMap)
    requires id in m
    ensures Output(EntrySteps(id, m)) == EntryText(Entry(id, m[id]))
    ensures Passes(EntrySteps(id, m)) <==> Describable(id, m)
  {
    SizedStepsOutput(id);
    SizedStepsOutput(m[id]);
    OutputAppend(SizedSteps(id), SizedSteps(m[id]));
    OutputOne(Check(id in m));
    OutputAppend([Check(id in m)], SizedSteps(id) + SizedSteps(m[id]));
  }

  lemma {:induction false} AllEntryStepsOutput(ids: seq<bytes>, m: SecretMap)
    requires forall id | id in ids :: id in m
    ensures Output(AllEntrySteps(ids, m)) == EntriesText(EntriesOf(ids, m))
    ensures Passes(AllEntrySteps(ids, m)) <==> forall id | id in ids :: Describable(id, m)
  {
    if ids != [] {
      assert ids == [ids[0]] + ids[1..];
      AllEntryStepsOutput(ids[1..], m);
      EntryStepsOutput(ids[0], m);
      OutputAppend(EntrySteps(ids[0], m), AllEntrySteps(ids[1..], m));
      assert EntriesOf(ids, m)[1..] == EntriesOf(ids[1..], m);
    }
  }

  /** An entry no u32 length could describe makes the text exceed the limit anyway. */
  lemma {:induction false} LongEntryLongText(ids: seq<bytes>, m: SecretMap, id: bytes)
    requires (forall i | i in ids :: i in m) && id in ids
    ensures |EntriesText(EntriesOf(ids, m))| >= |id| + |m[id]|
  {
    var es := EntriesOf(ids, m);
    assert ids == [ids[0]] + ids[1..];
    assert es[1..] == EntriesOf(ids[1..], m);
    if id != ids[0] { LongEntryLongText(ids[1..], m, id); }
  }

  /** The order in which the hash table yields its keys: any order at all. */
  method CollectIds(secrets: SecretMap) returns (r: Option<seq<bytes>>)
    ensures r.Some? <==> ValidIds(secrets)
    ensures r.Some? ==> Distinct(r.value) && ToSet(r.value) == secrets.Keys
  {
    var ids: seq<bytes>, remaining := [], secrets.Keys;
    while remaining != {}
      invariant remaining <= secrets.Keys && ToSet(ids) == secrets.Keys - remaining
      invariant Distinct(ids) && forall id | id in ids :: SecretId.IsValid(id)
    {
      var id :| id in remaining;
      if !SecretId.IsValid(id) { return None; }
      assert id !in ToSet(ids);
      ids, remaining := ids + [id], remaining - {id};
    }
    forall id | id in secrets ensures SecretId.IsValid(id) { assert id in ToSet(ids); }
    return Some(ids);
  }

  predicate Distinct(ids: seq<bytes>) {
    forall i, j :: 0 <= i < j < |ids| ==> ids[i] != ids[j]
  }

  /** Stands for std::sort on distinct identifiers. */
  method Sort(ids: seq<bytes>) returns (sorted: seq<bytes>)
    requires Distinct(ids)
    ensures StrictlySorted(sorted) && ToSet(sorted) == ToSet(ids)
  {
    sorted := [];
    for i := 0 to |ids|
      invariant StrictlySorted(sorted) && ToSet(sorted) == ToSet(ids[..i])
    {
      assert ids[i] !in ids[..i] && ids[i] !in ToSet(sorted);
      sorted := Insert(ids[i], sorted);
      assert ids[..i + 1] == ids[..i] + [ids[i]];
    }
    assert ids[..|ids|] == ids;
  }

  /** `serialize_plaintext`: the result is a function of the map alone. */
  method SerializePlaintext(secrets: SecretMap) returns (r: Result<bytes, Exception>)
    ensures r == Serialized(secrets)
  {
    if |secrets| > MAX_SECRET_COUNT { return Err(CountError()); }
    var collected := CollectIds(secrets);
    if collected.None? { return Err(IdError()); }
    var ids := Sort(collected.value);
    StrictlySortedUnique(ids, SortedIds(secrets.Keys));
    assert forall id | id in ids :: id in ToSet(ids);
    SortedIdsCount(ids);
    var closure := [Uint(|ids|, 4)] + AllEntrySteps(ids, secrets);
    TextSteps(ids, secrets);
    var e := EncodeTwoPass(closure, MAX_PLAINTEXT_SIZE);
    match e {
      case TooLong => r := Err(SizeError());
      case Failed => r := Err(RuntimeError(PlaintextNotEncoded));
      case Done(text) => r := Ok(text);
    }
  }

  lemma TextSteps(ids: seq<bytes>, m: SecretMap)
    requires forall id | id in ids :: id in m
    ensures TwoPass([Uint(|ids|, 4)] + AllEntrySteps(ids, m), MAX_PLAINTEXT_SIZE)
         == if |PlaintextOf(EntriesOf(ids, m))| <= MAX_PLAINTEXT_SIZE
            then Some(PlaintextOf(EntriesOf(ids, m))) else None
  {
    AllEntryStepsOutput(ids, m);
    OutputOne(Uint(|ids|, 4));
    OutputAppend([Uint(|ids|, 4)], AllEntrySteps(ids, m));
    if id :| id in ids && !Describable(id, m) {
      LongEntryLongText(ids, m, id);
    }
  }

  /** `deserialize_plaintext`. */
  method DeserializePlaintext(plaintext: bytes) returns (r: Option<SecretMap>)
    ensures r == ParsePlaintext(plaintext)
  {
    var reader := new Reader(plaintext);
    var ok, count := reader.ReadUint(4);
    if !ok || count > MAX_SECRET_COUNT { return None; }
    var decoded := DecodeEntries(reader, count);
    if decoded.None? || !reader.Complete() { return None; }
    return decoded;
  }

  method DecodeEntries(reader: Reader, count: nat) returns (r: Option<SecretMap>)
    requires reader.Valid()
    modifies reader
    ensures reader.Valid()
    ensures match ParseEntries(count, old(reader.Rest()), map[])
      case Some(all) => r == Some(all.value) && reader.Rest() == all.rest
      case None => r.None?
  {
    ghost var all := ParseEntries(count, reader.Rest(), map[]);
    var decoded: SecretMap := map[];
    for index := 0 to count
      invariant reader.Valid()
      invariant all == ParseEntries(count - index, reader.Rest(), decoded)
    {
      var entry := DecodeEntry(reader, decoded);
      if entry.None? { return None; }
      decoded := entry.value;
    }
    return Some(decoded);
  }

  /** One turn of the decoding loop: an entry that is malformed, invalid or repeated is refused. */
  method DecodeEntry(reader: Reader, decoded: SecretMap) returns (r: Option<SecretMap>)
    requires reader.Valid()
    modifies reader
    ensures reader.Valid()
    ensures match ParseEntry(old(reader.Rest()), decoded)
      case Some(e) => r == Some(e.value) && reader.Rest() == e.rest
      case None => r.None?
  {
    var ok, id := reader.ReadSizedBytes(MAX_LEGACY_ID_SIZE);
    if !ok || id == [] { return None; }
    var value;
    ok, value := reader.ReadSizedBytes(MAX_SECRET_SIZE);
    if !ok { return None; }
    if !SecretId.IsValid(id) { return None; }
    if id in decoded { return None; }
    return Some(decoded[id := value]);
  }
}

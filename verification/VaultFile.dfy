/** The vault file: a fixed header, then the encrypted plaintext.  The cipher is a parameter. */
module VaultFile {
  import opened Bytes
  import opened Wire
  import opened Plaintext

  const FILE_MAGIC: bytes := [0x5A, 0x56, 0x4C, 0x54, 0x44, 0x42, 0x30, 0x31]
  const FILE_VERSION: nat := 1
  const SALT_SIZE: nat := 16
  const NONCE_SIZE: nat := 24
  const MIN_OPSLIMIT: nat := 1
  const MAX_OPSLIMIT: nat := 10
  const MIN_MEMLIMIT: nat := 8 * 0x10_0000
  const MAX_MEMLIMIT: nat := 1024 * 0x10_0000

  /** The key-derivation parameters a store works with. */
  datatype Params = Params(opslimit: nat, memlimit: nat, salt: bytes) {
    predicate InRange() {
      && MIN_OPSLIMIT <= opslimit <= MAX_OPSLIMIT
      && MIN_MEMLIMIT <= memlimit <= MAX_MEMLIMIT
      && |salt| == SALT_SIZE
    }
  }

  /**
   The cipher and the key derivation: deterministic functions, of which only these laws are used.
   The associated data is the same constant in every call and is part of the functions.
   */
  datatype Crypto = Crypto(
    derive: (bytes, Params) -> Option<bytes>,
    encrypt: (bytes, bytes, bytes) -> bytes,
    decrypt: (bytes, bytes, bytes) -> Option<bytes>)
  {
    ghost predicate Lawful() {
      && (forall k, n, p :: decrypt(k, n, encrypt(k, n, p)) == Some(p))
      && (forall k, n, p :: |encrypt(k, n, p)| == |p| + TAG_SIZE)
      && (forall k, n, c :: decrypt(k, n, c).Some? ==> |c| == |decrypt(k, n, c).value| + TAG_SIZE)
    }
  }

  /** A cipher without secrecy that obeys the laws: they can be met. */
  function PlainCrypto(): Crypto {
    Crypto(
      (password: bytes, params: Params) => Some(params.salt),
      (k: bytes, n: bytes, p: bytes) => p + seq(TAG_SIZE, _ => 0),
      (k: bytes, n: bytes, c: bytes) => if |c| < TAG_SIZE then None else Some(c[..|c| - TAG_SIZE]))
  }

  lemma LawsCanBeMet()
    ensures PlainCrypto().Lawful()
  {
    var c := PlainCrypto();
    forall k: bytes, n: bytes, p: bytes ensures c.decrypt(k, n, c.encrypt(k, n, p)) == Some(p) {
      assert c.encrypt(k, n, p)[..|p|] == p;
    }
  }

  // ---------------------------------------------------------------- the file format

  datatype Fields = Fields(params: Params, nonce: bytes, ciphertext: bytes) {
    predicate Acceptable() {
      params.InRange() && |nonce| == NONCE_SIZE && TAG_SIZE <= |ciphertext|
      && FILE_HEADER_SIZE + |ciphertext| <= MAX_FILE_SIZE
    }
  }

  function FileBytes(f: Fields): (b: bytes)
    ensures |f.params.salt| == SALT_SIZE && |f.nonce| == NONCE_SIZE ==> |b| == FILE_HEADER_SIZE + |f.ciphertext|
  {
    FILE_MAGIC + (LittleEndian(FILE_VERSION, 4) + (LittleEndian(f.params.opslimit, 8)
    + (LittleEndian(f.params.memlimit, 8) + (f.params.salt + (f.nonce
    + (LittleEndian(|f.ciphertext|, 8) + f.ciphertext))))))
  }

  /** `read_file`'s size limit and the header checks of `load_existing`. */
  function ParseFields(file: bytes): Option<Fields> {
    if |file| > MAX_FILE_SIZE || |file| < FILE_HEADER_SIZE then None else
    var magic :- TakeBytes(file, 8);
    var version :- TakeUint(magic.rest, 4);
    var opslimit :- TakeUint(version.rest, 8);
    var memlimit :- TakeUint(opslimit.rest, 8);
    var salt :- TakeBytes(memlimit.rest, SALT_SIZE);
    var nonce :- TakeBytes(salt.rest, NONCE_SIZE);
    var size :- TakeUint(nonce.rest, 8);
    var params := Params(opslimit.value, memlimit.value, salt.value);
    if magic.value != FILE_MAGIC || version.value != FILE_VERSION then None
    else if !params.InRange() then None
    else if size.value != |size.rest| || size.value < TAG_SIZE then None
    else Some(Fields(params, nonce.value, size.rest))
  }

  lemma TakeBytesExact(b: bytes, v: bytes, rest: bytes)
    ensures TakeBytes(b, |v|) == Some(Read(v, rest)) <==> b == v + rest
  {
    if |v| <= |b| { assert b == b[..|v|] + b[|v|..]; }
    if b == v + rest { assert b[..|v|] == v && b[|v|..] == rest; }
  }

  lemma FieldsWritten(f: Fields)
    requires f.Acceptable()
    ensures ParseFields(FileBytes(f)) == Some(f)
  {
    hide LittleEndian, FromLittleEndian, Power256;
    PowerValues();
    var r7 := f.ciphertext;
    var r6 := LittleEndian(|f.ciphertext|, 8) + r7;
    var r5 := f.nonce + r6;
    var r4 := f.params.salt + r5;
    var r3 := LittleEndian(f.params.memlimit, 8) + r4;
    var r2 := LittleEndian(f.params.opslimit, 8) + r3;
    var r1 := LittleEndian(FILE_VERSION, 4) + r2;
    TakeBytesExact(FileBytes(f), FILE_MAGIC, r1);
    TakeUintExact(r1, 4, FILE_VERSION, r2);
    TakeUintExact(r2, 8, f.params.opslimit, r3);
    TakeUintExact(r3, 8, f.params.memlimit, r4);
    TakeBytesExact(r4, f.params.salt, r5);
    TakeBytesExact(r5, f.nonce, r6);
    TakeUintExact(r6, 8, |f.ciphertext|, r7);
  }

  lemma FieldsRead(file: bytes)
    requires ParseFields(file).Some?
    ensures ParseFields(file).value.Acceptable() && file == FileBytes(ParseFields(file).value)
  {
    hide LittleEndian, FromLittleEndian, Power256;
    PowerValues();
    var f := ParseFields(file).value;
    var r1 := TakeBytes(file, 8).value.rest;
    var r2 := TakeUint(r1, 4).value.rest;
    var r3 := TakeUint(r2, 8).value.rest;
    var r4 := TakeUint(r3, 8).value.rest;
    var r5 := TakeBytes(r4, SALT_SIZE).value.rest;
    var r6 := TakeBytes(r5, NONCE_SIZE).value.rest;
    TakeUintExact(r6, 8, |f.ciphertext|, f.ciphertext);
    TakeBytesExact(r5, f.nonce, r6);
    TakeBytesExact(r4, f.params.salt, r5);
    TakeUintExact(r3, 8, f.params.memlimit, r4);
    TakeUintExact(r2, 8, f.params.opslimit, r3);
    TakeUintExact(r1, 4, FILE_VERSION, r2);
    TakeBytesExact(file, FILE_MAGIC, r1);
  }

  /** The header reader accepts exactly the files the writer lays out, within the limits. */
  lemma FieldsExact(file: bytes, f: Fields)
    ensures ParseFields(file) == Some(f) <==> f.Acceptable() && file == FileBytes(f)
  {
    if ParseFields(file).Some? { FieldsRead(file); }
    if f.Acceptable() { FieldsWritten(f); }
  }

  /** A vault file by its offsets and in numbers. */
  predicate IsVaultFile(b: bytes, f: Fields) {
    && |b| == 76 + |f.ciphertext| <= 0x400_0000 && 16 <= |f.ciphertext|
    && b[..12] == [0x5A, 0x56, 0x4C, 0x54, 0x44, 0x42, 0x30, 0x31, 1, 0, 0, 0]
    && EightBytes(b[12..20]) == f.params.opslimit && 1 <= f.params.opslimit <= 10
    && EightBytes(b[20..28]) == f.params.memlimit && 0x80_0000 <= f.params.memlimit <= 0x4000_0000
    && b[28..44] == f.params.salt && b[44..68] == f.nonce
    && EightBytes(b[68..76]) == |f.ciphertext| && b[76..] == f.ciphertext
  }

  lemma FileLayout(b: bytes, f: Fields)
    ensures ParseFields(b) == Some(f) <==> IsVaultFile(b, f)
  {
    hide FromLittleEndian, LittleEndian, EightBytes, FourBytes;
    if |b| >= FILE_HEADER_SIZE {
      FileSlices(b);
      FixedWidths(b[8..12]);
      FixedWidths(b[12..20]);
      FixedWidths(b[20..28]);
      FixedWidths(b[68..76]);
      FileVersionBytes(b);
    }
  }

  lemma FileSlices(b: bytes)
    requires |b| >= 76
    ensures b[8..][..4] == b[8..12] && b[8..][4..] == b[12..] && b[12..][..8] == b[12..20] && b[12..][8..] == b[20..]
    ensures b[20..][..8] == b[20..28] && b[20..][8..] == b[28..] && b[28..][..16] == b[28..44]
    ensures b[28..][16..] == b[44..] && b[44..][..24] == b[44..68] && b[44..][24..] == b[68..]
    ensures b[68..][..8] == b[68..76] && b[68..][8..] == b[76..]
  {}

  lemma FileVersionBytes(b: bytes)
    requires |b| >= 76
    ensures b[..8] == FILE_MAGIC && FourBytes(b[8], b[9], b[10], b[11]) == FILE_VERSION
       <==> b[..12] == [0x5A, 0x56, 0x4C, 0x54, 0x44, 0x42, 0x30, 0x31, 1, 0, 0, 0]
  {
    assert b[..12] == b[..8] + [b[8], b[9], b[10], b[11]];
  }

  // ---------------------------------------------------------------- loading and saving

  /** What a store holds in memory while it is open. */
  datatype Loaded = Loaded(secrets: SecretMap, key: bytes, params: Params)

  /** The invariant of an open store: its map can be written and its parameters will be accepted. */
  ghost predicate Sound(l: Loaded) { Persistable(l.secrets) && l.params.InRange() }

  /** `load_existing`; None stands for its exceptions, all of them runtime errors. */
  function LoadFile(crypto: Crypto, password: bytes, file: bytes): Option<Loaded> {
    var f :- ParseFields(file);
    var key :- crypto.derive(password, f.params);
    var text :- crypto.decrypt(key, f.nonce, f.ciphertext);
    var secrets :- ParsePlaintext(text);
    Some(Loaded(secrets, key, f.params))
  }

  /** The file `persist` writes for a map that serializes. */
  ghost function SavedFile(crypto: Crypto, l: Loaded, nonce: bytes): bytes
    requires Serialized(l.secrets).Ok?
  {
    FileBytes(Fields(l.params, nonce, crypto.encrypt(l.key, nonce, Serialized(l.secrets).value)))
  }

  /** Every file the store writes is accepted again under the same password, with the same map. */
  lemma SavedFileLoads(crypto: Crypto, password: bytes, l: Loaded, nonce: bytes)
    requires crypto.Lawful() && Sound(l) && |nonce| == NONCE_SIZE
    requires crypto.derive(password, l.params) == Some(l.key)
    ensures Serialized(l.secrets).Ok?
    ensures LoadFile(crypto, password, SavedFile(crypto, l, nonce)) == Some(l)
    ensures |SavedFile(crypto, l, nonce)| <= MAX_FILE_SIZE
  {
    SerializedRoundTrip(l.secrets);
    var text := Serialized(l.secrets).value;
    var f := Fields(l.params, nonce, crypto.encrypt(l.key, nonce, text));
    FieldsWritten(f);
    assert crypto.decrypt(l.key, nonce, f.ciphertext) == Some(text);
  }

  /** Any accepted file, whoever wrote it, leaves the store in a state it can save again. */
  lemma LoadedIsSound(crypto: Crypto, password: bytes, file: bytes)
    requires crypto.Lawful() && LoadFile(crypto, password, file).Some?
    ensures Sound(LoadFile(crypto, password, file).value)
    ensures var l := LoadFile(crypto, password, file).value; crypto.derive(password, l.params) == Some(l.key)
  {
    FieldsRead(file);
    var f := ParseFields(file).value;
    var key := crypto.derive(password, f.params).value;
    ParsedIsPersistable(crypto.decrypt(key, f.nonce, f.ciphertext).value);
  }
}

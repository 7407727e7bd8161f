/** The chunk cipher of src/SecurityHandler.py: key handling, the abstract
    AES-256-GCM calls, and the length-prefixed frame that carries one
    encrypted chunk: [be32 ivLen][iv][be32 tagLen][tag][be32 ctLen][ct]. */
module Security {
  import opened Wrappers
  import opened Bytes

  const KeyLength: nat := 32
  const IvLength: nat := 12
  const TagLength: nat := 16
  /** The IV lengths `modes.GCM` accepts, in bytes. */
  const MinIvLength: nat := 8
  const MaxIvLength: nat := 128

  type Key = s: seq<byte> | |s| == 32 witness seq(32, _ => 0)

  /** A 96-bit GCM nonce, freshly random per chunk (the RBG-based IV
      construction of NIST SP 800-38D, section 8.2.2). Randomness is not
      modelled: whoever calls EncryptChunk supplies the IV. */
  type Iv = s: seq<byte> | |s| == 12 witness seq(12, _ => 0)

  /** AES-256-GCM as the `cryptography` backend provides it. It is foreign
      code and stays abstract: `seal(key, iv, plaintext)` gives
      (ciphertext, tag), `open(key, iv, ciphertext, tag)` gives the plaintext
      or None when the tag does not verify (InvalidTag). */
  datatype Aead = Aead(
    seal: (Key, Iv, seq<byte>) -> (seq<byte>, seq<byte>),
    open: (Key, seq<byte>, seq<byte>, seq<byte>) -> Option<seq<byte>>)

  /** What AES-GCM promises and the model takes as given: ciphertext as long
      as the plaintext, a 16-byte tag, and opening what was sealed under the
      same key and IV gives the plaintext back. */
  ghost predicate IsGcm(a: Aead) {
    forall k: Key, iv: Iv, p: seq<byte> {:trigger a.seal(k, iv, p)} ::
      |a.seal(k, iv, p).0| == |p| && |a.seal(k, iv, p).1| == TagLength &&
      a.open(k, iv, a.seal(k, iv, p).0, a.seal(k, iv, p).1) == Some(p)
  }

  /** The (iv, ciphertext, tag) triple, in the order the Python tuples use. */
  datatype Frame = Frame(iv: seq<byte>, ciphertext: seq<byte>, tag: seq<byte>)

  /** `self.key = key or os.urandom(32)` followed by the length check:
      a missing or empty key is replaced by `generated`, any other key must
      be exactly 32 bytes or construction raises ValueError. */
  function CheckKey(key: Option<seq<byte>>, generated: Key): (r: Result<Key>)
    ensures r.Ok? <==> key.None? || key.value == [] || |key.value| == KeyLength
    ensures r.Err? ==> r.error == ValueError
    ensures (key.None? || key.value == []) ==> r == Ok(generated)
    ensures r.Ok? && key.Some? && key.value != [] ==> r.value == key.value
  {
    var effective := if key.None? || key.value == [] then generated else key.value;
    if |effective| != KeyLength then Err(ValueError) else Ok(effective)
  }

  class SecurityHandler {
    const key: Key
    const backend: Aead

    constructor (key: Key, backend: Aead)
      ensures this.key == key && this.backend == backend
    {
      this.key := key;
      this.backend := backend;
    }

    /** `SecurityHandler(key)`: a handler holding the effective 32-byte key,
        or ValueError. */
    static method Create(key: Option<seq<byte>>, generated: Key, backend: Aead)
      returns (r: Result<SecurityHandler>)
      ensures r.Ok? <==> CheckKey(key, generated).Ok?
      ensures r.Err? ==> r.error == ValueError
      ensures r.Ok? ==> fresh(r.value) && r.value.key == CheckKey(key, generated).value
      ensures r.Ok? ==> r.value.backend == backend
    {
      var k := CheckKey(key, generated);
      if k.Err? {
        return Err(k.error);
      }
      var h := new SecurityHandler(k.value, backend);
      return Ok(h);
    }

    /** `get_key`: the key stored at construction, always 32 bytes. */
    function GetKey(): (k: seq<byte>)
      ensures |k| == KeyLength && k == key
    {
      key
    }

    /** `encrypt_chunk`: the IV it returns is the 12-byte IV it was given, and
        under AES-GCM the frame decrypts to the plaintext. */
    function EncryptChunk(plaintext: seq<byte>, iv: Iv): (r: Frame)
      ensures r.iv == iv && |r.iv| == IvLength
      ensures IsGcm(backend) ==>
        |r.ciphertext| == |plaintext| && |r.tag| == TagLength &&
        DecryptChunk(r.iv, r.ciphertext, r.tag) == Ok(plaintext)
    {
      var (ct, tag) := backend.seal(key, iv, plaintext);
      Frame(iv, ct, tag)
    }

    /** `decrypt_chunk`: `modes.GCM(iv, tag)` raises ValueError for an IV
        outside 8..128 bytes or a tag shorter than 16 bytes; otherwise the
        plaintext the backend authenticates, or InvalidTag. */
    function DecryptChunk(iv: seq<byte>, ciphertext: seq<byte>, tag: seq<byte>): (r: Result<seq<byte>>)
      ensures r == Err(ValueError) <==> !GcmAccepts(iv, tag)
      ensures r.Ok? <==> GcmAccepts(iv, tag) && backend.open(key, iv, ciphertext, tag).Some?
      ensures r.Ok? ==> backend.open(key, iv, ciphertext, tag) == Some(r.value)
      ensures r.Err? && GcmAccepts(iv, tag) ==> r.error == InvalidTag
    {
      if !GcmAccepts(iv, tag) then Err(ValueError)
      else match backend.open(key, iv, ciphertext, tag)
        case None => Err(InvalidTag)
        case Some(p) => Ok(p)
    }
  }

  /** The lengths `modes.GCM(iv, tag)` accepts: an IV of 8 to 128 bytes
      and a tag of at least 16 bytes. */
  predicate GcmAccepts(iv: seq<byte>, tag: seq<byte>) {
    MinIvLength <= |iv| <= MaxIvLength && |tag| >= TagLength
  }

  /** `pack_encrypted_chunk(iv, ciphertext, tag)`: struct.pack('!I', ...) raises
      once a length needs more than 32 bits; otherwise the frame holds, in
      order, the IV length and IV, the tag length and tag, and the ciphertext
      length and ciphertext, so the tag precedes the ciphertext although the
      arguments name it last. */
  function PackEncryptedChunk(iv: seq<byte>, ciphertext: seq<byte>, tag: seq<byte>): (r: Result<seq<byte>>)
    ensures r.Ok? <==> |iv| < U32Limit && |tag| < U32Limit && |ciphertext| < U32Limit
    ensures r.Err? ==> r.error == StructError
    ensures r.Ok? ==> |r.value| == 12 + |iv| + |tag| + |ciphertext|
  {
    if |iv| < U32Limit && |tag| < U32Limit && |ciphertext| < U32Limit then
      Ok(Be32(|iv|) + iv + Be32(|tag|) + tag + Be32(|ciphertext|) + ciphertext)
    else Err(StructError)
  }

  /** The packed frame holds, in order, each field's big-endian length
      followed by the field: IV, tag, ciphertext. */
  lemma PackLayout(iv: seq<byte>, ciphertext: seq<byte>, tag: seq<byte>)
    requires PackEncryptedChunk(iv, ciphertext, tag).Ok?
    ensures var r := PackEncryptedChunk(iv, ciphertext, tag).value;
      var t := 4 + |iv|;
      var c := t + 4 + |tag|;
      FromBE(r[..4]) == |iv| && r[4..t] == iv &&
      FromBE(r[t..t + 4]) == |tag| && r[t + 4..c] == tag &&
      FromBE(r[c..c + 4]) == |ciphertext| && r[c + 4..] == ciphertext
  {
    Parts6(Be32(|iv|), iv, Be32(|tag|), tag, Be32(|ciphertext|), ciphertext);
  }

  /** `struct.unpack_from('!I', data, ptr)[0]`: fails unless four bytes
      remain at ptr. */
  function ReadU32At(data: seq<byte>, ptr: nat): (r: Result<nat>)
    ensures r.Ok? <==> ptr + 4 <= |data|
    ensures r.Ok? ==> r.value < U32Limit && Be32(r.value) == data[ptr..ptr + 4]
    ensures r.Err? ==> r.error == StructError
  {
    if ptr + 4 <= |data| then
      Be32Inverse(data[ptr..ptr + 4]);
      Ok(FromBE(data[ptr..ptr + 4]))
    else Err(StructError)
  }

  function Min(a: nat, b: nat): nat { if a <= b then a else b }

  /** Python's `data[lo:lo + n]`: silently shorter than n when data ends
      first, empty when lo is past the end. */
  function SliceAt(data: seq<byte>, lo: nat, n: nat): (r: seq<byte>)
    ensures |r| <= n
    ensures lo + n <= |data| ==> r == data[lo..lo + n]
  {
    data[Min(lo, |data|)..Min(lo + n, |data|)]
  }

  /** `unpack_encrypted_chunk(data)`: reads the three length-prefixed fields
      with a moving cursor. A length prefix needs four whole bytes; a field
      body shorter than its declared length is cut short by slicing, which
      only goes unnoticed for the last field; bytes after the ciphertext
      are ignored. */
  function UnpackEncryptedChunk(data: seq<byte>): (r: Result<Frame>)
    ensures |data| < 12 ==> r == Err(StructError)
    ensures r.Ok? ==> 12 + |r.value.iv| + |r.value.tag| + |r.value.ciphertext| <= |data|
    ensures r.Ok? ==> data[4..4 + |r.value.iv|] == r.value.iv
  {
    var ivLen :- ReadU32At(data, 0);
    var iv := SliceAt(data, 4, ivLen);
    var p := 4 + ivLen;
    var tagLen :- ReadU32At(data, p);
    var tag := SliceAt(data, p + 4, tagLen);
    var q := p + 4 + tagLen;
    var ctLen :- ReadU32At(data, q);
    Ok(Frame(iv, SliceAt(data, q + 4, ctLen), tag))
  }

  /** Three length prefixes and their fields, one after another from the
      start of d, are what `unpack_encrypted_chunk` finds there. */
  lemma FieldsUnpack(d: seq<byte>, iv: seq<byte>, tag: seq<byte>, declared: nat, ciphertext: seq<byte>, k1: nat, k2: nat)
    requires ReadU32At(d, 0) == Ok(|iv|) && SliceAt(d, 4, |iv|) == iv && k1 == 4 + |iv|
    requires ReadU32At(d, k1) == Ok(|tag|) && SliceAt(d, k1 + 4, |tag|) == tag && k2 == k1 + 4 + |tag|
    requires ReadU32At(d, k2) == Ok(declared) && SliceAt(d, k2 + 4, declared) == ciphertext
    ensures UnpackEncryptedChunk(d) == Ok(Frame(iv, ciphertext, tag))
  {
  }

  /** A big-endian word written at ptr is read back from there. */
  lemma ReadBe32(d: seq<byte>, ptr: nat, n: nat)
    requires n < U32Limit && ptr + 4 <= |d| && d[ptr..ptr + 4] == Be32(n)
    ensures ReadU32At(d, ptr) == Ok(n)
  {
  }

  /** Slicing from where a suffix starts is slicing the suffix. */
  lemma SliceAtSuffix(d: seq<byte>, lo: nat, n: nat, rest: seq<byte>)
    requires lo <= |d| && d[lo..] == rest
    ensures SliceAt(d, lo, n) == SliceAt(rest, 0, n)
  {
  }

  /** Unpacking three well-formed length prefixes with whole IV and tag
      bodies gives the IV, the tag, and whatever of the declared ciphertext
      length is there. */
  lemma UnpackFields(iv: seq<byte>, tag: seq<byte>, declared: nat, rest: seq<byte>)
    requires |iv| < U32Limit && |tag| < U32Limit && declared < U32Limit
    ensures UnpackEncryptedChunk(Be32(|iv|) + iv + Be32(|tag|) + tag + Be32(declared) + rest)
            == Ok(Frame(iv, SliceAt(rest, 0, declared), tag))
  {
    var d := Be32(|iv|) + iv + Be32(|tag|) + tag + Be32(declared) + rest;
    var k1 := 4 + |iv|;
    var k2 := k1 + 4 + |tag|;
    Parts6(Be32(|iv|), iv, Be32(|tag|), tag, Be32(declared), rest);
    ReadBe32(d, 0, |iv|);
    ReadBe32(d, k1, |tag|);
    ReadBe32(d, k2, declared);
    assert SliceAt(d, 4, |iv|) == iv;
    assert SliceAt(d, k1 + 4, |tag|) == tag;
    SliceAtSuffix(d, k2 + 4, declared, rest);
    FieldsUnpack(d, iv, tag, declared, SliceAt(rest, 0, declared), k1, k2);
  }

  /** Round trip: unpacking a packed frame gives back the IV, ciphertext and
      tag, whatever bytes follow it. */
  lemma UnpackPack(iv: seq<byte>, ciphertext: seq<byte>, tag: seq<byte>, extra: seq<byte>)
    requires PackEncryptedChunk(iv, ciphertext, tag).Ok?
    ensures UnpackEncryptedChunk(PackEncryptedChunk(iv, ciphertext, tag).value + extra)
            == Ok(Frame(iv, ciphertext, tag))
  {
    var head := Be32(|iv|) + iv + Be32(|tag|) + tag + Be32(|ciphertext|);
    assert PackEncryptedChunk(iv, ciphertext, tag).value + extra == head + (ciphertext + extra);
    UnpackFields(iv, tag, |ciphertext|, ciphertext + extra);
    assert SliceAt(ciphertext + extra, 0, |ciphertext|) == ciphertext;
  }

  /** A ciphertext field shorter than its declared length is accepted and
      returned truncated: nothing in unpack notices the missing bytes. */
  lemma UnpackTruncatedCiphertext(iv: seq<byte>, tag: seq<byte>, declared: nat, ciphertext: seq<byte>)
    requires |iv| < U32Limit && |tag| < U32Limit && declared < U32Limit
    requires |ciphertext| < declared
    ensures UnpackEncryptedChunk(Be32(|iv|) + iv + Be32(|tag|) + tag + Be32(declared) + ciphertext)
            == Ok(Frame(iv, ciphertext, tag))
  {
    UnpackFields(iv, tag, declared, ciphertext);
    assert SliceAt(ciphertext, 0, declared) == ciphertext;
  }

  /** An IV or tag body cut short leaves fewer than four bytes for the next
      length prefix, so unpack fails instead of truncating. */
  lemma UnpackShortIv(data: seq<byte>)
    requires 4 <= |data|
    requires |data| < 4 + FromBE(data[..4]) + 4
    ensures UnpackEncryptedChunk(data) == Err(StructError)
  {
    assert data[0..4] == data[..4];
  }
}

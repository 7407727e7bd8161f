/** The two ends of a transfer put together: what src/FileSender.py writes
    is what src/FileReceiver.py reads. The header announces the file's base
    name, size and mode; each encrypted frame decrypts, under the shared
    key, to the chunk it was made from; and, when the base name is ASCII,
    the receiver saves exactly the sender's file. Also the two inputs on
    which the header as written garbles a non-ASCII name. */
module Transfer {
  import opened Wrappers
  import opened Bytes
  import Utf8
  import opened Security
  import Sender
  import Receiver

  /** The bytes w lie in the stream s at offset p, byte for byte. */
  predicate At(s: seq<byte>, p: nat, w: seq<byte>) {
    p + |w| <= |s| && forall i :: 0 <= i < |w| ==> s[p + i] == w[i]
  }

  /** A stream lies at its own start. */
  lemma AtWhole(s: seq<byte>)
    ensures At(s, 0, s)
  {
  }

  /** Bytes that lie at p are the slice of the stream that starts there. */
  lemma AtSlice(s: seq<byte>, p: nat, w: seq<byte>)
    requires At(s, p, w)
    ensures s[p..p + |w|] == w
  {
    assert forall i :: 0 <= i < |w| ==> s[p..p + |w|][i] == w[i];
  }

  /** Bytes that lie at p split into a part at p and a part right after. */
  lemma AtSplit(s: seq<byte>, p: nat, a: seq<byte>, b: seq<byte>)
    requires At(s, p, a + b)
    ensures At(s, p, a) && At(s, p + |a|, b)
  {
    forall i | 0 <= i < |a| ensures s[p + i] == a[i] {
      assert (a + b)[i] == a[i];
    }
    forall i | 0 <= i < |b| ensures s[p + |a| + i] == b[i] {
      assert (a + b)[|a| + i] == b[i];
    }
  }

  /** A length-prefixed field, read exactly, comes back whole, and the
      read stops at q, right after it. */
  lemma ReadFieldOf(s: seq<byte>, p: nat, f: seq<byte>, q: nat)
    requires |f| < U32Limit && At(s, p, Be32(|f|) + f) && q == p + 4 + |f|
    ensures Receiver.ReadField(s, p) == Ok((f, q))
  {
    AtSplit(s, p, Be32(|f|), f);
    AtSlice(s, p, Be32(|f|));
    AtSlice(s, p + 4, f);
  }

  /* ---------------------------------------------------------------- */
  /* The header                                                        */

  /** The three exact reads of a header find its name bytes, its size
      and its flag, each in turn; q is where the name ends. */
  lemma HeaderFieldsAt(s: seq<byte>, p: nat, nameBytes: seq<byte>, size: nat, flag: nat, q: nat)
    requires |nameBytes| < U32Limit && size < U64Limit && flag < U32Limit
    requires At(s, p, Be32(|nameBytes|) + nameBytes + Be64(size) + Be32(flag))
    requires q == p + 4 + |nameBytes|
    ensures Receiver.ReadField(s, p) == Ok((nameBytes, q))
    ensures Receiver.Take(s, q, 8) == Ok(Be64(size))
    ensures Receiver.Take(s, q + 8, 4) == Ok(Be32(flag))
  {
    var field := Be32(|nameBytes|) + nameBytes;
    var tail := Be64(size) + Be32(flag);
    assert Be32(|nameBytes|) + nameBytes + Be64(size) + Be32(flag) == field + tail;
    AtSplit(s, p, field, tail);
    AtSplit(s, q, Be64(size), Be32(flag));
    AtSlice(s, q, Be64(size));
    AtSlice(s, q + 8, Be32(flag));
    ReadFieldOf(s, p, nameBytes, q);
  }

  /** Name bytes that decode, then a size and a flag read in full: the
      header announces that name, that size and a mode that is encrypted
      exactly when the flag is non-zero, and ends twelve bytes after the
      name. */
  lemma ParseHeaderOf(s: seq<byte>, pos: nat, nameBytes: seq<byte>, q: nat, name: string,
                      size: nat, flag: nat, encrypted: bool, end: nat)
    requires Receiver.ReadField(s, pos) == Ok((nameBytes, q)) && Utf8.Decode(nameBytes) == Ok(name)
    requires size < U64Limit && flag < U32Limit
    requires Receiver.Take(s, q, 8) == Ok(Be64(size)) && Receiver.Take(s, q + 8, 4) == Ok(Be32(flag))
    requires encrypted == (flag != 0) && end == q + 12
    ensures Receiver.ParseHeader(s, pos) == Ok((Receiver.Meta(name, size, encrypted), end))
  {
  }

  /** Name bytes that are not well-formed UTF-8 make `receive_file` give up
      on the file with UnicodeError, whatever follows them. */
  lemma ParseHeaderBadName(s: seq<byte>, pos: nat, nameBytes: seq<byte>, q: nat)
    requires Receiver.ReadField(s, pos) == Ok((nameBytes, q)) && Utf8.Decode(nameBytes).Err?
    ensures Receiver.ParseHeader(s, pos) == Err(UnicodeError)
  {
  }

  /** A header made of a byte count, those name bytes, a size and the
      flag of a mode is read as the name the bytes decode to, that size and
      that mode, stopping right after it. */
  lemma HeaderBytesReceived(s: seq<byte>, p: nat, nameBytes: seq<byte>, name: string, size: nat,
                            encrypted: bool, header: seq<byte>, start: nat)
    requires |nameBytes| < U32Limit && size < U64Limit && Utf8.Decode(nameBytes) == Ok(name)
    requires header == Be32(|nameBytes|) + nameBytes + Be64(size) + Be32(Sender.Flag(encrypted))
    requires At(s, p, header) && start == p + |header|
    ensures Receiver.ParseHeader(s, p) == Ok((Receiver.Meta(name, size, encrypted), start))
  {
    var flag := Sender.Flag(encrypted);
    var q := p + 4 + |nameBytes|;
    HeaderFieldsAt(s, p, nameBytes, size, flag, q);
    ParseHeaderOf(s, p, nameBytes, q, name, size, flag, encrypted, start);
  }

  /** The corrected header is read back as the name, size and mode it was
      made from, for every name, and the receiver stops right after it. */
  lemma HeaderReceived(s: seq<byte>, p: nat, name: string, size: nat, encrypted: bool,
                       header: seq<byte>, start: nat)
    requires Sender.Header(name, size, encrypted) == Ok(header)
    requires At(s, p, header) && start == p + |header|
    ensures Receiver.ParseHeader(s, p) == Ok((Receiver.Meta(name, size, encrypted), start))
  {
    Utf8.DecodeEncode(name);
    HeaderBytesReceived(s, p, Utf8.Encode(name), name, size, encrypted, header, start);
  }

  /** For an ASCII name the header as written is read back intact too. */
  lemma HeaderAsWrittenAsciiReceived(s: seq<byte>, p: nat, name: string, size: nat, encrypted: bool,
                                     header: seq<byte>, start: nat)
    requires Utf8.IsAscii(name)
    requires Sender.HeaderAsWritten(name, size, encrypted) == Ok(header)
    requires At(s, p, header) && start == p + |header|
    ensures Receiver.ParseHeader(s, p) == Ok((Receiver.Meta(name, size, encrypted), start))
  {
    Sender.HeaderAsWrittenAscii(name, size, encrypted);
    HeaderReceived(s, p, name, size, encrypted, header, start);
  }

  /** "é.txt" encodes to six bytes, the first five of which encode "é.tx". */
  lemma EncodeSample()
    ensures Utf8.Encode("é.txt") == Utf8.Encode("é.tx") + [0x74]
    ensures |Utf8.Encode("é.tx")| == 5
  {
    assert Utf8.Encode("é.txt") == [0xC3, 0xA9] + Utf8.Encode(".txt");
    assert Utf8.Encode("é.tx") == [0xC3, 0xA9] + Utf8.Encode(".tx");
    assert Utf8.Encode(".txt") == Utf8.Encode(".tx") + [0x74];
  }

  /** The header as written for "é.txt" (five characters, six bytes) sends
      only the first five bytes of the name: the file arrives as "é.tx". */
  lemma HeaderAsWrittenCutsName(s: seq<byte>)
    requires Sender.HeaderAsWritten("é.txt", 0, false) == Ok(s)
    ensures Receiver.ParseHeader(s, 0) == Ok((Receiver.Meta("é.tx", 0, false), 21))
  {
    var received := "é.tx";
    EncodeSample();
    var cut := Sender.FitField(Utf8.Encode("é.txt"), 5);
    assert cut == Utf8.Encode(received);
    Utf8.DecodeEncode(received);
    AtWhole(s);
    HeaderBytesReceived(s, 0, cut, received, 0, false, s, 21);
  }

  /** "aé" encodes to three bytes; its first two end inside the encoding
      of 'é' and are not well-formed UTF-8. */
  lemma CutInsideChar()
    ensures Sender.FitField(Utf8.Encode("aé"), 2) == [0x61, 0xC3]
    ensures Utf8.Decode([0x61, 0xC3]).Err?
  {
    assert Utf8.Encode("aé") == [0x61, 0xC3, 0xA9];
    var cut: seq<byte> := [0x61, 0xC3];
    assert Utf8.DecodeChar(cut[1..]) == None;
  }

  /** The header as written for "aé" (two characters, three bytes) cuts the
      name inside its last character: the name does not decode and the
      receiver gives up on the file. */
  lemma HeaderAsWrittenBreaksName(s: seq<byte>)
    requires Sender.HeaderAsWritten("aé", 0, false) == Ok(s)
    ensures Receiver.ParseHeader(s, 0) == Err(UnicodeError)
  {
    CutInsideChar();
    var cut := Sender.FitField(Utf8.Encode("aé"), 2);
    AtWhole(s);
    var q := 6;
    HeaderFieldsAt(s, 0, cut, 0, 0, q);
    ParseHeaderBadName(s, 0, cut, q);
  }

  /* ---------------------------------------------------------------- */
  /* Frames                                                            */

  /** Three fields read one after another make the frame the encrypted
      chunk loop reads: IV first, then tag, then ciphertext. */
  lemma ReadThreeFields(s: seq<byte>, p: nat, iv: seq<byte>, q1: nat, tag: seq<byte>, q2: nat,
                        ciphertext: seq<byte>, q3: nat, frame: Frame)
    requires Receiver.ReadField(s, p) == Ok((iv, q1))
    requires Receiver.ReadField(s, q1) == Ok((tag, q2))
    requires Receiver.ReadField(s, q2) == Ok((ciphertext, q3))
    requires frame == Frame(iv, ciphertext, tag)
    ensures Receiver.ReadFrame(s, p) == Ok((frame, q3))
  {
    assert Receiver.ReadFields(s, q3, 0) == Ok(([], q3));
    assert [ciphertext] + [] == [ciphertext];
    assert Receiver.ReadFields(s, q2, 1) == Ok(([ciphertext], q3));
    assert [tag] + [ciphertext] == [tag, ciphertext];
    assert Receiver.ReadFields(s, q1, 2) == Ok(([tag, ciphertext], q3));
    assert [iv] + [tag, ciphertext] == [iv, tag, ciphertext];
  }

  /** The three length-prefixed fields of a packed frame lie one after
      another where the frame lies: the IV at p, the tag at q1 and the
      ciphertext at q2. */
  lemma PackedFieldsAt(s: seq<byte>, p: nat, iv: seq<byte>, ciphertext: seq<byte>, tag: seq<byte>,
                       d: seq<byte>, q1: nat, q2: nat)
    requires PackEncryptedChunk(iv, ciphertext, tag) == Ok(d) && At(s, p, d)
    requires q1 == p + 4 + |iv| && q2 == q1 + 4 + |tag|
    ensures At(s, p, Be32(|iv|) + iv) && At(s, q1, Be32(|tag|) + tag) && At(s, q2, Be32(|ciphertext|) + ciphertext)
  {
    var a := Be32(|iv|) + iv;
    var b := Be32(|tag|) + tag;
    var c := Be32(|ciphertext|) + ciphertext;
    assert d == a + (b + c);
    AtSplit(s, p, a, b + c);
    AtSplit(s, q1, b, c);
  }

  /** A frame packed by `pack_encrypted_chunk` is read back field by field
      by the encrypted chunk loop, which stops right after it. */
  lemma ReadFramePacked(s: seq<byte>, p: nat, frame: Frame, d: seq<byte>, next: nat)
    requires PackEncryptedChunk(frame.iv, frame.ciphertext, frame.tag) == Ok(d)
    requires At(s, p, d) && next == p + |d|
    ensures Receiver.ReadFrame(s, p) == Ok((frame, next))
  {
    var iv, ciphertext, tag := frame.iv, frame.ciphertext, frame.tag;
    var q1 := p + 4 + |iv|;
    var q2 := q1 + 4 + |tag|;
    PackedFieldsAt(s, p, iv, ciphertext, tag, d, q1, q2);
    ReadFieldOf(s, p, iv, q1);
    ReadFieldOf(s, q1, tag, q2);
    ReadFieldOf(s, q2, ciphertext, next);
    ReadThreeFields(s, p, iv, q1, tag, q2, ciphertext, next, frame);
  }

  /** The frame `send_file` writes for a chunk, found in the stream, is
      read whole and decrypts to the chunk under a handler for the same key
      and AES-GCM; the loop then stands right after the frame. */
  lemma FrameDecrypts(s: seq<byte>, q: nat, h: SecurityHandler, h': SecurityHandler,
                      chunk: seq<byte>, iv: Iv, d: seq<byte>, next: nat)
    requires IsGcm(h.backend) && h'.key == h.key && h'.backend == h.backend
    requires Sender.ChunkData(chunk, h, iv) == Ok(d) && At(s, q, d) && next == q + |d|
    ensures Receiver.DecryptFrame(s, q, h') == Some((chunk, next))
  {
    var frame := h.EncryptChunk(chunk, iv);
    ReadFramePacked(s, q, frame, d, next);
    assert h'.DecryptChunk(frame.iv, frame.ciphertext, frame.tag) == Ok(chunk);
    Receiver.DecryptFrameOk(s, q, h', frame, next, chunk);
  }

  /* ---------------------------------------------------------------- */
  /* The encrypted body                                                */

  /** Where the frame of chunk k starts when the body starts at p: right
      after the frames of the chunks before it. */
  function FrameOffset(chunks: seq<seq<byte>>, h: SecurityHandler?, ivs: nat -> Iv, p: nat, k: nat): nat
    requires k <= |chunks|
  {
    var before := Sender.BodyUpTo(chunks, h, ivs, k);
    if before.Ok? then p + |before.value| else p
  }

  /** In a body that can be written, what is written for the first k
      chunks, followed by the data of chunk k, is what is written for the
      first k + 1 chunks, and that starts the body. */
  lemma BodyAround(chunks: seq<seq<byte>>, h: SecurityHandler?, ivs: nat -> Iv, body: seq<byte>, k: nat, j: nat)
    returns (init: seq<byte>, d: seq<byte>, upTo: seq<byte>)
    requires k < |chunks| && j == k + 1
    requires Sender.Body(chunks, h, ivs) == Ok(body)
    ensures Sender.BodyUpTo(chunks, h, ivs, k) == Ok(init)
    ensures Sender.ChunkData(chunks[k], h, ivs(k)) == Ok(d)
    ensures Sender.BodyUpTo(chunks, h, ivs, j) == Ok(upTo)
    ensures upTo == init + d && |upTo| <= |body| && body[..|upTo|] == upTo
  {
    Sender.BodyPrefix(chunks, h, ivs, j, |chunks|);
    Sender.BodyPrefix(chunks, h, ivs, k, j);
    init := Sender.BodyUpTo(chunks, h, ivs, k).value;
    upTo := Sender.BodyUpTo(chunks, h, ivs, j).value;
    d := Sender.ChunkData(chunks[k], h, ivs(k)).value;
  }

  /** The bytes `send_file` writes for chunk k lie, in the stream, where
      its frame starts, and the next frame starts right after them. */
  lemma ChunkDataAt(chunks: seq<seq<byte>>, h: SecurityHandler?, ivs: nat -> Iv, s: seq<byte>, p: nat,
                    body: seq<byte>, k: nat, q: nat, next: nat)
    returns (d: seq<byte>)
    requires k < |chunks|
    requires Sender.Body(chunks, h, ivs) == Ok(body) && At(s, p, body)
    requires q == FrameOffset(chunks, h, ivs, p, k) && next == FrameOffset(chunks, h, ivs, p, k + 1)
    ensures Sender.ChunkData(chunks[k], h, ivs(k)) == Ok(d)
    ensures At(s, q, d) && next == q + |d|
  {
    var j := k + 1;
    var init, upTo;
    init, d, upTo := BodyAround(chunks, h, ivs, body, k, j);
    var tail := body[|upTo|..];
    assert body == upTo + tail;
    AtSplit(s, p, upTo, tail);
    AtSplit(s, p, init, d);
  }

  /** In the encrypted body `send_file` wrote at offset p, the frame of
      chunk k decrypts to chunk k and ends where the frame of chunk k + 1
      starts. */
  lemma FrameOfChunk(chunks: seq<seq<byte>>, h: SecurityHandler, ivs: nat -> Iv, h': SecurityHandler,
                     s: seq<byte>, p: nat, body: seq<byte>, k: nat, q: nat, next: nat)
    requires IsGcm(h.backend) && h'.key == h.key && h'.backend == h.backend
    requires k < |chunks|
    requires Sender.Body(chunks, h, ivs) == Ok(body) && At(s, p, body)
    requires q == FrameOffset(chunks, h, ivs, p, k) && next == FrameOffset(chunks, h, ivs, p, k + 1)
    ensures Receiver.DecryptFrame(s, q, h') == Some((chunks[k], next))
  {
    var d := ChunkDataAt(chunks, h, ivs, s, p, body, k, q, next);
    var chunk := chunks[k];
    var iv := ivs(k);
    FrameDecrypts(s, q, h, h', chunk, iv, d, next);
  }

  /** The chunks from i on put together. */
  function ConcatFrom(plain: seq<seq<byte>>, i: nat): seq<byte>
    requires i <= |plain|
    decreases |plain| - i
  {
    if i == |plain| then [] else plain[i] + ConcatFrom(plain, i + 1)
  }

  /** The chunks from i on follow the first i chunks, to make all of them. */
  lemma {:induction false} ConcatFromFlatten(plain: seq<seq<byte>>, i: nat)
    requires i <= |plain|
    ensures Sender.FlattenUpTo(plain, i) + ConcatFrom(plain, i) == Sender.Flatten(plain)
    decreases |plain| - i
  {
    if i < |plain| {
      ConcatFromFlatten(plain, i + 1);
      assert Sender.FlattenUpTo(plain, i + 1) == Sender.FlattenUpTo(plain, i) + plain[i];
      assert Sender.FlattenUpTo(plain, i) + (plain[i] + ConcatFrom(plain, i + 1))
          == (Sender.FlattenUpTo(plain, i) + plain[i]) + ConcatFrom(plain, i + 1);
    } else {
      assert Sender.FlattenUpTo(plain, i) + [] == Sender.FlattenUpTo(plain, i);
    }
  }

  /** One frame read and decrypted to a non-empty chunk, while bytes are
      still missing, puts that chunk in front of what the rest of the loop
      writes. */
  lemma FrameStep(s: seq<byte>, h': SecurityHandler?, pos: nat, next: nat, chunk: seq<byte>,
                  rest: seq<byte>, total: nat, total': nat, size: nat)
    requires chunk != [] && total' == total + |chunk| && total' + |rest| == size
    requires Receiver.DecryptFrame(s, pos, h') == Some((chunk, next))
    requires Receiver.ReceiveEncrypted(s, next, h', total', size) == (rest, true)
    ensures Receiver.ReceiveEncrypted(s, pos, h', total, size) == (chunk + rest, true)
  {
    Receiver.ReceiveEncryptedStep(s, pos, h', total, size, next, chunk, total');
  }

  /** The encrypted chunk loop over a stream holding, at offset p, the
      frames `send_file` writes for the non-empty chunks, each of which
      decrypts to its chunk: started on frame i with exactly the bytes of
      chunks i and after still missing, it writes those chunks and ends
      normally. */
  lemma {:induction false} ReceiveFrames(s: seq<byte>, h': SecurityHandler?, chunks: seq<seq<byte>>,
                                         h: SecurityHandler?, ivs: nat -> Iv, p: nat, i: nat, total: nat, size: nat)
    requires i <= |chunks|
    requires forall k :: 0 <= k < |chunks| ==> chunks[k] != []
    requires forall k :: 0 <= k < |chunks| ==>
      Receiver.DecryptFrame(s, FrameOffset(chunks, h, ivs, p, k), h')
      == Some((chunks[k], FrameOffset(chunks, h, ivs, p, k + 1)))
    requires total + |ConcatFrom(chunks, i)| == size
    ensures Receiver.ReceiveEncrypted(s, FrameOffset(chunks, h, ivs, p, i), h', total, size) == (ConcatFrom(chunks, i), true)
    decreases |chunks| - i
  {
    var pos := FrameOffset(chunks, h, ivs, p, i);
    if i < |chunks| {
      var j := i + 1;
      var next := FrameOffset(chunks, h, ivs, p, j);
      var chunk := chunks[i];
      var rest := ConcatFrom(chunks, j);
      var total' := total + |chunk|;
      assert ConcatFrom(chunks, i) == chunk + rest;
      ReceiveFrames(s, h', chunks, h, ivs, p, j, total', size);
      FrameStep(s, h', pos, next, chunk, rest, total, total', size);
    } else {
      Receiver.ReceiveEncryptedDone(s, pos, h', total, size);
    }
  }

  /** In the encrypted body `send_file` wrote at offset p, every frame
      decrypts to its chunk and ends where the next frame starts. */
  lemma FramesOfBody(chunks: seq<seq<byte>>, h: SecurityHandler, ivs: nat -> Iv, h': SecurityHandler,
                     s: seq<byte>, p: nat, body: seq<byte>)
    requires IsGcm(h.backend) && h'.key == h.key && h'.backend == h.backend
    requires Sender.Body(chunks, h, ivs) == Ok(body) && At(s, p, body)
    ensures forall k :: 0 <= k < |chunks| ==>
      Receiver.DecryptFrame(s, FrameOffset(chunks, h, ivs, p, k), h')
      == Some((chunks[k], FrameOffset(chunks, h, ivs, p, k + 1)))
  {
    forall k | 0 <= k < |chunks|
      ensures Receiver.DecryptFrame(s, FrameOffset(chunks, h, ivs, p, k), h')
              == Some((chunks[k], FrameOffset(chunks, h, ivs, p, k + 1)))
    {
      var q := FrameOffset(chunks, h, ivs, p, k);
      var next := FrameOffset(chunks, h, ivs, p, k + 1);
      FrameOfChunk(chunks, h, ivs, h', s, p, body, k, q, next);
    }
  }

  /** The encrypted body `send_file` writes for non-empty chunks, received
      with a handler for the same key and AES-GCM, decrypts frame by frame
      to the whole file and the loop ends normally, whatever follows it in
      the stream. */
  lemma EncryptedBodyReceived(chunks: seq<seq<byte>>, h: SecurityHandler, ivs: nat -> Iv, h': SecurityHandler,
                              s: seq<byte>, p: nat, body: seq<byte>, plain: seq<byte>, size: nat)
    requires IsGcm(h.backend) && h'.key == h.key && h'.backend == h.backend
    requires forall k :: 0 <= k < |chunks| ==> chunks[k] != []
    requires Sender.Body(chunks, h, ivs) == Ok(body) && At(s, p, body)
    requires plain == Sender.Flatten(chunks) && size == |plain|
    ensures Receiver.ReceiveEncrypted(s, p, h', 0, size) == (plain, true)
  {
    FramesOfBody(chunks, h, ivs, h', s, p, body);
    ConcatFromFlatten(chunks, 0);
    assert Sender.FlattenUpTo(chunks, 0) == [];
    assert ConcatFrom(chunks, 0) == plain;
    assert FrameOffset(chunks, h, ivs, p, 0) == p;
    ReceiveFrames(s, h', chunks, h, ivs, p, 0, 0, size);
  }

  /** The encrypted body `send_file` writes for a file read `chunkSize`
      bytes at a time decrypts to exactly the file. */
  lemma FileBodyReceived(contents: seq<byte>, chunkSize: int, h: SecurityHandler, ivs: nat -> Iv,
                         h': SecurityHandler, s: seq<byte>, p: nat, body: seq<byte>, size: nat)
    requires chunkSize != 0
    requires IsGcm(h.backend) && h'.key == h.key && h'.backend == h.backend
    requires Sender.Body(Sender.Chunks(contents, chunkSize), h, ivs) == Ok(body) && At(s, p, body)
    requires size == |contents|
    ensures Receiver.ReceiveEncrypted(s, p, h', 0, size) == (contents, true)
  {
    var chunks := Sender.Chunks(contents, chunkSize);
    Sender.ChunksShape(contents, chunkSize);
    EncryptedBodyReceived(chunks, h, ivs, h', s, p, body, contents, size);
  }

  /* ---------------------------------------------------------------- */
  /* Whole transfers                                                   */

  /** A plain header read as `name` and `size`, followed by exactly `size`
      bytes: `receive_file` saves those bytes under the name in the save
      directory, returns the path, and changes no other file. */
  lemma PlainReceived(s: seq<byte>, p0: nat, end: nat, h': SecurityHandler?, saveDir: string,
                      before: map<string, seq<byte>>, after: map<string, seq<byte>>, r: Receiver.Outcome,
                      name: string, size: nat, start: nat)
    requires Receiver.FileOutcome(s, p0, end, h', saveDir, before, after, r)
    requires Receiver.ParseHeader(s, p0) == Ok((Receiver.Meta(name, size, false), start))
    requires |s| == start + size
    ensures r == Receiver.Saved(Receiver.Join(saveDir, name))
    ensures after == before[Receiver.Join(saveDir, name) := s[start..]]
  {
    var path := Receiver.Join(saveDir, name);
    assert Receiver.PlainOutcome(s, start, end, size, path, after[path], r);
    assert end == |s|;
    assert after[path] == s[start..];
  }

  /** A plain header read as `name` and `size`, followed by fewer than
      `size` bytes before the peer closes: `receive_file` never returns.
      The file under the name holds the bytes that did arrive. */
  lemma PlainCutShortStalls(s: seq<byte>, p0: nat, end: nat, h': SecurityHandler?, saveDir: string,
                            before: map<string, seq<byte>>, after: map<string, seq<byte>>, r: Receiver.Outcome,
                            name: string, size: nat, start: nat)
    requires Receiver.FileOutcome(s, p0, end, h', saveDir, before, after, r)
    requires Receiver.ParseHeader(s, p0) == Ok((Receiver.Meta(name, size, false), start))
    requires |s| - start < size
    ensures r == Receiver.Stalled
    ensures after == before[Receiver.Join(saveDir, name) := s[start..end]]
  {
    var path := Receiver.Join(saveDir, name);
    assert Receiver.PlainOutcome(s, start, end, size, path, after[path], r);
  }

  /** The sender announces 10 bytes for "a" and the stream closes after 3:
      the plain chunk loop of `receive_file` stalls. */
  lemma ThreeOfTenStalls(header: seq<byte>, s: seq<byte>, end: nat, h': SecurityHandler?, saveDir: string,
                         before: map<string, seq<byte>>, after: map<string, seq<byte>>, r: Receiver.Outcome)
    requires Sender.HeaderAsWritten("a", 10, false) == Ok(header) && s == header + [1, 2, 3]
    requires Receiver.FileOutcome(s, 0, end, h', saveDir, before, after, r)
    ensures r == Receiver.Stalled
  {
    assert Utf8.IsAscii("a");
    Sender.HeaderAsWrittenAscii("a", 10, false);
    var start := HeaderThenBody(s, header, [1, 2, 3], "a", 10, false);
    PlainCutShortStalls(s, 0, end, h', saveDir, before, after, r, "a", 10, start);
  }

  /** An encrypted header read as `name` and `size`, followed by frames the
      chunk loop decrypts to `plain` before it ends normally: `receive_file`
      saves `plain` under the name in the save directory, returns the path,
      and changes no other file. */
  lemma EncryptedReceived(s: seq<byte>, p0: nat, end: nat, h': SecurityHandler?, saveDir: string,
                          before: map<string, seq<byte>>, after: map<string, seq<byte>>, r: Receiver.Outcome,
                          name: string, size: nat, start: nat, plain: seq<byte>)
    requires Receiver.FileOutcome(s, p0, end, h', saveDir, before, after, r)
    requires Receiver.ParseHeader(s, p0) == Ok((Receiver.Meta(name, size, true), start))
    requires Receiver.ReceiveEncrypted(s, start, h', 0, size) == (plain, true)
    ensures r == Receiver.Saved(Receiver.Join(saveDir, name))
    ensures after == before[Receiver.Join(saveDir, name) := plain]
  {
  }

  /** A stream made of a corrected header and then a body: `receive_file`
      reads the header as its name, size and mode, and the body lies right
      after it, up to the end of the stream. */
  lemma HeaderThenBody(s: seq<byte>, header: seq<byte>, body: seq<byte>, name: string, size: nat, encrypted: bool)
    returns (start: nat)
    requires Sender.Header(name, size, encrypted) == Ok(header) && s == header + body
    ensures Receiver.ParseHeader(s, 0) == Ok((Receiver.Meta(name, size, encrypted), start))
    ensures At(s, start, body) && |s| == start + |body|
  {
    start := |header|;
    AtWhole(s);
    AtSplit(s, 0, header, body);
    HeaderReceived(s, 0, name, size, encrypted, header, start);
  }

  /** The stream `send_file` writes for a plain transfer of a file whose
      base name is ASCII: `receive_file` reads its header as the base name,
      the size and plain mode, and exactly the file's bytes follow the
      header. */
  lemma PlainStreamReceived(path: string, contents: seq<byte>, chunkSize: int, ivs: nat -> Iv, s: seq<byte>,
                            name: string, size: nat)
    returns (start: nat)
    requires chunkSize != 0
    requires Sender.Transmission(path, contents, chunkSize, null, ivs) == Ok(s)
    requires name == Sender.BaseName(path) && size == |contents| && Utf8.IsAscii(name)
    ensures Receiver.ParseHeader(s, 0) == Ok((Receiver.Meta(name, size, false), start))
    ensures |s| == start + size && s[start..] == contents
  {
    var header, body := Sender.TransmissionLayout(path, contents, chunkSize, null, ivs, s, name, size, false);
    start := HeaderThenBody(s, header, body, name, size, false);
    AtSlice(s, start, body);
  }

  /** The stream `send_file` writes for an encrypted transfer of a file
      whose base name is ASCII: `receive_file` reads its header as the base name, the size and encrypted mode, and
      the encrypted chunk loop, holding a handler for the sender's key,
      decrypts the frames after it to exactly the file and ends normally. */
  lemma EncryptedStreamReceived(path: string, contents: seq<byte>, chunkSize: int, h: SecurityHandler,
                                ivs: nat -> Iv, s: seq<byte>, h': SecurityHandler, name: string, size: nat)
    returns (start: nat)
    requires chunkSize != 0
    requires IsGcm(h.backend) && h'.key == h.key && h'.backend == h.backend
    requires Sender.Transmission(path, contents, chunkSize, h, ivs) == Ok(s)
    requires name == Sender.BaseName(path) && size == |contents| && Utf8.IsAscii(name)
    ensures Receiver.ParseHeader(s, 0) == Ok((Receiver.Meta(name, size, true), start))
    ensures Receiver.ReceiveEncrypted(s, start, h', 0, size) == (contents, true)
  {
    var header, body := Sender.TransmissionLayout(path, contents, chunkSize, h, ivs, s, name, size, true);
    start := HeaderThenBody(s, header, body, name, size, true);
    FileBodyReceived(contents, chunkSize, h, ivs, h', s, start, body, size);
  }

  /** A whole plain transfer of a file whose base name is ASCII: whatever
      `receive_file` leaves behind when it reads the stream `s` that
      `send_file` wrote, it saved the file under its base name in the save
      directory with exactly the sender's contents, and changed nothing
      else. (A non-ASCII name is garbled on the way: see
      HeaderAsWrittenCutsName and HeaderAsWrittenBreaksName.) */
  lemma PlainDelivery(path: string, contents: seq<byte>, chunkSize: int, ivs: nat -> Iv, s: seq<byte>,
                      h': SecurityHandler?, saveDir: string, end: nat,
                      before: map<string, seq<byte>>, after: map<string, seq<byte>>, r: Receiver.Outcome)
    requires chunkSize != 0
    requires Utf8.IsAscii(Sender.BaseName(path))
    requires Sender.Transmission(path, contents, chunkSize, null, ivs) == Ok(s)
    requires Receiver.FileOutcome(s, 0, end, h', saveDir, before, after, r)
    ensures r == Receiver.Saved(Receiver.Join(saveDir, Sender.BaseName(path)))
    ensures after == before[Receiver.Join(saveDir, Sender.BaseName(path)) := contents]
  {
    var name := Sender.BaseName(path);
    var size := |contents|;
    var start := PlainStreamReceived(path, contents, chunkSize, ivs, s, name, size);
    PlainReceived(s, 0, end, h', saveDir, before, after, r, name, size, start);
  }

  /** A whole encrypted transfer of a file whose base name is ASCII, the
      receiver holding a handler for the sender's key: `receive_file` saved the file under its base name with
      exactly the sender's plaintext, and changed nothing else. */
  lemma EncryptedDelivery(path: string, contents: seq<byte>, chunkSize: int, h: SecurityHandler, ivs: nat -> Iv,
                          s: seq<byte>, h': SecurityHandler, saveDir: string, end: nat,
                          before: map<string, seq<byte>>, after: map<string, seq<byte>>, r: Receiver.Outcome)
    requires chunkSize != 0
    requires IsGcm(h.backend) && h'.key == h.key && h'.backend == h.backend
    requires Utf8.IsAscii(Sender.BaseName(path))
    requires Sender.Transmission(path, contents, chunkSize, h, ivs) == Ok(s)
    requires Receiver.FileOutcome(s, 0, end, h', saveDir, before, after, r)
    ensures r == Receiver.Saved(Receiver.Join(saveDir, Sender.BaseName(path)))
    ensures after == before[Receiver.Join(saveDir, Sender.BaseName(path)) := contents]
  {
    var name := Sender.BaseName(path);
    var size := |contents|;
    var start := EncryptedStreamReceived(path, contents, chunkSize, h, ivs, s, h', name, size);
    EncryptedReceived(s, 0, end, h', saveDir, before, after, r, name, size, start, contents);
  }
}

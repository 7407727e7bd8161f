/** The sending side of a transfer, src/FileSender.py: the transfer header,
    the chunking of the file, and the loop that writes each chunk, raw or as
    an encrypted frame, to the connected stream socket. */
module Sender {
  import opened Wrappers
  import opened Bytes
  import Utf8
  import opened Security
  import opened Progress

  /** Where the last '/' among the first n characters is, -1 when there is
      none: `str.rfind('/', 0, n)`. */
  function LastSlash(path: string, n: nat): (i: int)
    requires n <= |path|
    ensures -1 <= i < n
    ensures i >= 0 ==> path[i] == '/'
    ensures forall j :: i < j < n ==> path[j] != '/'
  {
    if n == 0 then -1
    else if path[n - 1] == '/' then n - 1
    else LastSlash(path, n - 1)
  }

  /** `os.path.basename` on a POSIX path: what follows the last '/'. */
  function BaseName(path: string): (r: string)
    ensures '/' !in r
    ensures |r| <= |path| && r == path[|path| - |r|..]
    ensures |r| < |path| ==> path[|path| - |r| - 1] == '/'
    ensures '/' !in path ==> r == path
  {
    path[LastSlash(path, |path|) + 1..]
  }

  /** struct's `'<n>s'` field: the bytes cut to n, or padded with zero bytes
      up to n. */
  function FitField(b: seq<byte>, n: nat): (r: seq<byte>)
    ensures |r| == n
    ensures |b| >= n ==> r == b[..n]
    ensures |b| < n ==> r[..|b|] == b && forall i :: |b| <= i < n ==> r[i] == 0
  {
    if |b| >= n then b[..n] else b + seq(n - |b|, _ => 0)
  }

  /** The header's `'!I'` encryption word: it fits its field, and the
      receiver's `bool(...)` of it gives back the mode. */
  function Flag(encrypted: bool): (f: nat)
    ensures f < U32Limit && (f != 0 <==> encrypted)
  {
    if encrypted then 1 else 0
  }

  /** `_send_metadata` as written: the length word is `len(filename)` in
      characters and the name field is the UTF-8 encoding fitted to that
      many bytes; struct.error when a value does not fit its field. */
  function HeaderAsWritten(name: string, fileSize: nat, encrypted: bool): (r: Result<seq<byte>>)
    ensures r.Ok? <==> |name| < U32Limit && fileSize < U64Limit
    ensures r.Err? ==> r.error == StructError
    ensures r.Ok? ==> |r.value| == 16 + |name|
  {
    if |name| < U32Limit && fileSize < U64Limit then
      var n := |name|;
      Ok(Be32(n) + FitField(Utf8.Encode(name), n) + Be64(fileSize) + Be32(Flag(encrypted)))
    else Err(StructError)
  }

  /** The header as written holds the character count, the name's bytes
      cut or padded to that count, the file size and the encryption flag. */
  lemma HeaderAsWrittenLayout(name: string, fileSize: nat, encrypted: bool)
    requires HeaderAsWritten(name, fileSize, encrypted).Ok?
    ensures var r := HeaderAsWritten(name, fileSize, encrypted).value;
      var n := |name|;
      FromBE(r[..4]) == n &&
      r[4..4 + n] == FitField(Utf8.Encode(name), n) &&
      FromBE(r[4 + n..12 + n]) == fileSize &&
      FromBE(r[12 + n..]) == Flag(encrypted)
  {
    var n := |name|;
    Parts4(Be32(n), FitField(Utf8.Encode(name), n), Be64(fileSize), Be32(Flag(encrypted)));
  }

  /** The transfer header with the length word counting the bytes of the
      UTF-8 name, so the whole encoded name is sent. For ASCII names it is
      byte for byte the header as written (HeaderAsWrittenAscii). */
  function Header(name: string, fileSize: nat, encrypted: bool): (r: Result<seq<byte>>)
    ensures r.Ok? <==> |Utf8.Encode(name)| < U32Limit && fileSize < U64Limit
    ensures r.Err? ==> r.error == StructError
    ensures r.Ok? ==> |r.value| == 16 + |Utf8.Encode(name)|
  {
    var e := Utf8.Encode(name);
    if |e| < U32Limit && fileSize < U64Limit then
      Ok(Be32(|e|) + e + Be64(fileSize) + Be32(Flag(encrypted)))
    else Err(StructError)
  }

  /** The header holds the name's byte count, the UTF-8 name itself, the
      file size and the encryption flag. */
  lemma HeaderLayout(name: string, fileSize: nat, encrypted: bool)
    requires Header(name, fileSize, encrypted).Ok?
    ensures var r := Header(name, fileSize, encrypted).value;
      var e := Utf8.Encode(name);
      var n := |e|;
      FromBE(r[..4]) == n &&
      r[4..4 + n] == e &&
      FromBE(r[4 + n..12 + n]) == fileSize &&
      FromBE(r[12 + n..]) == Flag(encrypted)
  {
    var e := Utf8.Encode(name);
    Parts4(Be32(|e|), e, Be64(fileSize), Be32(Flag(encrypted)));
  }

  /** For an ASCII name the header as written and the corrected header are
      the same bytes. */
  lemma HeaderAsWrittenAscii(name: string, fileSize: nat, encrypted: bool)
    requires Utf8.IsAscii(name)
    ensures HeaderAsWritten(name, fileSize, encrypted) == Header(name, fileSize, encrypted)
  {
    Utf8.EncodeAscii(name);
    var e := Utf8.Encode(name);
    assert FitField(e, |name|) == e[..|e|] == e;
  }

  /** The first i chunks put together. */
  function FlattenUpTo(chunks: seq<seq<byte>>, i: nat): seq<byte>
    requires i <= |chunks|
    decreases i
  {
    if i == 0 then [] else FlattenUpTo(chunks, i - 1) + chunks[i - 1]
  }

  /** All the chunks put together. */
  function Flatten(chunks: seq<seq<byte>>): seq<byte> {
    FlattenUpTo(chunks, |chunks|)
  }

  /** Putting a chunk in front puts its bytes in front. */
  lemma {:induction false} FlattenUpToCons(c: seq<byte>, rest: seq<seq<byte>>, i: nat)
    requires i <= |rest|
    ensures FlattenUpTo([c] + rest, i + 1) == c + FlattenUpTo(rest, i)
    decreases i
  {
    if i > 0 {
      FlattenUpToCons(c, rest, i - 1);
      assert ([c] + rest)[i] == rest[i - 1];
    }
  }

  /** The first i chunks hold no more bytes than the first j, i <= j. */
  lemma {:induction false} FlattenUpToGrows(chunks: seq<seq<byte>>, i: nat, j: nat)
    requires i <= j <= |chunks|
    ensures |FlattenUpTo(chunks, i)| <= |FlattenUpTo(chunks, j)|
    decreases j
  {
    if i < j {
      FlattenUpToGrows(chunks, i, j - 1);
    }
  }

  /** The percentages the chunk loop of `send_file` reports after each of
      the first i chunks of a file of `fileSize` bytes. */
  function Reports(chunks: seq<seq<byte>>, fileSize: nat, i: nat): (r: seq<int>)
    requires i <= |chunks| && (i == 0 || fileSize > 0)
    ensures |r| == i
    decreases i
  {
    if i == 0 then [] else Reports(chunks, fileSize, i - 1) + [Percent(|FlattenUpTo(chunks, i)|, fileSize)]
  }

  /** Sending chunk i adds its length to the count and one report to the
      reports. */
  lemma ReportsNext(chunks: seq<seq<byte>>, fileSize: nat, i: nat, total: nat)
    requires i < |chunks| && |Flatten(chunks)| <= fileSize && chunks[i] != []
    requires total == |FlattenUpTo(chunks, i)|
    ensures fileSize > 0
    ensures total + |chunks[i]| == |FlattenUpTo(chunks, i + 1)|
    ensures Reports(chunks, fileSize, i + 1) == Reports(chunks, fileSize, i) + [Percent(total + |chunks[i]|, fileSize)]
  {
    FlattenUpToGrows(chunks, i + 1, |chunks|);
  }

  /** While no more than the file is sent, those percentages lie in 0..100
      and never go down. */
  lemma {:induction false} ReportsShape(chunks: seq<seq<byte>>, fileSize: nat, i: nat)
    requires i <= |chunks| && |Flatten(chunks)| <= fileSize && (i == 0 || fileSize > 0)
    ensures PercentRange(Reports(chunks, fileSize, i)) && NonDecreasing(Reports(chunks, fileSize, i))
    decreases i
  {
    if i > 0 {
      ReportsShape(chunks, fileSize, i - 1);
      FlattenUpToGrows(chunks, i - 1, i);
      FlattenUpToGrows(chunks, i, |chunks|);
      ProgressNext(Reports(chunks, fileSize, i - 1), |FlattenUpTo(chunks, i - 1)|, |FlattenUpTo(chunks, i)|, fileSize);
    }
  }

  /** The chunks `_chunk_file` yields from offset `pos` of a file holding
      `data` when it reads `size` bytes at a time: `read(0)` yields nothing
      and a negative size reads the rest of the file in one go. Put together
      they are the rest of the file. */
  function ChunksFrom(data: seq<byte>, size: int, pos: nat): (r: seq<seq<byte>>)
    requires pos <= |data|
    ensures size != 0 ==> Flatten(r) == data[pos..]
    ensures size == 0 || pos == |data| ==> r == []
    ensures size < 0 && pos < |data| ==> r == [data[pos..]]
    decreases |data| - pos
  {
    if pos == |data| || size == 0 then []
    else if size < 0 then
      assert Flatten([data[pos..]]) == FlattenUpTo([data[pos..]], 0) + data[pos..];
      [data[pos..]]
    else
      var n := Min(size, |data| - pos);
      var rest := ChunksFrom(data, size, pos + n);
      FlattenUpToCons(data[pos..pos + n], rest, |rest|);
      assert data[pos..] == data[pos..pos + n] + data[pos + n..];
      [data[pos..pos + n]] + rest
  }

  /** The chunks of the whole file: together they are the file. */
  function Chunks(data: seq<byte>, size: int): (r: seq<seq<byte>>)
    ensures size != 0 ==> Flatten(r) == data
    ensures size == 0 || data == [] ==> r == []
    ensures size < 0 && data != [] ==> r == [data]
  {
    assert data[0..] == data;
    ChunksFrom(data, size, 0)
  }

  /** Every chunk is non-empty; with a positive size every chunk is at most
      `size` long and every chunk but the last exactly `size`. */
  predicate WellChunked(r: seq<seq<byte>>, size: int) {
    && (forall i :: 0 <= i < |r| ==> r[i] != [])
    && (size > 0 ==> forall i :: 0 <= i < |r| ==> |r[i]| <= size)
    && (size > 0 ==> forall i :: 0 <= i < |r| - 1 ==> |r[i]| == size)
  }

  lemma {:induction false} ChunksFromShape(data: seq<byte>, size: int, pos: nat)
    requires pos <= |data|
    ensures WellChunked(ChunksFrom(data, size, pos), size)
    decreases |data| - pos
  {
    if pos == |data| || size == 0 {
      assert ChunksFrom(data, size, pos) == [];
    } else if size < 0 {
      assert ChunksFrom(data, size, pos) == [data[pos..]];
    } else {
      var n := Min(size, |data| - pos);
      ChunksFromShape(data, size, pos + n);
      var rest := ChunksFrom(data, size, pos + n);
      var r := ChunksFrom(data, size, pos);
      assert r == [data[pos..pos + n]] + rest;
      assert forall i :: 1 <= i < |r| ==> r[i] == rest[i - 1];
      assert n < size ==> pos + n == |data| && rest == [];
    }
  }

  /** The chunks of a file are well formed. */
  lemma ChunksShape(data: seq<byte>, size: int)
    ensures WellChunked(Chunks(data, size), size)
  {
    ChunksFromShape(data, size, 0);
  }

  /** One read of `_chunk_file` at offset pos, of n bytes ending at next:
      the chunk it yields is the first of the chunks from pos, and it is
      empty exactly at the end of the file or when the size is 0. */
  lemma ChunksFromStep(data: seq<byte>, size: int, pos: nat, n: nat, next: nat, chunk: seq<byte>)
    requires pos <= |data|
    requires n == if size < 0 then |data| - pos else Min(size, |data| - pos)
    requires next == pos + n && chunk == data[pos..next]
    ensures chunk == [] <==> pos == |data| || size == 0
    ensures chunk != [] ==> ChunksFrom(data, size, pos) == [chunk] + ChunksFrom(data, size, next)
  {
    if pos < |data| && size < 0 {
      assert chunk == data[pos..];
    }
  }

  /** `_chunk_file`: the read loop, yielding `file.read(size)` until it
      returns nothing. */
  method ChunkFile(data: seq<byte>, size: int) returns (chunks: seq<seq<byte>>)
    ensures chunks == Chunks(data, size)
  {
    chunks := [];
    var pos := 0;
    while true
      invariant 0 <= pos <= |data|
      invariant chunks + ChunksFrom(data, size, pos) == Chunks(data, size)
      decreases |data| - pos
    {
      var n := if size < 0 then |data| - pos else Min(size, |data| - pos);
      var next := pos + n;
      var chunk := data[pos..next];
      ChunksFromStep(data, size, pos, n, next, chunk);
      if chunk == [] {
        assert chunks + [] == chunks;
        break;
      }
      var yielded := [chunk];
      var rest := ChunksFrom(data, size, next);
      AppendAssoc(chunks, yielded, rest);
      chunks := chunks + yielded;
      pos := next;
    }
  }

  /** The bytes written for one chunk: the chunk itself, or its encryption
      under the chunk's IV as one frame. */
  function ChunkData(chunk: seq<byte>, h: SecurityHandler?, iv: Iv): (r: Result<seq<byte>>)
    ensures h == null ==> r == Ok(chunk)
    ensures h != null && IsGcm(h.backend) && |chunk| < U32Limit ==>
      r.Ok? && |r.value| == 12 + IvLength + TagLength + |chunk|
  {
    if h == null then Ok(chunk)
    else
      var f := h.EncryptChunk(chunk, iv);
      PackEncryptedChunk(f.iv, f.ciphertext, f.tag)
  }

  /** What is written for the first i chunks: chunk k goes out as ChunkData
      under IV `ivs(k)`; the first struct.error stops it. */
  function BodyUpTo(chunks: seq<seq<byte>>, h: SecurityHandler?, ivs: nat -> Iv, i: nat): (r: Result<seq<byte>>)
    requires i <= |chunks|
    ensures h == null ==> r == Ok(FlattenUpTo(chunks, i))
    decreases i
  {
    if i == 0 then Ok([])
    else
      var init :- BodyUpTo(chunks, h, ivs, i - 1);
      var last :- ChunkData(chunks[i - 1], h, ivs(i - 1));
      Ok(init + last)
  }

  /** Everything written after the header. Without encryption it is the
      file's bytes themselves. */
  function Body(chunks: seq<seq<byte>>, h: SecurityHandler?, ivs: nat -> Iv): (r: Result<seq<byte>>)
    ensures h == null ==> r == Ok(Flatten(chunks))
  {
    BodyUpTo(chunks, h, ivs, |chunks|)
  }

  /** When the first j chunks can be written, so can the first i <= j, and
      what is written for them starts what is written for the j. */
  lemma {:induction false} BodyPrefix(chunks: seq<seq<byte>>, h: SecurityHandler?, ivs: nat -> Iv, i: nat, j: nat)
    requires i <= j <= |chunks|
    requires BodyUpTo(chunks, h, ivs, j).Ok?
    ensures BodyUpTo(chunks, h, ivs, i).Ok?
    ensures Extends(BodyUpTo(chunks, h, ivs, i).value, BodyUpTo(chunks, h, ivs, j).value)
    decreases j
  {
    if i < j {
      BodyPrefix(chunks, h, ivs, i, j - 1);
      var a := BodyUpTo(chunks, h, ivs, i).value;
      var b := BodyUpTo(chunks, h, ivs, j - 1).value;
      ExtendsAppend(b, BodyUpTo(chunks, h, ivs, j).value[|b|..]);
      ExtendsTransitive(a, b, BodyUpTo(chunks, h, ivs, j).value);
    }
  }

  /** Writing chunk i after the first i chunks extends the body by its
      data; the whole body, when it can be written, is at least that long. */
  lemma BodyStep(chunks: seq<seq<byte>>, i: nat, h: SecurityHandler?, ivs: nat -> Iv, d: seq<byte>)
    requires i < |chunks|
    requires BodyUpTo(chunks, h, ivs, i).Ok?
    requires ChunkData(chunks[i], h, ivs(i)) == Ok(d)
    ensures BodyUpTo(chunks, h, ivs, i + 1) == Ok(BodyUpTo(chunks, h, ivs, i).value + d)
    ensures Body(chunks, h, ivs).Ok? ==>
      |Body(chunks, h, ivs).value| >= |BodyUpTo(chunks, h, ivs, i).value| + |d|
  {
    if Body(chunks, h, ivs).Ok? {
      BodyPrefix(chunks, h, ivs, i + 1, |chunks|);
    }
  }

  /** A chunk that cannot be framed makes the whole body fail. */
  lemma BodyStepFails(chunks: seq<seq<byte>>, i: nat, h: SecurityHandler?, ivs: nat -> Iv)
    requires i < |chunks|
    requires ChunkData(chunks[i], h, ivs(i)).Err?
    ensures Body(chunks, h, ivs).Err?
  {
    if Body(chunks, h, ivs).Ok? {
      BodyPrefix(chunks, h, ivs, i + 1, |chunks|);
    }
  }

  /** The whole byte stream `send_file` writes for the file `path` holding
      `contents`: the header `_send_metadata` packs for its base name, as
      written (HeaderAsWritten), then the body. */
  function Transmission(path: string, contents: seq<byte>, chunkSize: int, h: SecurityHandler?, ivs: nat -> Iv): (r: Result<seq<byte>>)
    ensures r.Ok? <==> HeaderAsWritten(BaseName(path), |contents|, h != null).Ok? &&
                       Body(Chunks(contents, chunkSize), h, ivs).Ok?
  {
    var header :- HeaderAsWritten(BaseName(path), |contents|, h != null);
    var body :- Body(Chunks(contents, chunkSize), h, ivs);
    Ok(header + body)
  }

  /** A transmission that can be written is its header followed by its
      body. */
  lemma TransmissionParts(path: string, contents: seq<byte>, chunkSize: int, h: SecurityHandler?, ivs: nat -> Iv)
    requires Transmission(path, contents, chunkSize, h, ivs).Ok?
    ensures Transmission(path, contents, chunkSize, h, ivs).value ==
            HeaderAsWritten(BaseName(path), |contents|, h != null).value + Body(Chunks(contents, chunkSize), h, ivs).value
  {
  }

  /** Once the header is on the wire, the whole transmission is written
      exactly when its body is written after it. */
  lemma TransmissionSent(path: string, contents: seq<byte>, chunkSize: int, h: SecurityHandler?, ivs: nat -> Iv,
                         header: seq<byte>, body: Result<seq<byte>>, capacity: Option<nat>,
                         start: seq<byte>, final: seq<byte>, ok: bool)
    requires HeaderAsWritten(BaseName(path), |contents|, h != null) == Ok(header)
    requires body == Body(Chunks(contents, chunkSize), h, ivs)
    requires ok <==> body.Ok? && FitsIn(capacity, |start + header| + |body.value|)
    requires ok ==> final == (start + header) + body.value
    ensures ok <==> Transmission(path, contents, chunkSize, h, ivs).Ok? &&
                    FitsIn(capacity, |start| + |Transmission(path, contents, chunkSize, h, ivs).value|)
    ensures ok ==> final == start + Transmission(path, contents, chunkSize, h, ivs).value
  {
    if body.Ok? {
      AppendAssoc(start, header, body.value);
    }
  }

  /** A transmission that cannot be written whole because its header does
      not fit is not written whole. */
  lemma HeaderThenTransmission(path: string, contents: seq<byte>, chunkSize: int, h: SecurityHandler?, ivs: nat -> Iv,
                               header: Result<seq<byte>>, capacity: Option<nat>, used: nat)
    requires header == HeaderAsWritten(BaseName(path), |contents|, h != null)
    requires !(header.Ok? && FitsIn(capacity, used + |header.value|))
    ensures !(Transmission(path, contents, chunkSize, h, ivs).Ok? &&
              FitsIn(capacity, used + |Transmission(path, contents, chunkSize, h, ivs).value|))
  {
    var t := Transmission(path, contents, chunkSize, h, ivs);
    if t.Ok? {
      var body := Body(Chunks(contents, chunkSize), h, ivs);
      TransmissionParts(path, contents, chunkSize, h, ivs);
      assert t.value == header.value + body.value;
      FitsInPrefix(capacity, used, header.value, body.value);
    }
  }

  lemma FitsInPrefix(capacity: Option<nat>, used: nat, a: seq<byte>, b: seq<byte>)
    ensures FitsIn(capacity, used + |a + b|) ==> FitsIn(capacity, used + |a|)
  {
  }

  /** A transmission that can be written, taken apart: the header as
      written for the base name, size and mode, then the body; without
      encryption the body is exactly the file, in order and without
      framing. For an ASCII base name the header is also the corrected
      Header. */
  lemma TransmissionLayout(path: string, contents: seq<byte>, chunkSize: int, h: SecurityHandler?, ivs: nat -> Iv,
                           s: seq<byte>, name: string, size: nat, encrypted: bool)
    returns (header: seq<byte>, body: seq<byte>)
    requires Transmission(path, contents, chunkSize, h, ivs) == Ok(s)
    requires name == BaseName(path) && size == |contents| && encrypted == (h != null)
    ensures HeaderAsWritten(name, size, encrypted) == Ok(header)
    ensures Utf8.IsAscii(name) ==> Header(name, size, encrypted) == Ok(header)
    ensures Body(Chunks(contents, chunkSize), h, ivs) == Ok(body)
    ensures s == header + body
    ensures h == null && chunkSize != 0 ==> body == contents
  {
    header := HeaderAsWritten(name, size, encrypted).value;
    body := Body(Chunks(contents, chunkSize), h, ivs).value;
    if Utf8.IsAscii(name) {
      HeaderAsWrittenAscii(name, size, encrypted);
    }
  }

  /** `b` starts with `a`: the socket only ever appends. */
  predicate Extends(a: seq<byte>, b: seq<byte>) {
    |a| <= |b| && b[..|a|] == a
  }

  lemma ExtendsAppend(a: seq<byte>, b: seq<byte>)
    ensures Extends(a, a + b)
  {
    assert (a + b)[..|a|] == a;
  }

  lemma ExtendsTransitive(a: seq<byte>, b: seq<byte>, c: seq<byte>)
    requires Extends(a, b) && Extends(b, c)
    ensures Extends(a, c)
  {
    assert c[..|a|] == c[..|b|][..|a|];
  }

  function FitsIn(capacity: Option<nat>, n: nat): bool {
    capacity.None? || n <= capacity.value
  }

  /** The sender's end of the TCP stream. `capacity` is how many bytes the
      peer takes before the connection breaks (None: all of them). */
  class Socket {
    var sent: seq<byte>
    var connected: bool
    var closed: bool
    const capacity: Option<nat>

    /** Never more bytes on the wire than the peer takes. */
    predicate Valid()
      reads this
    {
      FitsIn(capacity, |sent|)
    }

    constructor (capacity: Option<nat>)
      ensures sent == [] && !connected && !closed && this.capacity == capacity
      ensures Valid()
    {
      sent := [];
      connected := false;
      closed := false;
      this.capacity := capacity;
    }

    /** `connect`: fails when refused, or on a closed or already connected
        socket. */
    method Connect(refused: bool) returns (ok: bool)
      modifies this
      ensures ok <==> !refused && !old(closed) && !old(connected)
      ensures connected == (old(connected) || ok)
      ensures sent == old(sent) && closed == old(closed)
    {
      ok := !refused && !closed && !connected;
      if ok {
        connected := true;
      }
    }

    /** `sendall`: writes all of data, or raises after writing as much as
        the peer took. */
    method SendAll(data: seq<byte>) returns (ok: bool)
      requires Valid()
      modifies this`sent
      ensures Valid()
      ensures ok <==> connected && !closed && FitsIn(capacity, |old(sent)| + |data|)
      ensures ok ==> sent == old(sent) + data
      ensures Extends(old(sent), sent)
    {
      ok := connected && !closed && FitsIn(capacity, |sent| + |data|);
      if ok {
        sent := sent + data;
      } else if connected && !closed && |sent| < capacity.value {
        sent := sent + data[..capacity.value - |sent|];
      }
    }

    method Close()
      modifies this`closed
      ensures closed
    {
      closed := true;
    }
  }

  class FileSender {
    const targetIp: string
    const port: int
    const chunkSize: int
    const sock: Socket
    var securityHandler: SecurityHandler?

    /** `FileSender(target_ip, port, chunk_size)`: a fresh, unconnected
        socket and no encryption. */
    constructor (targetIp: string, port: int, chunkSize: int, capacity: Option<nat>)
      ensures this.targetIp == targetIp && this.port == port && this.chunkSize == chunkSize
      ensures fresh(sock) && sock.sent == [] && !sock.connected && !sock.closed
      ensures sock.Valid()
      ensures sock.capacity == capacity
      ensures securityHandler == null
    {
      this.targetIp := targetIp;
      this.port := port;
      this.chunkSize := chunkSize;
      sock := new Socket(capacity);
      securityHandler := null;
    }

    /** `set_encryption(key)`: installs a handler for the key, or lets the
        ValueError of a bad key propagate with the handler unchanged. */
    method SetEncryption(key: Option<seq<byte>>, generated: Key, backend: Aead) returns (r: Result<()>)
      modifies this`securityHandler
      ensures r.Ok? <==> CheckKey(key, generated).Ok?
      ensures r.Ok? ==> securityHandler != null && securityHandler.key == CheckKey(key, generated).value
                        && securityHandler.backend == backend
      ensures r.Err? ==> r.error == ValueError && securityHandler == old(securityHandler)
    {
      var h := SecurityHandler.Create(key, generated, backend);
      if h.Err? {
        return Err(h.error);
      }
      securityHandler := h.value;
      return Ok(());
    }

    /** The data `send_file` writes for one chunk: the chunk itself, or
        the IV, tag and ciphertext that encrypt_chunk returns, each after its
        '!I' length, exactly as pack_encrypted_chunk would lay them out. */
    method ChunkBytes(chunk: seq<byte>, iv: Iv) returns (r: Result<seq<byte>>)
      ensures r == ChunkData(chunk, securityHandler, iv)
    {
      if securityHandler == null {
        return Ok(chunk);
      }
      var f := securityHandler.EncryptChunk(chunk, iv);
      if !(|f.iv| < U32Limit && |f.tag| < U32Limit && |f.ciphertext| < U32Limit) {
        return Err(StructError);
      }
      var data := Be32(|f.iv|) + f.iv;
      data := data + Be32(|f.tag|) + f.tag;
      data := data + Be32(|f.ciphertext|) + f.ciphertext;
      return Ok(data);
    }

    /** One pass of the chunk loop: frames the chunk and writes it. */
    method SendChunk(chunk: seq<byte>, iv: Iv) returns (ok: bool)
      requires sock.Valid()
      modifies sock`sent
      ensures sock.Valid()
      ensures ok <==>
        && ChunkData(chunk, securityHandler, iv).Ok? && sock.connected && !sock.closed
        && FitsIn(sock.capacity, |old(sock.sent)| + |ChunkData(chunk, securityHandler, iv).value|)
      ensures ok ==> sock.sent == old(sock.sent) + ChunkData(chunk, securityHandler, iv).value
      ensures Extends(old(sock.sent), sock.sent)
    {
      var framed := ChunkBytes(chunk, iv);
      if framed.Err? {
        ExtendsAppend(sock.sent, []);
        return false;
      }
      ok := sock.SendAll(framed.value);
    }

    /** Chunk i sent after the first i chunks went out whole: either it goes
        out too, extending the written body by its data, or the body as a
        whole cannot be written. */
    method SendStep(chunks: seq<seq<byte>>, i: nat, ivs: nat -> Iv, ghost start: seq<byte>, ghost soFar: seq<byte>)
      returns (ok: bool, ghost next: seq<byte>)
      requires i < |chunks|
      requires sock.connected && !sock.closed && sock.Valid()
      requires BodyUpTo(chunks, securityHandler, ivs, i) == Ok(soFar)
      requires sock.sent == start + soFar
      modifies sock`sent
      ensures Extends(start, sock.sent)
      ensures ok ==> BodyUpTo(chunks, securityHandler, ivs, i + 1) == Ok(next)
      ensures ok ==> sock.sent == start + next
      ensures sock.Valid()
      ensures !ok ==> !(Body(chunks, securityHandler, ivs).Ok? &&
                        FitsIn(sock.capacity, |start| + |Body(chunks, securityHandler, ivs).value|))
    {
      next := soFar;
      var framed := ChunkData(chunks[i], securityHandler, ivs(i));
      if framed.Err? {
        BodyStepFails(chunks, i, securityHandler, ivs);
      } else {
        BodyStep(chunks, i, securityHandler, ivs, framed.value);
        ExtendsAppend(start, soFar);
        AppendAssoc(start, soFar, framed.value);
        next := soFar + framed.value;
      }
      ExtendsAppend(start, soFar);
      ok := SendChunk(chunks[i], ivs(i));
      ExtendsTransitive(start, start + soFar, sock.sent);
    }

    /** The chunk loop of `send_file`: writes each chunk's data in turn,
        counting plaintext bytes, and stops at the first struct.error or
        failed write. */
    method SendChunks(chunks: seq<seq<byte>>, fileSize: nat, ivs: nat -> Iv)
      returns (ok: bool, progress: seq<int>)
      requires sock.connected && !sock.closed
      requires sock.Valid()
      requires |Flatten(chunks)| <= fileSize
      requires forall i :: 0 <= i < |chunks| ==> chunks[i] != []
      modifies sock`sent
      ensures ok <==> Body(chunks, securityHandler, ivs).Ok? &&
                      FitsIn(sock.capacity, |old(sock.sent)| + |Body(chunks, securityHandler, ivs).value|)
      ensures ok ==> sock.sent == old(sock.sent) + Body(chunks, securityHandler, ivs).value
      ensures Extends(old(sock.sent), sock.sent)
      ensures ok ==> |progress| == |chunks|
      ensures PercentRange(progress) && NonDecreasing(progress)
      ensures ok && chunks != [] && |Flatten(chunks)| == fileSize ==> progress[|progress| - 1] == 100
    {
      progress := [];
      var start := sock.sent;
      ghost var soFar: seq<byte> := [];
      var totalSent := 0;
      var i := 0;
      while i < |chunks|
        invariant 0 <= i <= |chunks|
        invariant totalSent == |FlattenUpTo(chunks, i)|
        invariant i > 0 ==> fileSize > 0
        invariant progress == Reports(chunks, fileSize, i)
        invariant BodyUpTo(chunks, securityHandler, ivs, i) == Ok(soFar)
        invariant sock.sent == start + soFar
        invariant sock.Valid()
      {
        var written;
        written, soFar := SendStep(chunks, i, ivs, start, soFar);
        if !written {
          ReportsShape(chunks, fileSize, i);
          return false, progress;
        }
        ReportsNext(chunks, fileSize, i, totalSent);
        totalSent := totalSent + |chunks[i]|;
        progress := progress + [Percent(totalSent, fileSize)];
        i := i + 1;
      }
      ReportsShape(chunks, fileSize, i);
      ExtendsAppend(start, soFar);
      if chunks != [] && totalSent == fileSize {
        PercentFull(fileSize);
      }
      ok := true;
    }

    /** `_send_metadata`: packs the header as written for the name, size
        and mode and writes all of it; struct.error or a failed write makes
        it False. */
    method SendMetadata(name: string, fileSize: nat, encrypted: bool) returns (ok: bool)
      requires sock.Valid()
      modifies sock`sent
      ensures sock.Valid()
      ensures ok <==>
        && HeaderAsWritten(name, fileSize, encrypted).Ok?
        && sock.connected && !sock.closed
        && FitsIn(sock.capacity, |old(sock.sent)| + |HeaderAsWritten(name, fileSize, encrypted).value|)
      ensures ok ==> sock.sent == old(sock.sent) + HeaderAsWritten(name, fileSize, encrypted).value
      ensures Extends(old(sock.sent), sock.sent)
    {
      var header := HeaderAsWritten(name, fileSize, encrypted);
      if header.Err? {
        ExtendsAppend(sock.sent, []);
        return false;
      }
      ok := sock.SendAll(header.value);
    }

    /** The part of `send_file` after the header: `_chunk_file` cuts the
        file and the chunk loop writes the body. */
    method SendContents(contents: seq<byte>, ivs: nat -> Iv) returns (ok: bool, progress: seq<int>)
      requires sock.connected && !sock.closed
      requires sock.Valid()
      modifies sock`sent
      ensures ok <==> Body(Chunks(contents, chunkSize), securityHandler, ivs).Ok? &&
                      FitsIn(sock.capacity, |old(sock.sent)| + |Body(Chunks(contents, chunkSize), securityHandler, ivs).value|)
      ensures ok ==> sock.sent == old(sock.sent) + Body(Chunks(contents, chunkSize), securityHandler, ivs).value
      ensures Extends(old(sock.sent), sock.sent)
      ensures ok ==> |progress| == |Chunks(contents, chunkSize)|
      ensures PercentRange(progress) && NonDecreasing(progress)
      ensures ok && contents != [] && chunkSize != 0 ==> progress[|progress| - 1] == 100
    {
      var chunks := ChunkFile(contents, chunkSize);
      ChunksShape(contents, chunkSize);
      ok, progress := SendChunks(chunks, |contents|, ivs);
    }

    /** What `send_file` writes once connected: the header for the file's
        base name, then the chunks. */
    method SendTransfer(filename: string, contents: seq<byte>, ivs: nat -> Iv)
      returns (ok: bool, progress: seq<int>)
      requires sock.connected && !sock.closed
      requires sock.Valid()
      modifies sock`sent
      ensures ok <==>
        && Transmission(filename, contents, chunkSize, securityHandler, ivs).Ok?
        && FitsIn(sock.capacity, |old(sock.sent)| + |Transmission(filename, contents, chunkSize, securityHandler, ivs).value|)
      ensures ok ==> sock.sent == old(sock.sent) + Transmission(filename, contents, chunkSize, securityHandler, ivs).value
      ensures Extends(old(sock.sent), sock.sent)
      ensures ok ==> |progress| == |Chunks(contents, chunkSize)|
      ensures PercentRange(progress) && NonDecreasing(progress)
      ensures ok && contents != [] && chunkSize != 0 ==> progress[|progress| - 1] == 100
    {
      progress := [];
      ghost var start := sock.sent;
      var name := BaseName(filename);
      var encrypted := securityHandler != null;
      var written := SendMetadata(name, |contents|, encrypted);
      if !written {
        HeaderThenTransmission(filename, contents, chunkSize, securityHandler, ivs, HeaderAsWritten(name, |contents|, encrypted), sock.capacity, |start|);
        return false, progress;
      }
      ghost var header := HeaderAsWritten(name, |contents|, encrypted).value;
      ghost var afterHeader := sock.sent;
      ok, progress := SendContents(contents, ivs);
      ExtendsTransitive(start, afterHeader, sock.sent);
      TransmissionSent(filename, contents, chunkSize, securityHandler, ivs, header,
                       Body(Chunks(contents, chunkSize), securityHandler, ivs), sock.capacity, start, sock.sent, ok);
    }

    /** `send_file(filename, progress_callback)`. `file` is the file's
        contents, None when it does not exist; `refused` says whether the
        receiver refuses the connection; `ivs(i)` is the random IV drawn for
        chunk i. Returns True exactly when every byte of the transmission
        was written, closes the socket on every path, and reports after each
        chunk a percentage that never decreases and ends at 100. */
    method SendFile(filename: string, file: Option<seq<byte>>, refused: bool, ivs: nat -> Iv)
      returns (ok: bool, progress: seq<int>)
      requires sock.Valid()
      modifies sock
      ensures sock.closed
      ensures ok <==>
        && file.Some? && !refused && !old(sock.closed) && !old(sock.connected)
        && Transmission(filename, file.value, chunkSize, securityHandler, ivs).Ok?
        && FitsIn(sock.capacity, |old(sock.sent)| + |Transmission(filename, file.value, chunkSize, securityHandler, ivs).value|)
      ensures ok ==> sock.sent == old(sock.sent) + Transmission(filename, file.value, chunkSize, securityHandler, ivs).value
      ensures Extends(old(sock.sent), sock.sent)
      ensures ok ==> |progress| == |Chunks(file.value, chunkSize)|
      ensures PercentRange(progress) && NonDecreasing(progress)
      ensures ok && file.value != [] && chunkSize != 0 ==> progress[|progress| - 1] == 100
    {
      progress := [];
      ok := false;
      ExtendsAppend(sock.sent, []);
      if file.None? {
        sock.Close();
        return;
      }
      var connected := sock.Connect(refused);
      if !connected {
        sock.Close();
        return;
      }
      ok, progress := SendTransfer(filename, file.value, ivs);
      sock.Close();
    }
  }
}

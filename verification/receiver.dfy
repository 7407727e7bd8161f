/** The receiving side of a transfer, src/FileReceiver.py: exact reads from
    the accepted connection, the header, and the chunk loop that writes the
    file either from raw bytes or frame by frame. */
module Receiver {
  import opened Wrappers
  import opened Bytes
  import Utf8
  import opened Security
  import opened Progress

  /** The n bytes of the stream `s` from offset pos, or ConnectionError when
      the stream ends first. */
  function Take(s: seq<byte>, pos: nat, n: nat): (r: Result<seq<byte>>)
    ensures r.Ok? <==> pos + n <= |s|
    ensures r.Ok? ==> |r.value| == n
    ensures r.Err? ==> r.error == ConnectionError
  {
    if pos + n <= |s| then Ok(s[pos..pos + n]) else Err(ConnectionError)
  }

  /** What the header announces. */
  datatype Meta = Meta(name: string, size: nat, encrypted: bool)

  /** A '!I' length followed by that many bytes, read exactly from offset
      pos; on success, the bytes and the offset after them. */
  function ReadField(s: seq<byte>, pos: nat): (r: Result<(seq<byte>, nat)>)
    ensures r.Ok? ==> r.value.1 == pos + 4 + |r.value.0| <= |s|
    ensures r.Ok? ==> s[pos + 4..r.value.1] == r.value.0 && FromBE(s[pos..pos + 4]) == |r.value.0|
    ensures r.Err? ==> r.error == ConnectionError
  {
    if |s| < pos + 4 then Err(ConnectionError)
    else
      var end := pos + 4 + FromBE(s[pos..pos + 4]);
      if |s| < end then Err(ConnectionError) else Ok((s[pos + 4..end], end))
  }

  /** The header as `receive_file` reads it from offset pos: a '!I' name
      length, that many bytes of strict UTF-8 name, a '!Q' size and a '!I'
      flag, encrypted when non-zero. On success, also the offset after it. */
  function ParseHeader(s: seq<byte>, pos: nat): (r: Result<(Meta, nat)>)
    ensures r.Ok? ==> pos + 16 <= r.value.1 <= |s|
    ensures r.Ok? ==> r.value.0.size < U64Limit
    ensures |s| < pos + 16 ==> r.Err?
    ensures r.Err? ==> r.error == ConnectionError || r.error == UnicodeError
  {
    var (nameBytes, p) :- ReadField(s, pos);
    var name :- Utf8.Decode(nameBytes);
    var sizeField :- Take(s, p, 8);
    var flagField :- Take(s, p + 8, 4);
    FromBE8Bound(sizeField);
    Ok((Meta(name, FromBE(sizeField), FromBE(flagField) != 0), p + 12))
  }

  /** `count` length-prefixed fields read one after another from offset
      pos; on success, the fields and the offset after the last one. */
  function ReadFields(s: seq<byte>, pos: nat, count: nat): (r: Result<(seq<seq<byte>>, nat)>)
    ensures r.Ok? ==> |r.value.0| == count && pos + 4 * count <= r.value.1
    ensures r.Ok? && count > 0 ==> r.value.1 <= |s|
    ensures r.Err? ==> r.error == ConnectionError
    decreases count
  {
    if count == 0 then Ok(([], pos))
    else
      var first := ReadField(s, pos);
      if first.Err? then Err(first.error)
      else
        var rest := ReadFields(s, first.value.1, count - 1);
        if rest.Err? then Err(rest.error)
        else Ok(([first.value.0] + rest.value.0, rest.value.1))
  }

  /** One frame as the encrypted chunk loop reads it from offset pos: IV
      length and IV, tag length and tag, ciphertext length and ciphertext,
      each read exactly. On success, also the offset after it. */
  function ReadFrame(s: seq<byte>, pos: nat): (r: Result<(Frame, nat)>)
    ensures r.Ok? ==> pos + 12 <= r.value.1 <= |s|
    ensures r.Err? ==> r.error == ConnectionError
  {
    var fields := ReadFields(s, pos, 3);
    if fields.Err? then Err(fields.error)
    else
      var f := fields.value.0;
      Ok((Frame(f[0], f[2], f[1]), fields.value.1))
  }

  /** A field read in full at offset pos is the field `struct.unpack` and
      slicing find at offset k of the stream's tail d from offset base. */
  lemma ReadFieldAt(s: seq<byte>, base: nat, d: seq<byte>, pos: nat, f: seq<byte>, q: nat, k: nat)
    requires ReadField(s, pos) == Ok((f, q))
    requires base <= pos && d == s[base..] && k == pos - base
    ensures ReadU32At(d, k) == Ok(|f|)
    ensures SliceAt(d, k + 4, |f|) == f
  {
    assert d[k..k + 4] == s[pos..pos + 4];
    assert d[k + 4..k + 4 + |f|] == s[pos + 4..pos + 4 + |f|];
  }

  /** A frame read in full is three fields read one after another: the
      IV, then the tag, then the ciphertext. */
  lemma ReadFrameFields(s: seq<byte>, pos: nat)
    returns (iv: seq<byte>, q1: nat, tag: seq<byte>, q2: nat, ciphertext: seq<byte>, q3: nat)
    requires ReadFrame(s, pos).Ok?
    ensures ReadField(s, pos) == Ok((iv, q1))
    ensures ReadField(s, q1) == Ok((tag, q2))
    ensures ReadField(s, q2) == Ok((ciphertext, q3))
    ensures ReadFrame(s, pos) == Ok((Frame(iv, ciphertext, tag), q3))
  {
    var a := ReadField(s, pos).value;
    var b := ReadField(s, a.1).value;
    var c := ReadField(s, b.1).value;
    iv, q1, tag, q2, ciphertext, q3 := a.0, a.1, b.0, b.1, c.0, c.1;
    assert ReadFields(s, q2, 1).value.0 == [ciphertext];
    assert ReadFields(s, q1, 2).value.0 == [tag, ciphertext];
  }

  /** A frame read in full is the frame `unpack_encrypted_chunk` finds in
      the same bytes. */
  lemma ReadFrameUnpacks(s: seq<byte>, pos: nat)
    requires ReadFrame(s, pos).Ok?
    ensures UnpackEncryptedChunk(s[pos..]) == Ok(ReadFrame(s, pos).value.0)
  {
    var iv, q1, tag, q2, ciphertext, q3 := ReadFrameFields(s, pos);
    var d := s[pos..];
    var k1 := q1 - pos;
    var k2 := q2 - pos;
    ReadFieldAt(s, pos, d, pos, iv, q1, 0);
    ReadFieldAt(s, pos, d, q1, tag, q2, k1);
    ReadFieldAt(s, pos, d, q2, ciphertext, q3, k2);
    FieldsUnpack(d, iv, tag, |ciphertext|, ciphertext, k1, k2);
  }

  /** One pass of the encrypted chunk loop from offset pos: read a frame
      and decrypt it. The plaintext and the offset after the frame, or None
      when the read comes up short, there is no handler (AttributeError),
      GCM rejects the IV or tag length (ValueError) or the tag does not
      verify (InvalidTag). */
  function DecryptFrame(s: seq<byte>, pos: nat, h: SecurityHandler?): (r: Option<(seq<byte>, nat)>)
    ensures r.Some? ==> pos + 12 <= r.value.1 <= |s|
    ensures h == null ==> r.None?
  {
    var frame := ReadFrame(s, pos);
    if frame.Err? || h == null then None
    else
      var f := frame.value.0;
      var plaintext := h.DecryptChunk(f.iv, f.ciphertext, f.tag);
      if plaintext.Err? then None else Some((plaintext.value, frame.value.1))
  }

  lemma DecryptFrameOk(s: seq<byte>, pos: nat, h: SecurityHandler, f: Frame, next: nat, plaintext: seq<byte>)
    requires ReadFrame(s, pos) == Ok((f, next))
    requires h.DecryptChunk(f.iv, f.ciphertext, f.tag) == Ok(plaintext)
    ensures DecryptFrame(s, pos, h) == Some((plaintext, next))
  {
  }

  lemma DecryptFrameFails(s: seq<byte>, pos: nat, h: SecurityHandler?)
    requires ReadFrame(s, pos).Err? || h == null ||
             (var f := ReadFrame(s, pos).value.0; h.DecryptChunk(f.iv, f.ciphertext, f.tag).Err?)
    ensures DecryptFrame(s, pos, h) == None
  {
  }

  /** The encrypted chunk loop from offset pos with `total` plaintext bytes
      received of `size`: while total < size it reads a frame and writes its
      decryption. The plaintext it writes, and whether it ends normally; a
      short read, a failed tag check or a missing handler end it with the
      plaintext written so far. */
  function ReceiveEncrypted(s: seq<byte>, pos: nat, h: SecurityHandler?, total: nat, size: nat): (r: (seq<byte>, bool))
    ensures total >= size ==> r == ([], true)
    ensures r.1 ==> total + |r.0| >= size
    ensures h == null && total < size ==> r == ([], false)
    decreases |s| - pos
  {
    if total >= size then ([], true)
    else match DecryptFrame(s, pos, h)
      case None => ([], false)
      case Some((plaintext, next)) =>
        var rest := ReceiveEncrypted(s, next, h, total + |plaintext|, size);
        (plaintext + rest.0, rest.1)
  }

  /** One pass of the encrypted chunk loop: a frame read in full and
      decrypted contributes its plaintext ahead of what the rest of the
      stream contributes. */
  lemma {:induction false} ReceiveEncryptedStep(s: seq<byte>, pos: nat, h: SecurityHandler?, total: nat, size: nat,
                             next: nat, plaintext: seq<byte>, total': nat)
    requires total < size && DecryptFrame(s, pos, h) == Some((plaintext, next))
    requires total' == total + |plaintext|
    ensures ReceiveEncrypted(s, pos, h, total, size).0
            == plaintext + ReceiveEncrypted(s, next, h, total', size).0
    ensures ReceiveEncrypted(s, pos, h, total, size).1
            == ReceiveEncrypted(s, next, h, total', size).1
  {
  }

  /** Once every byte of the file is in, the loop writes nothing more and
      ends normally, wherever the stream stands. */
  lemma ReceiveEncryptedDone(s: seq<byte>, pos: nat, h: SecurityHandler?, total: nat, size: nat)
    requires size <= total
    ensures ReceiveEncrypted(s, pos, h, total, size) == ([], true)
  {
  }

  /** The invariant of the encrypted chunk loop at offset pos, with
      `soFar` written and `total` received: what was written so far followed
      by what the rest of the stream writes is the whole of what the loop
      writes from its start. */
  ghost predicate Accounts(s: seq<byte>, pos: nat, h: SecurityHandler?, total: nat, size: nat,
                           soFar: seq<byte>, whole: (seq<byte>, bool))
  {
    var rest := ReceiveEncrypted(s, pos, h, total, size);
    whole == (soFar + rest.0, rest.1)
  }

  /** The invariant survives one pass of the loop: a frame read and
      decrypted moves the offset past the frame, and its plaintext from
      what the rest of the stream writes to what has been written. */
  lemma AccountsStep(s: seq<byte>, before: nat, after: nat, h: SecurityHandler?, total: nat, total': nat, size: nat,
                     plaintext: seq<byte>, soFar: seq<byte>, soFar': seq<byte>, whole: (seq<byte>, bool))
    requires total < size && DecryptFrame(s, before, h) == Some((plaintext, after))
    requires total' == total + |plaintext| && soFar' == soFar + plaintext
    requires Accounts(s, before, h, total, size, soFar, whole)
    ensures Accounts(s, after, h, total', size, soFar', whole)
  {
    ReceiveEncryptedStep(s, before, h, total, size, after, plaintext, total');
    AppendAssoc(soFar, plaintext, ReceiveEncrypted(s, after, h, total', size).0);
  }

  /** A pass that cannot read or decrypt its frame ends the loop: the
      plaintext written so far is all it writes, and it does not end
      normally. */
  lemma AccountsStop(s: seq<byte>, pos: nat, h: SecurityHandler?, total: nat, size: nat,
                     soFar: seq<byte>, whole: (seq<byte>, bool))
    requires total < size && DecryptFrame(s, pos, h) == None
    requires Accounts(s, pos, h, total, size, soFar, whole)
    ensures whole == (soFar, false)
  {
    assert soFar + [] == soFar;
  }

  /** `os.path.join(save_dir, filename)` on POSIX: an absolute name replaces
      the directory; otherwise the name follows the directory, with a '/'
      between them unless the directory is empty or already ends in one. */
  function Join(dir: string, name: string): (r: string)
    ensures |name| <= |r| && r[|r| - |name|..] == name
    ensures name != [] && name[0] == '/' ==> r == name
    ensures (name == [] || name[0] != '/') ==> |dir| <= |r| && r[..|dir|] == dir
  {
    if name != [] && name[0] == '/' then name
    else if dir == [] || dir[|dir| - 1] == '/' then dir + name
    else dir + "/" + name
  }

  /** The accepted connection: the bytes the peer sends, `input`, of which
      the first `pos` have been received. */
  class Connection {
    const input: seq<byte>
    var pos: nat
    var closed: bool

    predicate Valid()
      reads this
    {
      pos <= |input|
    }

    constructor (input: seq<byte>)
      ensures this.input == input && pos == 0 && !closed
      ensures Valid()
    {
      this.input := input;
      pos := 0;
      closed := false;
    }

    /** `recv(max)`: the next bytes of the stream, at least one and at most
        max of them; nothing when max is 0 or the peer has closed and every
        byte was received. How many arrive at once is not determined. */
    method Recv(max: nat) returns (packet: seq<byte>)
      requires Valid()
      modifies this`pos
      ensures Valid() && old(pos) <= pos
      ensures packet == input[old(pos)..pos]
      ensures |packet| <= max
      ensures packet == [] <==> max == 0 || old(pos) == |input|
    {
      if max == 0 || pos == |input| {
        return [];
      }
      var k :| 1 <= k <= max && pos + k <= |input|;
      packet := input[pos..pos + k];
      pos := pos + k;
    }

    method Close()
      modifies this`closed
      ensures closed
    {
      closed := true;
    }
  }

  /** The file `receive_file` opens with mode 'wb'. */
  class OutFile {
    var contents: seq<byte>

    constructor ()
      ensures contents == []
    {
      contents := [];
    }

    method Write(data: seq<byte>)
      modifies this`contents
      ensures contents == old(contents) + data
    {
      contents := contents + data;
    }
  }

  /** How `receive_file` ends: it returns the save path, or "" after any
      exception, or (plain mode, stream closed early) never returns. */
  datatype Outcome = Saved(path: string) | Failed | Stalled

  /** How an encrypted `receive_file` ends, its header over at offset
      start: the file holds the plaintext ReceiveEncrypted writes, and the
      save path is returned exactly when that ends normally. */
  ghost predicate EncryptedOutcome(s: seq<byte>, start: nat, h: SecurityHandler?, size: nat,
                                   path: string, written: seq<byte>, r: Outcome)
  {
    var received := ReceiveEncrypted(s, start, h, 0, size);
    written == received.0 && r == (if received.1 then Saved(path) else Failed)
  }

  /** How a plain `receive_file` ends, its header over at offset start and
      the stream received up to offset end: the file holds exactly the bytes
      received; it stalls exactly when the stream holds fewer than `size`
      bytes; otherwise the save path is returned, and the file has at least
      `size` bytes and fewer than size + 4096 (none when size is 0). */
  ghost predicate PlainOutcome(s: seq<byte>, start: nat, end: nat, size: nat,
                               path: string, written: seq<byte>, r: Outcome)
  {
    && start <= end <= |s| && written == s[start..end]
    && (r.Stalled? <==> |s| - start < size)
    && (!r.Stalled? ==> r == Saved(path) && size <= |written|)
    && (size == 0 ==> written == [])
    && (size > 0 ==> |written| < size + 4096)
  }

  /** What `receive_file` leaves behind, reading the stream `s` from offset
      p0 and up to offset end, given the disk before and after. A header
      that cannot be read fails with the disk unchanged. Otherwise exactly
      one file changes, the one at `os.path.join(save_dir, name)`, and the
      encrypted or plain chunk loop decides its contents and the outcome. */
  ghost predicate FileOutcome(s: seq<byte>, p0: nat, end: nat, h: SecurityHandler?, saveDir: string,
                              before: map<string, seq<byte>>, after: map<string, seq<byte>>, r: Outcome)
  {
    var header := ParseHeader(s, p0);
    if header.Err? then r == Failed && after == before
    else
      var (meta, start) := header.value;
      var path := Join(saveDir, meta.name);
      && path in after && after == before[path := after[path]]
      && (meta.encrypted ==> EncryptedOutcome(s, start, h, meta.size, path, after[path], r))
      && (!meta.encrypted ==> PlainOutcome(s, start, end, meta.size, path, after[path], r))
  }

  lemma HeaderFails(s: seq<byte>, p0: nat, end: nat, h: SecurityHandler?, saveDir: string,
                    files: map<string, seq<byte>>)
    requires ParseHeader(s, p0).Err?
    ensures FileOutcome(s, p0, end, h, saveDir, files, files, Failed)
  {
  }

  lemma EncryptedFile(s: seq<byte>, p0: nat, end: nat, h: SecurityHandler?, saveDir: string,
                      before: map<string, seq<byte>>, meta: Meta, start: nat, written: seq<byte>, r: Outcome)
    requires ParseHeader(s, p0) == Ok((meta, start)) && meta.encrypted
    requires EncryptedOutcome(s, start, h, meta.size, Join(saveDir, meta.name), written, r)
    ensures FileOutcome(s, p0, end, h, saveDir, before, before[Join(saveDir, meta.name) := written], r)
  {
  }

  lemma PlainFile(s: seq<byte>, p0: nat, end: nat, h: SecurityHandler?, saveDir: string,
                  before: map<string, seq<byte>>, meta: Meta, start: nat, written: seq<byte>, r: Outcome)
    requires ParseHeader(s, p0) == Ok((meta, start)) && !meta.encrypted
    requires PlainOutcome(s, start, end, meta.size, Join(saveDir, meta.name), written, r)
    ensures FileOutcome(s, p0, end, h, saveDir, before, before[Join(saveDir, meta.name) := written], r)
  {
  }

  /** The receiver's disk: the files it has written, by path. */
  class FileReceiver {
    const port: int
    const saveDir: string
    var sockClosed: bool
    var conn: Connection?
    var securityHandler: SecurityHandler?
    var files: map<string, seq<byte>>

    /** `FileReceiver(port, save_dir)`: no connection, no decryption. */
    constructor (port: int, saveDir: string, files: map<string, seq<byte>>)
      ensures this.port == port && this.saveDir == saveDir && this.files == files
      ensures conn == null && securityHandler == null && !sockClosed
    {
      this.port := port;
      this.saveDir := saveDir;
      this.files := files;
      conn := null;
      securityHandler := null;
      sockClosed := false;
    }

    /** `set_decryption(key)`: a handler for the key, or the ValueError of a
        bad key with the handler unchanged. */
    method SetDecryption(key: Option<seq<byte>>, generated: Key, backend: Aead) returns (r: Result<()>)
      modifies this`securityHandler
      ensures r.Ok? <==> CheckKey(key, generated).Ok?
      ensures r.Ok? ==> securityHandler != null && securityHandler.key == CheckKey(key, generated).value
                        && securityHandler.backend == backend
      ensures r.Err? ==> r.error == ValueError && securityHandler == old(securityHandler)
    {
      var h := SecurityHandler.Create(key, generated, backend);
      if h.Err? {
        return Err(h.error);
      }
      securityHandler := h.value;
      return Ok(());
    }

    /** `accept_connection`: the peer's connection, carrying `input`. */
    method AcceptConnection(input: seq<byte>)
      modifies this`conn
      ensures conn != null && fresh(conn)
      ensures conn.input == input && conn.pos == 0 && !conn.closed && conn.Valid()
    {
      conn := new Connection(input);
    }

    /** `_receive_exact(n)`: the next n bytes of the stream, asking recv for
        no more than the bytes still missing, or ConnectionError once the
        stream ends first (having consumed it all). */
    method ReceiveExact(n: nat) returns (r: Result<seq<byte>>)
      requires conn != null && conn.Valid()
      modifies conn`pos
      ensures conn.Valid() && old(conn.pos) <= conn.pos
      ensures r == Take(conn.input, old(conn.pos), n)
      ensures r.Ok? ==> r.value == conn.input[old(conn.pos)..conn.pos] && conn.pos == old(conn.pos) + n
      ensures r.Err? ==> conn.pos == |conn.input|
    {
      var data: seq<byte> := [];
      ghost var start := conn.pos;
      while |data| < n
        invariant conn.Valid() && start <= conn.pos
        invariant conn.pos == start + |data| <= start + n
        invariant data == conn.input[start..conn.pos]
        decreases n - |data|
      {
        ghost var before := conn.pos;
        var packet := conn.Recv(n - |data|);
        if packet == [] {
          return Err(ConnectionError);
        }
        SliceJoin(conn.input, start, before, conn.pos);
        data := data + packet;
      }
      return Ok(data);
    }

    /** Two exact reads: a '!I' length, then that many bytes; exactly
        ReadField, leaving the connection just after the field. */
    method ReceiveField() returns (r: Result<seq<byte>>)
      requires conn != null && conn.Valid()
      modifies conn`pos
      ensures conn.Valid() && old(conn.pos) <= conn.pos
      ensures r.Ok? <==> ReadField(conn.input, old(conn.pos)).Ok?
      ensures r.Ok? ==> ReadField(conn.input, old(conn.pos)) == Ok((r.value, conn.pos))
      ensures r.Err? ==> r.error == ConnectionError
    {
      var lengthField :- ReceiveExact(4);
      var field :- ReceiveExact(FromBE(lengthField));
      return Ok(field);
    }

    /** The header reads of `receive_file`: exactly ParseHeader, leaving
        the connection just after the header. */
    method ReceiveHeader() returns (r: Result<Meta>)
      requires conn != null && conn.Valid()
      modifies conn`pos
      ensures conn.Valid() && old(conn.pos) <= conn.pos
      ensures r.Ok? <==> ParseHeader(conn.input, old(conn.pos)).Ok?
      ensures r.Ok? ==> ParseHeader(conn.input, old(conn.pos)) == Ok((r.value, conn.pos))
      ensures r.Err? ==> r.error == ParseHeader(conn.input, old(conn.pos)).error
    {
      var nameBytes :- ReceiveField();
      var name :- Utf8.Decode(nameBytes);
      var sizeField :- ReceiveExact(8);
      var flagField :- ReceiveExact(4);
      return Ok(Meta(name, FromBE(sizeField), FromBE(flagField) != 0));
    }

    /** The six exact reads of one pass of the encrypted chunk loop:
        exactly ReadFrame, leaving the connection just after the frame. */
    method ReceiveFrame() returns (r: Result<Frame>)
      requires conn != null && conn.Valid()
      modifies conn`pos
      ensures conn.Valid() && old(conn.pos) <= conn.pos
      ensures r.Ok? <==> ReadFrame(conn.input, old(conn.pos)).Ok?
      ensures r.Ok? ==> ReadFrame(conn.input, old(conn.pos)) == Ok((r.value, conn.pos))
      ensures r.Err? ==> r.error == ConnectionError
    {
      ghost var s := conn.input;
      ghost var p0 := conn.pos;
      var iv :- ReceiveField();
      ghost var p1 := conn.pos;
      var tag :- ReceiveField();
      ghost var p2 := conn.pos;
      var ciphertext :- ReceiveField();
      assert ReadFields(s, conn.pos, 0) == Ok(([], conn.pos));
      assert [ciphertext] + [] == [ciphertext];
      assert ReadFields(s, p2, 1) == Ok(([ciphertext], conn.pos));
      assert [tag] + [ciphertext] == [tag, ciphertext];
      assert ReadFields(s, p1, 2) == Ok(([tag, ciphertext], conn.pos));
      assert [iv] + [tag, ciphertext] == [iv, tag, ciphertext];
      assert ReadFields(s, p0, 3) == Ok(([iv, tag, ciphertext], conn.pos));
      return Ok(Frame(iv, ciphertext, tag));
    }

    /** One pass of the encrypted chunk loop: read a frame, decrypt it with
        `handler` and write the plaintext. When it succeeds, the plaintext
        moves from what the rest of the stream writes to what has been
        written; when it fails, what has been written is all the loop
        writes. */
    method ReceiveChunk(file: OutFile, handler: SecurityHandler?, total: nat, size: nat,
                        ghost c0: seq<byte>, ghost soFar: seq<byte>, ghost whole: (seq<byte>, bool))
      returns (ok: bool, next: nat, ghost soFar': seq<byte>)
      requires conn != null && conn.Valid() && total < size
      requires file.contents == c0 + soFar && total == |soFar|
      requires Accounts(conn.input, conn.pos, handler, total, size, soFar, whole)
      modifies conn`pos, file`contents
      ensures conn.Valid() && old(conn.pos) <= conn.pos
      ensures ok ==> old(conn.pos) < conn.pos && total <= next
      ensures ok ==> file.contents == c0 + soFar' && next == |soFar'|
      ensures ok ==> Accounts(conn.input, conn.pos, handler, next, size, soFar', whole)
      ensures !ok ==> file.contents == c0 + soFar && whole == (soFar, false)
    {
      ghost var s := conn.input;
      ghost var before := conn.pos;
      soFar' := soFar;
      next := total;
      var frame := ReceiveFrame();
      if frame.Err? {
        DecryptFrameFails(s, before, handler);
        AccountsStop(s, before, handler, total, size, soFar, whole);
        return false, next, soFar';
      }
      if handler == null {
        DecryptFrameFails(s, before, handler);
        AccountsStop(s, before, handler, total, size, soFar, whole);
        return false, next, soFar';
      }
      var plaintext := handler.DecryptChunk(frame.value.iv, frame.value.ciphertext, frame.value.tag);
      if plaintext.Err? {
        DecryptFrameFails(s, before, handler);
        AccountsStop(s, before, handler, total, size, soFar, whole);
        return false, next, soFar';
      }
      file.Write(plaintext.value);
      DecryptFrameOk(s, before, handler, frame.value, conn.pos, plaintext.value);
      next := total + |plaintext.value|;
      soFar' := soFar + plaintext.value;
      AppendAssoc(c0, soFar, plaintext.value);
      AccountsStep(s, before, conn.pos, handler, total, next, size, plaintext.value, soFar, soFar', whole);
      ok := true;
    }

    /** The chunk loop of `receive_file` in encrypted mode: until `size`
        plaintext bytes have arrived, read a frame, decrypt it and write the
        plaintext. It writes exactly what ReceiveEncrypted says and ends
        normally exactly when that does; the percentages it reports lie in
        0..100 and never go down. */
    method ReceiveEncryptedBody(file: OutFile, size: nat) returns (ok: bool, progress: seq<int>)
      requires conn != null && conn.Valid()
      modifies conn`pos, file`contents
      ensures conn.Valid() && old(conn.pos) <= conn.pos
      ensures ok == ReceiveEncrypted(conn.input, old(conn.pos), securityHandler, 0, size).1
      ensures file.contents == old(file.contents) + ReceiveEncrypted(conn.input, old(conn.pos), securityHandler, 0, size).0
      ensures PercentRange(progress) && NonDecreasing(progress)
    {
      progress := [];
      var handler := securityHandler;
      ghost var s := conn.input;
      ghost var p0 := conn.pos;
      ghost var whole := ReceiveEncrypted(s, conn.pos, handler, 0, size);
      ghost var c0 := file.contents;
      ghost var soFar: seq<byte> := [];
      var totalReceived := 0;
      assert soFar + whole.0 == whole.0;
      assert c0 + soFar == c0;
      while totalReceived < size
        invariant conn.Valid() && p0 <= conn.pos
        invariant file.contents == c0 + soFar && totalReceived == |soFar|
        invariant Accounts(s, conn.pos, handler, totalReceived, size, soFar, whole)
        invariant PercentRange(progress) && NonDecreasing(progress)
        invariant progress != [] ==> size > 0 && progress[|progress| - 1] == CappedPercent(totalReceived, size)
        decreases |conn.input| - conn.pos
      {
        var chunkOk, next;
        chunkOk, next, soFar := ReceiveChunk(file, handler, totalReceived, size, c0, soFar, whole);
        if !chunkOk {
          return false, progress;
        }
        CappedPercentMonotone(totalReceived, next, size);
        ProgressAppend(progress, CappedPercent(next, size));
        progress := progress + [CappedPercent(next, size)];
        totalReceived := next;
      }
      assert soFar + [] == soFar;
      ok := true;
    }

    /** The chunk loop of `receive_file` in plain mode: `recv(4096)` until
        at least `size` bytes have arrived, writing each packet. It writes
        exactly the bytes it received, in order: at least `size` of them and
        fewer than size + 4096. When the peer closes before `size` bytes,
        recv keeps returning nothing and the loop never ends; the model
        stops there and reports it as stalled. */
    method ReceivePlainBody(file: OutFile, size: nat) returns (stalled: bool, progress: seq<int>)
      requires conn != null && conn.Valid()
      modifies conn`pos, file`contents
      ensures conn.Valid() && old(conn.pos) <= conn.pos
      ensures file.contents == old(file.contents) + conn.input[old(conn.pos)..conn.pos]
      ensures stalled <==> |conn.input| - old(conn.pos) < size
      ensures stalled ==> conn.pos == |conn.input|
      ensures !stalled ==> size <= conn.pos - old(conn.pos)
      ensures size == 0 ==> conn.pos == old(conn.pos)
      ensures size > 0 ==> conn.pos - old(conn.pos) < size + 4096
      ensures PercentRange(progress) && NonDecreasing(progress)
    {
      progress := [];
      ghost var c0 := file.contents;
      ghost var start := conn.pos;
      var totalReceived := 0;
      while totalReceived < size
        invariant conn.Valid() && start <= conn.pos
        invariant totalReceived == conn.pos - start
        invariant file.contents == c0 + conn.input[start..conn.pos]
        invariant size == 0 ==> totalReceived == 0
        invariant size > 0 ==> totalReceived < size + 4096
        invariant PercentRange(progress) && NonDecreasing(progress)
        invariant progress != [] ==> size > 0 && progress[|progress| - 1] == CappedPercent(totalReceived, size)
        decreases |conn.input| - conn.pos
      {
        ghost var before := conn.pos;
        var packet := conn.Recv(4096);
        if packet == [] {
          return true, progress;
        }
        file.Write(packet);
        SliceJoin(conn.input, start, before, conn.pos);
        AppendAssoc(c0, conn.input[start..before], packet);
        var previous := totalReceived;
        totalReceived := totalReceived + |packet|;
        CappedPercentMonotone(previous, totalReceived, size);
        ProgressAppend(progress, CappedPercent(totalReceived, size));
        progress := progress + [CappedPercent(totalReceived, size)];
      }
      stalled := false;
    }

    /** The plain chunk loop as evidently intended: an empty `recv` means
        the peer has closed, and raises ConnectionError the way
        `_receive_exact` does, instead of looping forever. It always comes
        back: with the bytes received written, and an error exactly when
        the stream ended before `size` bytes. */
    method ReceivePlainBodyOrRaise(file: OutFile, size: nat) returns (r: Result<()>, progress: seq<int>)
      requires conn != null && conn.Valid()
      modifies conn`pos, file`contents
      ensures conn.Valid() && old(conn.pos) <= conn.pos
      ensures file.contents == old(file.contents) + conn.input[old(conn.pos)..conn.pos]
      ensures r.Err? <==> |conn.input| - old(conn.pos) < size
      ensures r.Err? ==> r.error == ConnectionError && conn.pos == |conn.input|
      ensures r.Ok? ==> size <= conn.pos - old(conn.pos)
      ensures PercentRange(progress) && NonDecreasing(progress)
    {
      var stalled;
      stalled, progress := ReceivePlainBody(file, size);
      r := if stalled then Err(ConnectionError) else Ok(());
    }

    /** The part of `receive_file` after the header: open the file at
        `path` for writing and run the encrypted or the plain chunk loop
        into it. What the file ends up holding, and how the call ends. */
    method ReceiveBody(meta: Meta, path: string) returns (r: Outcome, written: seq<byte>, progress: seq<int>)
      requires conn != null && conn.Valid()
      modifies conn`pos
      ensures conn.Valid() && old(conn.pos) <= conn.pos
      ensures meta.encrypted ==> EncryptedOutcome(conn.input, old(conn.pos), securityHandler, meta.size, path, written, r)
      ensures !meta.encrypted ==> PlainOutcome(conn.input, old(conn.pos), conn.pos, meta.size, path, written, r)
      ensures PercentRange(progress) && NonDecreasing(progress)
    {
      var file := new OutFile();
      if meta.encrypted {
        var ok;
        ok, progress := ReceiveEncryptedBody(file, meta.size);
        r := if ok then Saved(path) else Failed;
      } else {
        var stalled;
        stalled, progress := ReceivePlainBody(file, meta.size);
        r := if stalled then Stalled else Saved(path);
      }
      written := file.contents;
      assert [] + written == written;
    }

    /** `receive_file(progress_callback)`. A header that cannot be read
        returns "" with no file written. Otherwise the file at
        `os.path.join(save_dir, name)` is created and holds exactly what the
        chunk loop wrote, whether or not the loop ended normally; the save
        path is returned when it did, "" when it raised. The connection and
        the listening socket are closed on every path that returns. */
    method ReceiveFile() returns (r: Outcome, progress: seq<int>)
      requires conn != null && conn.Valid()
      modifies this`files, this`sockClosed, conn`pos, conn`closed
      ensures conn.Valid() && old(conn.pos) <= conn.pos
      ensures !r.Stalled? ==> conn.closed && sockClosed
      ensures r.Stalled? ==> conn.closed == old(conn.closed) && sockClosed == old(sockClosed)
      ensures FileOutcome(conn.input, old(conn.pos), conn.pos, securityHandler, saveDir, old(files), files, r)
      ensures PercentRange(progress) && NonDecreasing(progress)
    {
      progress := [];
      ghost var s := conn.input;
      ghost var p0 := conn.pos;
      ghost var before := files;
      var header := ReceiveHeader();
      if header.Err? {
        conn.Close();
        sockClosed := true;
        HeaderFails(s, p0, conn.pos, securityHandler, saveDir, files);
        return Failed, progress;
      }
      ghost var start := conn.pos;
      var meta := header.value;
      var path := Join(saveDir, meta.name);
      var written;
      r, written, progress := ReceiveBody(meta, path);
      files := files[path := written];
      if !r.Stalled? {
        conn.Close();
        sockClosed := true;
      }
      if meta.encrypted {
        EncryptedFile(s, p0, conn.pos, securityHandler, saveDir, before, meta, start, written, r);
      } else {
        PlainFile(s, p0, conn.pos, securityHandler, saveDir, before, meta, start, written, r);
      }
    }
  }
}

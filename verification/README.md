# Gesture-Air-Drop: a Dafny model of the transfer core

Gesture-Air-Drop moves one file between two machines on a local network.
A discovery service broadcasts presence beacons and keeps a table of the
peers it hears. A sender connects to a receiver over TCP and writes a
header (name length, UTF-8 name, 64-bit size, encryption flag) and then
the file in chunks. Each chunk goes out either raw or, when a key is set,
as an AES-256-GCM frame `[be32 ivLen][iv][be32 tagLen][tag][be32 ctLen][ct]`.
The receiver reads the header with exact-length reads and writes the file
under its save directory. A hand-gesture test (open palm or fist) decides
when a transfer is triggered.

The model follows the source file by file:

| Dafny file | source | form |
|---|---|---|
| `bytes.dfy` (`Bytes`) | the `struct` formats `!I` and `!Q` used everywhere | pure: big-endian encoding with its inverse |
| `utf8.dfy` (`Utf8`) | `str.encode('utf-8')`, strict `bytes.decode()` | pure: encoder, strict decoder, round trip |
| `security.dfy` (`Security`) | `src/SecurityHandler.py` | key check, a `SecurityHandler` class with constant fields, the frame codec |
| `progress.dfy` (`Progress`) | the progress percentages of both ends | pure |
| `sender.dfy` (`Sender`) | `src/FileSender.py` | header and body as functions; `Socket` and `FileSender` classes whose methods append to the socket's `sent` bytes |
| `receiver.dfy` (`Receiver`) | `src/FileReceiver.py` | stream parsing as functions; `Connection`, `OutFile` and `FileReceiver` classes whose methods advance the read offset and write files |
| `transfer.dfy` (`Transfer`) | both ends together | lemmas: what one end writes, the other reads back |
| `discovery.dfy` (`Discovery`) | `src/DeviceDiscovery.py` | peer table as a `map` field of the `DeviceDiscovery` class; listener, prune and listing loops |
| `gestures.dfy` (`Gestures`) | `is_palm_or_fist` in `src/handDetection.py` | a method with its counting loop, against a classification function |

How the model treats the parts it does not reproduce:

- The AES-GCM backend is foreign code. It is the `Aead` datatype: a seal
  function and an open function.
- `IsGcm` is a ghost predicate stating the standard's promise: opening
  what was sealed under the same key and IV gives the plaintext back, with
  a 16-byte tag. The end-to-end lemmas take it as a precondition. Nothing
  is assumed about it.
- Randomness is a parameter: the 32-byte key drawn when none is given
  (`generated`) and the IV drawn for chunk `i` (`ivs(i)`).
- A connection is the sequence of bytes the peer sends. `recv(n)` returns
  any non-empty prefix of at most `n` of the remaining bytes.
- The disk is a map from path to contents.

The central results are `Transfer.PlainDelivery` and
`Transfer.EncryptedDelivery`. `send_file` writes its header as the source
packs it, with the name's character count as its length word. When the
file's base name is ASCII, and `receive_file` reads the stream, the
receiver ends with exactly one new or replaced file, at
`os.path.join(save_dir, basename(path))`, holding the sender's file byte
for byte, and returns that path. In encrypted mode this needs the
receiver to hold the same key. A base name with non-ASCII characters is
not delivered intact (see Findings).

## Model

| member | source | states |
|---|---|---|
| `Bytes.FromBE` | src/FileReceiver.py:42 | the value of n big-endian bytes is below 256^n |
| `Bytes.Be32` | src/SecurityHandler.py:65 | `struct.pack('!I', n)` is four bytes that decode back to n |
| `Bytes.Be64` | src/FileSender.py:93-100 | the `'Q'` size field is eight bytes that decode back to the size |
| `Bytes.ToBE` | src/FileSender.py:93-100 | the `width`-byte big-endian encoding has that width and decodes back to the number |
| `Bytes.ToBEFromBE` | src/FileReceiver.py:42 | re-encoding the value of a byte string gives the byte string back, so `'!I'`/`'!Q'` encoding and decoding are inverse bijections |
| `Bytes.Be32Inverse` | src/SecurityHandler.py:79 | every four bytes are the `'!I'` encoding of the value they decode to |
| `Utf8.EncodeChar` | src/FileSender.py:86 | one to four bytes per scalar value, one byte exactly for ASCII, continuation bytes after the first |
| `Utf8.Encode` | src/FileSender.py:86 | the encoding is never shorter than the string, and as long exactly when the string is ASCII |
| `Utf8.Decode` | src/FileReceiver.py:44 | strict decoding fails only with UnicodeError and yields no more characters than bytes |
| `Utf8.DecodeEncode` | src/FileReceiver.py:44 | decoding the encoding of any string gives the string back |
| `Utf8.DecodeFromEncode` | src/FileReceiver.py:44 | an encoded string decodes back from its start whatever bytes precede it |
| `Utf8.EncodeAscii` | src/FileSender.py:86-87 | an ASCII string encodes to its character codes, byte for byte |
| `Security.CheckKey` | src/SecurityHandler.py:16-20 | a missing or empty key is replaced by the generated one; any other key is kept when it has 32 bytes and raises ValueError otherwise |
| `Security.SecurityHandler.Create` | src/SecurityHandler.py:10-20 | construction succeeds exactly when the key check does, and the handler holds the effective key |
| `Security.SecurityHandler.GetKey` | src/SecurityHandler.py:111-113 | returns the stored key, always 32 bytes |
| `Security.SecurityHandler.EncryptChunk` | src/SecurityHandler.py:22-41 | the frame carries the given 12-byte IV; under AES-GCM its ciphertext has the plaintext's length, its tag 16 bytes, and it decrypts to the plaintext |
| `Security.SecurityHandler.DecryptChunk` | src/SecurityHandler.py:43-57 | ValueError exactly when `modes.GCM` rejects the IV length (outside 8..128 bytes) or a tag under 16 bytes; otherwise the backend's plaintext exactly when it authenticates the frame, InvalidTag when it does not |
| `Security.PackEncryptedChunk` | src/SecurityHandler.py:59-68 | packing fails with struct.error exactly when a length needs more than 32 bits; otherwise the frame is 12 bytes longer than its three fields |
| `Security.PackLayout` | src/SecurityHandler.py:59-68 | the frame holds IV length and IV, tag length and tag, ciphertext length and ciphertext, in that order |
| `Security.ReadU32At` | src/SecurityHandler.py:79 | `unpack_from('!I')` succeeds exactly when four bytes remain, and returns the number they encode |
| `Security.SliceAt` | src/SecurityHandler.py:81 | a Python slice is never longer than asked, and exact when the data reaches its end |
| `Security.UnpackEncryptedChunk` | src/SecurityHandler.py:70-95 | fewer than 12 bytes fail with struct.error; a decoded frame fits in the data, with the IV at offset 4 |
| `Security.FieldsUnpack` | src/SecurityHandler.py:70-95 | three length prefixes and fields, one after the other from the start, are the frame unpack finds |
| `Security.UnpackFields` | src/SecurityHandler.py:70-95 | three well-formed prefixes give the IV, the tag and whatever of the declared ciphertext is present |
| `Security.UnpackPack` | src/SecurityHandler.py:59-95 | unpacking a packed frame gives back IV, ciphertext and tag, whatever follows it |
| `Security.UnpackTruncatedCiphertext` | src/SecurityHandler.py:90-93 | a ciphertext shorter than its declared length is accepted, truncated, without error |
| `Security.UnpackShortIv` | src/SecurityHandler.py:78-85 | an IV field cut short leaves no whole tag prefix, so unpacking fails |
| `Progress.Percent` | src/FileSender.py:66 | the percentage is never negative and at most 100 while no more than the whole file has been counted |
| `Progress.PercentFull` | src/FileSender.py:66 | the whole file counts as 100 percent |
| `Progress.PercentMonotone` | src/FileSender.py:63-67 | more bytes never give a smaller percentage |
| `Progress.ProgressNext` | src/FileSender.py:63-67 | reporting the percentage after more bytes keeps the reports in 0..100 and never going down |
| `Progress.CappedPercent` | src/FileReceiver.py:77 | the capped percentage lies in 0..100, equals the sender's percentage up to the whole file and is 100 beyond it |
| `Progress.CappedPercentMonotone` | src/FileReceiver.py:74-78 | the capped percentage never goes down as bytes arrive |
| `Sender.LastSlash` | src/FileSender.py:44 | the position of the last '/' before n, or -1; no '/' follows it |
| `Sender.BaseName` | src/FileSender.py:44 | the base name is the part of the path after its last '/', holds no '/', and is the whole path when there is none |
| `Sender.Flag` | src/FileSender.py:89-99 | the encryption word fits its `'I'` field and is non-zero exactly when encrypting, so the receiver's `bool(...)` gives back the mode |
| `Sender.FitField` | src/FileSender.py:93-100 | a `'<n>s'` field is exactly n bytes: the value cut to n, or followed by zero bytes |
| `Sender.HeaderAsWritten` | src/FileSender.py:83-101 | the header as written: struct.error exactly when the character count or the size overflows its field, else 16 bytes plus one per character |
| `Sender.HeaderAsWrittenLayout` | src/FileSender.py:85-100 | the header as written holds the character count, the UTF-8 name fitted to that many bytes, the size and the flag |
| `Sender.Header` | src/FileSender.py:83-101 | the corrected header: struct.error exactly when the encoded name or the size overflows, else 16 bytes plus the encoded name |
| `Sender.HeaderLayout` | src/FileSender.py:85-100 | the corrected header holds the byte count, the whole UTF-8 name, the size and the flag |
| `Sender.HeaderAsWrittenAscii` | src/FileSender.py:85-100 | for ASCII names the header as written and the corrected header are the same bytes |
| `Sender.ChunksFrom` | src/FileSender.py:103-109 | the chunks from an offset put together are the rest of the file; a chunk size of 0 yields nothing, a negative one the rest in one chunk |
| `Sender.Chunks` | src/FileSender.py:103-109 | the chunks of a file put together are the file |
| `Sender.ChunksShape` | src/FileSender.py:103-109 | every chunk is non-empty, at most the chunk size, and every chunk but the last has exactly that size |
| `Sender.ChunksFromStep` | src/FileSender.py:105-109 | one read yields nothing exactly at the end of the file or with size 0; otherwise its chunk heads the remaining chunks |
| `Sender.Reports` | src/FileSender.py:63-67 | one percentage per chunk sent |
| `Sender.ReportsNext` | src/FileSender.py:63-67 | sending one more chunk adds its length to the count and its percentage to the reports; a chunk is only sent from a non-empty file |
| `Sender.ReportsShape` | src/FileSender.py:63-67 | the percentages reported for the chunks sent lie in 0..100 and never go down |
| `Sender.ChunkFile` | src/FileSender.py:103-109 | the read loop yields exactly the file's chunks, in order |
| `Sender.ChunkData` | src/FileSender.py:53-60 | unencrypted, a chunk is written as itself; encrypted under AES-GCM, as a frame 40 bytes longer |
| `Sender.BodyUpTo` | src/FileSender.py:52-62 | unencrypted, what is written for the first i chunks is their bytes put together |
| `Sender.Body` | src/FileSender.py:52-62 | unencrypted, the body is the file's chunks put together |
| `Sender.BodyPrefix` | src/FileSender.py:52-62 | the body of fewer chunks is a prefix of the body of more |
| `Sender.BodyStep` | src/FileSender.py:52-62 | writing one more chunk appends its data to what was written |
| `Sender.BodyStepFails` | src/FileSender.py:53-58 | a chunk that cannot be framed makes the whole body fail |
| `Sender.Transmission` | src/FileSender.py:41-62 | the stream can be written exactly when the header as written for the base name and the body can |
| `Sender.TransmissionParts` | src/FileSender.py:41-62 | the stream is the header as written for the base name followed by the body |
| `Sender.TransmissionSent` | src/FileSender.py:48-62 | with the header on the wire, the stream is written whole exactly when the body is written after it |
| `Sender.HeaderThenTransmission` | src/FileSender.py:48 | a header that cannot be written whole means the stream is not written whole |
| `Sender.TransmissionLayout` | src/FileSender.py:41-62 | a stream taken apart into the header as written and the body, the header being the corrected one for an ASCII base name; unencrypted, the body is the file itself |
| `Sender.Socket.Connect` | src/FileSender.py:39 | connects exactly when not refused, closed or already connected, without sending anything |
| `Sender.Socket.SendAll` | src/FileSender.py:62 | writes all the data exactly when the socket is open and the peer takes it; never writes past what the peer takes and only appends |
| `Sender.FileSender.constructor` | src/FileSender.py:9-21 | a fresh unconnected socket, the given chunk size and no encryption |
| `Sender.FileSender.SetEncryption` | src/FileSender.py:23-25 | installs a handler with the effective key, or raises ValueError and keeps the old handler |
| `Sender.FileSender.ChunkBytes` | src/FileSender.py:53-60 | the inline packing of one chunk writes exactly what `pack_encrypted_chunk` would |
| `Sender.FileSender.SendChunk` | src/FileSender.py:53-62 | one pass of the chunk loop: the chunk's data is appended to the socket, or the pass fails |
| `Sender.FileSender.SendStep` | src/FileSender.py:52-62 | one chunk sent after i: the body written so far grows by the chunk's data, or the whole body cannot be delivered |
| `Sender.FileSender.SendChunks` | src/FileSender.py:50-67 | the loop succeeds exactly when the body fits, and then the socket holds the body; percentages stay in 0..100, never go down and end at 100 |
| `Sender.FileSender.SendMetadata` | src/FileSender.py:83-101 | True exactly when the header as written packs and the open socket takes all of it, which is then appended |
| `Sender.FileSender.SendContents` | src/FileSender.py:50-67 | the file's chunks are written as the body exactly when it fits; percentages stay in 0..100, never go down and end at 100 |
| `Sender.FileSender.SendTransfer` | src/FileSender.py:41-67 | once connected, the socket receives exactly the header as written and then the body, or the call fails |
| `Sender.FileSender.SendFile` | src/FileSender.py:27-81 | True exactly when the file exists, the connection is accepted and the whole stream, header as written, is written; the socket is closed on every path |
| `Receiver.Take` | src/FileReceiver.py:89-97 | n bytes when the stream holds them, ConnectionError otherwise |
| `Receiver.ReadField` | src/FileReceiver.py:55-57 | a length prefix and that many bytes, or ConnectionError when the stream ends first |
| `Receiver.ParseHeader` | src/FileReceiver.py:41-46 | the header takes at least 16 bytes; it fails only with ConnectionError or UnicodeError |
| `Receiver.ReadFields` | src/FileReceiver.py:55-65 | reads the given number of fields in a row, or fails with ConnectionError |
| `Receiver.ReadFrame` | src/FileReceiver.py:55-65 | a frame takes at least 12 bytes; it fails only with ConnectionError |
| `Receiver.ReadFrameFields` | src/FileReceiver.py:55-65 | a frame is its IV field, then its tag field, then its ciphertext field |
| `Receiver.ReadFrameUnpacks` | src/FileReceiver.py:55-65 | the receiver's six exact reads find the frame that `unpack_encrypted_chunk` finds in the same bytes |
| `Receiver.DecryptFrame` | src/FileReceiver.py:53-68 | one encrypted pass consumes at least 12 bytes, and always fails without a handler |
| `Receiver.DecryptFrameOk` | src/FileReceiver.py:55-68 | a frame read in full that authenticates gives its plaintext |
| `Receiver.DecryptFrameFails` | src/FileReceiver.py:55-68 | a short read, a missing handler or a failed tag ends the pass |
| `Receiver.ReceiveEncrypted` | src/FileReceiver.py:52-74 | the loop writes nothing once the size is reached; when it ends normally it has written at least the size; without a handler it fails at once |
| `Receiver.ReceiveEncryptedStep` | src/FileReceiver.py:52-74 | a decrypted frame contributes its plaintext ahead of what the rest of the stream contributes |
| `Receiver.ReceiveEncryptedDone` | src/FileReceiver.py:52 | with the size reached, the loop ends normally and writes nothing |
| `Receiver.AccountsStep` | src/FileReceiver.py:52-74 | the loop invariant survives a pass that reads and decrypts a frame |
| `Receiver.AccountsStop` | src/FileReceiver.py:52-74 | a failing pass ends the loop with what was written so far |
| `Receiver.Join` | src/FileReceiver.py:48 | the joined path ends with the name; an absolute name replaces the directory; otherwise it starts with the directory |
| `Receiver.Connection.Recv` | src/FileReceiver.py:93 | `recv(n)` returns the next one to n bytes of the stream, and nothing exactly when n is 0 or the stream is exhausted |
| `Receiver.OutFile.Write` | src/FileReceiver.py:73 | a write appends to the file |
| `Receiver.HeaderFails` | src/FileReceiver.py:39-46 | a header that cannot be read fails with no file written |
| `Receiver.EncryptedFile` | src/FileReceiver.py:48-80 | an encrypted transfer changes exactly the file at the joined path |
| `Receiver.PlainFile` | src/FileReceiver.py:48-80 | a plain transfer changes exactly the file at the joined path |
| `Receiver.FileReceiver.constructor` | src/FileReceiver.py:8-14 | no connection and no decryption |
| `Receiver.FileReceiver.SetDecryption` | src/FileReceiver.py:19-20 | installs a handler with the effective key, or raises ValueError and keeps the old one |
| `Receiver.FileReceiver.AcceptConnection` | src/FileReceiver.py:28-31 | a new connection positioned at the start of the peer's bytes |
| `Receiver.FileReceiver.ReceiveExact` | src/FileReceiver.py:89-97 | the loop returns exactly the next n bytes, or ConnectionError once the stream ends first |
| `Receiver.FileReceiver.ReceiveField` | src/FileReceiver.py:41-44 | a length read followed by a read of that length is exactly one field |
| `Receiver.FileReceiver.ReceiveHeader` | src/FileReceiver.py:41-46 | the four header reads are exactly the header parse, leaving the connection after it |
| `Receiver.FileReceiver.ReceiveFrame` | src/FileReceiver.py:55-65 | the six reads of a pass are exactly one frame, leaving the connection after it |
| `Receiver.FileReceiver.ReceiveChunk` | src/FileReceiver.py:53-74 | one encrypted pass keeps the loop invariant, or ends the loop with what was written |
| `Receiver.FileReceiver.ReceiveEncryptedBody` | src/FileReceiver.py:52-78 | the encrypted loop writes exactly the decrypted frames and ends normally exactly when they reach the size; percentages stay in 0..100 and never go down |
| `Receiver.FileReceiver.ReceivePlainBody` | src/FileReceiver.py:52-78 | the plain loop writes exactly the bytes received, at least the size and fewer than size + 4096, and cannot finish when the stream holds fewer |
| `Receiver.FileReceiver.ReceivePlainBodyOrRaise` | src/FileReceiver.py:69-74 | the plain loop with an empty `recv` raising ConnectionError, as `_receive_exact` does: it fails exactly when the stream holds fewer than size bytes, and otherwise writes at least size |
| `Receiver.FileReceiver.ReceiveBody` | src/FileReceiver.py:51-78 | the file holds what the chosen loop writes, and the outcome follows from it |
| `Receiver.FileReceiver.ReceiveFile` | src/FileReceiver.py:33-87 | at most the file at the joined path changes, holding what the loop wrote; the path is returned exactly when the loop ends normally; both sockets close on every returning path |
| `Transfer.ReadFieldOf` | src/FileReceiver.py:55-57 | a length-prefixed field in the stream is read back whole |
| `Transfer.HeaderFieldsAt` | src/FileReceiver.py:41-46 | the header reads find the name bytes, the size and the flag that were written |
| `Transfer.ParseHeaderOf` | src/FileReceiver.py:41-46 | name bytes that decode, a size and a flag make a successful header read |
| `Transfer.ParseHeaderBadName` | src/FileReceiver.py:44 | name bytes that are not UTF-8 make the header read fail with UnicodeError |
| `Transfer.HeaderBytesReceived` | src/FileReceiver.py:41-46 | a header built from decodable name bytes is read back as its name, size and mode |
| `Transfer.HeaderReceived` | src/FileSender.py:83-101 | the corrected header is read back as the name, size and mode it was built from, ending where it ends |
| `Transfer.HeaderAsWrittenAsciiReceived` | src/FileSender.py:85-100 | for an ASCII name the header as written is read back intact |
| `Transfer.EncodeSample` | src/FileSender.py:86-87 | "é.txt" has five characters and six UTF-8 bytes |
| `Transfer.HeaderAsWrittenCutsName` | src/FileSender.py:86-97 | the header as written for "é.txt" is read back as "é.tx" |
| `Transfer.CutInsideChar` | src/FileSender.py:93-97 | fitting "aé" to its character count cuts its encoding inside the "é" |
| `Transfer.HeaderAsWrittenBreaksName` | src/FileReceiver.py:44 | the header as written for "aé" makes the receiver fail with UnicodeError |
| `Transfer.ReadThreeFields` | src/FileReceiver.py:55-65 | three fields in a row are one frame with the IV, tag and ciphertext in that order |
| `Transfer.PackedFieldsAt` | src/SecurityHandler.py:59-68 | the three length-prefixed fields of a packed frame lie one after the other |
| `Transfer.ReadFramePacked` | src/FileReceiver.py:55-65 | a packed frame in the stream is read back as the same frame, ending where it ends |
| `Transfer.FrameDecrypts` | src/FileReceiver.py:55-68 | the frame the sender writes for a chunk decrypts, on a receiver with the same key, to the chunk |
| `Transfer.BodyAround` | src/FileSender.py:52-62 | the data of chunk k lies in the body right after the data of the first k chunks |
| `Transfer.ChunkDataAt` | src/FileSender.py:52-62 | the data of chunk k lies in the stream at the frame offset of k |
| `Transfer.FrameOfChunk` | src/FileReceiver.py:53-68 | the frame of chunk k in the stream decrypts to chunk k |
| `Transfer.ConcatFromFlatten` | src/FileSender.py:52-63 | the chunks from i on follow the first i, making all of them |
| `Transfer.FrameStep` | src/FileReceiver.py:52-74 | a decrypted non-empty chunk followed by a loop that ends normally makes a loop that ends normally |
| `Transfer.ReceiveFrames` | src/FileReceiver.py:52-74 | from the frame of chunk i on, the receiver's loop writes chunks i.. and ends normally |
| `Transfer.FramesOfBody` | src/FileReceiver.py:53-68 | every frame of an encrypted body decrypts to its chunk, ending where the next begins |
| `Transfer.EncryptedBodyReceived` | src/FileReceiver.py:52-74 | an encrypted body of non-empty chunks is decrypted to their concatenation and the loop ends normally |
| `Transfer.FileBodyReceived` | src/FileSender.py:50-62 | the encrypted body of a file is decrypted back to the file |
| `Transfer.PlainReceived` | src/FileReceiver.py:48-80 | a plain header followed by exactly `size` bytes saves those bytes at the joined path and returns it |
| `Transfer.EncryptedReceived` | src/FileReceiver.py:48-80 | an encrypted header followed by frames that decrypt to the file saves it at the joined path and returns it |
| `Transfer.HeaderThenBody` | src/FileReceiver.py:41-46 | a corrected header followed by a body: the header reads back and the body follows it |
| `Transfer.PlainStreamReceived` | src/FileSender.py:41-62 | for an ASCII base name, a plain stream reads back as the base name and size, followed by exactly the file |
| `Transfer.EncryptedStreamReceived` | src/FileSender.py:41-62 | for an ASCII base name, an encrypted stream reads back as the base name and size, and its frames decrypt to the file |
| `Transfer.PlainDelivery` | src/FileReceiver.py:33-80 | for an ASCII base name, a plain transfer saves exactly the sender's file at the joined path, changes nothing else, and returns the path |
| `Transfer.EncryptedDelivery` | src/FileReceiver.py:33-80 | for an ASCII base name, an encrypted transfer, with the same key at both ends, saves exactly the sender's file at the joined path, changes nothing else, and returns the path |
| `Transfer.PlainCutShortStalls` | src/FileReceiver.py:52-74 | a plain header announcing more bytes than the stream holds leaves the receiver stalled, the file holding what arrived |
| `Transfer.ThreeOfTenStalls` | src/FileReceiver.py:52-74 | the header for "a" announcing 10 bytes, followed by 3 bytes and the end of the stream, stalls the receiver |
| `Discovery.Replay` | src/DeviceDiscovery.py:83-98 | the listener never adds, removes or changes the entry of the machine's own address |
| `Discovery.Expired` | src/DeviceDiscovery.py:104 | with a non-negative timeout only an entry last seen before now can expire |
| `Discovery.Observe` | src/DeviceDiscovery.py:89-93 | a beacon sets its sender's entry to (name, now) and leaves every other entry alone; a beacon from the local address changes nothing |
| `Discovery.ReplayKeepsKeys` | src/DeviceDiscovery.py:83-98 | the listener never removes an entry |
| `Discovery.ReplayNewKeys` | src/DeviceDiscovery.py:89-93 | a new entry comes from some beacon and is never the local address |
| `Discovery.ReplaySkipsMalformed` | src/DeviceDiscovery.py:94-95 | a payload that fails to decode is skipped without effect |
| `Discovery.ReplayStopsAtFault` | src/DeviceDiscovery.py:96-98 | any other error ends the listener; nothing after it is heard |
| `Discovery.Pruned` | src/DeviceDiscovery.py:100-106 | after pruning the table holds exactly the entries that have not expired, unchanged |
| `Discovery.PruneIdempotent` | src/DeviceDiscovery.py:100-106 | pruning twice at one time is pruning once |
| `Discovery.PruneAddsNothing` | src/DeviceDiscovery.py:100-106 | pruning never adds an address |
| `Discovery.PruneBoundary` | src/DeviceDiscovery.py:104 | the comparison is strict: an entry 30 seconds old stays, one 31 seconds old goes |
| `Discovery.ListingSize` | src/DeviceDiscovery.py:57 | a listing naming each address once is as long as the table |
| `Discovery.DeviceDiscovery.constructor` | src/DeviceDiscovery.py:10-25 | an empty table, not running, with its socket open |
| `Discovery.DeviceDiscovery.StartDiscovery` | src/DeviceDiscovery.py:27-46 | sets the flag both loops run on |
| `Discovery.DeviceDiscovery.StopDiscovery` | src/DeviceDiscovery.py:48-52 | clears the flag and closes the socket |
| `Discovery.DeviceDiscovery.HandleBeacon` | src/DeviceDiscovery.py:89-93 | a beacon from another address sets its entry to (name, now); a beacon from the local address is ignored |
| `Discovery.DeviceDiscovery.ListenForDevices` | src/DeviceDiscovery.py:77-98 | the listener leaves the table as the replay of the datagrams says, and stops early exactly on a non-decoding error |
| `Discovery.DeviceDiscovery.PruneOldDevices` | src/DeviceDiscovery.py:100-106 | collecting and deleting the expired addresses leaves the pruned table |
| `Discovery.DeviceDiscovery.GetAvailableDevices` | src/DeviceDiscovery.py:54-57 | prunes with the 30-second timeout, then lists every remaining address exactly once with its name |
| `Gestures.CountExtended` | src/handDetection.py:59-63 | the count is at most the number of fingers, zero exactly when none is extended, full exactly when all are |
| `Gestures.Classify` | src/handDetection.py:65 | all four fingers extended is a Palm, none extended a Fist |
| `Gestures.IsPalmOrFist` | src/handDetection.py:49-65 | None exactly for fewer than 21 landmarks; otherwise the classification of the counting loop |
| `Gestures.PalmMeansAtMostOneBent` | src/handDetection.py:65 | Palm exactly when no two of the four fingers are bent |
| `Gestures.OnlyTipsAndKnucklesMatter` | src/handDetection.py:55-63 | only the heights of the four tips and four knuckles decide the gesture |

## Left out

- AES-256-GCM itself: the backend is the abstract `Aead`, and its correctness is the precondition `IsGcm`. InvalidTag appears as a failing `open`.
- `generate_checksum` (SHA-256) and `generate_key`: the hash is foreign code and nothing in the core calls it. The random key is the `generated` parameter.
- `os.urandom`: IVs and generated keys are parameters. The model proves nothing about their randomness or uniqueness.
- Sockets, `bind`/`listen`/`accept` and the listening socket: a connection is the byte sequence its peer sends, and `recv` picks any split of it.
- `FileReceiver.start` and `_create_save_dir`: `bind`/`listen` and `os.makedirs` have no counterpart. The disk is a map from path to contents.
- `Receiver.FileReceiver.ReceiveFile`: the file at the joined path is assumed to open. A name such as "" or "sub/x", for which `open` would raise, is not modelled.
- `Receiver.FileReceiver.ReceivePlainBody`: when the peer closes before `size` bytes arrive, the source loops forever on empty `recv` results. The model stops there and reports the outcome `Stalled`, with the sockets left open (see Findings).
- `Security.SecurityHandler.DecryptChunk`: a tag longer than 16 bytes passes the `modes.GCM` length checks, and its rejection is left to the backend's `open`.
- `Sender.Socket.SendAll`: a broken connection is a byte capacity after which writes stop. Which exception is raised is not modelled.
- `Sender.FileSender.SendFile`: the file is read once. A file that changes between `getsize` and reading is not modelled.
- Progress callbacks: the percentages each loop reports are returned as a sequence instead of being passed to a callback.
- `Progress.Percent`: computes `100 * total / size` in exact integers. Python's float product `(total / size) * 100` can truncate one lower, for example 29 of 100 bytes gives 28. Range, monotonicity and the final 100 hold for both.
- `_broadcast_presence`: the pickled beacon and the sleep loop are left out. Pickle and timers are outside the model, and the table only changes through the listener.
- `pickle.loads` and `recvfrom`: a datagram arrives already decoded, as a name, as a decoding error or as any other error.
- Threads: the discovery loops run one at a time; their interleaving with `get_available_devices` is not modelled.
- `Discovery.DeviceDiscovery.ListenForDevices`: the local address is one parameter for the whole loop, where the source calls `_get_local_ip` for every datagram.
- `time.time()`: timestamps are integer seconds given as parameters.
- `Discovery.DeviceDiscovery.GetAvailableDevices`: states that each address is listed once, not in which order. Dictionary order does not appear in the model.
- `stop` and `__del__` of the sender: these only close the socket again.
- `src/Main.py`, `find_hands` and `find_position` are not part of this model.
- `Gestures.IsPalmOrFist`: the exception branch that returns None cannot be reached for a list of 21 or more (id, x, y) entries, so it is left out. The unused `threshold` argument is kept.
- `Transfer.PlainDelivery`, `Transfer.EncryptedDelivery`: these assume a non-zero chunk size. With size 0, `_chunk_file` yields nothing, so a non-empty file is never delivered.
- `Transfer.PlainDelivery`, `Transfer.EncryptedDelivery`, `Transfer.PlainStreamReceived`, `Transfer.EncryptedStreamReceived`: these are stated for an ASCII base name only. For other names the header as written loses or breaks the name (see Findings).

## Findings

| source | as written | input that shows it | evidently intended | confidence | as-written member | corrected member |
|---|---|---|---|---|---|---|
| src/FileSender.py:86-97 | the length word is `len(filename)`, a character count, but the name field carries the UTF-8 bytes cut to that many bytes | file name "é.txt" (5 characters, 6 bytes) is saved as "é.tx"; "aé" (2 characters, 3 bytes) is cut inside "é" and the receiver fails with UnicodeError | the length word counts the encoded bytes, so the whole name is sent and read back | high; not executed | `Sender.HeaderAsWritten`, `Transfer.HeaderAsWrittenCutsName`, `Transfer.HeaderAsWrittenBreaksName` | `Sender.Header`, `Transfer.HeaderReceived` |
| src/FileReceiver.py:69-74 | in plain mode an empty `recv` result, which means the peer closed, adds nothing to `total_received`, and the loop calls `recv` again forever | the header for "a" announcing 10 bytes, then 3 bytes and the end of the stream | raise ConnectionError on an empty `recv`, as `_receive_exact` does | high; not executed | `Receiver.FileReceiver.ReceivePlainBody`, `Transfer.PlainCutShortStalls`, `Transfer.ThreeOfTenStalls` | `Receiver.FileReceiver.ReceivePlainBodyOrRaise` |

`Sender.Transmission`, `Sender.FileSender.SendFile` and the delivery
lemmas model `send_file` as written, with `Sender.HeaderAsWritten`. The
corrected header is proved to be read back intact for every name
(`Transfer.HeaderReceived`). `Sender.HeaderAsWrittenAscii` and
`Transfer.HeaderAsWrittenAsciiReceived` show that the two headers agree
byte for byte on ASCII names, which is where delivery is proved.
`Receiver.FileReceiver.ReceiveFile` keeps the loop as written; the
corrected plain loop, `Receiver.FileReceiver.ReceivePlainBodyOrRaise`,
raises ConnectionError where the loop as written stalls.

# S9 Between Us — a Dafny model of the peer's protocol core

This project models the core of the peer in `S9_Between_Us`. The peer exchanges UDP frames of the form
`id(4) | type(1) | length(2) | body`, all integers big-endian. It publishes a file tree as a Merkle tree
of 1024-byte chunks and downloads a remote tree by walking it hash by hash.

SHA-256 is an uninterpreted function, `Bytes.Hasher`. `Bytes.Digest` normalises its result to 32 bytes.
Sockets, clocks, the file system and the HTTP directory are replaced by inputs:
- sequences of received datagrams (`Wire.Reception`);
- outcomes of each `sendHello`;
- an in-memory file tree (`ContentTree.FsNode`);
- a map from a hash to the outcome of fetching it (`Download.Env`);
- a `net.ParseIP` oracle (`NatTraversal.IPParser`).

The global `messCounter` is threaded through the model as an explicit 32-bit value, with wrap-around written out
(`Bytes.Increment`).

Modules, one per part of the core:

- `Bytes`: byte, `uint16`/`uint32` subset types, big-endian encodings, `Option`, `Flatten`, the digest oracle,
  hex and decimal text.
- `Paths`: `filepath.Clean` and `filepath.Join` (lexical: repeated '/' merged, "." dropped, ".." resolved, no
  trailing '/'), `path.Base` and `path + "/" + name` on byte strings.
- `Wire`: message-type constants, the three `compose*` frame builders, `CheckTypeEquality` and
  `CheckUDPIncomingPacket`.
- `Exchange`: the `GetDataByHash` receive loop and its per-datagram classification, plus `sendHello`.
- `Payload`: `ParceValue`, the datum payload parser, with encoders and round-trip lemmas.
- `ContentTree`: `hashFile` chunking, `makeBTree`, `calculateNodeHash`, `hashDir`, `Merkelify`, `getHash`,
  `compareHash`.
- `Download`: `DownloadData`, a fuelled recursive walk producing a log of effects.
- `NatTraversal`: `composeNatTravMessage`, `isIPv4` and the direct/relay decision logic of `NatTraversal`.
- `Responder`: the length guard and type dispatch of `ReplyToIncoming`.

Where the code has a bug whose intended behaviour is evident, the model keeps the code as written. It also gives a
corrected definition beside it; see "## Findings". Other quirks are reproduced as written:
- `hashFile` computes a node kind and then overwrites it with the result of `makeBTree`. A file of at most 32 chunks
  therefore gets kind CHUNK, no hash, and its leaves as children.
- Such a file's content therefore does not reach the hash of its directory, whose hash covers only the
  children's hash fields (`ContentTree.SmallFileContentNotHashed`).
- `hashDir` hashes the path of an empty directory and then overwrites that hash with `calculateNodeHash` of no
  children, which is SHA-256 of the empty string.
- `DownloadData` drops `GetDataByHash`'s error. Every failed fetch reads as an empty value and yields RESULT_OK
  (`Download.Value`, `Download.IgnoredFetchError`).
- `lenValue` underflows when the declared length is below 32. The model makes that a precondition
  (`Exchange.DatumReadable`).
- The time-out tests `timeStart.Sub(timeNow) >= TIMEOUT` in `sendHello` and `NatTraversal` compare a negative
  duration. They never fire, so a wrong-type frame is always skipped.
- `sendHelloReply` writes an unsigned frame. `CheckUDPIncomingPacket` expects 64 signature bytes after the body,
  so that reply fails its length check (`Wire.UnsignedHelloReplyFailsLength`).
- The NAT_TRAVERSAL_REQUEST carries `net.ParseIP` of the whole address text, which is nothing when the text has a
  port. Its length field is the size `isIPv4` returned.

## Model

| member | source | states |
|---|---|---|
| Bytes.BE16 | moduls/protocol.go:555-557 | two bytes whose big-endian reading is `uint16(n)`, i.e. n mod 2^16 |
| Bytes.BE32 | moduls/protocol.go:549-551 | four bytes whose big-endian reading is `uint32(n)`, i.e. n mod 2^32 |
| Bytes.Digest | moduls/protocol.go:611-612 | a SHA-256 digest is always 32 bytes long |
| Bytes.Decimal | moduls/merkelBTree.go:92 | `%d` of a chunk index is a non-empty run of ASCII digits |
| Bytes.HexInjective | moduls/merkelBTree.go:187-189 | two hex texts are equal exactly when the byte strings are equal |
| Paths.Clean | moduls/protocol.go:989-993 | never empty; rooted iff the input is; no trailing '/' except for "/" itself |
| Paths.Join | moduls/protocol.go:989-993 | "" iff both parts are empty; rooted iff the first non-empty part is; no trailing '/' |
| Paths.JoinName | moduls/protocol.go:989-999 | joining a name other than "." or ".." appends exactly that element to the cleaned directory ("." gives the name alone, "/" gives "/name") |
| Paths.JoinResolvesDotDot | moduls/protocol.go:989-993 | `Join("/a", "../b")` is "/b" |
| Paths.JoinDropsTrailingSlash | moduls/protocol.go:999 | `Join(dir, name + "/")` equals `Join(dir, name)` |
| Paths.BaseOfChild | moduls/merkelBTree.go:117-118 | the base of `dir + "/" + name` is `name` for a non-empty slash-free name |
| Paths.BaseOfJoin | moduls/protocol.go:989-993 | the base of `Join(dir, name)` is `name` for a name other than "." or ".." |
| Wire.ComposeHandshake | moduls/protocol.go:545-567 | the frame is 11 + len(peer) bytes: id, type, `uint16(len)`, `uint32(ext)` at offset 7, then the peer name |
| Wire.ComposeGetDatum | moduls/protocol.go:570-594 | id, type and `uint16(len)`, then the hash at offset 7, `uint32(ext)` after it, then the peer name |
| Wire.ComposeDataSend | moduls/protocol.go:597-618 | 39 + len(value) bytes: id, type, `uint16(len)`, SHA-256(value) at 7..39, the value from 39 |
| Wire.CheckTypeEquality | moduls/error.go:56-68 | 0 iff byte 4 is the wanted type and -1 iff it is not; a mismatching buffer must hold the body the log line slices |
| Wire.CheckIncoming | moduls/protocol.go:685-724 | 1 iff the declared length + 71 differs mod 2^16 from the bytes read, else 2 iff the type differs, else 3 iff the id is not the counter, else 0 |
| Wire.SignedHandshakePasses | moduls/protocol.go:685-724 | a handshake frame followed by a 64-byte signature passes all three checks for its own type and id |
| Wire.UnsignedHelloReplyFailsLength | moduls/protocol.go:299-316 | the unsigned HelloReply that `sendHelloReply` writes fails the length check with 1 |
| Exchange.DatumValue | moduls/protocol.go:802-815 | the value is declared length - 32 bytes long |
| Exchange.ClassifyDatum | moduls/protocol.go:784-836 | one iff clause per outcome: wrong id waits with the counter unchanged; NO_DATUM; neither type; echo mismatch; digest mismatch; otherwise the value `buf[39..39+len-32]` with SHA-256(value) == hash; counter +1 on every terminal outcome |
| Exchange.ComposedDatumDelivered | moduls/protocol.go:786-832 | a DATUM frame built by `composeDataSendMessage` with the current id and the value's digest is delivered with that value |
| Exchange.SamePrefix | moduls/protocol.go:808-813 | the byte loop answers true iff the 32 echoed bytes equal the requested hash |
| Exchange.Receive | moduls/protocol.go:784-836 | the loop body's outcome and next counter are those of `ClassifyDatum` |
| Exchange.GetDataByHash | moduls/protocol.go:728-838 | every frame sent is the same GET_DATUM request; the result is the classification of the first datagram with the current id, or a deadline when none comes; the counter rises by one; a delivered value hashes to the request |
| Exchange.AwaitAnswer | moduls/protocol.go:742-784 | stops at the first datagram whose id is the counter; writes the request once before any read, even with no read before the deadline, and once more after each read time-out |
| Exchange.AwaitHelloReply | moduls/protocol.go:635-674 | accepted iff some datagram passes all checks and every datagram before it was skipped for having the wrong type |
| Exchange.HelloShift | moduls/protocol.go:656-665 | a wrong-type reply is skipped: acceptance is decided by the rest of the datagrams |
| Exchange.SendHello | moduls/protocol.go:621-676 | writes the Hello with the current id and length len(peer)+4, always increments the counter once, succeeds iff a reply is accepted |
| Payload.StripZeros | moduls/protocol.go:889-896 | the name keeps no zero byte and is no longer than its 32-byte field |
| Payload.ParseValue | moduls/protocol.go:845-916 | tag 0: one chunk with data[1..]; tag 1: one big file with (l-1)/32 hashes, the first 32·n body bytes; tag 2 with a record: a non-empty list of entries only; nil iff the tag exceeds 2 or a directory has at most one byte after its tag |
| Payload.DirectoryLayout | moduls/protocol.go:883-910 | a body of 64k bytes gives exactly k entries in wire order, each name its zero-stripped 32 bytes and each hash the next 32 |
| Payload.ChunkRoundTrip | moduls/protocol.go:858-866 | parsing an encoded chunk gives back its data |
| Payload.BigFileRoundTrip | moduls/protocol.go:868-881 | parsing encoded hashes gives their count and each hash at its 32-byte slot |
| Payload.PadNameRoundTrip | moduls/protocol.go:889-896 | a name of at most 32 non-zero bytes, zero-padded, strips back to itself |
| Payload.EntriesRoundTrip | moduls/protocol.go:885-909 | parsing concatenated 64-byte records gives one entry per record |
| Payload.DirectoryRoundTrip | moduls/protocol.go:883-910 | parsing an encoded non-empty directory gives its entries' names and hashes in order; an empty one gives nil |
| ContentTree.Chunks | moduls/merkelBTree.go:84-109 | ceil(len/1024) non-empty chunks of at most 1024 bytes |
| ContentTree.ChunksRoundTrip | moduls/merkelBTree.go:84-109 | the chunks concatenate back to the file |
| ContentTree.ChunkAt | moduls/merkelBTree.go:94-106 | chunk i is bytes [1024i, min(1024(i+1), len)) |
| ContentTree.LeafLayout | moduls/merkelBTree.go:90-108 | leaf i is named `path/i`, has kind CHUNK, offset 1024i and the digest of chunk i |
| ContentTree.NodeHashInput | moduls/merkelBTree.go:160-166 | the bytes hashed for a node are equal exactly when the ordered lists of 32-byte hashes are equal |
| ContentTree.PerNode | moduls/merkelBTree.go:144 | perNode is ceil(n/32) |
| ContentTree.PerNodeBounds | moduls/merkelBTree.go:144-151 | above 32 leaves, 1 <= perNode < n, so every group is strictly smaller |
| ContentTree.GroupEnd | moduls/merkelBTree.go:147-150 | a group ends after its start, and the first group is exactly the first perNode leaves |
| ContentTree.MakeBTree | moduls/merkelBTree.go:127-157 | no leaves: the zero node; 1..32: a node holding exactly the leaves; more: "/InternalNode", BIG_FILE, the hash of all leaves, offset of the first child |
| ContentTree.GroupLayout | moduls/merkelBTree.go:146-153 | child k exists iff k·perNode < n and is the tree built from the group starting at k·perNode |
| ContentTree.OffsetIsZero | moduls/merkelBTree.go:154 | the root offset, copied from the first child down to leaf 0, is always 0 |
| ContentTree.AsWrittenGroupsOverlap | moduls/merkelBTree.go:146-150 | above 32 leaves, the second group as written runs past the start of the third |
| ContentTree.IntendedTreeFringe | moduls/merkelBTree.go:127-157 | with groups ending at start+perNode, the tree's leaves in order are exactly the input leaves |
| ContentTree.HashFile | moduls/merkelBTree.go:75-120 | named base(path), offset 0; up to 32 chunks: kind CHUNK, no hash, the leaves as children; more: kind BIG_FILE and the hash of all leaves |
| ContentTree.HashDir | moduls/merkelBTree.go:41-73 | kind DIRECTORY; children are the first min(16, n) entries in listing order; hash over the children, SHA-256("") when empty |
| ContentTree.EntryName | moduls/merkelBTree.go:58-64 | a file entry and an empty directory keep the entry name; a non-empty subdirectory gets no name |
| ContentTree.Merkelify | moduls/merkelBTree.go:21-38 | a directory gives `hashDir`, a file gives `hashFile`; kind DIRECTORY iff the input is a directory |
| ContentTree.MerkelifySealed | moduls/merkelBTree.go:41-73 | in every tree built, each directory reached through directories has at most 16 children and carries the hash over exactly them |
| ContentTree.HashDirSealed | moduls/merkelBTree.go:41-73 | the same for the node of one directory |
| ContentTree.HashEntrySealed | moduls/merkelBTree.go:58-64 | the same for the node of one listing entry |
| ContentTree.HashDirIgnoresRest | moduls/merkelBTree.go:66-69 | entries after the 16th leave the directory's node unchanged |
| ContentTree.SmallFileContentNotHashed | moduls/merkelBTree.go:115-134 | two directories holding one file of at most 32 chunks each, under the same name, have the same hash whatever the files contain |
| ContentTree.CompareHash | moduls/merkelBTree.go:187-189 | true iff the two byte strings are equal |
| ContentTree.FirstWithHash | moduls/merkelBTree.go:169-185 | none iff no node has the hash; otherwise the first node that has it |
| ContentTree.GetHashIsPreOrderSearch | moduls/merkelBTree.go:169-185 | `getHash` returns the first node in pre-order whose hash equals the target, and nothing iff there is none |
| Download.Value | moduls/protocol.go:929 | a non-empty value is a delivered, parsable one; a delivered value is passed on unchanged |
| Download.ChildCursor | moduls/protocol.go:987-1018 | the entry sits in join(path, name), stores under join(hddPath, name), switches to hash mode iff the search path is that directory or that entry |
| Download.Download | moduls/protocol.go:925-1039 | print mode only fetches and prints; other modes never print; outside hash mode the handle is untouched |
| Download.Objects | moduls/protocol.go:945-1036 | the same mode discipline over the object loop |
| Download.Object | moduls/protocol.go:946-1035 | the same mode discipline for one chunk, big file or entry |
| Download.Parts | moduls/protocol.go:979-985 | the same mode discipline over a big file's parts |
| Download.FailedFetchIsSilent | moduls/protocol.go:929-935 | a failed fetch ends with RESULT_OK after only the fetch and the print line |
| Download.FilesOnlyInHashMode | moduls/protocol.go:946-986 | outside hash mode, a chunk or big file causes nothing beyond the fetch and the print line |
| Download.DirectoryKeepsHandle | moduls/protocol.go:987-1032 | walking a directory leaves the caller's handle as it was |
| Download.EntriesKeepHandle | moduls/protocol.go:987-1032 | a run of entries leaves the caller's handle as it was |
| Download.RootSearchTakesEverything | client.go:142-145 | a path download for "/" switches to hash mode at the first entry |
| Download.SearchMatchesUncleanName | moduls/protocol.go:998-1002 | searching "/b" switches the root entry named "b/" to hash mode, because the joined path is cleaned |
| Download.FileDownload | moduls/protocol.go:946-986 | in hash mode, a file succeeds, appends exactly the bytes of its chunks in hash order to its own file only, and fetches in pre-order |
| Download.ChunkDownload | moduls/protocol.go:946-967 | a chunk's data is appended once to join(hddPath, name) |
| Download.BigFileDownload | moduls/protocol.go:969-986 | a big file walks its hashes in order with the same cursor and handle after its own fetch |
| Download.PartsDownload | moduls/protocol.go:979-985 | the parts append exactly the reference walk's bytes and fetch its hashes |
| Download.IgnoredFetchError | moduls/protocol.go:929 | a big file whose first part fails its digest check still succeeds, with only the second part's bytes written |
| Download.DirectoryClosesFiles | moduls/protocol.go:1020-1032 | a successful directory walk closes every file it opened |
| Download.DownloadBalanced | moduls/protocol.go:925-1039 | opens and closes balance, up to the one handle left open for the caller |
| NatTraversal.ComposeNatTrav | moduls/natTraversal.go:135-156 | 11 + len(addr) bytes: id, type, `uint16(len)`, the address bytes, then `uint32(ext)` |
| NatTraversal.BeforeColon | moduls/natTraversal.go:165-166 | the text before the first ':' (all of it when there is none) |
| NatTraversal.IsIPv4 | moduls/natTraversal.go:164-176 | -1 iff the text before the first ':' does not parse, 6 iff it parses as IPv4, 18 iff as another IP |
| NatTraversal.IsIPv4Never18 | moduls/natTraversal.go:164-176 | as written, the size is never 18 |
| NatTraversal.BracketedIPv6Refused | moduls/natTraversal.go:165-170 | "[host]:port" is refused with -1 |
| NatTraversal.AddressSize | moduls/natTraversal.go:164-176 | the corrected size: the same classification on the host part before the last ':', brackets removed |
| NatTraversal.BracketedIPv6Accepted | moduls/natTraversal.go:164-176 | the corrected size of "[v6]:port" is 18 |
| NatTraversal.AddressSizeAgreesOnIPv4 | moduls/natTraversal.go:164-176 | on "host:port" without brackets both sizes agree |
| NatTraversal.Attempts | moduls/natTraversal.go:15-31 | 1 to 3 Hellos, stopping at the first success |
| NatTraversal.DirectHellos | moduls/natTraversal.go:20-31 | Hello i carries the counter advanced by 2i (one increment in `sendHello`, one after it) |
| NatTraversal.RelayLoop | moduls/natTraversal.go:63-103 | a valid Hello iff the first decisive read within 3 checks 0, a length failure iff it checks 1; read errors and other checks are skipped |
| NatTraversal.SkipFirst | moduls/natTraversal.go:72-97 | a read error or a check of 2 or 3 only uses up a read |
| NatTraversal.FirstDecides | moduls/natTraversal.go:78-86 | a first read checking 0 or 1 decides the loop |
| NatTraversal.Relay | moduls/natTraversal.go:41-129 | size -1: error before any write; else one request to the server; OK iff a Hello arrives, then HelloReply and Hello to the peer; the counter as the code advances it |
| NatTraversal.NatTraversal | moduls/natTraversal.go:14-133 | the direct Hellos come first; fewer than 3 attempts give RESULT_OK; the server is contacted iff 3 attempts were made and the size is not -1, with the request for that size; after 3 attempts RESULT_OK iff the size is not -1 and a Hello arrives through the relay; size -1 is an error with nothing beyond the direct Hellos and no counter change |
| NatTraversal.ThirdSuccessStillRelays | moduls/natTraversal.go:20-35 | a Hello that succeeds on the third try still triggers the relay |
| NatTraversal.NatTraversalFixed | moduls/natTraversal.go:14-133 | the server is contacted iff all three Hellos failed and the address parses; any direct success gives RESULT_OK; after three failures RESULT_OK iff the host part parses and a Hello arrives through the relay, with the request for the host part |
| Responder.HelloReplyFrame | moduls/protocol.go:299-316 | a data-send frame with the request's id, type HelloReply, the peer name as value and its digest |
| Responder.Dispatch | moduls/protocol.go:374-387 | DATUM is served with the body, Hello is greeted with status 200 or 404, NAT_TRAVERSAL relays the body with 0, anything else is 404 |
| Responder.ReplyToIncoming | moduls/protocol.go:365-388 | 400 iff the declared length differs from the body length; otherwise dispatch on byte 5 |
| Responder.ReplyToIncomingFixed | moduls/protocol.go:365-388 | 400 iff the lengths differ; otherwise dispatch on byte 4 |
| Responder.AsWrittenTypeIsBodyLength | moduls/protocol.go:367-371 | past the guard, the byte read as the type is the body length divided by 256 |
| Responder.AsWrittenNeverServesDatum | moduls/protocol.go:367-376 | within a 2048-byte buffer, no frame is ever served as DATUM |
| Responder.AsWrittenRefusesHello | moduls/protocol.go:367-386 | the Hello `sendHello` writes (peer name under 252 bytes) is answered 404 |
| Responder.FixedGreetsHello | moduls/protocol.go:374-378 | reading the type from byte 4, that Hello is greeted with a reply echoing its id |

## Left out

- The HTTP directory client (`SendGetRequest`, `GetPeers`, `PeerAddr`, `PeerKey`, `PeerRoot`, `GetAllPeersAdresses`)
  is network I/O. The address `PeerAddr` returns is the `addr` parameter of `NatTraversal`.
- Socket reads and writes, read deadlines, `time.Sleep` and the 30-second limit of `GetDataByHash`. Received
  datagrams are an input sequence; the limit is that sequence running out (`Deadline`).
- `RegistrationOnServer`, `MaintainConnectionServer` and `NatTraversalServer` are not part of this model: they are
  socket and server plumbing.
- `GetData` is left out: its branches are unreachable from the main flow.
- The body of `SendData` is left out because its layout is internally inconsistent. Its status is a parameter of
  `Responder.Dispatch`, and whether the HelloReply write succeeds is a boolean parameter.
- `moduls/crypto.go` (ECDSA keys and signatures) is not part of this model: the main flow never calls it.
- The command line, menu and configuration of `client.go` are not modelled. Only the three starting cursors are
  (`Download.PrintCursor`, `Download.HashCursor`, `Download.PathCursor`).
- The real file system is not modelled. `ContentTree.FsNode` is an in-memory tree; `Download.Env` gives the paths
  whose open or write fails; effects are logged. `os.Stat` before `os.Mkdir` is not modelled: every mkdir is logged.
- `hashFile` assumes each `file.Read` fills the chunk buffer, as it does for regular files. Short reads are not
  modelled.
- SHA-256 internals: the digest is an oracle, and `Bytes.Digest` takes any result that is not 32 bytes long to be 32
  zero bytes.
- Logging, `PrintMerkelTree` and the error-printing helpers are left out.
- `getDataWithOffset`, which reads the file behind a found node, is left out: `ContentTree.GetHash` returns the node.
- Go's slicing beyond the length but within the capacity is not modelled. `Payload.ParseValue` requires a
  directory body whose length leaves a remainder of at most 1 modulo 64; other lengths make the source slice past
  the data.
- `NatTraversal.NatTraversal`: writes to the server and to the peer always succeed. A failed write would end the
  call with RESULT_ERROR; that path is not modelled.
- `Download.Download`: carries fuel, because a remote tree may be cyclic. A walk that runs out of fuel reports
  `OutOfFuel`, which the source would never do: it would recurse forever.
- `Exchange.GetDataByHash`: its write of the request always succeeds.
- `Exchange.SendHello`: its write of the Hello always succeeds. A failed write returns before the counter is
  incremented; that path is not modelled.
- `ContentTree.HashDir`: takes the listing in the order given. `os.ReadDir` returns the entries sorted by file name,
  so the 16 kept are the first 16 in name order; the model does not require the listing to be sorted.

## Findings

| source | as written | input that shows it | evidently intended | confidence | as-written member | corrected member |
|---|---|---|---|---|---|---|
| moduls/merkelBTree.go:147 | a group ends at `(start+1)*perNode` | any file of more than 32 chunks: with perNode = 2, the group starting at leaf 2 ends at leaf 6, overlapping the next group | `end := start + perNode`, so that the groups partition the leaves | high, not executed | ContentTree.AsWrittenGroupsOverlap | ContentTree.IntendedTreeFringe |
| moduls/protocol.go:367 | the message type is read from `buffer[5]`, the high byte of the length | a Hello from `sendHello` with a 5-byte peer name: byte 5 is 0, so the answer is 404 | read the type from `buffer[4]`; even then only DATUM (132) is served, and the GET_DATUM (5) that `GetDataByHash` writes is answered 404, as the `switch` has no case for it | high, not executed | Responder.AsWrittenRefusesHello | Responder.FixedGreetsHello |
| moduls/natTraversal.go:35 | the relay starts when `count-1 == 3`, which also holds after a successful third Hello | Hello outcomes fail, fail, succeed | relay only when all three Hellos failed | medium, not executed | NatTraversal.ThirdSuccessStillRelays | NatTraversal.NatTraversalFixed |
| moduls/natTraversal.go:165-166 | the host is the text before the first ':' | "[2001:db8::1]:8443": the text before the first ':' is "[2001", which does not parse, so the size is -1 | size 18 for an IPv6 host, taking the host before the last ':' without brackets | medium, not executed | NatTraversal.BracketedIPv6Refused | NatTraversal.BracketedIPv6Accepted |

# Verification of the skynet C runtime

This project models the concurrent, streaming and encoding cores of the C runtime
under `lib/skynet` and proves what they promise over every input, every chunking
and every interleaving. One module per component:

- `RwLock`, `Stm`, `StmProgress`, `StmReads`: the lock-free reader/writer lock and the
  reference-counted cell built on it, as transition systems over any number of
  threads under sequential consistency: what is freed, what can still happen, and what
  readers get.
- `Framing`, `Netpack`, `Harbor`, `Interleaving`, `Cluster`, `ClusterResponse`:
  length-prefixed streams. The incremental parsers refine the parse of the whole byte
  string, ring queues refine a FIFO sequence, and messages are followed end to end
  between two nodes, also when they are sent in interleaved parts.
- `BlockPool`, `SocketBuffer`, `DataBuffer`, `HashId`, `Gate`: buffers that are
  lists of received blocks over a shared pool of nodes, the id hash, and the gate
  service that forwards frames.
- `Seri`, `SeriFormat`, `SeriBlocks`, `Utf8`, `Bson`, `BsonFormat`, `BsonLua`, `BsonClass`,
  `BsonCount`, `BsonBuffer`, `BsonReader`, `BsonIndex`: the two serializers, their writers
  (a chain of 128-byte blocks; a growing buffer with back-patched lengths), their readers,
  and in-place patching of a document. `SeriFormat` and `BsonFormat` say what the bytes
  mean, `BsonClass` which Lua values can be written, `BsonLua` and `BsonCount` which of
  them come back as they were, `Utf8` what passes as text.
- `ShareData`, `Handles`, `Names`: a hash table built to exactly full load, the
  doubling handle table and the sorted name array, each against a plain map.
- `DhExchange`, `Des`, `DesText`, `Sha1`, `Sha1Block`: arithmetic modulo the largest
  64-bit prime, the Feistel cipher against the tables of its standard and with its
  padding, and streaming SHA-1 with its rounds and with HMAC.
- `Bytes`, `Wrappers`, `Arith`, `Chains`, `Sets`, `Runs`: bytes and fixed-width
  integers, missing values and failures, remainders, linked lists of indices, set
  sizes, runs of transition systems.

Where the code and its comments or documentation disagree, the model follows the
code:

- `powmodp` reduces only bases above P, so P to the power 1 comes out as P
  (`lua-crypt.c:753`); `DhExchange.PowMod` states the exact condition.
- `sat_SHA1_Update` compares a 32-bit sum with a 64-bit shift, so updates of 2^29
  bytes or more can add a carry that is not there (`lsha1.c:199`);
  `Sha1.HighAdd` states the exact condition, and `Sha1.KeptBlocks` what it does to the
  blocks that are hashed.
- A cluster request of exactly 0x8000 bytes is sent in parts, although the comment
  says up to 0x8000 bytes go in one package (`lua-cluster.c:43`, `lua-cluster.c:81`;
  `Cluster.OnePackage`); responses switch only above 0x8000.
- A push in one cluster package carries session 0, so only a request gets its
  session back.
- The size of a message in parts is an `int` where the parts are joined
  (`lua-cluster.c:483`): a request or response of 2^31 bytes or more ends the process
  that joins it, or comes back empty (`Cluster.JoinedCut`,
  `ClusterResponse.InterleavedResponses`).
- `skynet_handle_init` reserves handle 0, but after the 24-bit index wraps on harbor 0
  it can be given out (`skynet_handle.c:43-52`); `Handles.Storage.Register` has the
  exact condition, `Handles.ReachesZero` a run, and `Names.ZeroMeansMissing` what it
  means for looking up names.
- A Lua string that starts with a NUL byte is not a BSON string: its second byte
  selects a type or is refused (`lua-bson.c:340-395`). `BsonLua.StringExactly` states
  exactly which strings come back as they were.
- The reader takes a negative length of a copied type back over the length itself
  (`lua-bson.c:152-158`, `lua-bson.c:702-723`), so that a string of three bytes behind
  its tag can come back before a MINKEY although it is no such value
  (`BsonLua.ShortBack`, `BsonLua.ShortExactly`); a length that takes `lmakeindex` back
  to before the value leaves it astray (`BsonIndex.MakeIndex`).
- A regular expression without a NUL between its two texts makes the size given to
  `write_string` wrap (`lua-bson.c:381-393`). Nothing is reserved for it, and the copy
  goes on until a byte is not UTF-8: it leaves the string when the payload is UTF-8, and
  the buffer when what is stored before the first wrong character does not fit
  (`BsonBuffer.EncodeDocument`, with a table in `BsonBuffer.RegexLeaves`).
- `utf8_copy` accepts surrogates, which UTF-8 does not encode (`lua-bson.c:206-231`;
  `Utf8.CharExactly`).
- Names are read up to a NUL, so a table with a NUL in a name never comes back
  (`BsonLua.NulNameLost`).
- A table with a positive length whose last key in the order of `lua_next` is that
  length is written as an array (`lua-bson.c:505-517`), and its other entries are lost;
  `BsonLua.EntryLost` has an instance, `BsonLua.RoundTripExactly` the exact condition.
- The scan for the padding in `ldesdecode` compares an `int` with a `size_t`
  (`lua-crypt.c:420-429`) and reads before its buffer exactly for one block that
  decrypts to zeros, which no encoded text is (`DesText.DesDecode`,
  `DesText.EncodedIsSafe`). The `int` indices of `ldesencode` and `ldesdecode` do not
  reach 2^31 bytes.
- `lpopbuffer` lets a negative size pass (`lua-socket.c:240-245`): it ends in an error, or
  uses the first block of a buffer that has none (`SocketBuffer.Pop`).
- The unlock that ends `stm_releasereader` (`lua-stm.c:82`) can meet a cell that
  another reader has freed, if and only if the writer has been released
  (`StmProgress.UnlockAfterFree`, with a run in `StmProgress.UnlockOfFreed`).
- A harbor link that is down keeps its descriptor (`service_harbor.c:231-241`), so the
  branch that reports a dead destination (`service_harbor.c:528-532`) is never taken;
  what is sent goes to the closed socket (`Harbor.Slave.RemoteSend`).

Function values stand for what the proofs do not depend on: hash functions, S-boxes, the
key schedule and the conversion of a Lua value to a number. What `Sha1` proves holds for
any block transform, so for `Sha1Block.Transform`.
`dafny verify dfyconfig.toml` checks everything.

## Model

| member | source | states |
|---|---|---|
| `RwLock.InvStep` | lib/skynet/skynet-src/rwlock.h:17-48 | every atomic step of any thread keeps the lock invariant: `read` is the number of threads between their increment and decrement, `write` the number of winning writers (at most one), and a writer past its wait loop is alone |
| `RwLock.RunSafe` | lib/skynet/skynet-src/rwlock.h:17-48 | in every state of every interleaving of any number of threads, a writer inside excludes all readers inside and all other writers, and both counters are exact |
| `RwLock.CanQuiesce` | lib/skynet/skynet-src/rwlock.h:17-48 | from every reachable state some schedule runs all threads out of the lock: there is no deadlock |
| `Stm.InvStep` | lib/skynet/lualib-src/lua-stm.c:47-115 | every atomic step of grab, copy, update, writer release and reader release, with the lock's own steps in between, keeps the reference-count invariant |
| `Stm.RunCounts` | lib/skynet/lualib-src/lua-stm.c:47-115 | in every reachable state each copy's count equals its holders (object pointer, readers' last copies, copies held in flight) and the cell's count equals its boxes and pending grabs |
| `Stm.RunSafe` | lib/skynet/lualib-src/lua-stm.c:57-115 | no assertion fails, and no step but the unlock at `lua-stm.c:82` touches a freed cell; no step dereferences, frees or keeps a freed copy, the copy in `stm_release` and the one being freed included, whatever the interleaving |
| `Stm.RunFrees` | lib/skynet/lualib-src/lua-stm.c:47-83 | each message is freed at most once and only when nobody holds it; the cell is freed by exactly one releaser, with its copy already NULL |
| `Stm.RunLeaksNothing` | lib/skynet/lualib-src/lua-stm.c:47-83 | once every box is gone, the cell and every message ever published have been freed exactly once |
| `StmReads.UpdatePublishes` | lib/skynet/lualib-src/lua-stm.c:106-115 | in every run, once a writer has come from the wait for the lock of `stm_update` with a new copy to the unlock, the cell points to that copy |
| `StmReads.StaysPublished` | lib/skynet/lualib-src/lua-stm.c:57-115 | and it stays so, whatever the others do, until that writer stores another copy or gives its copy up in its release |
| `StmReads.ReadReturns` | lib/skynet/lualib-src/lua-stm.c:205-235 | when `lread` returns, the last copy of the reader is one that the cell published at some moment of the call (none for NULL), and a message is reported exactly when that is not NULL and another copy than before the call |
| `StmReads.ReadAfterUpdate` | lib/skynet/lualib-src/lua-stm.c:91-115 | a read that begins after an update has stored its message returns with that message, or with what the writer has stored or given up since then |
| `StmProgress.CanQuiesce` | lib/skynet/lualib-src/lua-stm.c:47-115 | from every reachable state some schedule gives back every box and every grabbed pointer: no process is stuck |
| `StmProgress.CanFinish` | lib/skynet/lualib-src/lua-stm.c:47-115 | every run goes on to one after which the cell and all messages have been freed exactly once |
| `StmProgress.UnlockAfterFree` | lib/skynet/lualib-src/lua-stm.c:73-83 | while a reader has given up its reference but not yet the lock, the others can free the cell if and only if the writer has been released |
| `StmProgress.UnlockMeetsLive` | lib/skynet/lualib-src/lua-stm.c:73-83 | that unlock meets a live cell if and only if the cell is still counted or some process is about to free it |
| `StmProgress.UnlockOfFreed` | lib/skynet/lualib-src/lua-stm.c:73-83 | a run from the start, with a released writer and two readers, in which that unlock comes after the cell has been freed |
| `Netpack.Queue.FindUncomplete` | lib/skynet/lualib-src/lua-netpack.c:92-114 | unlinks the record of a socket and of no other |
| `Netpack.Queue.SaveUncomplete` | lib/skynet/lualib-src/lua-netpack.c:169-180 | one more incomplete record, for a socket that had none |
| `Netpack.Queue.ExpandQueue` | lib/skynet/lualib-src/lua-netpack.c:133-148 | a full ring moves into a larger one with the packets in the same order |
| `Netpack.Queue.PushData` | lib/skynet/lualib-src/lua-netpack.c:150-167 | appends one packet to the FIFO, growing the ring when it is full |
| `Netpack.Queue.PushMore` | lib/skynet/lualib-src/lua-netpack.c:188-215 | appends the parse of the bytes to the FIFO and leaves the rest as the socket's incomplete record |
| `Netpack.Queue.FilterData` | lib/skynet/lualib-src/lua-netpack.c:227-307 | for any chunk, what comes out is the parse of the bytes held for the socket followed by the chunk, what is held afterwards is its incomplete rest, and no other socket changes |
| `Netpack.Queue.Fill` | lib/skynet/lualib-src/lua-netpack.c:230-269 | the branch that continues a record: one or two length bytes, still incomplete, exactly complete, or complete with more behind it |
| `Netpack.Queue.Fresh` | lib/skynet/lualib-src/lua-netpack.c:270-307 | the branch that starts at a packet boundary |
| `Netpack.Queue.Close` | lib/skynet/lualib-src/lua-netpack.c:217-225 | a closed socket loses its incomplete record and nothing else |
| `Netpack.Queue.Pop` | lib/skynet/lualib-src/lua-netpack.c:396-411 | takes the oldest packet of the ring |
| `Netpack.Run` | lib/skynet/lualib-src/lua-netpack.c:92-307 | for every interleaving of non-empty chunks and closes of any number of sockets, with the consumer draining after `more`, the packets emitted for a socket are, connection by connection, the length-prefixed parse of all its bytes in order, and what is held is the incomplete rest |
| `Netpack.NeverClosed` | lib/skynet/lualib-src/lua-netpack.c:227-307 | for a socket that is never closed that is the parse of its whole byte stream |
| `Netpack.PackIsFrame` | lib/skynet/lualib-src/lua-netpack.c:436-452 | lpack refuses exactly data of 0x10000 bytes or more, and otherwise gives two bytes with the length, the high one first, and the data: the frame that the parser reads |
| `Netpack.PackedStreamIsParsed` | lib/skynet/lualib-src/lua-netpack.c:227-307 | packets packed on one side come out of the other side's netpack, for any chunking and any traffic on other sockets |
| `Harbor.MsgQueue.Push` | lib/skynet/service-src/service_harbor.c:91-119 | a message is appended to the ring, which doubles when full; FIFO order is kept |
| `Harbor.MsgQueue.Pop` | lib/skynet/service-src/service_harbor.c:121-129 | the oldest message leaves the ring |
| `Harbor.Slave.DispatchQueue` | lib/skynet/service-src/service_harbor.c:389-406 | everything that waited goes out in order and the queue is empty |
| `Harbor.Slave.RemoteSend` | lib/skynet/service-src/service_harbor.c:516-553 | before the link is open the call is queued behind the earlier ones; on an open link, and over the closed descriptor of a link that is down, it goes out at once |
| `Harbor.Slave.ReadHeader` | lib/skynet/service-src/service_harbor.c:450-476 | collects the four length bytes over any number of chunks; a length of 2^24 or more closes the link |
| `Harbor.Slave.ReadContent` | lib/skynet/service-src/service_harbor.c:477-497 | collects the body over any number of chunks |
| `Harbor.Slave.Consume` | lib/skynet/service-src/service_harbor.c:450-497 | for any chunk, the bodies forwarded are those of the scan of the held bytes followed by the chunk |
| `Harbor.Slave.Command` | lib/skynet/service-src/service_harbor.c:588-637 | connect and accept commands start the handshake, send the own id, and on accept flush the queue |
| `Harbor.Slave.PushSocketData` | lib/skynet/service-src/service_harbor.c:408-500 | handshake byte, then frames; a wrong peer id closes the link; a right one flushes the queue first |
| `Harbor.ScanAppend` | lib/skynet/service-src/service_harbor.c:450-497 | scanning a longer stream continues from the rest of the shorter one, whatever the cut |
| `Harbor.RunLink` | lib/skynet/service-src/service_harbor.c:389-637 | over every run of sends, connects and chunks, while the link is not down: emitted followed by queued is exactly the calls made, in call order; the bytes put on the socket are their wire form; and the bodies forwarded are the frames of the bytes received |
| `Harbor.DeliverBody` | lib/skynet/service-src/service_harbor.c:282-342 | unpacking the cookie of a wire message gives back source, destination, type, session and payload |
| `Harbor.WireBytes` | lib/skynet/service-src/service_harbor.c:275-342 | the bytes of a call on the wire: the length of what follows, the payload, and in four bytes each, high byte first, the source, the type with the low 24 bits of the destination, and the session |
| `Harbor.StreamDelivers` | lib/skynet/service-src/service_harbor.c:408-500 | scanning the concatenated wire forms delivers exactly the sequence of calls |
| `Harbor.EndToEnd` | lib/skynet/service-src/service_harbor.c:282-342 | across two harbors, for any chunking, the receiver delivers exactly the sender's calls in order (type < 256, payload + 12 < 2^24) |
| `Harbor.EndToEndSoFar` | lib/skynet/service-src/service_harbor.c:282-342 | at any moment before, after any prefix of the bytes, what is delivered is the first calls in order |
| `Cluster.CutFits` | lib/skynet/lualib-src/lua-cluster.c:137-159 | parts have at most 0x8000 bytes, all but the last have exactly that many, and they concatenate to the message |
| `Cluster.OnePackage` | lib/skynet/lualib-src/lua-cluster.c:77-118 | a request goes in one package if and only if it has fewer than 0x8000 bytes |
| `Cluster.PackagesFit` | lib/skynet/lualib-src/lua-cluster.c:21-37 | every package fits the stack buffer and its length is below 0x10000, so the assertion of fill_header holds |
| `Cluster.PackMulti` | lib/skynet/lualib-src/lua-cluster.c:136-159 | the loop over parts: each part framed with its session, only the last one flagged as the end |
| `Cluster.PackRequest` | lib/skynet/lualib-src/lua-cluster.c:161-204 | for every payload whose size fits 32 bits: succeeds exactly for positive sessions and names of 1 to 255 bytes; the packages are those of the request and the next session wraps to 1 |
| `Cluster.UnpackSingle` | lib/skynet/lualib-src/lua-cluster.c:220-291 | a request in one package is unpacked to its address, session (0 for a push), payload and push flag, for numeric and named addresses |
| `Cluster.UnpackBegin` | lib/skynet/lualib-src/lua-cluster.c:239-311 | the head of a multi-part request is unpacked to address, session, size and push flag |
| `Cluster.UnpackPiece` | lib/skynet/lualib-src/lua-cluster.c:256-269 | a part is unpacked to its session, bytes and padding flag |
| `Cluster.UnpackExactly` | lib/skynet/lualib-src/lua-cluster.c:215-338 | a package of any bytes is understood as a request, a head or a part if and only if it has the documented layout: type byte, address, little-endian session and size, with the lengths checked as the code checks them |
| `Cluster.Concat` | lib/skynet/lualib-src/lua-cluster.c:477-508 | joins the texts after the size exactly when their lengths add up to the size and the size is below 2^31; a larger size ends the process |
| `Cluster.JoinedCut` | lib/skynet/lualib-src/lua-cluster.c:136-159 | joining the parts of a message under an announced size gives the message if and only if the size is its length and below 2^31 |
| `Cluster.ReceiveStep` | lib/skynet/service/clusterd.lua:176-207 | one package moves its own request on by one or completes it, and touches no other request |
| `Interleaving.Interleaved` | lib/skynet/service/clusterd.lua:176-207 | for any receiver that moves one message on with each of its packages: over every interleaving it answers exactly the messages whose packages all arrive, each at its last package |
| `Cluster.InterleavedRequests` | lib/skynet/service/clusterd.lua:176-207 | however the packages of requests are interleaved, as long as no session number is used again while its request is under way, the receiver delivers exactly the requests, each when its last package arrives; one of 2^31 bytes or more ends the process at that point |
| `Interleaving.ExactlyOnce` | lib/skynet/service/clusterd.lua:176-207 | a message whose packages all arrive finishes once, and one that is incomplete not at all |
| `Cluster.ThroughNetpack` | lib/skynet/lualib-src/lua-cluster.c:77-194 | the same through netpack framing: for any chunking and any other sockets the emitted packets give exactly the requests |
| `ClusterResponse.PackResponse` | lib/skynet/lualib-src/lua-cluster.c:362-430 | short, long and error responses are packed as single, multi-part and truncated packages that fit the buffer, for every size whose number of parts is an `int` |
| `ClusterResponse.ResponseRoundTrip` | lib/skynet/lualib-src/lua-cluster.c:362-475 | every package of an ok response of any size is unpacked with its session and its data, only the last without padding |
| `ClusterResponse.ErrorRoundTrip` | lib/skynet/lualib-src/lua-cluster.c:378-454 | an error response is unpacked as an error with the message cut at 32K |
| `ClusterResponse.UnpackExactly` | lib/skynet/lualib-src/lua-cluster.c:439-475 | a response of any bytes is understood if and only if it has the documented layout: little-endian session, type byte, and four bytes of size or text |
| `ClusterResponse.ResponseTypes` | lib/skynet/lualib-src/lua-cluster.c:340-430 | only an ok response above 0x8000 bytes is cut, and its packages have the types 2, 3 and, for the last, 4; others 1 or 0 |
| `ClusterResponse.DispatchStep` | lib/skynet/lualib/skynet/socketchannel.lua:91-128 | one package of a response moves its own call on by one or completes it, and touches no other call |
| `ClusterResponse.InterleavedResponses` | lib/skynet/lualib/skynet/socketchannel.lua:91-128 | however ok and error responses to calls are interleaved, as long as no session number is used again while its call waits, every call gets its own answer when the last package arrives: the error cut at 32K, the whole message exactly below 2^31 bytes, and otherwise an empty message or the end of the process |
| `ClusterResponse.ReadResponses` | lib/skynet/service/clusterd.lua:11-15 | the bytes of the connection, read length by length, are the packages of the responses to the last byte |
| `ClusterResponse.AnswersFromBytes` | lib/skynet/lualib/skynet/socketchannel.lua:91-128 | from the bytes of the connection, with calls beginning to wait in between, to the answers: every call gets its own when the last byte of its last package is read |
| `BlockPool.Release` | lib/skynet/lualib-src/lua-socket.c:148-165 | giving back the first node of one buffer keeps every node in one place, drops exactly that block's bytes, and changes no other buffer |
| `BlockPool.Append` | lib/skynet/lualib-src/lua-socket.c:98-146 | a block appended in a node from the free list extends exactly one buffer |
| `BlockPool.Grow` | lib/skynet/service-src/databuffer.h:98-111 | a new page of nodes goes to the free list and changes no buffer |
| `BlockPool.Partition` | lib/skynet/lualib-src/lua-socket.c:98-165 | every node is in exactly one of the free list and the buffers, and only once |
| `BlockPool.Pool.Push` | lib/skynet/service-src/databuffer.h:91-123 | the block's bytes arrive at the end of one buffer, `size` is its length, all other buffers are unchanged, and the pool stays partitioned |
| `BlockPool.Pool.ReturnFreeNode` | lib/skynet/lualib-src/lua-socket.c:148-165 | the rest of the first block leaves the buffer and its node joins the free list |
| `BlockPool.Pool.Clear` | lib/skynet/service-src/databuffer.h:151-157 | all blocks of one buffer are given back |
| `SocketBuffer.PushBuffer` | lib/skynet/lualib-src/lua-socket.c:98-146 | bytes are appended to the string that the buffer stands for and the new length is returned |
| `SocketBuffer.PopString` | lib/skynet/lualib-src/lua-socket.c:167-207 | the first `sz` bytes leave the buffer, across any number of blocks, and are returned without the last `skip` |
| `SocketBuffer.Pop` | lib/skynet/lualib-src/lua-socket.c:233-250 | nil exactly for zero or too many bytes; a prefix for a size from 1 to what there is; a negative size changes nothing and ends in an error when there is a block, and uses a missing block exactly when there is none |
| `SocketBuffer.ClearBuffer` | lib/skynet/lualib-src/lua-socket.c:256-271 | the buffer is empty afterwards and no other buffer changes |
| `SocketBuffer.ReadAll` | lib/skynet/lualib-src/lua-socket.c:273-290 | returns and removes the whole string |
| `SocketBuffer.CheckSep` | lib/skynet/lualib-src/lua-socket.c:300-317 | whether the separator is at this place, even when it spans several blocks |
| `SocketBuffer.FindSep` | lib/skynet/lualib-src/lua-socket.c:335-359 | the first place where the separator occurs, or that there is none |
| `SocketBuffer.ReadLine` | lib/skynet/lualib-src/lua-socket.c:324-361 | the bytes before the first separator are returned and removed together with it; in check mode nothing changes |
| `HashId.InsertTable` | lib/skynet/service-src/hashid.h:104-112 | putting a free node at the front of its bucket keeps every chain, and adds one id |
| `HashId.RemoveTable` | lib/skynet/service-src/hashid.h:64-89 | unlinking a node anywhere in its chain keeps every chain, and removes one id |
| `HashId.Acyclic` | lib/skynet/service-src/hashid.h:52-62 | a chain that ends has no node twice |
| `HashId.Ids.constructor` | lib/skynet/service-src/hashid.h:21-39 | the empty table |
| `HashId.Ids.Lookup` | lib/skynet/service-src/hashid.h:52-62 | finds exactly the ids in the table, at their slots |
| `HashId.Ids.Remove` | lib/skynet/service-src/hashid.h:64-89 | removes exactly the given id and frees its slot |
| `HashId.Ids.Insert` | lib/skynet/service-src/hashid.h:91-113 | when not full, both assertions hold and the id gets a free slot |
| `HashId.Ids.Full` | lib/skynet/service-src/hashid.h:115-118 | full means as many ids as slots |
| `DataBuffer.PushData` | lib/skynet/service-src/databuffer.h:91-123 | appends a message to the connection's bytes |
| `DataBuffer.Read` | lib/skynet/service-src/databuffer.h:64-89 | the first `sz` bytes, possibly none, leave a buffer that has a message, in order, across messages |
| `DataBuffer.ReadHeader` | lib/skynet/service-src/databuffer.h:125-144 | reads a length when none is pending, remembers it, and returns it when the frame is complete; -1 otherwise |
| `Gate.SmallAppend` | lib/skynet/service-src/service_gate.c:197-202 | frames below 16M remain so when the stream is read in parts |
| `Gate.Service.Forward` | lib/skynet/service-src/service_gate.c:168-187 | with a destination exactly the body is read and sent |
| `Gate.Service.Dispatch` | lib/skynet/service-src/service_gate.c:189-209 | for any chunk, the bodies forwarded are the non-empty frames of the pending bytes followed by the chunk |
| `Gate.Service.OnData` | lib/skynet/service-src/service_gate.c:215-226 | data of an open connection extends its stream; other data is dropped |
| `Gate.Service.OnAccept` | lib/skynet/service-src/service_gate.c:251-267 | a new connection gets an idle slot, or is refused when the table is full |
| `Gate.Service.OnClose` | lib/skynet/service-src/service_gate.c:239-250 | the connection's slot, id and buffers are given back |
| `Gate.Run` | lib/skynet/service-src/service_gate.c:189-267 | over every run of accept, data and close events with fresh ids: connection table and id hash agree slot by slot, the open ids are those of a plain set, pool nodes are conserved, and with a destination each connection's forwarded bodies are the non-empty frames of its bytes, however they were cut (frames below 16M) |
| `Seri.IntegerRoundTrip` | lib/skynet/lualib-src/lua-seri.c:142-174 | every 64-bit integer is read back from the shortest encoding that was chosen for it |
| `Seri.StringRoundTrip` | lib/skynet/lualib-src/lua-seri.c:190-213 | short, 16-bit and 32-bit long strings are read back |
| `Seri.DecodeEncoded` | lib/skynet/lualib-src/lua-seri.c:282-340 | any packed value, with tables nested to any depth, holes in the array part and array keys among the entries, is read back as the same value, whatever follows it |
| `Seri.RoundTrip` | lib/skynet/lualib-src/lua-seri.c:342-597 | unpacking the encoding of a sequence of values gives the sequence |
| `SeriFormat.AtomExactly` | lib/skynet/lualib-src/lua-seri.c:359-532 | of any bytes, a value that is no table is read if and only if they have its form: the type in three bits, the cookie in five, and numbers with the low byte first, in two's complement from four bytes on |
| `SeriFormat.IntegerLength` | lib/skynet/lualib-src/lua-seri.c:142-174 | an integer is written in exactly the bytes that its range needs |
| `SeriFormat.StringLength` | lib/skynet/lualib-src/lua-seri.c:190-230 | so are the length of a string (none below 32 bytes, two below 64K) and the number of items of a table (none below 31) |
| `SeriBlocks.FitsTable` | lib/skynet/lualib-src/lua-seri.c:296-301 | a table fits the nesting limit exactly when everything written below it does |
| `SeriBlocks.FitsExactly` | lib/skynet/lualib-src/lua-seri.c:296-340 | a value fits the recursion exactly when it has no unsupported part and its tables are nested at most 32 deep |
| `SeriBlocks.Writer.Push` | lib/skynet/lualib-src/lua-seri.c:65-85 | the block chain grows by exactly the bytes given, wherever the 128-byte boundaries fall |
| `SeriBlocks.Writer.Flat` | lib/skynet/lualib-src/lua-seri.c:534-553 | the chain flattened is the plain concatenation of everything pushed |
| `SeriBlocks.Writer.PackOne` | lib/skynet/lualib-src/lua-seri.c:296-340 | fails exactly for an unsupported type or nesting beyond MAX_DEPTH, and otherwise appends the encoding |
| `SeriBlocks.Pack` | lib/skynet/lualib-src/lua-seri.c:342-349 | packs the values exactly when none has an unsupported part or tables nested more than 32 deep |
| `SeriBlocks.Reader.UnpackOne` | lib/skynet/lualib-src/lua-seri.c:467-532 | reads one value as the format says and moves the cursor behind it, or reports an invalid stream |
| `SeriBlocks.Reader.UnpackTable` | lib/skynet/lualib-src/lua-seri.c:434-465 | the two loops of unpack_table |
| `SeriBlocks.Unpack` | lib/skynet/lualib-src/lua-seri.c:555-597 | reads values until the buffer is used up |
| `SeriBlocks.PackUnpack` | lib/skynet/lualib-src/lua-seri.c:555-612 | through blocks, flat buffer and cursor, the values come back exactly when none has an unsupported part or tables nested more than 32 deep, and otherwise packing fails |
| `ShareData.CountSize` | lib/skynet/lualib-src/lua-sharedata.c:67-89 | the number of keys that belong to the hash part |
| `ShareData.Collide` | lib/skynet/lualib-src/lua-sharedata.c:237-274 | placing a key in an empty slot and linking it behind its home slot keeps the chains acyclic and in their groups |
| `ShareData.EmptySlotExists` | lib/skynet/lualib-src/lua-sharedata.c:258-266 | while a key is missing some slot is empty: the assertion never fails |
| `ShareData.TurnsEnd` | lib/skynet/lualib-src/lua-sharedata.c:237-274 | after the second pass every key has a slot and every slot is filled |
| `ShareData.OrderExact` | lib/skynet/lualib-src/lua-sharedata.c:589-646 | every key of the source comes exactly once in the iteration order |
| `ShareData.SharedTable.FillNoColliding` | lib/skynet/lualib-src/lua-sharedata.c:212-235 | the first pass: every home slot that some key wants is taken by a key that hashes there |
| `ShareData.SharedTable.FillColliding` | lib/skynet/lualib-src/lua-sharedata.c:237-274 | the second pass puts every remaining key into an empty slot |
| `ShareData.SharedTable.constructor` | lib/skynet/lualib-src/lua-sharedata.c:276-325 | for every source table and hash function the build ends with a full, acyclic hash part and the array part of the source |
| `ShareData.SharedTable.LookupKey` | lib/skynet/lualib-src/lua-sharedata.c:501-530 | returns the slot of exactly the keys that the source has in its hash part |
| `ShareData.SharedTable.Index` | lib/skynet/lualib-src/lua-sharedata.c:532-566 | lookup returns exactly the source value or nothing |
| `ShareData.SharedTable.NextKey` | lib/skynet/lualib-src/lua-sharedata.c:589-646 | returns the key that follows in the iteration order |
| `ShareData.SharedTable.Traverse` | lib/skynet/lualib-src/lua-sharedata.c:589-646 | iterating from nil visits every key exactly once and stops |
| `Handles.DoubledHolds` | lib/skynet/skynet-src/skynet_handle.c:55-65 | doubling moves every context to its own slot of the larger table and loses none |
| `Handles.Storage.Search` | lib/skynet/skynet-src/skynet_handle.c:40-54 | the first free probe; nothing exactly when all slots are taken; and low bits 0 exactly when the 24-bit index wraps to a free slot 0 before another slot is found |
| `Handles.Storage.Double` | lib/skynet/skynet-src/skynet_handle.c:55-65 | no two contexts meet, and the doubled table has room |
| `Handles.Storage.Register` | lib/skynet/skynet-src/skynet_handle.c:34-67 | a handle that no live context has, after at most two searches; it fails if and only if 2^24 contexts are live; and the reserved handle 0 comes out if and only if the harbor is 0 and the index wraps to a free slot 0 before another slot of the table searched is found |
| `Handles.ZeroExactly` | lib/skynet/skynet-src/skynet_handle.c:40-54 | the first free probe has low bits 0 if and only if slot 0 is free and every slot probed before the index wraps is taken |
| `Handles.NotFull` | lib/skynet/skynet-src/skynet_handle.c:40-54 | a table with a free slot has fewer live contexts than slots |
| `Handles.ReachesZero` | lib/skynet/skynet-src/skynet_handle.c:34-67 | on harbor 0, after 2^24 - 1 registrations and retirements the next registration gives out handle 0 |
| `Handles.Storage.Retire` | lib/skynet/skynet-src/skynet_handle.c:69-106 | removes exactly the context of the handle and all its names, or nothing |
| `Handles.Storage.Grab` | lib/skynet/skynet-src/skynet_handle.c:132-149 | returns exactly the context still live under the handle |
| `Handles.Run` | lib/skynet/skynet-src/skynet_handle.c:34-229 | over every run of register, name and retire: a registration gives a handle that is not in use, and fails exactly when 2^24 are; exactly live contexts are retired; a name is taken exactly when it is new and there are not 2^30; and the tables are the maps of the live contexts and of their names |
| `Names.LookupInsert` | lib/skynet/skynet-src/skynet_handle.c:182-205 | inserting under a new name changes the map at that name only |
| `Names.LookupWithout` | lib/skynet/skynet-src/skynet_handle.c:79-93 | compaction removes exactly the names of the retired handle |
| `Names.NameTable.Search` | lib/skynet/skynet-src/skynet_handle.c:156-174 | binary search finds the name or the place where it belongs |
| `Names.NameTable.FindName` | lib/skynet/skynet-src/skynet_handle.c:151-179 | the handle of the name in the plain map, or 0 |
| `Names.ZeroMeansMissing` | lib/skynet/skynet-src/skynet_handle.c:151-179 | an answer of 0 means that there is no such name, for every name, if and only if no name has handle 0 |
| `Names.NameTable.InsertBefore` | lib/skynet/skynet-src/skynet_handle.c:181-205 | the array stays sorted, with and without growth |
| `Names.NameTable.InsertName` | lib/skynet/skynet-src/skynet_handle.c:207-229 | a new name is added to the map, a taken one changes nothing, and the assertion on the size fails exactly for a new name when there are 2^30 |
| `Names.NameTable.RemoveHandle` | lib/skynet/skynet-src/skynet_handle.c:79-93 | the array stays sorted and loses exactly the handle's names |
| `DhExchange.MulModP` | lib/skynet/lualib-src/lua-crypt.c:716-736 | a*b mod P for every a < P and every 64-bit b, although doubling may wrap |
| `DhExchange.PowModP` | lib/skynet/lualib-src/lua-crypt.c:738-750 | a^b mod P for b >= 1 (a itself for b = 1) |
| `DhExchange.PowMod` | lib/skynet/lualib-src/lua-crypt.c:752-757 | a^b mod P if and only if not (a = P and b = 1), where it returns P |
| `DhExchange.DhExchangeKey` | lib/skynet/lualib-src/lua-crypt.c:791-809 | 5^x mod P for every non-zero 8-byte key, and the errors |
| `DhExchange.DhSecret` | lib/skynet/lualib-src/lua-crypt.c:774-787 | x^y mod P and the errors; the one exception is the public value P with exponent 1 |
| `DhExchange.PublicNonZero` | lib/skynet/lualib-src/lua-crypt.c:789-809 | no power of 5 is zero modulo P, so the peer accepts every public key |
| `DhExchange.KeyAgreement` | lib/skynet/lualib-src/lua-crypt.c:774-809 | both sides derive the same secret 5^(xy) mod P, and both public values are above 0 and below P, so that neither side fails |
| `Des.InitialAfterFinal` | lib/skynet/lualib-src/lua-crypt.c:203-226 | the initial permutation undoes the final one |
| `Des.FinalAfterInitial` | lib/skynet/lualib-src/lua-crypt.c:203-226 | the final permutation undoes the initial one |
| `Des.InitialByTable` | lib/skynet/lualib-src/lua-crypt.c:203-214 | the macro moves every bit as the table IP of FIPS 46-3 says, both halves rotated by one to the left |
| `Des.FinalByTable` | lib/skynet/lualib-src/lua-crypt.c:216-226 | on such halves the macro moves every bit as the table IP^-1 says |
| `Des.RoundByTable` | lib/skynet/lualib-src/lua-crypt.c:229-242 | in a round the index of each of the eight boxes is the six bits of the half that the table E selects for it, combined with six bits of the subkeys |
| `Des.RoundsInverse` | lib/skynet/lualib-src/lua-crypt.c:229-242 | the rounds with reversed subkeys undo each other for arbitrary S-boxes |
| `Des.CryptInverse` | lib/skynet/lualib-src/lua-crypt.c:315-337 | decrypting an encrypted block gives it back (FIPS 46-3) |
| `Des.CryptByTables` | lib/skynet/lualib-src/lua-crypt.c:203-337 | a block is enciphered as FIPS 46-3 says, bit by bit, for arbitrary S-boxes and subkeys: IP, sixteen rounds, the halves exchanged, IP^-1 |
| `Des.DesRounds` | lib/skynet/lualib-src/lua-crypt.c:324-331 | the loop of two rounds a turn is the sixteen-round network |
| `Des.DesCrypt` | lib/skynet/lualib-src/lua-crypt.c:315-337 | one block through the permutations and rounds |
| `DesText.RoundTrip` | lib/skynet/lualib-src/lua-crypt.c:365-438 | for every 8-byte key, every text, any S-boxes and key schedule, decoding what was encoded gives the text back; the methods compute this below 2^31 bytes |
| `DesText.PadInjective` | lib/skynet/lualib-src/lua-crypt.c:378-393 | no two texts share a padded form (method 2 of ISO/IEC 9797-1) |
| `DesText.PadExactly` | lib/skynet/lualib-src/lua-crypt.c:378-393 | the padded text is the text, a byte with only its top bit, and the fewest zeros that fill up a block of eight |
| `DesText.DesEncode` | lib/skynet/lualib-src/lua-crypt.c:365-398 | block by block, with the padded last block; an error for other keys; the `int` index does not get to the end exactly from 2^31 bytes on |
| `DesText.DesDecode` | lib/skynet/lualib-src/lua-crypt.c:400-438 | what it does is undefined if and only if the text is one block that decrypts to zeros or has 2^31 bytes or more; otherwise reversed subkeys, then the padding is checked and removed |
| `DesText.Padding` | lib/skynet/lualib-src/lua-crypt.c:417-431 | the scan with its `int` index and unsigned comparison finds the padding of the last block or a wrong byte; it leaves the buffer exactly for eight zeros or when the index starts negative |
| `DesText.EncodedIsSafe` | lib/skynet/lualib-src/lua-crypt.c:365-438 | no encoded text makes the decoder read before its buffer, and its index runs over exactly when the text has 2^31 - 8 bytes or more |
| `Sha1.AbsorbAppend` | lib/skynet/lualib-src/lsha1.c:190-215 | hashing in pieces needs only the unfinished block |
| `Sha1.HighAdd` | lib/skynet/lualib-src/lsha1.c:199-200 | the two count words stay exact if and only if the comparison sees the carry |
| `Sha1.HighKept` | lib/skynet/lualib-src/lsha1.c:199-200 | the high count word is too large by exactly the number of carries that were not seen |
| `Sha1.LongUpdateMiscounts` | lib/skynet/lualib-src/lsha1.c:199-200 | a first update of 2^29 bytes miscounts |
| `Sha1.Context.Update` | lib/skynet/lualib-src/lsha1.c:190-215 | the message grows by the data, the carries too many grow by one exactly when the carry is not seen, and below 2^29 bytes it always is |
| `Sha1.Context.Pad` | lib/skynet/lualib-src/lsha1.c:224-232 | the message is extended by the padding of section 5.1.1 of FIPS 180-4 with the count as kept |
| `Sha1.Context.Final` | lib/skynet/lualib-src/lsha1.c:219-244 | the digest of exactly the padded blocks |
| `Sha1.InitialWords` | lib/skynet/lualib-src/lsha1.c:177-186 | the initial words have the digits of section 5.3.1 of FIPS 180-4 |
| `Sha1.DigestAt` | lib/skynet/lualib-src/lsha1.c:233-236 | byte by byte, the digest is the words of the state with the high byte first |
| `Sha1.PaddedExactly` | lib/skynet/lualib-src/lsha1.c:224-232 | the blocks hashed are those of the standard if and only if the count is right |
| `Sha1.HashChunks` | lib/skynet/lualib-src/lsha1.c:190-244 | for every split of a message into updates: the digest of the message with the bit count as kept, which is the standard digest when the carries too many are a multiple of 2^32, and so for all updates below 2^29 bytes |
| `Sha1.KeptBlocks` | lib/skynet/lualib-src/lsha1.c:219-244 | the blocks that are hashed are those of the standard if and only if the carries too many are a multiple of 2^32 |
| `Sha1.ShortMissNothing` | lib/skynet/lualib-src/lsha1.c:199-200 | updates below 2^29 bytes miss no carry |
| `Sha1.Sha1` | lib/skynet/lualib-src/lsha1.c:249-261 | for every text the digest with the bit count as kept: the standard digest when the carry of its one update is seen, so below 2^29 bytes |
| `Sha1.XorPads` | lib/skynet/lualib-src/lsha1.c:265-272 | the second pass of xor_key replaces the outer pad by the inner one |
| `Sha1.XorExactly` | lib/skynet/lualib-src/lsha1.c:265-272 | the exclusive or of xor_key is the one of the processor, on all bytes |
| `Sha1.HmacExactly` | lib/skynet/lualib-src/lsha1.c:274-312 | byte by byte, the two blocks in front are the key, hashed when it is longer than a block and filled up with zeros, combined with 0x5c and 0x36 |
| `Sha1.HmacSha1` | lib/skynet/lualib-src/lsha1.c:274-312 | the formula of section 2 of RFC 2104 for keys shorter and longer than a block, when the carries of the long key and of the text are seen, so below 2^29 bytes |
| `Sha1Block.TransformBlock` | lib/skynet/lualib-src/lsha1.c:123-172 | the eighty rounds, with sixteen words expanded in place and the working variables renamed, give the compression of section 6.1.2 of FIPS 180-4 |
| `Sha1Block.Expand` | lib/skynet/lualib-src/lsha1.c:111-112 | a word of the circular block is the next one of the message schedule |
| `Sha1Block.SwapLoads` | lib/skynet/lualib-src/lsha1.c:106-110 | the words loaded from memory with the low byte first are turned into those with the high byte first |
| `Sha1Block.MixedIsF` | lib/skynet/lualib-src/lsha1.c:115-119 | the functions of the macros are Ch, Parity and Maj of section 4.1.1 |
| `Sha1Block.RootsOf` | lib/skynet/lualib-src/lsha1.c:115-119 | the constants are the square roots of 2, 3, 5 and 10, times 2^30, rounded down |
| `Bytes.LeDigits` | lib/skynet/lualib-src/lua-bson.c:184-201 | byte i of a number written with the low byte first is worth 256^i |
| `Bytes.BeDigits` | lib/skynet/lualib-src/lsha1.c:224-236 | the same with the high byte first |
| `Utf8.CharExactly` | lib/skynet/lualib-src/lua-bson.c:206-231 | a character is accepted exactly when it is the encoding of a code point up to 0x10FFFF, surrogates included, in the form of section 3 of RFC 3629 |
| `Utf8.ValidExactly` | lib/skynet/lualib-src/lua-bson.c:232-248 | a string passes exactly when it is the encodings of a sequence of such code points |
| `Utf8.CopyChar` | lib/skynet/lualib-src/lua-bson.c:206-231 | the bit by bit check gives the length of the character or 0, and stores what the model says, without reading past the NUL behind the string |
| `Utf8.CopyString` | lib/skynet/lualib-src/lua-bson.c:232-248 | for the size of the string the copy succeeds exactly when it passes; for a larger size it leaves the string or its room exactly when the string passes or what is stored before the first wrong character does not fit |
| `Bson.AtomRoundTrip` | lib/skynet/lualib-src/lua-bson.c:294-423 | each element value that can be told from what follows it is decoded as it was encoded; which element a Lua value becomes is the matter of `BsonLua` |
| `Bson.DecimalRoundTrip` | lib/skynet/lualib-src/lua-bson.c:425-449 | array keys in decimal are read back as their indices, below 2^31 items |
| `Bson.DecodeEncoded` | lib/skynet/lualib-src/lua-bson.c:592-732 | any encoded document or array, with every element type, whose names have no NUL and whose elements can be told from those that follow them, decodes to the same table, whatever follows |
| `Bson.RoundTrip` | lib/skynet/lualib-src/lua-bson.c:592-732 | decoding such an encoded document gives the document (the document, e_list and element productions of the BSON 1.1 specification) |
| `BsonFormat.ElementExactly` | lib/skynet/lualib-src/lua-bson.c:604-731 | of any bytes, the decoder reads an element that is no document as a value if and only if they spell that value in the BSON 1.1 specification, read as C reads it: any non-zero byte is true, the byte behind a string is not looked at, copied types announce their length |
| `BsonFormat.SecondsExactly` | lib/skynet/lualib-src/lua-bson.c:654-658 | a date, written by whoever, becomes its milliseconds divided by 1000 and rounded to zero, modulo 2^32; from 0 to 2^32 seconds, the whole seconds |
| `BsonFormat.IndexExactly` | lib/skynet/lualib-src/lua-bson.c:611-613 | the index of an item is one above the number that its key begins with, after blanks and a sign |
| `BsonFormat.DocumentExactly` | lib/skynet/lualib-src/lua-bson.c:592-732 | of any bytes, the decoder reads a table if and only if they are a document for it: length, elements and NUL, each element spelling its value, nested documents included, and under each key the value of its last element |
| `BsonFormat.EncodedIsDocument` | lib/skynet/lualib-src/lua-bson.c:592-732 | what the encoder writes for elements that can be told from what follows is such a document |
| `BsonFormat.Canonical` | lib/skynet/lualib-src/lua-bson.c:294-423 | where that leaves a choice: strings end with NUL, true is 1, and dates are whole seconds |
| `BsonFormat.IntegerWidth` | lib/skynet/lualib-src/lua-bson.c:289-310 | an integer takes four bytes exactly when it fits, otherwise eight |
| `BsonLua.AtomExactly` | lib/skynet/lualib-src/lua-bson.c:605-731 | an element value is read back, with nothing of what follows it, if and only if it can be told from what follows, with negative lengths of copied types taking the cursor back |
| `BsonLua.StringExactly` | lib/skynet/lualib-src/lua-bson.c:340-410 | a Lua string that the encoder accepts comes back as it was before `t` if and only if it does not start with a NUL or its payload has the form of the type that its second byte selects; for a copied type of fewer than four bytes that depends on `t` |
| `BsonLua.SoundAlways` | lib/skynet/lualib-src/lua-bson.c:340-410 | a string of the right form, with at least four bytes for a copied type, comes back before anything |
| `BsonLua.ShortExactly` | lib/skynet/lualib-src/lua-bson.c:702-723 | before encoded elements a copied string of fewer than four bytes comes back exactly when it is FF FF FF (F3 FF FF for DBPOINTER, never for CODEWS) and a MINKEY follows |
| `BsonLua.ShortBack` | lib/skynet/lualib-src/lua-bson.c:702-723 | an instance: the bytes 0 13 255 255 255 come back before a MINKEY and not at the end |
| `BsonLua.ShownExactly` | lib/skynet/lualib-src/lua-bson.c:340-395 | an accepted string is shown with the same bytes exactly when its payload has the form of its type |
| `BsonLua.NulStrings` | lib/skynet/lualib-src/lua-bson.c:340-395 | a string with a leading NUL and no type is refused; one with bytes after the tag of null comes back without them |
| `BsonLua.SameExactly` | lib/skynet/lualib-src/lua-bson.c:435-545 | what is written for an accepted Lua table means that table if and only if every string is shown as it was and no table written as an array has other entries |
| `BsonLua.RoundTripExactly` | lib/skynet/lualib-src/lua-bson.c:592-732 | for every Lua table that the encoder accepts, with NUL-free names and every element told from those that follow it: decoding gives the same Lua table back if and only if its strings have the form of their types and no entry is left out |
| `BsonLua.NulNameLost` | lib/skynet/lualib-src/lua-bson.c:592-732 | a table with a NUL in a name, at any depth, is never what is decoded |
| `BsonCount.ElementsCost` | lib/skynet/lualib-src/lua-bson.c:592-732 | reading a table takes at least the fewest bytes that its entries need, so an entry that is read twice costs twice |
| `BsonCount.EncodeCost` | lib/skynet/lualib-src/lua-bson.c:323-480 | what is written for a table without arrays is no more than that |
| `BsonCount.ToldExactly` | lib/skynet/lualib-src/lua-bson.c:592-732 | for every accepted Lua table without arrays: decoding gives it back if and only if names have no NUL, every element can be told from those that follow it, and strings have the form of their types |
| `BsonCount.BackExactly` | lib/skynet/lualib-src/lua-bson.c:340-410 | that holds exactly when no name has a NUL and every string is sound or is one of the short ones before a MINKEY |
| `BsonCount.ComesBackExactly` | lib/skynet/lualib-src/lua-bson.c:592-732 | for every accepted Lua table without arrays: decoding gives it back if and only if no name has a NUL and every string is sound or short before a MINKEY |
| `BsonLua.OrdinarySame` | lib/skynet/lualib-src/lua-bson.c:323-423 | sound strings, numbers, booleans, and tables of these that are not taken for arrays meet the condition that nothing is shown otherwise or left out |
| `BsonLua.EntryLost` | lib/skynet/lualib-src/lua-bson.c:505-545 | an accepted table with a name and the index 1 does not: it is written as an array without the name |
| `BsonClass.StringWritable` | lib/skynet/lualib-src/lua-bson.c:334-409 | a string is accepted exactly if it is UTF-8 without a leading NUL (or one byte), or NUL, a type and a payload that this type may have |
| `BsonClass.DocumentExactly` | lib/skynet/lualib-src/lua-bson.c:294-545 | the encoder accepts exactly the tables whose names are UTF-8 strings, and whose values are booleans, integers, reals, such strings, and tables of these nested at most 128 deep, which have texts as names or, if `lua_next` ends at the length, all items up to it |
| `BsonBuffer.Buffer.Reserve` | lib/skynet/lualib-src/lua-bson.c:79-93 | the buffer doubles until there is room and keeps its contents |
| `BsonBuffer.Buffer.WriteLength` | lib/skynet/lualib-src/lua-bson.c:194-201 | patches four bytes and nothing else |
| `BsonBuffer.Buffer.AppendInteger` | lib/skynet/lualib-src/lua-bson.c:294-310 | 32 bits when they are enough, else 64; refused exactly for a key that the check refuses |
| `BsonBuffer.Buffer.AppendString` | lib/skynet/lualib-src/lua-bson.c:334-405 | for every string: a text, or the element that the second byte of a string with a leading NUL selects; refused exactly for an unknown tag, a wrong length, a text that is not UTF-8, or a regular expression without an inner NUL whose copy stays inside; outside its memory exactly when that copy overruns |
| `BsonBuffer.ScanRegex` | lib/skynet/lualib-src/lua-bson.c:381-389 | the scan from the end in `size_t` finds the last NUL but the final byte exactly when there is one, and wraps for a string of two bytes |
| `BsonBuffer.Buffer.AppendOne` | lib/skynet/lualib-src/lua-bson.c:323-423 | for every Lua value: appends the element of the type the code chooses exactly when the value, its depth and its key are accepted, and leaves its memory exactly when it reaches a regular expression whose copy overruns |
| `BsonBuffer.Buffer.PackTable` | lib/skynet/lualib-src/lua-bson.c:435-480 | reserve, elements, terminator, back-patched length: exactly the encoding when all elements are accepted; outside exactly when such a regular expression is reached before anything is refused |
| `BsonBuffer.EncodeDocument` | lib/skynet/lualib-src/lua-bson.c:940-970 | a document exactly for the tables of `BsonClass.DocumentExactly`; outside its memory exactly when it reaches a regular expression without an inner NUL whose copy overruns the room that is free then; what it returns decodes to the same Lua table, for tables without arrays if and only if names and strings have the right form, for others with all elements told if and only if nothing is shown otherwise or lost, and never for a NUL in a name |
| `BsonBuffer.RegexLeaves` | lib/skynet/lualib-src/lua-bson.c:381-393 | a table with one string for which the encoder leaves its memory, whatever room there is |
| `BsonReader.Reader.UnpackDict` | lib/skynet/lualib-src/lua-bson.c:592-603 | reads one document, with every element type and negative lengths of copied types, as the format says and moves the cursor behind it |
| `BsonReader.UnpackElements` | lib/skynet/lualib-src/lua-bson.c:605-731 | the loop over the elements of a document reads the table that the format gives them |
| `BsonIndex.OverwritePiece` | lib/skynet/lualib-src/lua-bson.c:855-903 | overwriting the bytes of one value changes that element only |
| `BsonIndex.ExpectedAt` | lib/skynet/lualib-src/lua-bson.c:734-811 | the index has exactly the fixed-width fields, at their offsets |
| `BsonIndex.IndexOfEncoded` | lib/skynet/lualib-src/lua-bson.c:734-811 | makeindex on an encoded document whose elements can be told from anything computes that index |
| `BsonIndex.MakeIndex` | lib/skynet/lualib-src/lua-bson.c:734-817 | the loop of lmakeindex over a reader, bounded by the length field: the index that the format gives, an error, or astray exactly when a length takes the cursor back to before the value |
| `BsonIndex.Replace` | lib/skynet/lualib-src/lua-bson.c:855-903 | overwrites in place exactly the bytes that the Lua value gives for the indexed type, integers given for real fields included, or fails exactly for a missing key or a value that does not fit the type |
| `BsonIndex.PatchedDecodes` | lib/skynet/lualib-src/lua-bson.c:855-903 | patching a fixed-width field through the index and decoding gives the document with only that key changed and the same length (documents under 2^26 bytes, distinct NUL-free keys, values of the same type) |
| `BsonIndex.PatchedTable` | lib/skynet/lualib-src/lua-bson.c:855-903 | the same for Lua values: writing a value of the same BSON type over a field gives a document that decodes to the Lua table with only that key changed |

## Left out

- The Ruby applications, deployment scripts and configuration: glue over libraries that are not here.
- `luaconf.c` (an older copy of the shared-table algorithm), the interpreter, loggers, daemon, debug channel and client socket wrappers: they hold no protocol or invariant beyond what each function body says.
- The Lua VM: the stack, metatables with `__pairs` and `__len`, garbage collection, and what happens when memory runs out. Lua tables are what `lua_rawlen` and `lua_next` report of them.
- Weak memory ordering and the pthread variant of the lock; `RwLock` and `Stm` assume sequential consistency.
- Stm.RunSafe: the unlock after the decrement in `stm_releasereader` (`lua-stm.c:82`) is not covered, because it can touch a freed cell; `StmProgress.UnlockAfterFree` says exactly when.
- `Stm`: counters are unbounded integers. A grabbed cell may be used as soon as it is counted, and each grabbed pointer makes one reader box.
- `Netpack`: the hash chains of incomplete records are sequences per bucket rather than linked nodes, and buffers are values, so ownership of malloc'ed memory is not modelled.
- `Harbor`: names that are not resolved yet, frames shorter than a cookie, and the remote-name hash. What is agreed about the calls and the bytes of a link holds until the link goes down.
- `Cluster`: a session number that is used again while its request is under way.
- Cluster.InterleavedRequests: what the list of outcomes says after a request of 2^31 bytes or more has ended the process does not happen any more.
- ClusterResponse.PackResponse: more than 2^31 - 2 parts, which an `int` does not count.
- SocketBuffer.PushBuffer: an empty block. The socket layer delivers none (`socket_server.c:1358`), and `lreadline` runs past one, because it counts its bytes down from 0 (`lua-socket.c:351-357`).
- DataBuffer.PushData: an empty message, as for `SocketBuffer.PushBuffer`.
- BlockPool.Pool.Push: an empty block, as for `SocketBuffer.PushBuffer`; the first node of a new page goes through the free list, where `databuffer_push` takes it directly.
- `SocketBuffer`, `BlockPool`: buffers and nodes are indices into one arena instead of pointers.
- `HashId`: `i + id` does not overflow an `int`.
- `Gate`: commands of the service's text protocol, the watchdog reports and the CONNECT and WARNING events; without any destination nothing is forwarded and the stream loses its framing, so delivery is stated for a configured destination. Nothing is stated for a connection once it announces a frame of 16M or more.
- `Seri`: tables as keys, NaN keys and buffers of 2^31 bytes or more.
- `Bson`: raw documents given as userdata (`lua-bson.c:330-338`), tables with `__pairs` or `__len`, and strings and documents whose sizes do not fit the `int` of `bson_reserve`. A document length below 5 is an error here; the C code first reads a byte in front of it.
- BsonBuffer.EncodeDocument: `room` is what is free in the buffer when the copy starts; how much that is after which elements is not stated.
- BsonCount.ComesBackExactly: tables that are written as arrays, whose index 1 can be read from a shorter key than is written; for these `BsonLua.RoundTripExactly` has the tables whose elements are told from what follows.
- BsonIndex.MakeIndex: what happens after the cursor has gone astray.
- `SeriBlocks`: of tables, only what the encoder writes is claimed to be understood; other bytes are modelled with their error results.
- `Bson`: an array key with a number of 2^63 - 1, to which the C code adds 1.
- `Des`: the values of the S-boxes and the key schedule are parameters.
- `ShareData`: string interning and the reference-counted state of a table; keys are 32-bit integers and strings.
- `Handles`: `&` with a power of two is written as a remainder; a slot holds a context together with its handle, so registration is atomic.
- Random keys, object ids and the non-standard hash functions of `lua-crypt.c`: nothing to prove beyond their definition.

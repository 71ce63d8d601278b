# jpsync, modelled and proved in Dafny

jpsync keeps a local folder in sync with a directory on a JupyterHub server, mounts that directory
live through an agent in a kernel, and runs programs in a remote terminal. This project models the
parts of it in which state, streams and failures meet, and proves what they promise.
`dafny verify dfyconfig.toml` checks all of it.

| files | what they model |
|---|---|
| `Basics`, `Text`, `Words` | bytes, slices, numerals, splitting and joining, machine words and exclusive or on integers |
| `RemoteTree`, `RemoteFs` | the server's file tree, the agent's read and write loops, the client that stitches large reads, the server's log of its answers, and others who create, delete and rewrite between any two requests |
| `BlockStore`, `VfsCache`, `CachedRuns`, `SharedRuns` | the caching layer: the LRU block cache as a value and its inclusion theorem; the class with its counters, maps and loops; whole runs through it, with nobody else about and beside others |
| `WebDav` | the Range header, a GET through cache, client and agent, and a mounted server answering any number of requests |
| `Frames`, `WebSockets` | RFC 6455 frames and the client that reassembles messages |
| `Markers`, `RunScanners` | the terminal output filter of a remote run |
| `KernelFraming`, `LiveSessions`, `KernelConns` | the v1 binary framing of kernel messages, who owns which kernel, request and reply with reconnects |
| `SyncModel`, `SyncEngine`, `SyncSafety`, `SyncConvergence` | the three-way sync: its rules as functions, the running engine, no lost update over whole histories, convergence |
| `Paths`, `Globs` | path normalization, the prefix jail, dotfile aliases, ignore rules |
| `RmPlan` | the bottom-up plan of a recursive delete and its execution |
| `Utf8`, `PercentCoding`, `Urls` | UTF-8 and percent-encoding, printing and parsing folder addresses |

The classes (`CachingFS`, `RemoteFS`, `WebSocket`, `RunScanner`, `KernelConn`, `LiveSession`,
`Repository`, `IgnoreSet`, `Collector`) carry the fields and the loops of the source; their methods are
proved against functions or predicates over the history of what came in (bytes fed, bytes received,
requests sent, trees met), and what the system promises is proved about those. The history is kept by the
surroundings: the server logs which answer it gave from which tree, which deletes it refused and which sockets
were opened to it, a socket what was sent on it, what it delivered and how often it was polled.

How the surroundings appear:

* The file server is a map from paths to nodes. Between any two requests others may create, delete and
  rewrite; a file that is new or rewritten carries a modification stamp its path never showed before.
  `exclusive` says that there is nobody else. Any
  request may be refused for reasons of its own, unless the server is `reliable`.
* The clock is a parameter. A socket is a list of pending events or a peer that may say anything it has
  been asked for, at any time, and may drop at any time. Random bytes are arbitrary.
* A method of a class that holds its lock throughout is one step; others act between the requests
  it makes.
* sha256 is injective.
* A crash can strike between any two effects of an upload or a download; the index on disk is what was
  saved last.

Where the promise in the documentation and the code differ, the code is modelled:

* The address that `open` prints is said to be parsed back by `clone`. It is, except for a base address that
  ends in `/api` (a host, a user or a server of that name) and for a standalone server with a path segment
  `user` (`Urls.RoundTripExactly`).
* The alias of a dotfile is called reversible. It is, except for a file literally named like an alias
  (`Paths.RoundTripsExactly`).
* The cache is said to drop stale blocks when the stamp changes. A file that is created after its stamp was
  asked for and before its block is fetched gets cached without a stamp; when it is rewritten, the next stat
  records the new stamp and keeps the old block (`VfsCache.LateCreationGoesStale`). This is the only way: caching
  a block is safe exactly if its path has a stamp by then (`VfsCache.GuardedExactly`), and it has one unless the
  server has just said that it is not there (`VfsCache.CachingFS.Read`). The mounted server always asks for the
  attributes before it reads, so that through it this never happens (`WebDav.Mounted`).
* A comment in the classification has nothing to do for a path that is gone on both sides. Such a path is known
  from the index only, so that it has a base, and then the code calls it a conflict (`SyncModel.ClassifyMeans`).
* The recursive delete is described as removing a directory and everything in it. What the server keeps but
  does not list is never planned for, and then the run stops at the directory that holds it
  (`RmPlan.VeiledChildStops`). It also stops, the index unsaved, behind the deletion of a file whose name the
  index cannot hold, such as one that looks like a drive (`RmPlan.DriveNameIsUntracked`). It is to strike what it
  deletes from the index; of a hidden file stored under an alias it strikes the alias (`RmPlan.StrikesOwnKey`).
* Push is said to overwrite only what has not changed since the last sync. It relies on the server never
  reusing a modification stamp for a path (`SyncSafety.ReusedStampLosesUpdate`).
* `pack_ws_v1` and `unpack_ws_v1` are called inverse. A message without parts is packed but not unpacked, and a
  channel name that is not UTF-8 does not come back (`KernelFraming.RepackRestores`).

## Model

| member | source | states |
|---|---|---|
| RemoteFs.OsRead | src/jp/_agent/agentd.py:222-231 | A read system call yields at least one byte before the end of the file, never more than asked, and nothing exactly at the end. |
| RemoteFs.AgentRead | src/jp/_agent/agentd.py:211-236 | For any way the system calls cut the data, the agent returns the slice at the clamped offset, of the clamped length capped at MAX_READ, ending early only at the end of the file. |
| RemoteFs.AgentWrite | src/jp/_agent/agentd.py:259-264 | For any way the system calls cut the data, the temporary file ends up holding all of it. |
| RemoteFs.ScanDir | src/jp/_agent/agentd.py:191-209 | The scan returns an entry for every child whose name has no leading dot, with its kind and size, and nothing else, whatever the order of the names. |
| RemoteFs.SliceGrows | src/jp/remote_fs.py:99-113 | A further reply continues what has been stitched so far into one longer slice, and is empty only at the end of the file. |
| RemoteFs.RemoteFS.Stat | src/jp/remote_fs.py:82-85 | The answer is the truth about the tree the request met, "not there" only when it is not there, or a refusal; where nothing is refused it is determined by the tree. It is logged with the time and the tree. |
| RemoteFs.RemoteFS.ListDir | src/jp/remote_fs.py:87-92 | A listing that is returned is a true one of a directory; where nothing is refused, exactly directories can be listed. It is logged with the time and the tree. |
| RemoteFs.RemoteFS.Read | src/jp/remote_fs.py:99-113 | The stitching loop ends; while the file holds still, the chunks are exactly one slice of it, of the requested length or up to its end; where nothing is refused a read fails exactly for what is no file. |
| RemoteFs.RemoteFS.Write | src/jp/remote_fs.py:116-119 | A write goes through only into an existing directory and not over one, and always there where nothing is refused; it replaces the whole file and touches no other; one that fails changes nothing. |
| RemoteFs.RemoteFS.Mkdir | src/jp/remote_fs.py:121-123 | A directory appears, only where nothing was and the parent is a directory, and all else stays; a failure changes nothing. |
| RemoteFs.RemoteFS.Rename | src/jp/remote_fs.py:125-127 | The whole subtree of the source appears under the destination, replacing at most a file by a file or an empty directory by a directory, nothing is left at the source, and all else stays; a failure changes nothing. |
| RemoteFs.RemoteFS.Unlink | src/jp/remote_fs.py:129-131 | Exactly one path disappears, and only a file; a failure changes nothing. |
| RemoteFs.RemoteFS.Rmdir | src/jp/remote_fs.py:133-135 | Exactly one path disappears, and only an empty directory; a failure changes nothing. |
| RemoteTree.RelocateIsRename | src/jp/_agent/agentd.py:282-290 | Moving every path of a subtree, computed path by path, is a rename as specified, also when it replaces something. |
| RemoteTree.MoveSteady | src/jp/remote_fs.py:99-113 | A file that is the same before and after others have acted twice was the same in between: a stamp, once left, does not come back. |
| BlockStore.EvictKeepsTheMost | src/jp/vfs_cache.py:106-109 | Eviction leaves the longest suffix in recency order that fits the bound: any suffix that fits is contained in what is kept. |
| BlockStore.NextPiece | src/jp/vfs_cache.py:160-180 | Cutting one block out of a request extends what has been put together to the next block border, and completes the request at the last block or at the first short one. |
| BlockStore.ReadAheadMeans | src/jp/vfs_cache.py:182-201 | While nothing has to give way, read-ahead keeps every block and stores behind them exactly the following blocks that are not there yet and that it comes to over full or cached ones, each with the file's own content. |
| BlockStore.AccessIncludes | src/jp/vfs_cache.py:111-135 | One block access keeps a larger cache including a smaller one, evictions and all. |
| BlockStore.LargerCacheIncludesSmaller | src/jp/vfs_cache.py:99-135 | Over any run of reads and invalidations on one unchanged backend without read-ahead, a cache with more bytes always holds every block a smaller one holds, in the same order of recency, and has at least as many hits. |
| VfsCache.MoveKeepsFaithful | src/jp/vfs_cache.py:146-158 | Whatever others do to the server between two requests, creating and deleting included, a block that was cached under a stamp is the file's own as long as the recorded stamp is still the file's: stamps that never come back keep the cache coherent. |
| VfsCache.ChangeKeepsFaithful | src/jp/vfs_cache.py:263-294 | After a change confined to two subtrees of which nothing is cached, everything still cached is as true as before. |
| VfsCache.FreshStampMeansExact | src/jp/vfs_cache.py:224-228 | Once the recorded stamp is the file's present one, every block of the path that was cached under a stamp is a block of its present content. |
| VfsCache.CoherentExactly | src/jp/vfs_cache.py:224-228 | The invariant is the weakest that works: whatever others do next, a stat that reaches the server leaves only the file's own blocks if and only if each of its cached blocks is coherent now. |
| VfsCache.GuardedExactly | src/jp/vfs_cache.py:146-158 | Caching a block just fetched keeps every later stat safe if and only if its path has a recorded stamp by then. |
| VfsCache.LateCreationGoesStale | src/jp/vfs_cache.py:157-158 | A concrete run in which a file appears between the stat and the fetch: its block is cached without a stamp, survives the stat after a rewrite, and is not the file's any more. |
| VfsCache.CachingFS.constructor | src/jp/vfs_cache.py:55-95 | A new cache is empty and meets the invariant. |
| VfsCache.CachingFS.ThereIsGuarded | src/jp/vfs_cache.py:146-158 | If the server's log since the cache was made never says that a path is not there, all its cached blocks were cached under a stamp. |
| VfsCache.CachingFS.DropBlocks | src/jp/vfs_cache.py:99-102 | Exactly the picked blocks go, the others keep their order, and the byte counter stays the sum of the block sizes. |
| VfsCache.CachingFS.DropPathBlocks | src/jp/vfs_cache.py:99-104 | The blocks of a path go with its stamp and its read position, and nothing else. |
| VfsCache.CachingFS.EvictOldest | src/jp/vfs_cache.py:106-109 | The loop ends and leaves what the eviction rule says; the byte counter stays exact. |
| VfsCache.CachingFS.StoreBlock | src/jp/vfs_cache.py:111-117 | The block becomes the most recent, once, and the oldest ones give way to the bound; the byte counter stays exact. |
| VfsCache.CachingFS.FetchBlock | src/jp/vfs_cache.py:119-124 | A fetched block is stored and is the file's own while the file holds still; it is unguarded exactly if its path has no stamp; a failed fetch leaves the cache as it was. |
| VfsCache.CachingFS.GetBlock | src/jp/vfs_cache.py:126-135 | A hit makes the block the most recent, a miss stores it; hits and misses are counted one by one; no block becomes unguarded but one of a path without a stamp. |
| VfsCache.CachingFS.RecordStamp | src/jp/vfs_cache.py:152-158 | Before a block is cached its path has a stamp, from a cached attribute or from the server, unless the path was not there when the server was asked, which the server's log then shows; it logs at most this one stat. |
| VfsCache.CachingFS.ReadPieces | src/jp/vfs_cache.py:160-180 | The block loop puts together exactly the requested slice, by way of the accesses the recency model describes, evictions in the middle included; it looks at exactly the blocks up to the last one of the request or of the file, and reports the end of the file and whether a block had to be fetched. |
| VfsCache.CachingFS.Prefetch | src/jp/vfs_cache.py:182-201 | While the file holds still, read-ahead stores exactly the following blocks that are not there yet, up to the end of the file, and touches no other. |
| VfsCache.NextBlockIsBehind | src/jp/vfs_cache.py:182-190 | Read-ahead starts at the first block that begins at or behind the end of the request. |
| VfsCache.CachingFS.ReadOn | src/jp/vfs_cache.py:160-201 | Block loop and read-ahead together deliver the slice and leave the blocks that the model says; they fail only where the backend does. |
| VfsCache.CachingFS.Read | src/jp/vfs_cache.py:139-204 | With nobody else changing the server a cached read is exactly the uncached one, errors included where nothing is refused, despite eviction, read-ahead and negative entries; otherwise it still is whenever the file holds still and its cached blocks are its own. The blocks it leaves, its hits and its misses are determined: those of the recency model, with read-ahead exactly after a sequential read that had fewer hits than blocks and did not reach the end; a read of what is no file leaves the blocks as they are. Beside others, a block is cached without a stamp only if what the server logged during this read says that the path is not there; a file that is there throughout gets its stamp recorded, unless that request is refused and the read with it, and no unguarded block; what was coherent for other paths stays so. No other stamp is added or changed. |
| VfsCache.CachingFS.Stat | src/jp/vfs_cache.py:206-231 | A fresh entry is the answer, and the server's log has it given by the server less than one time to live ago; otherwise the server is asked once, what is remembered is what it said of the tree it then had, and its blocks are dropped exactly when the stamp has changed. Then every cached block of a file is the file's own if the server has never said since the cache was made that the path is not there, or if none of them was cached without a stamp. With nobody else changing the server the kind and the size are true, and a file's stamp too, and where nothing is refused exactly what is there is found. Nothing else that is cached changes but the stamp and, with a changed stamp, the read position. |
| VfsCache.CachingFS.Restamp | src/jp/vfs_cache.py:224-228 | A changed stamp drops all blocks of the path, an unchanged one none; either way it is recorded. |
| VfsCache.CachingFS.ListDir | src/jp/vfs_cache.py:233-241 | A fresh listing is served as it is, and the server's log has it given for this path less than one time to live ago; otherwise the listing served is a true one of the tree the request met, and is remembered. With nobody else changing the server, only what still is a directory is listed. |
| VfsCache.WithoutMeans | src/jp/vfs_cache.py:248-261 | Of blocks, attributes, listings, stamps and read positions, exactly those at and below the path are gone, and every other one is as it was. |
| VfsCache.CachingFS.InvalidateLocked | src/jp/vfs_cache.py:248-261 | The five stores are what they were without the path and what lies below it. |
| VfsCache.CachingFS.Invalidate | src/jp/vfs_cache.py:243-261 | The same from outside, keeping the invariant. |
| VfsCache.CachingFS.Forget | src/jp/vfs_cache.py:248-261 | Invalidation keeps what is left true of every tree it was true of. |
| VfsCache.CachingFS.Write | src/jp/vfs_cache.py:269-273 | A write goes through exactly when the plain one does, and then the five stores are what they were without the path and what lies below it; one that fails leaves all of them as they were. |
| VfsCache.CachingFS.Mkdir | src/jp/vfs_cache.py:275-278 | The same for a new directory, negative entries below it included. |
| VfsCache.CachingFS.Rename | src/jp/vfs_cache.py:280-284 | The same for a rename, without what is at and below either end. |
| VfsCache.CachingFS.Unlink | src/jp/vfs_cache.py:286-289 | The same for a deleted file. |
| VfsCache.CachingFS.Rmdir | src/jp/vfs_cache.py:291-294 | The same for a deleted directory. |
| CachedRuns.Step | src/jp/vfs_cache.py:52-294 | With nobody else changing the server, each operation through the cache is a step of the plain remote file system, and only what is a directory at that moment is listed. Beside others too, an attribute or a listing it delivers was given by the server just now or less than one time to live ago, as the server's log shows; a listing is remembered only when it is asked for and none survives a change that went through, or a flush, at or above its path; only a stat remembers attributes; and a path whose blocks were all cached under a stamp stays one unless the server said meanwhile that it is not there. |
| CachedRuns.Run | src/jp/vfs_cache.py:52-294 | Every finite sequence of operations through the cache is a run of the plain remote file system: same trees, same read results, same kinds and sizes, listings only of what is a directory, and where nothing is refused the same successes and failures; every listing is a true one of the tree that this or an earlier operation of the run met less than one time to live ago (or had been given before the run), and no operation in between changed or flushed anything at or above its path. |
| CachedRuns.OthersAct | src/jp/vfs_cache.py:146-158 | Files created, deleted and rewritten by others leave the invariant intact. |
| CachedRuns.StatThenRead | src/jp/vfs_cache.py:206-231 | After a stat that reached the server, a read during which the file holds still is exact, whatever others did before, if the server's log never says since the cache was made that the path is not there, or if none of its blocks was cached without a stamp; the stat's answer is in the log, and where nothing is refused a file that holds still gets both. |
| CachedRuns.RunOne | src/jp/vfs_cache.py:99-135 | Without read-ahead, one read or invalidation answers truly and does to blocks and hits what the recency model says, failing reads of what is no file included. |
| CachedRuns.RunReads | src/jp/vfs_cache.py:99-135 | Without read-ahead, a run of reads and invalidations, going on after reads that fail, gives the true answer each time, and leaves exactly the blocks and counts exactly the hits of the recency model, unless a read of a file is refused. |
| CachedRuns.CompareCaches | src/jp/vfs_cache.py:99-135 | The inclusion theorem of the running caches: the same reads and invalidations through two caches of different size answer alike, and the larger ends with every block of the smaller in the same order of recency and with at least as many hits. |
| SharedRuns.SharedRun | src/jp/vfs_cache.py:52-294 | Any reads, stats, listings, writes and invalidations, others acting in between: every attribute and listing served was given by the server less than one time to live before, what the cache remembers comes from a stat of the run, and a path whose blocks were all cached under a stamp stays one unless the server says meanwhile that it is not there. |
| SharedRuns.RunThenStat | src/jp/vfs_cache.py:146-158 | After any such run a stat of a path that was not asked for within the last time to live is true of the server's present tree, and leaves only the file's own blocks cached if the server's log never says that the path is not there, since the cache was made or since a moment at which nothing of it was cached. |
| SharedRuns.RunStatRead | src/jp/vfs_cache.py:139-231 | ... and a read behind it, during which the file holds still, is exact. |
| WebDav.RangeInside | src/jp/mount/webdav_server.py:268-294 | Whatever the header says, a range that is served is not empty and lies inside the file. |
| WebDav.RangeFromTo | src/jp/mount/webdav_server.py:268-294 | bytes=a-b means the bytes from a to b, cut to the file, and nothing when a is past b or past the end (section 2.1 of RFC 7233). |
| WebDav.RangeFrom | src/jp/mount/webdav_server.py:268-294 | bytes=a- means everything from a on. |
| WebDav.RangeSuffix | src/jp/mount/webdav_server.py:268-294 | bytes=-n means the last n bytes, the whole of a shorter file, and nothing for n = 0 or an empty file. |
| WebDav.ServeGet | src/jp/mount/webdav_server.py:296-347 | The whole read path together: status, length and body announce and deliver exactly the selected part of the file, through the cache, the stitching and the agent, with nobody else changing the server, and otherwise whenever the stat reaches the server, the file holds still and all its cached blocks were cached under a stamp, as they were if the server never said that it is not there; where nothing is refused exactly files are served, directories forbidden, and the rest missing. The stat coming first, no GET caches a block without a stamp. |
| WebDav.Mounted | src/jp/mount/webdav_server.py:296-347 | Over any number of GETs, HEADs and other operations, others acting in between, a mounted server never caches a block without a stamp. |
| WebDav.MountThenGet | src/jp/mount/webdav_server.py:296-347 | After any such requests to a freshly mounted server, a GET of a path whose attributes were not asked for within the last time to live serves exactly the selected part of the file that its stat saw, if that holds still; where nothing is refused a file that is there is served. |
| Frames.MaskTwice | src/jp/_ws.py:69-71 | Masking twice with the same key gives the payload back (section 5.3 of RFC 6455). |
| Words.XorIsBitwise | src/jp/_ws.py:69-71 | Of an exclusive or of two bytes, a bit is set exactly if it is set in one of them. |
| Words.BigEndianAt | src/jp/_ws.py:89-92 | In network byte order, the byte at each position counts its power of 256. |
| Frames.LengthBytes | src/jp/_ws.py:83-92 | The length field byte by byte: up to 125 in one byte, up to 65535 as 126 and two bytes in network byte order, beyond as 127 and eight (section 5.2 of RFC 6455). |
| Frames.ParseIgnoresTail | src/jp/_ws.py:98-134 | A frame that parses still parses to the same when more bytes follow. |
| Frames.PrefixIsIncomplete | src/jp/_ws.py:98-134 | No proper prefix of a frame parses. |
| Frames.WireRoundTrip | src/jp/_ws.py:98-134 | Any frame of any peer, final or not, masked or not, reserved bits set or not, in each of the three length forms, followed by anything, parses to its opcode and payload and its exact length (section 5.2 of RFC 6455). |
| Frames.ServerFrame | src/jp/_ws.py:98-134 | Plain bytes as a server sends them, a first byte, the length in one byte or in two behind 126, and the payload, parse as that frame, whatever follows. |
| Frames.ClientFrame | src/jp/_ws.py:74-95 | What the client encodes is one of these frames: final, without reserved bits, masked under its key (section 5.2 of RFC 6455). |
| Frames.ClientBytes | src/jp/_ws.py:74-95 | The bytes the client sends: the first byte, the length with the mask bit, the key, and the payload of which each bit is flipped exactly if the key's bit at that place is set. |
| Frames.EncodeRoundTrip | src/jp/_ws.py:74-95 | Encoding succeeds exactly for a 4-byte key and a length below 2^64, and parsing undoes it, whatever follows. |
| WebSockets.DriveSplit | src/jp/_ws.py:297-336 | Reading a buffer and going on after more bytes is the same as reading the longer buffer at once. |
| WebSockets.CutsDoNotMatter | src/jp/_ws.py:297-360 | Messages, pings and the CLOSE do not depend on how the bytes are cut into reads; before a CLOSE neither does the state kept for later. |
| WebSockets.SpokenIsHeard | src/jp/_ws.py:297-336 | Any messages, fragmented anyhow, with control frames slipped in anywhere, up to a CLOSE, each frame laid out as section 5.2 of RFC 6455 allows and with the opcodes it assigns, taken as one buffer: exactly those messages and exactly those pings come out, in order (sections 5.4 and 5.5 of RFC 6455). |
| WebSockets.Reassembly | src/jp/_ws.py:297-360 | ... and the same come out however the bytes are cut into reads. |
| WebSockets.WebSocket.constructor | src/jp/_ws.py:175-182 | A new connection holds what came in behind the handshake and no unfinished message. |
| WebSockets.WebSocket.SendControl | src/jp/_ws.py:291-295 | One frame is sent: final, without reserved bits, masked under some key, with this opcode and payload; if the socket refuses it the connection counts as closed. |
| WebSockets.WebSocket.Drain | src/jp/_ws.py:338-360 | The loop ends and takes exactly the bytes up to the first pending block, error or end of stream, and only the end of stream closes. |
| WebSockets.WebSocket.ReadMessages | src/jp/_ws.py:297-336 | Messages, left-over bytes and unfinished message are those of the buffer model; one PONG per ping with its payload, then one CLOSE, are sent in order, unless the socket refuses one. |
| WebSockets.WebSocket.Handle | src/jp/_ws.py:314-335 | One frame other than a CLOSE does to the connection what the assembly model says. |
| WebSockets.ReadAll | src/jp/_ws.py:297-360 | Over any number of calls, what has been received are the bytes of the events taken, what was delivered and answered is what those bytes, taken as one buffer, call for, all answers were sent unless the socket refused one, and reading stops exactly at a CLOSE, at the end of the stream, after a refused answer, or when nothing is pending. |
| WebSockets.Converse | src/jp/_ws.py:297-360 | End to end, with the running client: a peer's messages, its pings and its CLOSE, in any fragmentation and any cut, are delivered exactly and in order, and answered by one masked PONG (opcode A) per ping and one masked CLOSE (opcode 8), unless the socket refuses an answer; then what was delivered is the beginning of that. |
| Markers.EndAtIsMarker | src/jp/pty.py:90-91 | The greedy match at a position is exactly a complete end marker there: prefix, optional sign, digits, ESC backslash, with that number. |
| Markers.ValueAt | src/jp/pty.py:129 | The digits of an exit code count powers of ten, from the right, leading zeros nothing. |
| Markers.ValueOfDigits | src/jp/pty.py:129 | Reading the printed digits of a number gives the number. |
| RunScanners.PendingMeans | src/jp/pty.py:153-173 | What is taken for an unfinished end marker is a proper beginning of one, or, as the expression for the tail allows for no digits, the prefix and at most a sign with an ESC at once behind it. |
| RunScanners.MatchWasThereOrPends | src/jp/pty.py:126-173 | An end marker found in a longer stream was found before, or its beginning looked like an unfinished marker. |
| RunScanners.SearchStays | src/jp/pty.py:126-132 | The leftmost end marker of a stream stays the leftmost one when bytes follow. |
| RunScanners.SuffixPrefixOf | src/jp/pty.py:144-150 | The result is the longest suffix of the buffer that is a proper prefix of the marker. |
| RunScanners.LongestIsUnique | src/jp/pty.py:144-150 | That description leaves one result only. |
| RunScanners.EndHoldback | src/jp/pty.py:156-173 | The longest tail that may begin the prefix, and the last prefix with what may continue a marker, together give the holdback. |
| RunScanners.HoldbackIsExact | src/jp/pty.py:156-173 | Every suffix that looks like an unfinished end marker is held back, and what is held back looks like one: neither too little nor too much. |
| RunScanners.WaitingOn | src/jp/pty.py:117-122 | Before the start marker, forgetting everything but the longest possible beginning of it loses nothing. |
| RunScanners.StartCame | src/jp/pty.py:117-125 | The start marker found in the kept tail and the new bytes is the first one of the whole stream. |
| RunScanners.PassOn | src/jp/pty.py:126-141 | Searching only what was held back and the new bytes finds the leftmost end marker of the whole output, and passes on nothing that could still begin one. |
| RunScanners.RunScanner.constructor | src/jp/pty.py:104-112 | A new scanner is in the state that an empty stream calls for. |
| RunScanners.RunScanner.Feed | src/jp/pty.py:114-141 | After any number of feeds, what has been written, what is held back and the exit code are what the bytes fed so far, as one stream, call for. |
| RunScanners.RunScanner.Emit | src/jp/pty.py:126-141 | One round writes up to the end marker and stops, or all but the held suffix. |
| RunScanners.WrittenIsDetermined | src/jp/pty.py:94-102 | What has been written and the exit code are functions of the stream alone. |
| RunScanners.FinishedStays | src/jp/pty.py:126-132 | Once the end marker has come, nothing that follows matters. |
| RunScanners.MarkerIsNeverWritten | src/jp/pty.py:156-163 | No byte of the end marker is ever written, not even while it is incomplete: what has been written is a prefix of the final output. |
| RunScanners.Pump | src/jp/pty.py:179-193 | Feeding pieces until the end marker has been seen writes what the concatenation of the pieces calls for, however it was cut. |
| RunScanners.MarkedRun | src/jp/pty.py:82-141 | Of a stream with anything, the start marker, an output that holds no end marker, the end marker of the token with a number, and anything, exactly the output is written and the exit code is that number. |
| RunScanners.PumpRun | src/jp/pty.py:179-193 | ... by the running scanner, however the stream is cut. |
| KernelFraming.Pack | src/jp/kernel_proto.py:84-118 | The three loops build the count, the offset table with its end sentinel, and the blobs; an offset beyond 64 bits is an error. |
| KernelFraming.PackBytes | src/jp/kernel_proto.py:84-118 | The packed bytes one by one: the number of offsets, where each blob starts and where the last one ends, each in eight bytes, lowest first, then the channel's name and the parts. |
| KernelFraming.Unpack | src/jp/kernel_proto.py:121-146 | The loop accepts exactly the messages with at least three offsets, a whole table, and offsets in order and in range; the channel name is decoded, whatever its bytes are. |
| KernelFraming.UnpackOfPack | src/jp/kernel_proto.py:84-146 | Unpacking undoes packing for every channel and every non-empty list of parts; a message without parts is rejected. |
| KernelFraming.UnpackIsContiguous | src/jp/kernel_proto.py:121-146 | Of arbitrary bytes that are accepted, the blobs are consecutive and in bounds, and together the span from the first offset to the last. |
| KernelFraming.RepackRestores | src/jp/kernel_proto.py:84-146 | Packing what was unpacked restores the message exactly when the blobs start right behind the table, end with the message, and the channel name is UTF-8. |
| Utf8Coding.IsUtf8Means | src/jp/kernel_proto.py:145 | Decoding with replacement characters loses nothing exactly for the bytes of a text. |
| Utf8Coding.CharBits | src/jp/kernel_proto.py:101 | A character takes one to four bytes by its number, the first byte tells how many, and the bits of these put together are the number (section 3 of RFC 3629). |
| LiveSessions.LiveSession.DeleteQuietly | src/jp/live_session.py:82-86 | After a best-effort delete the kernel is gone, or the server refused to delete it. |
| LiveSessions.LiveSession.Establish | src/jp/live_session.py:54-76 | Whatever fails after the kernel was created, none of ours is left alive but those the server refused to delete; on success exactly the new one is, and exactly one socket has been opened; it fails only if a request or the connection does. |
| LiveSessions.LiveSession.Connect | src/jp/live_session.py:78-79 | A failed start leaves no kernel behind. |
| LiveSessions.LiveSession.Reconnect | src/jp/live_session.py:81-89 | The old kernel is deleted before a new one is created, so at no moment are two of ours alive; if the new one fails none is; exactly one socket is opened, or none. |
| LiveSessions.LiveSession.Cleanup | src/jp/live_session.py:94-102 | After cleanup none of our kernels is alive but those the server refused to delete. |
| KernelConns.CallIsCounted | src/jp/kernel_conn.py:91-108 | Requests added under a new id leave every other id's count alone, and no id is sent more often than the budget. |
| KernelConns.SentOnEach | src/jp/kernel_conn.py:91-108 | Asking each of several sockets once under an id adds as many requests under it to all that was sent. |
| KernelConns.LogGrows | src/jp/kernel_conn.py:91-108 | A further call, on the present socket and on each new one, keeps the requests over all the server's sockets ordered and within the budget. |
| KernelConns.KernelConn.constructor | src/jp/kernel_conn.py:41-73 | A new connection has sent nothing and has nothing pending; its socket is the only one the server knows of. |
| LiveSessions.ReplyIsRead | src/jp/kernel_conn.py:173-188 | Of a message as a kernel sends it, the fourth part is read as the content, with the reply id and its data, and the further ones are the buffers. |
| KernelConns.PoisonIsRead | src/jp/kernel_conn.py:173-188 | ... and such a message raises exactly if its content is no object, or its reply id no integer. |
| KernelConns.KernelConn.Absorb | src/jp/kernel_conn.py:173-188 | A reply to an id sent on the present socket is filed under that id, replacing an earlier one; other messages change nothing, and exactly two malformed shapes raise. |
| KernelConns.KernelConn.Poll | src/jp/kernel_conn.py:125-134 | One poll reads the socket once and files everything it delivers, up to a message that raises; what is pending then is the newest reply. |
| KernelConns.KernelConn.Attempt | src/jp/kernel_conn.py:110-141 | One send on the socket, then bounded polling of it; the newest reply it delivered to the id is returned; silence means that it was polled to the end and delivered none, failure that it broke and delivered none; an attempt raises exactly at a malformed reply. |
| KernelConns.KernelConn.TryOnce | src/jp/kernel_conn.py:110-141 | ... as the state of the socket before and after shows it. |
| KernelConns.KernelConn.DoReconnect | src/jp/kernel_conn.py:143-158 | A fresh socket, the only one opened, replaces the dead one and what was pending is forgotten; if that fails none is opened and the call is lost. |
| KernelConns.KernelConn.Tries | src/jp/kernel_conn.py:91-108 | The retry loop asks one fresh socket after the other, once each and at most budget times, and opens no others; all but the last delivered no reply before they were given up. |
| KernelConns.KernelConn.Call | src/jp/kernel_conn.py:75-108 | For any late, duplicate, reordered or malformed replies and any drops, a call ends within the reconnect budget, sends its new id once on each socket it uses, and opens no others; a reply it returns carries that id and was delivered by the socket it was last sent on; it fails only if every socket used was given up without having delivered a reply, and after all reconnects or when one fails. |
| KernelConns.Calls | src/jp/kernel_conn.py:75-108 | Over any number of calls, however they end, each ends as the requests and replies under its own id say, which are those of the server's sockets; over all sockets opened to the server no id was sent more often than the budget, and each call opens at most as many as reconnects are allowed. |
| KernelConns.Lifetime | src/jp/live_session.py:33-104 | Over the whole life of a session with any number of failing calls and reconnects, never two of its kernels are alive at a time, and none at the end, but for those the server refused to delete; over all sockets opened to the server no request was sent more often than the budget, there are no more of them than the calls may open, and each call ended as what they sent and delivered says. |
| SyncEngine.Repository.constructor | src/jp/index.py:52-61 | The two trees and the saved index, with their history starting now. |
| SyncEngine.Repository.Load | src/jp/index.py:65-94 | A command starts from the index on disk. |
| SyncEngine.Repository.SaveIndex | src/jp/index.py:96-108 | The index on disk becomes the one in memory, in one step. |
| SyncEngine.Repository.Collect | src/jp/sync.py:226-228 | Every path known to the scan, the listing or the index, each once, and no other. |
| SyncEngine.Repository.Diff | src/jp/sync.py:211-270 | The loop gives every known path its state from the local scan, the remote listing and the index, and writes nothing; each state says of the contents on the two sides and at the last transfer exactly what its name means. |
| SyncEngine.Repository.UploadFile | src/jp/sync.py:441-485 | One upload runs PUT, verification, index update and save in this order and stops where it fails or dies. |
| SyncEngine.Repository.Push | src/jp/sync.py:397-485 | The loop over the states of all known paths does to trees, index and report what the push model says, up to a crash; a dry run changes neither tree nor the index on disk. |
| SyncEngine.Repository.DownloadFile | src/jp/sync.py:563-585 | One download runs local write, index update and save in this order and stops where it fails or dies. |
| SyncEngine.Repository.Pull | src/jp/sync.py:534-585 | The loop over the states of all known paths does to trees, index and report what the pull model says, up to a crash; a dry run changes neither tree nor the index on disk. |
| SyncModel.ClassifyMeans | src/jp/sync.py:332-391 | Every classification means exactly this, over the contents here, on the server and at the last transfer: new is there without a base on one side only, modified differs from the base on one side while the other still has it, a conflict is a difference without a base or two different departures from it (both sides gone included), and everything else is unchanged. Where the cheap comparison is blind the server's file counts as the base. |
| SyncSafety.UploadOverwritesBase | src/jp/sync.py:318-391 | A file that push decides to upload over another has the recorded base there, exactly unless the server reused the recorded stamp and no different size gives the change away. |
| SyncSafety.StampsSeeEverything | src/jp/sync.py:318-329 | If no stamp ever stood for two contents, the comparison by stamp and size never errs. |
| SyncSafety.UploadIsSound | src/jp/sync.py:441-485 | An upload that fails or dies anywhere keeps the history sound and touches only its own path. |
| SyncSafety.DownloadIsSound | src/jp/sync.py:563-585 | The same for a download. |
| SyncSafety.PushAllIsSafe | src/jp/sync.py:414-485 | A push, cut off anywhere, deletes nothing, changes nothing local, and overwrites only recorded bases. |
| SyncSafety.PullAllIsSafe | src/jp/sync.py:547-585 | A pull, cut off anywhere, deletes nothing, changes nothing remote, and overwrites only recorded bases. |
| SyncSafety.StepIsSafe | src/jp/sync.py:397-590 | Every edit, push or pull keeps the invariant that the index records contents both sides held at an earlier moment. |
| SyncSafety.NoLostUpdate | src/jp/sync.py:397-590 | Over every interleaving of edits on both sides, pushes, pulls, faults and crashes, no push or pull deletes anything, and every content one of them overwrites is that path's recorded base. |
| SyncSafety.ReusedStampLosesUpdate | src/jp/sync.py:318-329 | A concrete server that keeps stamp and size over a change makes push overwrite a content that was never agreed on. |
| SyncSafety.PushOverwritesUnrecorded | src/jp/sync.py:318-391 | Whatever the server does with its stamps: push overwrites an unrecorded remote content exactly when the local file is scanned, in scope and changed, and the server's file matches the base by stamp and size although its content differs from it (and from the local one). |
| SyncSafety.PullOverwritesUnrecorded | src/jp/sync.py:226-239 | Pull overwrites an unrecorded local content exactly when the ignore rules hide the local file from the scan and the server has another one under the same path without a base. |
| SyncConvergence.UnchangedMeans | src/jp/sync.py:332-391 | What is classified unchanged is equal where both sides have it, and deleted on the other side where only one has it. |
| SyncConvergence.OneSided | src/jp/sync.py:346-391 | A path with a base that only one side has is left alone or in conflict; without a base it is new. |
| SyncConvergence.SettledPath | src/jp/sync.py:397-590 | After a push and a pull that nothing disturbs every path in scope is unchanged, and neither command would touch any path again. |
| SyncConvergence.PushThenPullConverges | src/jp/sync.py:397-590 | After a push and a pull without conflicts or failures, every path in scope that both sides have is equal on both, and the paths one side lacks are exactly those with a base that had been deleted there. |
| SyncConvergence.SecondSyncDoesNothing | src/jp/sync.py:397-590 | A second push and a second pull transfer nothing and change neither tree nor index. |
| SyncConvergence.PushDelivers | src/jp/sync.py:414-485 | A push that nothing disturbs puts on the server, and records, exactly the files in scope that are new or changed here while the server has what was agreed on last; every other path stays as it is. |
| SyncConvergence.PullDelivers | src/jp/sync.py:547-585 | A pull that nothing disturbs writes, and records, exactly the files that are new or changed on the server while the local scan has what was agreed on last; every other path stays as it is. |
| SyncConvergence.PushReports | src/jp/sync.py:414-485 | A push, dry or undisturbed, reports exactly the transferred files, the skipped hidden ones, the conflicts and the unchanged ones, each in the order of the scan, and no failure. |
| SyncConvergence.PullReports | src/jp/sync.py:547-585 | The same for a pull. |
| SyncConvergence.DryPushAnnounces | src/jp/sync.py:437-439 | A dry push changes nothing, and its report is the one of a push that nothing disturbs. |
| SyncConvergence.DryPullAnnounces | src/jp/sync.py:559-561 | A dry pull changes nothing, and its report is the one of a pull that nothing disturbs. |
| Paths.DecodeOfEncode | src/jp/paths.py:166-191 | Decoding undoes encoding for every path without empty segments and without segments of alias form. |
| Paths.RoundTripsExactly | src/jp/paths.py:166-191 | ... and for no other path than these (and the empty one). |
| Paths.EncodeIsInjective | src/jp/paths.py:180-186 | Two such paths never share a name on the server. |
| Paths.EncodedSplit | src/jp/paths.py:180-186 | Encoding works segment by segment and leaves no hidden segment. |
| Paths.HiddenMeans | src/jp/paths.py:139-146 | A path is hidden exactly if one of its components begins with a dot, whichever slash separates them. |
| Paths.AliasForm | src/jp/paths.py:166-170 | A hidden name is stored as the marker, the number of its leading dots, an underscore and the rest. |
| Paths.LiteralAliasCollides | src/jp/paths.py:159-161 | A file literally named like an alias is stored under the same name as the hidden file. |
| Paths.NormalizedIsConfined | src/jp/paths.py:74-128 | Whatever is given, an accepted path has no empty, "." or ".." component and no leading slash; a relative path is refused for climbing exactly if going along its components leaves the base somewhere on the way, which is when its normal form begins with ".."; otherwise it is refused only for naming the base itself. |
| Paths.CollapseClimbs | src/jp/paths.py:108-119 | Collapsing dots leaves ".." in front exactly if going along the components leaves the base on the way. |
| Paths.NormalIsFixed | src/jp/paths.py:74-128 | A path that already is in normal form is left as it is. |
| Paths.JailConfines | src/jp/paths.py:255-279 | A path is let through exactly if the components of its normal form properly extend those of the prefix and none of them begins with two dots; what is let through is that normal form: the prefix, a slash and something more, without a ".." component. |
| Paths.ListedUnderTheSameKey | src/jp/sync.py:183-205 | Where push writes a file, under either dotfile policy, is inside the prefix, and the walk of the remote tree lists it under the very key it was pushed under. |
| Globs.Compile | src/jp/ignore.py:103-147 | The index-driven loop, with its three lookahead cases, builds the expression of the pieces in order. |
| Globs.BodyMeans | src/jp/ignore.py:108-136 | The pieces match exactly what the glob means: a star within a component, two stars across, two stars and a slash for leading directories. |
| Globs.CompiledMeans | src/jp/ignore.py:103-147 | The compiled expression accepts exactly the paths of which the glob matches a stretch of whole components, from the root when anchored. |
| Globs.BareNameSelectsComponent | src/jp/ignore.py:7-11 | A pattern without wildcards and slashes selects exactly the paths that have it as a component. |
| Globs.IgnoreSet.constructor | src/jp/ignore.py:38-52 | The built-in rules come first, then one rule per line that is one. |
| Globs.IgnoreSet.IsIgnored | src/jp/ignore.py:65-82 | The loop gives the verdict of the last applicable rule; the metadata directory is ignored whatever the rules say. |
| Globs.MatchFormMeans | src/jp/ignore.py:73 | A path is matched with slashes for backslashes and none at either end; its components are kept. |
| Globs.MetadataIsFirst | src/jp/ignore.py:74-75 | The metadata directory is known by the first component being ".jp". |
| Globs.DefaultsMean | src/jp/ignore.py:41-48 | Without any lines, a path is ignored exactly if it lies in a directory ".jp" at any depth, is such a directory, or has a component that begins like a temporary file of a run. |
| Globs.VerdictIsOfTheLast | src/jp/ignore.py:68-70 | The verdict is the polarity of the last rule that applies, and none if no rule does. |
| Globs.NoRule | src/jp/ignore.py:85-101 | Exactly blank lines, comments and marks without a glob hold no rule. |
| Globs.BlanksAtEnd | src/jp/ignore.py:88 | Blanks at the end of a line do not matter. |
| Globs.ParseOfLine | src/jp/ignore.py:85-101 | The line that is written for a glob, negated or not, for directories only or not, is read back as the rule for that glob, unless blanks, a slash, "#" or "!" at an end of it would be taken for something else. |
| Globs.LastLineDecides | src/jp/ignore.py:65-100 | A line added at the end, as its text stands, decides for every path it selects, negated or not, for directories only or not, whatever came before. |
| RmPlan.SortedIsStable | src/jp/commands/rm.py:181 | The sort puts the deepest directories first, keeps equals in their old order, and loses and adds nothing. |
| RmPlan.Contents.ListDir | src/jp/api.py:286-307 | The children the server shows, each once, in any order; nothing for a path that is not there, the file itself for a file. |
| RmPlan.Contents.Delete | src/jp/api.py:518-536 | A missing path is no error, a directory that is not empty is refused, anything else goes alone. |
| RmPlan.Collector.Walk | src/jp/commands/rm.py:170-177 | The walk collects every node that is reached through listings exactly once, directories with their depth, all of them inside the prefix, or stops at one that is not. |
| RmPlan.PlanIsBottomUp | src/jp/commands/rm.py:179-185 | In the plan no node stands behind a directory it lies in. |
| RmPlan.CollectTree | src/jp/commands/rm.py:161-185 | The plan lists the directory and everything reached from it exactly once, bottom-up, the directory last. |
| RmPlan.DeleteAll | src/jp/commands/rm.py:142-151 | The delete loop never fails on a plan that covers the whole directory: on a reliable server it stops before a deletion only if something in the directory was never listed, and behind one only if the deleted name has no index key; exactly the keys of what is gone are struck. |
| RmPlan.RmDir | src/jp/commands/rm.py:106-158 | Nothing outside the directory is ever touched; on a reliable server the run removes the whole subtree exactly if it may descend, is confirmed, everything listed is inside the prefix, nothing is withheld from the listings and every name has an index key; the index on disk changes only after a complete run. |
| RmPlan.VeiledChildStops | src/jp/commands/rm.py:142-145 | A directory with one unlisted child: the plan is the directory alone, and its deletion is refused. |
| RmPlan.DriveNameIsUntracked | src/jp/commands/rm.py:146-148 | A file "C:x" below the prefix passes the jail and is deleted, and then its index key is refused. |
| RmPlan.StrikesOwnKey | src/jp/commands/rm.py:146-148 | Deleting a tracked file strikes its own key exactly if it is not hidden; of one stored under an alias the key of the alias is struck. |
| RmPlan.BlankNameStrikesOther | src/jp/commands/rm.py:146-148 | Deleting a file whose name ends in a blank strikes the key of the one without. |
| Utf8Coding.DecodeOfUtf8 | src/jp/commands/open_cmd.py:96 | Decoding UTF-8 gives back any text, whatever follows it. |
| PercentCoding.QuoteMeans | src/jp/commands/open_cmd.py:96 | A reserved byte becomes a percent sign and its two upper-case hexadecimal digits, the higher first, any other stays (section 2.1 of RFC 3986). |
| PercentCoding.UnquoteOfQuote | src/jp/commands/open_cmd.py:96 | Undoing the percent-encoding of arbitrary bytes gives them back, whatever follows (section 2.1 of RFC 3986). |
| Urls.UnquoteIsInverse | src/jp/urls.py:100 | Unquoting undoes quoting for every name. |
| Urls.UnquoteOfJoin | src/jp/urls.py:100 | Unquoting the joined quoted names gives the joined names. |
| Urls.ParsePrinted | src/jp/urls.py:47-103 | Host and path segments of an address come back from parsing, none of them empty, the quoted ones included. |
| Urls.AddressForms | src/jp/urls.py:47-103 | Any address a browser shows for a folder gives back the base address and the path: with or without a user and a named server, the lab or doc mode and a workspace, with any of the five view words. |
| Urls.GoodRoundTrip | src/jp/commands/open_cmd.py:82-97 | Parsing what is printed gives back the base address and the path, for a base that does not end in the API path and a standalone server whose paths have no "user" segment. |
| Urls.ServerNamedApi | src/jp/commands/open_cmd.py:90-91 | A named server called "api" is lost: its user's default server comes back. |
| Urls.UserNamedApi | src/jp/commands/open_cmd.py:90-91 | A user called "api" is lost: the view word is taken for the user. |
| Urls.HostNamedApi | src/jp/commands/open_cmd.py:90-91 | A host called "api" is lost and the address is refused. |
| Urls.UserInPath | src/jp/urls.py:75-82 | A path segment "user" of a standalone server is taken for the server's. |
| Urls.RoundTripExactly | src/jp/commands/open_cmd.py:82-97 | Printing and parsing give back base and path exactly if the base does not end in "/api" and, for a standalone server, no segment of the path is "user". |

## Left out

- Sockets, TLS, the HTTP and WebSocket handshakes, JSON, the transport of the Contents API and its error texts: foreign code; requests and replies are values here.
- Threads and locks: an operation that holds its lock throughout is taken as one step.
- Symbolic links, permissions, `realpath`, file system codings and atomic replacement: the trees are plain maps from paths to nodes. The agent's temporary file and what is left of it after a failed write are not part of the tree.
- The kinds of refusal: everything that is not "not found" is one error, so that a denied read in a GET is a failure here and a 403 in the source.
- Unicode: `strip` and digit tests know ASCII characters only, names are taken as already composed (NFC), Windows drive letters are ASCII letters. `int()` has no limit on the number of digits.
- Paths given to the cache are in one canonical spelling, as the WebDAV layer hands them over; read offsets are not negative.
- Metrics other than the hits and misses of blocks and attributes, and the gain from read-ahead.
- Bit operations on bytes are written with division and remainder.
- RemoteFs.RemoteFS.Rename: which of several possible errors a failed rename gives.
- CachedRuns.Run: leaves the stamps of directories open, because the cache serves a parent's attributes up to one time to live late after a change below it.
- VfsCache.CachingFS.Read: does not look at the clock, so that the time of the stat it may send is open; a file that somebody else rewrites while its blocks are cached is served from the old blocks until a stat reaches the server; `CachedRuns.StatThenRead` says when a read is exact.
- WebSockets.WebSocket.ReadMessages: the buffer is shorter than 2^64 bytes, so that every ping can be echoed; the connection parameters and `close` are left out.
- RunScanners.RunScanner.Feed: is not called again after the end marker, as the pump sees to; the token contains no ESC, being hexadecimal.
- Markers.EndAtIsMarker: the exit code is an unbounded integer.
- KernelConns.KernelConn.Call: the content of requests, the backoff sleeps and `keepalive`, which only pings through `Call`; the JSON content of a reply is an arbitrary function of its bytes.
- LiveSessions.LiveSession.Cleanup: closing the socket. A socket that fails while it is being opened carries no request and is not kept track of.
- The scan of the local tree, reading and hashing files, and lazy hashing: a state is computed from the two trees and the index.
- SyncEngine.Repository.Diff: the source sorts the paths, here they come in any order; every listing and every hash succeeds; an unreadable remote directory, which the source treats as empty with a warning, is not modelled.
- SyncEngine.Repository.UploadFile: the paths, and so the index keys, are taken as already normalized; creating the remote directories is part of the PUT, and a size that does not match after the PUT is the same fault as a stat that fails.
- SyncEngine.Repository.DownloadFile: the sanitizing of server-supplied names before a local write is not modelled; the download gets the version that was listed.
- SyncSafety.NoLostUpdate: edits happen between commands, stamps are not reused, and no locally ignored file exists on the server; each condition is shown to matter where the source does not ensure it.
- Mirror mode, which deletes after asking: the candidates are never deleted by push or pull themselves.
- Paths.JailConfines: the prefix is taken as already validated; the forbidden prefix names are not modelled.
- Paths.NormalizedIsConfined: the result is not claimed to be in normal form again, because blanks inside can come to the end.
- Globs.CompiledMeans: paths without a newline, which the dot of the source's expressions does not match.
- RmPlan.RmDir: the target has been found to be a directory inside the prefix, nobody else changes it meanwhile, and deleting the local copy is left out. The removal of a single file is one delete.
- RmPlan.Contents.Delete: of the failures of a request only the refusal of a directory that is not empty is told apart.
- Urls.RoundTripExactly: the checks of `urlsplit` on bracketed hosts and on characters that normalize to delimiters are not modelled; bases and paths contain no tabs or line breaks, paths no backslashes, empty or dot segments.
- Interactive screens, credentials, preferences, settings, mounting, the editor launch, updates: small wrappers around foreign code.

# Verified models of the synced-watching server

These Dafny modules model the server-side state of the service and prove what its parts keep,
for all inputs, all runs and all interleavings. `dafny verify dfyconfig.toml` checks everything.

| file | part of the server |
|---|---|
| Text | trimming, splitting and decimal conversion as the Go standard library does them |
| RangeHeaders | byte ranges, Range and Content-Range texts (RFC 9110 sections 14.1.2, 14.2 and 14.4), cache keys |
| CacheItems | cached responses and their on-disk form |
| PrefixTries, MemoryCaches, FileCaches | the two-level slice cache: trie, recency list, counter, files that expire |
| SliceStores | the slice cache as the proxy holds it, in memory or on files |
| RangeReaders | the reader that makes a remote resource a seekable stream by range requests |
| SliceProxies | the proxy that answers a byte range from slices |
| GuardedChannels | the send/close protocol of client channels and of the hub's broadcast channel |
| OnceGates | the gate that starts the hub's goroutines |
| HubRegistry, HubFanout | the hub's two-level client registry and the fan-out of broadcasts |
| RoomMembers | room members: the table, the normalising cache, every mutating operation |
| MovieForest | the movie tree: cascading deletes, cache eviction, guards of the current movie |
| SmtpPool | the pool of SMTP connections |
| PlaybackClock | the shared playback clock and the resynchronisation rule |
| Playlist | reading and rewriting m3u8 playlists |

## Main results

- **Proxy.** For every source, slice size, range and well-behaved server, with the cache in memory
  or on files, and with other requests using it before every use of ours, the body that is written
  is made of the bytes of the source from the first position on, up to the last position or the end
  of the source, all of them unless an error is reported; the loop ends, by 64-bit arithmetic; the announced Content-Length is the body's length; and nothing
  fails when neither the server nor the cache does, the client takes everything and the range
  starts inside (`SliceCacheProxy.Proxy`). Below it, any seeks and reads take the bytes of the source
  at the current offset however bodies are split or cut short (`RangeReader.Read`,
  `RangeReader.Seek`).
- **Caches.** Map, recency list, prefix trie and byte counter stay in step; eviction keeps the
  longest recent prefix that leaves room; a hit, through memory eviction, expiry, cleanup,
  interrupted writes and refilling from disk, is the latest item that memory has kept or the
  file has taken (`MemoryCache.Set`, `FileCache.Get`); an interrupted file is never read back
  (`StrictPrefixRejected`).
- **Channels.** In every interleaving nobody sends on a closed channel and each channel is closed
  at most once (`ChannelSafety`); a Send answers true exactly if it put its own message into the
  channel, and nothing else gets in (`SendAnswersIff`, `AcceptsOnly`); one Close at most wins
  (`OneCloseWins`); and exactly when a Close that has begun can get through (`CanCloseIff`).
- **Gate.** The hub's goroutines are started at most once, and never once a Done came first
  (`GateSafety`, `DoneCancelsDo`, `NeverStartedIff`).
- **Hub.** While the hub is open, every registered client is found by a lookup and containers
  taken from the map stay empty and unmapped; unregistering a registered client succeeds and
  unregisters no other client (`UnregistersOnly`); each inbox is a subsequence of the accepted broadcasts; one fan-out reaches a client that stays
  registered exactly once if it is not to be ignored and meets the call filter, and otherwise not
  at all (`OpenHubFinds`, `UnRegisterSucceeds`, `InboxIsSubsequence`, `FanOutExactlyOnce`).
- **Members.** Every operation of a room with its cache answers, and changes the table, as a
  reference without a cache does, and its effect on the rows is written out; over every sequence of operations the creator keeps all powers
  and the guest never becomes an admin (`RoomMembers.Room`, `LoadedPowers`).
- **Movies.** An ancestor check is right on every forest and ends; eviction removes exactly the
  least closed set; an accepted delete removes the current movie only below a top-level file
  with children, hence never where parents are folders (`MovieForest.Room`, `LostIff`).
- **Pool, clock, playlist.** Conservation of connections (`PoolConserves`,
  `ClosedPoolLeaksNothing`); reads never move the clock, and exactly when a follower must
  resynchronise (`ReadsKeepClock`, `FollowerNeedsSyncIff`); rewriting a playlist commutes with
  reading it (`ReplaceThenRead`).

## Where the code differs from what one may expect

Each is kept as it is in the code and stated exactly.

- `bytes=-n` is read as "from 0 to n"; it agrees with RFC 9110 if and only if n is at least the
  length of the source (`SuffixRangeAgreesIff`).
- The end position of Content-Range is not clamped: the header is valid if and only if the
  requested end lies inside the source (`ContentRangeValidIff`), and it cannot be parsed back if
  and only if an open end meets an unknown or empty total (`ContentRangeRoundTrip`).
- A range that starts beyond the source, but inside a slice that the source reaches, is answered
  with an empty body and a negative or missing Content-Length (`AnnouncedLengthIff`).
- SeekEnd counts back from the end.
- Updating a key of the memory cache never evicts, so it may exceed the byte limit
  (`UpdateExceedsLimit`): the limit holds afterwards if and only if the new item fits what the other
  entries leave of it (`MemoryCache.Set`, `UpdatedEntryFitsIff`). After a new key it holds if and
  only if the new item itself fits (`NewEntryFitsIff`), and one that does not is kept alone.
- A Set over an existing file does not take that file's size off the counter: one that was exact
  stays so if and only if the key had no file, or an empty one (`CounterStaysExactIff`); the next
  pass counts anew.
- A Set whose file cannot be opened leaves an older file behind, which is hit once the key has left
  memory (`OlderItemIsHit`). A hit is the latest item if and only if its Set opened the file, or the
  key has not left memory since, or the two items are equal (`FileCache.Get`).
- A server that hangs up without an answer makes a read report the end of the source inside it
  (`EofInsideSource`); once the length is known, end of file means the end if and only if no server
  hung up (`RangeReader.Read`). The proxy finds out by the total length (`FetchFromSource`).
- The last position of a requested range wraps to one before the first if and only if the 64-bit
  sum of offset and chunk overflows (`CreateRequest`).
- A hub whose first use is a broadcast is never served, because Done on a fresh gate cancels the
  later Do (`DoneCancelsDo`); on any fresh gate that nobody holds it can happen (`DoneFirst`).
- Close closes the broadcast channel while the serving goroutine may still select on it. It may then
  be handed nil, which it looks into, if and only if it has not stopped on the exit channel by then;
  that was closed before, so both branches are open to it (`NilIsTakenIff`, `CloseOvertakes`).
- A Close of a client can wait for ever: if and only if its receiver has stopped, as it does when a
  write fails, and more Sends have passed the check than the channel has room for; the hub's
  senders give up instead (`CanCloseIff`).
- A read that fails on a later fetch has moved the offset but returns nothing (`FailedReadMoves`).
  Before the call it is decided whether the offset will move, however the read ends: if and only if
  bytes are left of the body at hand, or the fetch that is due, at once or because that body is at
  its end, is answered with an allowed status and content type and with bytes at the offset
  (`RangeReader.Read`, by `Moves`).
- Moving a folder below itself is accepted and makes a cycle (`CycleIsAccepted`); the forest is
  kept if and only if the new parent is not the movie or below it (`ReparentKeepsForestIff`). A
  top-level folder turned into a file keeps its children but loses their protection
  (`FileWithChildrenIsUnguarded`): an accepted delete takes the current movie if and only if that
  lies below a top-level file among the ids (`LostIff`, `ClearedIff`, `SparedByOneIff`).
- The room's permission check does not look at the member's status (`PermissionIgnoresStatus`). It
  does not call `RoomMember.HasPermission`, which does but ignores the room's switches; for whom and
  when either of the two alone says yes is `ChecksPartIff`.
- A follower's first delay is never made up for: `LateArrivalForcesSync`.
- A rewritten playlist is readable if and only if the new lines are short enough for the scanner
  (`ReplaceThenRead`).

## Model

| member | source | states |
|---|---|---|
| RangeHeaders.AlignedOffsetIff | server/handlers/proxy/slice.go:54-56 | the offset of a slice is the one multiple of the slice size from which the slice reaches the requested offset |
| RangeHeaders.ContentLengthOfSelected | server/handlers/proxy/slice.go:78-92 | for a range that starts inside a known source, the computed length is the number of selected offsets, which are at least one |
| RangeHeaders.SelectedIff | server/handlers/proxy/slice.go:78-92 | an offset is selected if and only if it lies in the source, not before the first position and not behind the last, if there is one |
| RangeHeaders.ContentLengthOfUnknown | server/handlers/proxy/slice.go:78-92 | with an unknown total, a closed range has the length that it has in every source it fits in, and an open one has none |
| RangeHeaders.ParseByteRangeIff | server/handlers/proxy/slice.go:365-431 | exactly which headers are accepted and what they are read as: the empty one, and "bytes=" with two positions around one hyphen, not both blank, numbers that fit and are in order |
| RangeHeaders.ParseClosedRange | server/handlers/proxy/slice.go:365-431 | a printed closed range is read back as it was, for all positions |
| RangeHeaders.ParseOpenRange | server/handlers/proxy/slice.go:396-431 | a printed open range is read back with an open end |
| RangeHeaders.ParseSuffixRange | server/handlers/proxy/slice.go:396-431 | a suffix range is read as the range from 0 to n |
| RangeHeaders.SuffixRangeAgreesIff | server/handlers/proxy/slice.go:365-431 | that reading selects what RFC 9110 section 14.1.2 asks if and only if n covers the whole source |
| RangeHeaders.SuffixSelectedIff | server/handlers/proxy/slice.go:365-431 | what that section asks for are the last n offsets, or all if there are fewer |
| RangeHeaders.ParsePositionsIff | server/handlers/proxy/readseeker.go:492-538 | exactly which headers yield positions, and which |
| RangeHeaders.ParseTotalIff | server/handlers/proxy/readseeker.go:541-575 | exactly which headers yield a total, and which; an unknown one is -1 |
| RangeHeaders.ContentRangeRoundTrip | server/handlers/proxy/slice.go:58-76 | the parsers recover start, end and total from every printed header, with an open end as the last position; the positions are lost if and only if the end is open and the total unknown or zero |
| RangeHeaders.ContentRangeValidIff | server/handlers/proxy/slice.go:58-76 | the printed header is a satisfied Content-Range (RFC 9110 section 14.4) if and only if start and end lie inside the source, or the total is unknown and there is an end |
| RangeHeaders.CacheKeyInjective | server/handlers/proxy/slice.go:49-52 | equal keys mean equal hash, slice size and offset |
| CacheItems.Int64RoundTrip | server/handlers/proxy/cache.go:62-105 | the big-endian form of every 64-bit integer, negative ones included, is read back as that integer |
| CacheItems.WriteTo | server/handlers/proxy/cache.go:46-91 | writes the whole encoding and its size, or on a failing writer exactly the prefix that fitted; refuses an item without metadata |
| CacheItems.ReadFrom | server/handlers/proxy/cache.go:94-147 | item, reported count and rest of the stream are those of the decoding function, in every error case |
| CacheItems.RoundTrip | server/handlers/proxy/cache.go:46-147 | reading a written item followed by anything yields the item and its size and leaves what follows, whenever the codec gives the metadata of this item back |
| CacheItems.StrictPrefixRejected | server/handlers/proxy/cache.go:94-147 | every strict prefix of a written item is refused |
| CacheItems.BytesInOrder | server/handlers/proxy/cache.go:62-105 | in the eight bytes of a length the first counts most |
| CacheItems.DecodedIff | server/handlers/proxy/cache.go:94-147 | exactly which texts are read as an item, and as which: those that begin with a metadata text that is not empty and that the codec reads, and the data, each behind its length |
| CacheItems.SomeCodecKeeps | server/handlers/proxy/cache.go:35-37 | for any metadata that are to be stored, a codec that gives all of them back exists |
| PrefixTries.PrefixTrie.Insert | server/handlers/proxy/cache.go:328-340 | adds the key to the live keys and nothing else; end-marked nodes remain exactly the live keys, each carrying its own path |
| PrefixTries.PrefixTrie.Remove | server/handlers/proxy/cache.go:311-318 | takes the key from the live keys and nothing else; the nodes stay |
| PrefixTries.PrefixTrie.FindKey | server/handlers/proxy/cache.go:243-262 | the depth-first search below a node finds a live key with that path if there is one |
| PrefixTries.PrefixTrie.FindWithPrefix | server/handlers/proxy/cache.go:225-267 | answers a live key with the prefix, and nothing if and only if there is none |
| MemoryCaches.MemoryCache.constructor | server/handlers/proxy/cache.go:187-199 | an empty cache whose parts agree |
| MemoryCaches.MemoryCache.Get | server/handlers/proxy/cache.go:201-223 | hits exactly the live keys, answers the item of the key's latest Set and moves its entry to the front; a miss changes nothing |
| MemoryCaches.MemoryCache.GetAnyWithPrefix | server/handlers/proxy/cache.go:225-267 | finds an item if and only if a live key has the prefix, and answers the item of such a key |
| MemoryCaches.MemoryCache.Evict | server/handlers/proxy/cache.go:305-319 | drops the least recent entry from list, map, trie and counter together |
| MemoryCaches.MemoryCache.UpdateExisting | server/handlers/proxy/cache.go:290-299 | replaces and moves one entry to the front and evicts nothing; the counter changes by the difference between the new item's size and that of the key's latest item |
| MemoryCaches.MemoryCache.AddNew | server/handlers/proxy/cache.go:322-340 | puts the entry in front and registers it in map, trie, counter and history together |
| MemoryCaches.MemoryCache.Set | server/handlers/proxy/cache.go:269-343 | a new key joins the longest most-recent prefix of the list that leaves room for it, an existing key is replaced at the front and nothing evicted; map, list, trie and counter stay in step and the capacity is kept; after a new key the byte limit holds if and only if the new item itself fits it, after an update if and only if the counter with the new size in place of the old one is within it |
| MemoryCaches.MemoryCache.AddEvicting | server/handlers/proxy/cache.go:301-340 | evicts from the back exactly until the longest most-recent prefix that leaves room is left, then adds the entry; nothing is evicted when everything fits |
| MemoryCaches.UpdatedEntryFitsIff | server/handlers/proxy/cache.go:290-299 | after an update the byte limit holds if and only if the new entry fits what the other entries leave of it |
| MemoryCaches.UpdateExceedsLimit | server/handlers/proxy/cache.go:269-299 | for any key, limit, item within the limit and item beyond it, storing one after the other takes the counter over the limit |
| MemoryCaches.NewEntryFitsIff | server/handlers/proxy/cache.go:301-320 | after a new key joined, the byte limit holds if and only if the new entry itself fits it; one that does not is alone |
| MemoryCaches.KeptInNumbers | server/handlers/proxy/cache.go:301-320 | what is kept is, with the new entry, within both limits unless nothing is kept, and with one entry more it would be beyond one of them |
| MemoryCaches.StepDropLast | server/handlers/proxy/cache.go:305-319 | evicting the last entry keeps the bijection of map and list, the counter and the history |
| MemoryCaches.StepCons | server/handlers/proxy/cache.go:322-340 | so does adding an entry in front |
| MemoryCaches.StepReplaceFront | server/handlers/proxy/cache.go:290-299 | so does replacing the entry in front |
| FileCaches.FileCache.Get | server/handlers/proxy/cache.go:499-544 | a hit from memory or disk is the latest item of the key exactly if that could be written to its file, or has not left memory since, or equals the last item that could be written, which is what is hit otherwise; it hits exactly a live memory entry or an unexpired file that decodes, fails exactly on a file that cannot be opened or decoded, and removes only an expired file; in numbers: a hit that is not in memory comes from a file at most maxAge old, and is in memory afterwards |
| FileCaches.FileCache.Set | server/handlers/proxy/cache.go:584-639 | success leaves the complete encoding in the key's file; the other files are exactly those that a cleanup pass leaves if one is due, and else all of them; memory and disk keep agreeing; the counter is what a pass found, or what it was, with the size of the file written |
| FileCaches.FileCache.GetFromFile | server/handlers/proxy/cache.go:509-544 | after a miss in memory, the last item that reached the file, exactly if the file opens, has not expired and decodes; it then enters memory |
| FileCaches.FileCache.MakeRoom | server/handlers/proxy/cache.go:598-612 | a cleanup pass exactly if the new item would take the counter over the limit and a pass is due |
| FileCaches.FileCache.SetItem | server/handlers/proxy/cache.go:593-638 | the same for an accepted key and item |
| FileCaches.FileCache.StoreOnDisk | server/handlers/proxy/cache.go:598-638 | the disk side of Set: room, then the file; counter and files as for Set |
| FileCaches.FileCache.StoreInMemory | server/handlers/proxy/cache.go:593-596 | between the two halves of a Set the key counts as stale, everything else keeps agreeing |
| FileCaches.FileCache.WriteFile | server/handlers/proxy/cache.go:613-638 | the file then holds the item, whole or cut where the disk refused more, and the levels agree again |
| FileCaches.OlderItemIsHit | server/handlers/proxy/cache.go:584-639 | for any two items, a Set whose file cannot be opened and one that pushes its key out of memory make the next Get answer the item of the Set before |
| FileCaches.FileCache.GetAnyWithPrefix | server/handlers/proxy/cache.go:546-582 | a hit is what a Get of some key with the prefix answers; every live memory entry and every readable file with the prefix is found, whatever the other files allow |
| FileCaches.FileCache.FindOnDisk | server/handlers/proxy/cache.go:556-581 | the files with the prefix are tried until one can be read |
| FileCaches.FileCache.ReadFile | server/handlers/proxy/cache.go:509-535 | answers exactly an unexpired file that decodes, with the last item written to it, never an interrupted one; removes exactly an expired file |
| FileCaches.FileCache.Refill | server/handlers/proxy/cache.go:537-541 | storing what was read from disk in memory keeps the levels in agreement |
| FileCaches.FileCache.CollectYoung | server/handlers/proxy/cache.go:430-471 | lists every unexpired file once with their total size, and removes the expired ones that can be removed |
| FileCaches.SortByAge | server/handlers/proxy/cache.go:480-483 | a permutation of the files, oldest first |
| FileCaches.FileCache.RemoveOldest | server/handlers/proxy/cache.go:480-493 | removes oldest files first, no more than needed: none that stays is strictly older than one that went, and without the last removal the limit would be exceeded |
| FileCaches.FileCache.Cleanup | server/handlers/proxy/cache.go:399-497 | a pass that is due removes the expired files and then the oldest ones as needed, and stores the size of what is left; a pass that is not due changes nothing; at most every 300 seconds, and no file that stays is older than maxAge unless its removal failed |
| FileCaches.CleanupAchieves | server/handlers/proxy/cache.go:399-497 | when all removals succeed, what is left is unexpired, fits the limit, and the stored size is its size |
| FileCaches.CounterStaysExactIff | server/handlers/proxy/cache.go:613-638 | an exact counter stays exact over a Set if and only if the key had no file, or an empty one |
| FileCaches.CountedSize | server/handlers/proxy/cache.go:278-286 | memory counts an item as the bytes of its file without the two lengths |
| FileCaches.CutDecodesToItem | server/handlers/proxy/cache.go:499-544 | a file that was written in part or whole decodes to the written item or not at all |
| RangeReaders.RangeReader.CreateRequest | server/handlers/proxy/readseeker.go:320-343 | asks for a range from the current offset, at most one chunk and never beyond a known end; the last position comes before the first exactly if the 64-bit sum overflows; without ranges, how far the response may reach is the known end |
| RangeReaders.RangeReader.FetchNextChunk | server/handlers/proxy/readseeker.go:231-253 | never moves the offset; success leaves a body that goes on at the offset and makes progress; end of file means the end of the source, or that a server hung up without an answer, and once the length is known it means the end exactly if no server hung up, which is exactly when the answer was a closed connection; success leaves bytes to read if and only if the offset is not at a known end and the answer delivers some there; with a server that does not fail every fetch inside the source succeeds; ranges are given up exactly when a complete answer was taken |
| RangeReaders.RangeReader.TakeResponse | server/handlers/proxy/readseeker.go:248-318 | what each answer of the server comes to, by status, content type and headers; it leaves bytes to read if and only if it delivers some at the offset; every other status and content type is refused, and a range that cannot be satisfied tells the length |
| RangeReaders.RangeReader.TakeCompleteBody | server/handlers/proxy/readseeker.go:277-297 | on a complete answer, skips to the offset or fails, and learns the total length |
| RangeReaders.Discard | server/handlers/proxy/readseeker.go:285 | drops exactly as many bytes as asked for, or all there are |
| RangeReaders.RangeReader.TakePartialBody | server/handlers/proxy/readseeker.go:299-318 | takes partial content exactly if it says that it starts at the offset, and then the body goes on with the source there |
| RangeReaders.RangeReader.Read | server/handlers/proxy/readseeker.go:193-229 | takes the bytes of the source at the offset and moves it past them, however bodies are split or cut; a failure returns none of them; for every outcome, failures included, the offset moves if and only if before the call bytes were left of the body at hand, or a fetch was due and its answer delivers bytes at the offset; end of file means the end of the source unless a server hung up, exactly so once the length is known; with a server that does not fail it returns all that was asked for or meets the end; a read that begins with a failing exchange fails with its error and takes nothing, and a body that breaks off after some bytes is no failure of this read |
| RangeReaders.SomeServerIsReliable | server/handlers/proxy/readseeker.go:277-297 | for any source a server that behaves well and does not fail exists: one that always sends everything |
| RangeReaders.EofInsideSource | server/handlers/proxy/readseeker.go:196-199 | for any source, a server that hangs up makes the first read answer end of file before the first byte |
| RangeReaders.FailedReadMoves | server/handlers/proxy/readseeker.go:193-229 | for any source of two bytes or more, a server that serves one byte and then fails makes a read return nothing with the offset moved |
| RangeReaders.RangeReader.NextBytes | server/handlers/proxy/readseeker.go:195-226 | one turn of the read loop delivers the next bytes of the source or comes closer to doing so; one that delivers none leaves it as decided as before whether the read will deliver any |
| RangeReaders.RangeReader.ReadBody | server/handlers/proxy/readseeker.go:205-226 | the half of that turn after the fetch: the end of a body is no error, any other ending is |
| RangeReaders.RangeReader.ReadPiece | server/handlers/proxy/readseeker.go:205-226 | what one read of the body delivers are the bytes at the offset, and the body still fits what follows; it is dropped exactly at its end |
| RangeReaders.RangeReader.Seek | server/handlers/proxy/readseeker.go:382-405 | success puts the offset at the target, which is counted back from the end for SeekEnd; failure keeps it; it succeeds wherever the target is known and lies within 0 and the largest 64-bit integer, unless seeking without ranges was switched off; a failure and a move drop the body at hand |
| RangeReaders.RangeReader.ReadFull | server/handlers/proxy/slice.go:299-310 | what the buffer holds are the bytes at the offset, whether it was filled, ended short or met an error; with a server that does not fail it is filled, or ends at the end of the source; when the first exchange fails, it is short, empty or an error by what that error wraps |
| RangeReaders.RangeReader.CalculateNewOffset | server/handlers/proxy/readseeker.go:407-424 | the target of the seek by 64-bit arithmetic, after learning the total length where it is needed; a target that does not fit becomes negative |
| RangeReaders.RangeReader.FetchContentLength | server/handlers/proxy/readseeker.go:426-458 | success means that the total length is that of the source; it succeeds exactly on a 200 of an allowed content type that declares a length, which it learns with the type |
| RangeReaders.RangeReader.ContentTotalLength | server/handlers/proxy/readseeker.go:482-490 | answers exactly when the length of the source has been learnt |
| SliceProxies.SliceCacheProxy.FetchFromSource | server/handlers/proxy/slice.go:288-354 | success is the true slice of the source at that offset, with its total length: a short buffer passes only if it ends at the total length; inside the source it succeeds with a server that does not fail |
| SliceProxies.SliceCacheProxy.GetCacheItem | server/handlers/proxy/slice.go:238-273 | from cache or source, success is the true slice, and the cache holds only true slices afterwards, whatever other requests do before the lookup, the fetch and the store; inside the source it succeeds when neither server nor cache fails |
| SliceProxies.SliceCacheProxy.WriteResponse | server/handlers/proxy/slice.go:175-236 | writes exactly the selected bytes, or on an error a prefix of them; ends; with its offsets computed by wrapping 64-bit sums, so that one that wrapped would show in the body |
| SliceProxies.SliceCacheProxy.WriteNext | server/handlers/proxy/slice.go:213-233 | each turn writes the next part of the selected bytes, a whole slice unless it is the last, and the 64-bit sum for the next offset does not wrap |
| SliceProxies.SliceCacheProxy.WriteRest | server/handlers/proxy/slice.go:211-235 | the loop completes the selected bytes from where the first slice ended, or leaves a prefix of them |
| SliceProxies.SliceCacheProxy.SetResponseHeaders | server/handlers/proxy/slice.go:139-173 | status 206 with Content-Range for a range request, else 200; the announced length, type and cache status; the other headers of the source are copied and nothing else changes |
| SliceProxies.SliceCacheProxy.Proxy | server/handlers/proxy/slice.go:104-135 | end to end: a bad header is answered 400, a failed first slice 500, both with an empty body; otherwise the selected bytes, whose number is the announced length; nothing fails when neither server nor cache does, the client takes everything and the range starts inside the source; in numbers: the body is made of the source's bytes from the first position on, as many as lie up to the last position or the end of the source, all of them on success; a partial answer's Content-Range reads back as these positions and the length of the source |
| SliceProxies.SliceCacheProxy.Answer | server/handlers/proxy/slice.go:127-134 | the answer once the first slice is there: headers, status and bytes fit the range |
| SliceProxies.AnnouncedLengthIff | server/handlers/proxy/slice.go:94-101 | the announced length is the number of bytes to write if and only if the range does not start beyond the end of the source |
| SliceProxies.StoreTrueSlice | server/handlers/proxy/slice.go:238-273 | storing one true slice cannot make the entry of another offset untrue, because keys do not collide |
| SliceProxies.SomeCodecTakesSlices | server/handlers/proxy/cache.go:35-37 | for a server with finitely many content types some codec gives every slice back, so that a cache on files can hold them |
| SliceStores.SliceStore.Get | server/handlers/proxy/proxy.go:64-91 | in memory or on files, a hit is the latest item of the key or the last one that reached its file |
| SliceStores.SliceStore.Set | server/handlers/proxy/proxy.go:64-91 | in memory or on files, the item becomes the latest of its key; in memory this never fails |
| SliceProxies.FirstPart | server/handlers/proxy/slice.go:181-209 | the part cut from the first slice is the beginning of the selected bytes and ends at the next slice or at their end |
| SliceProxies.NextPart | server/handlers/proxy/slice.go:211-233 | so is the part cut from each later slice, which is never empty |
| SliceProxies.WantedLength | server/handlers/proxy/slice.go:78-92 | the remaining length starts as the number of selected bytes and fits 64 bits |
| GuardedChannels.NextKeepsInv | internal/op/client.go:82-104 | every atomic step keeps: wait group counts the senders, one closer at most, and nobody stands between a passed check and Done once the closer saw the group empty |
| GuardedChannels.RunKeepsInv | internal/op/hub.go:156-202 | so does every run, for the hub's channel as well |
| GuardedChannels.ChannelSafety | internal/op/client.go:82-104 | in every run nobody sends on a closed channel, each channel is closed at most once, and messages come out in the order they went in |
| GuardedChannels.ClosedAcceptsNothing | internal/op/hub.go:156-202 | after the close nothing is accepted |
| GuardedChannels.SendAnswersIff | internal/op/client.go:82-93 | in every run a Send answers true if and only if it put the message that it was called with into the channel |
| GuardedChannels.AcceptsOnly | internal/op/client.go:82-93 | the messages in the channel grow only by the message of a Send, in the step with which that comes to answer true |
| GuardedChannels.AnswersCount | internal/op/hub.go:181-202 | in every run as many Sends answer true as messages were accepted, and one answers false only once a Close has begun |
| GuardedChannels.OneCloseWins | internal/op/client.go:95-104 | in every run at most one Close answers success, and only when the channel is closed; the flag is set exactly if some Close has got past it, and the others answer only once it is set |
| GuardedChannels.CanCloseIff | internal/op/client.go:82-104 | from every reachable state a Close that has begun can get through if and only if it is the hub's, or the receiver still reads, or the channel has room for all Sends that have passed the check |
| GuardedChannels.HubStopsOnExit | internal/op/hub.go:75-106 | the serving goroutine stops only once the exit channel is closed |
| GuardedChannels.ClientLoopEnds | server/handlers/websocket.go:115-124 | a client's loop ends on the closed and drained channel and never looks into a nil message |
| GuardedChannels.StoppedTakesNothing | internal/op/hub.go:75-106 | once the receiver has stopped, no run hands it anything |
| GuardedChannels.NilIsTakenIff | internal/op/hub.go:75-179 | once the hub has closed its broadcast channel, some continuation hands nil to the serving goroutine if and only if it has not stopped, and it could stop at that moment |
| GuardedChannels.CloseOvertakes | internal/op/hub.go:75-179 | from every reachable state of an open hub without senders some Close gets to the end before the serving goroutine has stopped |
| OnceGates.NextKeepsInv | utils/utils.go:247-293 | every atomic step keeps: one holder of the mutex, the count of starts and ends of the function in step with the gate, and a gate that was decided stays decided |
| OnceGates.RunKeepsInv | utils/utils.go:247-293 | so does every run |
| OnceGates.GateSafety | utils/utils.go:247-293 | in every interleaving the function starts at most once, a Do returns only after it has finished or was cancelled, and Done answers whether it has finished |
| OnceGates.DoneCancelsDo | utils/utils.go:252-276 | once a Done has answered no, the function is never started |
| OnceGates.DoneFirst | utils/utils.go:252-276 | every run that has left the gate fresh and its mutex free can go on to a Done that answers no |
| OnceGates.NeverStartedIff | utils/utils.go:247-293 | a Do comes back without the function having run if and only if some Done has answered, or is about to answer, no |
| HubRegistry.ThreadEffectFits | internal/op/hub.go:156-330 | each step of RegClient, UnRegClient, OnlineCount and Close changes members only under the write lock, and unmaps a container of an open hub only while holding it and knowing it empty |
| HubRegistry.EffectKeepsWriters | internal/op/hub.go:204-263 | lock words and lock holders agree after every step, also through RegClient calling itself with a lock held |
| HubRegistry.EffectKeepsAttached | internal/op/hub.go:204-330 | while the hub is open, every container with clients is the mapped one of its user |
| HubRegistry.EffectKeepsChecked | internal/op/hub.go:204-330 | what a thread checked under its lock stays true until it acts |
| HubRegistry.NextKeepsRegistry | internal/op/hub.go:75-330 | every step of every thread and of the serving goroutine keeps the registry invariant |
| HubRegistry.RunKeepsRegistry | internal/op/hub.go:75-330 | so does every run |
| HubRegistry.OpenHubFinds | internal/op/hub.go:300-309 | while the hub is open, every client in any container is what GetClientByConnID finds, and removed containers are empty |
| HubRegistry.RetiredStaysRetired | internal/op/hub.go:204-330 | a container removed from the map is never mapped again |
| HubRegistry.RegisteringIsFound | internal/op/hub.go:204-233 | on an open hub a successful registration is found at once, whatever ran in between |
| HubRegistry.StaysPut | internal/op/hub.go:204-263 | a client that stays registered on an open hub stays in one container |
| HubRegistry.UnRegisterSucceeds | internal/op/hub.go:235-263 | UnRegClient of a client that is registered up to its deletion does not fail, in any run |
| HubRegistry.LeavesOnlyBy | internal/op/hub.go:156-263 | a client leaves a container only by a deletion for its user and connection, or when Close empties the container, which closes the client |
| HubRegistry.EntersOnlyBy | internal/op/hub.go:204-233 | a client enters a container only by its own insertion, which finds nobody under its connection |
| HubRegistry.UnregistersOnly | internal/op/hub.go:235-263 | in every run a step on an open hub that ends a client's registration is the deletion by an UnRegClient for that user and connection |
| HubRegistry.RegistersOnly | internal/op/hub.go:204-233 | in every run a step on an open hub that begins a client's registration is its own insertion, which finds nobody under its user and connection |
| HubRegistry.RegClientAnswersIff | internal/op/hub.go:204-233 | in every run RegClient answers success if and only if it has put its client into a container where nobody had the connection |
| HubRegistry.RegMoves | internal/op/hub.go:204-233 | a step of RegClient is refused only when the hub is closed or the connection is taken |
| HubRegistry.UnRegClientAnswersIff | internal/op/hub.go:235-263 | in every run UnRegClient answers success if and only if it has taken its client's connection out of a container |
| HubRegistry.PruneUnmaps | internal/op/hub.go:255-262 | when it has pruned a container, the user is no longer mapped to it |
| HubRegistry.CloseAnswersIff | internal/op/hub.go:156-179 | in every run Close answers success if and only if it has closed the hub |
| HubRegistry.UnmappedIsRetired | internal/op/hub.go:204-330 | whatever step takes a container out of the map retires it |
| HubFanout.NextKeepsServe | internal/op/hub.go:75-106 | every step keeps the range of the serving goroutine: no user twice, only present clients left to visit |
| HubFanout.Delivered | internal/op/hub.go:82-99 | a delivery queues the message to the client whose turn it is, if its channel is open, its user and connection are not to be ignored and it has joined the call where that is asked for, and to nobody else |
| HubFanout.NextKeepsInbox | internal/op/hub.go:82-99 | every step keeps each inbox increasing, with the current message only for clients already passed |
| HubFanout.InboxIsSubsequence | internal/op/hub.go:75-106 | in every run what was queued to a client is a subsequence of the accepted broadcasts in their order |
| HubFanout.ClientsChange | internal/op/client.go:48-50 | a closed client stays closed, and who has joined the call changes by joining and leaving alone |
| HubFanout.QueueIsBounded | internal/op/hub.go:58-64 | in every run at most 128 accepted broadcasts wait for the serving goroutine |
| HubFanout.CanAcceptAndStop | internal/op/hub.go:75-106 | a broadcast is accepted as long as fewer wait, and the goroutine of a closed hub can stop between two of them |
| HubFanout.StoppedDelivers | internal/op/hub.go:75-106 | once the goroutine has stopped it takes and delivers nothing |
| HubFanout.FanOutExactlyOnce | internal/op/hub.go:75-106 | over one fan-out a client that stays registered and open gets the broadcast exactly once if its user is not among the ignored users, its connection not among the ignored connections, and it has joined the call or need not, else never |
| HubFanout.FanOutHappens | internal/op/hub.go:75-106 | for any client and broadcast some run does all this: it registers the client, fans the broadcast out while the client stays registered, and queues it if the filter lets it pass |
| RoomMembers.MemberTable.FirstOrCreate | internal/db/member.go:42-66 | an existing row wins over the proposed one; a failure creates nothing |
| RoomMembers.Room.StoreMember | internal/op/room.go:294-316 | what is cached and answered is the normalised row |
| RoomMembers.Room.LoadMember | internal/op/room.go:276-292 | answers as a read of the table would, cached or not, and keeps the cache coherent; whoever is loaded is cached |
| RoomMembers.Room.LoadOrCreateMember | internal/op/room.go:221-274 | as the reference; a row is created exactly for someone without one who may join, for the creator with all powers, for others with the default (the guest with no) permissions, and pending exactly if the room asks for a review |
| RoomMembers.Room.UserRole | internal/op/room.go:120-131 | the role that the reference answers |
| RoomMembers.Room.HasAdminRole | internal/op/room.go:134-141 | whether the reference loads an admin; an error counts as no |
| RoomMembers.Room.HasPermission | internal/op/room.go:151-177 | the reference's verdict: creator and admins always, others by switches and bits |
| RoomMembers.Room.HasAdminPermission | internal/op/room.go:179-190 | the reference's verdict on admin permissions |
| RoomMembers.Room.SetSettings | internal/op/room.go:592-621 | dropping only the guest's cached member keeps the whole cache coherent with the new settings; the settings are the new ones exactly if the write succeeds |
| RoomMembers.Room.SetGuestPermissions | internal/op/room.go:627-631 | changes the guests' permissions in the settings and nothing else |
| RoomMembers.Room.SetMemberPermissions | internal/op/room.go:633-644 | as the reference, written out: refused for the creator; the permissions are set, of the guests in the settings, of others in their row, and nothing else changes; the cache stays coherent even when the write fails |
| RoomMembers.Room.AddMemberPermissions | internal/op/room.go:646-657 | as the reference, written out: refused for whoever is seen to be an admin; the permissions are added, of the guests in the settings, of others in their row, and nothing else changes |
| RoomMembers.Room.RemoveMemberPermissions | internal/op/room.go:659-673 | as the reference, written out: likewise with the permissions taken away |
| RoomMembers.Room.ApprovePendingMember | internal/op/room.go:675-682 | as the reference, written out: done exactly for a row that is pending, whose status becomes active and nothing else |
| RoomMembers.Room.BanMember | internal/op/room.go:684-698 | as the reference, written out: refused for creator and guest; done exactly for a row that can be written, whose status becomes banned and nothing else |
| RoomMembers.Room.UnbanMember | internal/op/room.go:700-711 | as the reference, written out: refused for creator and guest; done exactly for a row that can be written, whose status becomes active and nothing else |
| RoomMembers.Room.DeleteMember | internal/op/room.go:713-723 | as the reference, written out: the row goes and no other, never the creator's |
| RoomMembers.Room.ChangeAdminPermissions | internal/op/room.go:729-784 | as the reference, written out: done exactly for an admin who can be loaded and is neither creator nor guest; the admin permissions are set, added to or taken from, and nothing else changes |
| RoomMembers.Room.SetAdmin | internal/op/room.go:786-797 | as the reference, written out: never the creator or the guest; the row gets the admin's role, all permissions and the given admin permissions, and keeps its status |
| RoomMembers.Room.SetMember | internal/op/room.go:799-806 | as the reference, written out: never the creator; the row gets the member's role, the given permissions and no admin permissions, and keeps its status |
| RoomMembers.Room.Close | internal/op/room.go:88-97 | emptying the cache changes no answer |
| RoomMembers.ReferenceKeepsRows | internal/op/room.go:610-806 | every operation keeps: only the creator's row has the creator role, the guest's is a plain member's, plain members have no admin permissions |
| RoomMembers.RunKeepsRows | internal/op/room.go:610-806 | so does every sequence of operations and failures |
| RoomMembers.LoadedPowers | internal/op/room.go:294-316 | after any operations on a new room the creator loads with all powers and active, the guest with exactly the guests' permissions and never as admin, and nobody else as creator; all others load as they are stored, admins with all permissions |
| RoomMembers.OnlyAdminsAdminister | internal/model/member.go:168-182 | a passed admin check by anybody but the creator means an active admin row that holds the permission |
| RoomMembers.RevokedIsDenied | internal/op/room.go:659-673 | after a successful removal every request that needs one of the removed permissions is denied |
| RoomMembers.GrantedIsAllowed | internal/op/room.go:646-657 | after a successful grant the granted permissions pass, as far as the room's switches allow, for members and for a guest who is let in |
| RoomMembers.PermissionIgnoresStatus | internal/op/room.go:151-177 | the verdict on a member does not depend on the status: a banned member is judged like an active one |
| RoomMembers.ChecksPartIff | internal/model/member.go:156-170 | the room alone allows exactly what a member who is neither admin nor active holds and the room has switched on; the member's own check alone allows exactly what an active member holds and the room has switched off |
| RoomMembers.NothingOutside | internal/model/member.go:66-68 | permissions that leave nothing outside p are had by p |
| RoomMembers.HasAll | internal/model/member.go:66-68 | and what p has leaves nothing outside p |
| RoomMembers.AddIsLeast | internal/model/member.go:70-72 | whatever has both p and q has what adding q to p gives |
| RoomMembers.AddHasBoth | internal/model/member.go:70-72 | and that has both |
| RoomMembers.RemoveIsRest | internal/model/member.go:74-76 | removing q from p leaves nothing of q and, with what both have, gives p |
| RoomMembers.SwitchedOnIff | internal/op/room.go:165-176 | each of the seven switches governs its own permission bit and no other |
| RoomMembers.AllowedIff | internal/op/room.go:151-177 | the verdict on whoever can be loaded: the creator and admins, and members, or the guest by the guests' permissions, as far as switches and bits allow |
| RoomMembers.AdminAllowedIff | internal/model/member.go:172-186 | the verdict on admin permissions: the creator, and active admins who hold them, nobody else |
| RoomMembers.UnknownIsDenied | internal/op/room.go:151-190 | whoever cannot be loaded and is not the creator is denied |
| MovieForest.ReparentKeepsForestIff | internal/op/movies.go:93-112 | a new parent keeps the forest if and only if it is neither the movie nor below it |
| MovieForest.CascadeIff | internal/model/movie.go:20 | a delete removes the given rows and exactly what lies below them |
| MovieForest.SweptIsLeast | internal/op/movies.go:167-185 | the evicted movies are the least set closed under "child of a given id or of an evicted cached folder" |
| MovieForest.SweptByLevels | internal/op/movies.go:167-185 | one level and then the rest is the whole eviction |
| MovieForest.MovieList.AddMovie | internal/op/movies.go:22-45 | accepts exactly a new id under an allowed parent, the top level or a folder in the table that belongs to no vendor; forest, folders and cache agree afterwards, also for an id that is still cached from a deleted row |
| MovieForest.MovieList.GetMovieByID | internal/op/movies.go:198-219 | a movie that is found is cached, and that changes no later answer |
| MovieForest.MovieList.Update | internal/op/movies.go:93-112 | replaces the row and drops it from the cache; exactly when forest and folders survive |
| MovieForest.MovieList.DeleteRows | internal/db/movie.go:61-78 | removes the matched rows with everything below them, and keeps the foreign key, the forest and the folders |
| MovieForest.MovieList.EvictLevel | internal/op/movies.go:167-180 | removes exactly the cached children of the ids and returns the folders among them |
| MovieForest.MovieList.EvictChildren | internal/op/movies.go:167-185 | leaves exactly the cached movies outside the least closed set, and ends on any cache, cyclic ones included |
| MovieForest.MovieList.DeleteMovieAndChildCache | internal/op/movies.go:153-165 | likewise, or everything when the top level is given |
| MovieForest.MovieList.DeleteMoviesByID | internal/op/movies.go:187-196 | table and cache after a delete, and what it keeps |
| MovieForest.MovieList.DeleteMoviesByParentID | internal/op/movies.go:131-140 | table and cache after clearing a folder or the top level |
| MovieForest.MovieList.IsAbove | internal/op/movies.go:290-305 | for a movie with a row, whether the other lies above it, the parent not counted on a first check; ends |
| MovieForest.MovieList.IsParentFolder | internal/op/movies.go:270-288 | for a folder, whether it is a proper ancestor; for another movie, whether its folder is one but not the parent |
| MovieForest.Room.CheckCanModifyMovie | internal/op/room.go:371-396 | exactly which movies may be modified while there is no current movie or it has a row, on every forest |
| MovieForest.Room.CheckCanModifyMovies | internal/op/room.go:398-428 | accepts a list if and only if it is not empty and every id may be modified |
| MovieForest.Room.AddMovie | internal/op/room.go:108-111 | accepts exactly a new id under an allowed parent; keeps the forest, and parents folders |
| MovieForest.Room.UpdateMovie | internal/op/room.go:99-106 | exactly when it is accepted and when forest and folders survive; changes the current movie never and what lies above it only through a top-level file above it |
| MovieForest.Room.DeleteMovieByID | internal/op/room.go:430-437 | exactly when it is accepted; removes the movie with everything below it, the current movie exactly if the id is a top-level file above it, and never where parents are folders |
| MovieForest.Room.DeleteMoviesByID | internal/op/room.go:439-446 | likewise for a list of ids |
| MovieForest.Room.ClearMoviesByParentID | internal/op/room.go:452-459 | likewise for clearing a folder |
| MovieForest.Room.SetCurrentMovie | internal/op/room.go:494-533 | exactly when a movie can become current; a current movie that is gone blocks every change |
| MovieForest.AcceptedIff | internal/op/room.go:371-396 | exactly what the guard accepts: nothing at the current movie, and above it only a top-level file |
| MovieForest.LostIff | internal/op/room.go:439-446 | the current movie goes with accepted ids if and only if it lies below a top-level file among them |
| MovieForest.ClearedIff | internal/op/room.go:452-459 | and with the content of an accepted folder if and only if that is a top-level file above it |
| MovieForest.SparedByOneIff | internal/op/room.go:371-437 | an accepted delete of an id spares every current movie if and only if the id is a folder, lies in one, or has nothing below it |
| MovieForest.TidyLosesNothing | internal/op/room.go:371-437 | where parents are folders nothing is ever lost |
| MovieForest.CycleIsAccepted | internal/op/movies.go:93-112 | a concrete update that passes the save hook and makes a cycle |
| MovieForest.FileWithChildrenIsUnguarded | internal/op/movies.go:270-288 | for any two names, a top-level file with a child: the guard accepts a delete of the file that takes the child, which is the current movie |
| SmtpPool.NextKeepsInv | utils/smtp/smtpool.go:103-178 | every step keeps the counters, and every connection in exactly one place |
| SmtpPool.NextKeepsCounters | utils/smtp/smtpool.go:103-178 | every step keeps the counter equal to the connections out or being probed, within the capacity |
| SmtpPool.NextKeepsOnePlace | utils/smtp/smtpool.go:103-178 | every step keeps each opened connection idle, out, dead or with exactly one thread |
| SmtpPool.RunKeepsInv | utils/smtp/smtpool.go:103-178 | so does every run |
| SmtpPool.PoolConserves | utils/smtp/smtpool.go:103-178 | active is the number of connections that are out or being probed, active and idle together and the live connections never exceed the capacity, and none is closed twice |
| SmtpPool.ClosedPoolLeaksNothing | utils/smtp/smtpool.go:147-178 | once the pool is closed and everything is back, every connection ever opened has been closed |
| SmtpPool.ClosedPoolGivesNothing | utils/smtp/smtpool.go:103-146 | in every run a Get that begins on a closed pool fails without a connection, and a closed pool opens none |
| SmtpPool.ObtainedOnlyBy | utils/smtp/smtpool.go:103-146 | a caller comes by a connection only through its own Get: an idle one that answered the probe, or a new one, opened only on an open pool with none idle and room for it |
| SmtpPool.GetAnswersTrue | utils/smtp/smtpool.go:103-146 | a Get that answers true has given its caller a connection |
| SmtpPool.PutPlaces | utils/smtp/smtpool.go:147-164 | a sound connection goes back to an open pool, every other one is closed |
| SmtpPool.CloseClosesIdle | utils/smtp/smtpool.go:165-178 | closing the pool closes every idle connection and leaves the callers theirs |
| SmtpPool.ClosesOnce | utils/smtp/smtpool.go:103-178 | exactly which connections a step closes, and that none of them was closed before, in every run |
| SmtpPool.SomeRunGets | utils/smtp/smtpool.go:103-146 | with room for one, some run gives a caller a connection |
| PlaybackClock.Current.UpdateStatus | internal/model/current.go:31-44 | a read leaves the position at every instant as it was and answers that of its own instant |
| PlaybackClock.Current.SetStatus | internal/model/current.go:55-72 | the position at every later instant: the given one, advanced by transit time and rate while playing; a live stream restarts |
| PlaybackClock.Current.SetSeekRate | internal/model/current.go:74-89 | likewise with the playing state kept |
| PlaybackClock.Current.SetSeek | internal/model/current.go:91-105 | likewise with playing state and rate kept |
| PlaybackClock.Current.SetMovie | internal/op/current.go:48-60 | a new movie starts at zero with the rate last set |
| PlaybackClock.ReadsKeepClock | internal/op/current.go:33-40 | any number of reads at any times leaves the position at every instant as it was |
| PlaybackClock.TimeDiff | server/handlers/websocket.go:373-388 | the elapsed time, or the bound of 0 or 1.5 seconds that it lies beyond; 0 without a timestamp |
| PlaybackClock.FollowerNeedsSyncIff | server/handlers/websocket.go:485-494 | with or without a timestamp, a follower is told to resynchronise if and only if its lag differs from the reported transit time by more than ten seconds |
| PlaybackClock.LeftAloneIff | server/handlers/websocket.go:485-494 | a client is left alone if and only if it is in the server's mode, at its rate, and with the transit time at most ten seconds from its position |
| PlaybackClock.ExactFollowerNeverSyncs | server/handlers/websocket.go:485-494 | never for an exact copy of the clock, a transit of at most 1.5 seconds and a rate between 0 and 7.66, or 6.66 without a timestamp |
| PlaybackClock.LateArrivalForcesSync | server/handlers/websocket.go:485-494 | at rate 7 a status that arrived 1.5 seconds late makes every later check fail, whatever its transit time |
| Playlist.RangeSegments | utils/m3u8/m3u8.go:24-42 | shows the callback the trimmed segments in order up to the first at which it stops; succeeds if and only if it stopped or the text was readable to its end |
| Playlist.ShownMeans | utils/m3u8/m3u8.go:24-42 | the callback is shown the segments up to the first at which it does not continue, and nothing after it |
| Playlist.RawLinesOfText | utils/m3u8/m3u8.go:24-42 | lines end at newlines, and what follows the last one is a line if it is not empty |
| Playlist.ScanStopsAt | utils/m3u8/m3u8.go:24-42 | the lines before the first of 65536 bytes or more are handed out, and scanning fails if and only if there is one |
| Playlist.WidthIff | utils/m3u8/m3u8.go:24-42 | a character counts the bytes that UTF-8 (RFC 3629) takes for it |
| Playlist.CarriageReturns | utils/m3u8/m3u8.go:24-42 | one carriage return before the newline does not belong to the line |
| Playlist.SegmentOfLine | utils/m3u8/m3u8.go:24-42 | a line is a segment if and only if, trimmed, it is neither empty nor begins with "#", and the segment is the trimmed line |
| Playlist.SegmentsSum | utils/m3u8/m3u8.go:24-42 | the segments of two runs of lines are those of the first followed by those of the second |
| Playlist.ReplaceSegments | utils/m3u8/m3u8.go:67-95 | the rewriting function's text or error, for any callback that may remember earlier segments |
| Playlist.RewriteShape | utils/m3u8/m3u8.go:67-95 | tags and blank lines keep their places up to trimming, and the segments of the new lines are the answers |
| Playlist.RewriteFailsIff | utils/m3u8/m3u8.go:67-95 | the rewriting fails if and only if the callback refuses a segment, with the message of the first refusal |
| Playlist.ScanOfJoin | utils/m3u8/m3u8.go:24-42 | plain lines are scanned as they were written if and only if each fits the scanner's buffer |
| Playlist.ShortIff | utils/m3u8/m3u8.go:67-95 | of the rewritten lines only the answers can be too long |
| Playlist.ReplaceThenRead | utils/m3u8/m3u8.go:67-95 | the segments of the rewritten playlist are the answers to the segments of the playlist, on as many lines; it is readable if and only if the answers are short enough |

## Left out

- HTTP, request handlers, authentication, RTMP and HLS channels, vendor backends and generated code: plumbing around the modelled state.
- SQL: each table is a map and each statement its row-level effect, with the foreign key cascade of movies.
- Outside world as parameters: JSON codec, resource hash, server responses, clock, disk outcomes, database failures of the members table; failures of the movie table are not modelled.
- FileCaches.FileCache.Set: the codec has to give the metadata of the items back that are stored; nothing is said of others.
- FileCaches.FileCache.Get: method calls of the caches are atomic; interleavings inside them, the periodic goroutine and keys with path separators are not modelled. The two clock readings of one operation are one instant.
- MemoryCaches.MemoryCache.Get: lookup and move to the front are one step, because the behaviour of the list on a removed element belongs to a library that is not part of this model.
- RangeReaders.RangeReader.Read: needs a source that is not empty and whose length is reported, complete answers that declare their length, and a server whose partial answers name the range they hold and that answers 206 when it advertises byte ranges.
- RangeReaders.RangeReader.FetchNextChunk: the response's other headers and the closing of bodies are not modelled.
- SliceProxies.SliceCacheProxy.Proxy: the text of error answers is not modelled; a reader that offers headers of its own is not part of this model.
- GuardedChannels.NilIsTakenIff: a nil message is counted, and the panic on it, which ends the process, is not followed further; handling one message is one step.
- GuardedChannels.CanCloseIff: that a close can get through, not that every scheduler lets it; reuse of a wait group while it is awaited is not modelled.
- HubRegistry.OpenHubFinds: SendToUser, KickUser and the ping goroutine are not modelled; the serving goroutine is there from the start, although its gate may be cancelled.
- OnceGates.GateSafety: Reset is left out, which the hub never calls.
- HubFanout.FanOutExactlyOnce: the call filter and the send to one client are one step, and a message counts as received once it is queued.
- RoomMembers.Room.LoadMember: operations of one room run one after another; the interleaving of a load with a change in another goroutine, and the error of kicking a user, are not modelled.
- RoomMembers.Reference: the settings in memory and in their table are one value.
- MovieForest.MovieList.AddMovie: only the rows of one room, so no parent in another room; validation of the movie and batches are left out. Opening and closing of streams, positions and paging are left out.
- SmtpPool.PoolConserves: a region under the mutex is one step; Get may spin, and callers put back only connections they hold.
- PlaybackClock.Current.SetStatus: reals instead of floating point, and one instant per operation.
- Playlist.RangeSegments: the variants that resolve against a base URL are left out, and a text is a sequence of Unicode characters.

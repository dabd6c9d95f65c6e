# Ligend server: a verified model

Ligend is a VPN server. Clients connect over WebSocket (or by a UDP handshake), prove that they hold a
shared key, get an address from a pool, and exchange frames that carry IP packets. This project models the
parts of the server whose correctness is hard to see from one function, and proves what they promise.

Three groups of modules:

**Sessions, pool and routing tables.** `Lifecycle` is a state machine in which every region that the server
runs under one lock is one atomic action; any number of handlers, UDP handshakes and kicks interleave freely
(an action that is not enabled is skipped, so every list of actions is a run). `SessionInvariants` proves who
owns each address and what becomes of each session, `NatInvariants` what the NAT table says about handlers,
`Kick` when the second cleanup of a kicked session is harmless, `Routing` that the two routing indexes agree.
`Pools`, `Sessions` and `Server` hold the objects themselves, with the source's keys (address text, 32-bit
number), proved against the same steps; `Server` also shows that an undisturbed call is its lock regions in a
row. `Addresses` and `Subnets` hold the address arithmetic.

**Replay protection.** `NonceCache` is the cache object; `CacheRefinement` proves that it answers exactly what a
plain history of adds would answer, and `CacheRuns` for which runs. `Numerals` and `Timestamps` are the texts and
the machine arithmetic of the drift check, `Authenticator` the validation of one handshake. `ReplayProtection`
lets Validate calls overlap as they may, each taking the cache's lock twice, and proves exactly when a nonce is
accepted at most once; `ReplayWindows` derives that for ordinary clients and says which requests can be repeated;
`Splicing` does the same for requests named by their MAC.

**The wire.** `Frames`, `Batches` and `Compression` are the codecs, `FlushDiscipline` the documented use of the
batch encoder, `Receiver` the receive loop, `Dialogue` and `Replies` what it sends back, and `Transparency` the
end-to-end statement: what a sender puts in is what the TUN device gets. `Bytes` holds big-endian integers and
flag bits.

Conventions. A byte is an integer below 256 and the source's bit operators on it are written as arithmetic.
Sequence numbers wrap at 2^32 and lengths are cut to 16 bits where the source converts them. Times are
nanoseconds. The clock, random padding, the MAC, the LZ4 block codec, what other goroutines draw and which
session ids are live are parameters; LZ4 is known only by its contract (`Compression.Codec.Lossless`). A session
id stands for the 16 random bytes of `generateSessionID`, taken to be unique. A connection is the list of
messages that `ReadMessage` returns and the list of messages sent; the TUN device is the list of packets written.

Where the code does less than it seems to promise, the model keeps the code and proves the exact boundary:

- the drift check passes differences above 9223372036 s, because the product with a second wraps
  (`Timestamps.DriftCheck`, and `Timestamps.DriftExactly` for every difference);
- a nonce is accepted twice exactly if some repeat that passes the other checks looks it up before the first call
  has recorded it, after its lifetime, or behind `maxSize` later adds (`ReplayProtection.AtMostOnceExactly`); in
  particular a request can be repeated after its lifetime if its timestamp was a full 30 s ahead of the clock,
  since `Unix` truncates to seconds while expiry does not, or so far off that the drift wraps
  (`ReplayWindows.AcceptedTwiceExactly`, `ReplayWindows.PassesAfterwardsExactly`);
- the MAC is computed over timestamp and nonce with nothing in between, so a request whose nonce starts with a
  decimal digit can be read as another pair, whose timestamp is ten times as large and wraps the drift: it is
  accepted a second time within a minute, as a fresh nonce, and for a MAC without collisions exactly those requests
  are (`Splicing.SplicedExactly`);
- a nonce added again can be forgotten by that very add, because eviction pops its stale first item: once per nonce
  is exactly how often adds are safe (`CacheRuns.RefinesExactly`), unless a cleanup follows the expiry before the
  nonce is added again (`CacheRuns.CacheRefinesHistory`);
- the late cleanup of a kicked session can remove another session's NAT entry once as many addresses have been
  handed out as were free right after the kick (`Kick.LateUnregisterExactly`);
- the NAT table stays free of dangling entries after a kick exactly if the kick does not find its session between
  `Insert` and `Register` (`NatInvariants.EarlyKickExactly`);
- packets of up to 5533 bytes can fill a batch that a frame's 16-bit length cannot hold
  (`FlushDiscipline.BudgetExact`);
- the stream reader does not skip padding, so it splits a stream correctly only if no frame is padded
  (`Frames.StreamRoundTrip`);
- every real IPv6 address has NAT key 0, so the NAT table works for IPv4 subnets only
  (`Routing.IndexesAgreeExactly`).

## Model

| member | source | states |
|---|---|---|
| SessionInvariants.RunInv | server/internal/tunnel/session.go:180-244 | every interleaving of creations, registrations, cleanups and kicks at lock granularity keeps the pool/session invariant |
| SessionInvariants.UsedIsHeldOnce | server/internal/tunnel/session.go:180-244 | in every reachable state the used addresses are exactly those of creations in progress, live sessions and removals in progress, each held once; `sessions` and `ipMap` describe the same sessions; free and used addresses partition the pool |
| SessionInvariants.ReleasedAtMostOnce | server/internal/tunnel/session.go:219-231 | each inserted session is live, or being released by exactly one of its cleanup calls, or released exactly once, however many threads remove it |
| SessionInvariants.LiveSessionsBounded | server/internal/tunnel/session.go:192-195 | in every reachable state live sessions and free addresses together never exceed the pool |
| NatInvariants.NatIsServing | server/internal/server/server.go:346-367 | without kicks, in every interleaving of WebSocket handlers and UDP handshakes, NAT[ip] = s exactly when s is between its Register and its Unregister, and then s is live and `ipMap` gives it for ip |
| NatInvariants.RoutesToServing | server/internal/tunnel/nat.go:25-40 | in every run whatsoever, kicks at any time included, a NAT entry belongs to a handler between its own Register and its own Unregister |
| NatInvariants.RoutesToLive | server/internal/server/server.go:611-636 | with kicks of registered sessions only, the NAT table never dangles: what it routes to is live, has that address and is what `ipMap` gives |
| NatInvariants.EarlyKickDangles | server/internal/server/server.go:353-367 | from every state in which a kick has found a session between its insertion and its Register, a run leaves the address free in the pool and routed to the removed session |
| NatInvariants.EarlyKickExactly | server/internal/server/server.go:346-367 | after any run with late kicks and any kick that could come next, the NAT table stays free of dangling entries in every continuation with late kicks if and only if that kick does not find its session before Register |
| NatInvariants.QuietMapsAgree | server/internal/tunnel/session.go:192-228 | in every state of a run without kicks in which no handler or cleanup is mid-way, the NAT table and `ipMap` are the same map, over pool addresses only |
| NatInvariants.UdpSessionsStay | server/internal/server/server.go:243-254 | without kicks a session started by a UDP handshake stays live and routed in every continuation, and its address never comes back to the pool |
| Kick.KickReleases | server/internal/server/server.go:629-636 | right after a kick of a registered session releases its address, the address is the last in the queue while the handler still counts on it |
| Kick.LateUnregisterHarmless | server/internal/server/server.go:358-358 | the handler's deferred Unregister after a kick changes nothing as long as fewer addresses were handed out since than were free right after the kick |
| Kick.LateUnregisterHurts | server/internal/server/server.go:611-614 | from every such state a run hands out exactly that many addresses, after which the late Unregister removes the NAT entry of another live session |
| Kick.LateUnregisterExactly | server/internal/server/server.go:611-636 | the bound is exact: harmless in every continuation with at most n allocations if and only if n is below the number of addresses free right after the kick |
| Kick.LateRemoveHarmless | server/internal/tunnel/session.go:220-231 | the rest of a late cleanup changes nothing: RemoveSession finds no session and no address is given back twice |
| Kick.PoolOfRun | server/internal/tunnel/session.go:337-364 | the pool of an interleaved run is the pool of its allocations and releases in order |
| Pools.IPPool.constructor | server/internal/tunnel/session.go:302-334 | the loop builds the pool addresses of the network, none of them used |
| Pools.IPPool.Allocate | server/internal/tunnel/session.go:337-350 | issues the front of the queue, or nothing when it is empty, and moves it to the used set; the text-keyed map is faithful to the addresses |
| Pools.IPPool.Release | server/internal/tunnel/session.go:353-364 | puts a used address at the end of the queue and ignores any other, whichever text key it has |
| Pools.RunConserves | server/internal/tunnel/session.go:337-364 | over any run of allocations and releases the queue has no duplicates, is disjoint from the used set, and together they are the initial set |
| Pools.PoolIsFIFO | server/internal/tunnel/session.go:345-363 | over any run, issued addresses followed by the final queue are the initial queue followed by the addresses taken back |
| Pools.QueuedInTurn | server/internal/tunnel/session.go:345-363 | the address at position k is issued by exactly the (k+1)-th allocation and stays queued until then |
| Pools.FreshPool | server/internal/tunnel/session.go:323-331 | a fresh pool satisfies conservation with at most 253 addresses |
| Subnets.PoolMembers | server/internal/tunnel/session.go:313-331 | the pool holds exactly the addresses of the base /24 with last octet 2 to 254 that the network contains, never the gateway and never an address with key 0 |
| Subnets.PoolCount | server/internal/tunnel/session.go:323-331 | ascending, each once; 253 for a prefix of at most 24, otherwise the block of 2^(32-prefix) octets clipped to 2..254 |
| Subnets.ContainsIsInterval | server/internal/tunnel/session.go:328-328 | masking with a contiguous mask is membership in an interval of last octets |
| Addresses.DottedInjective | server/internal/tunnel/session.go:194-194 | address text names an IPv4 address |
| Addresses.DottedText | server/internal/tunnel/session.go:194-194 | the text of an IPv4 address, plain or mapped, is its four octets in decimal, separated by dots |
| Addresses.To4Exactly | server/internal/tunnel/session.go:415-419 | the addresses that name an IPv4 address a are exactly a and ten zeros, FF FF and a |
| Addresses.TextNamesIPv4 | server/internal/tunnel/session.go:213-217 | any byte string has the text of an IPv4 address only if it is that address, plain or mapped; IPv6 text never collides |
| Addresses.KeyNamesIPv4 | server/internal/tunnel/session.go:415-421 | the 32-bit key names a nonzero IPv4 address, plain or mapped |
| Addresses.KeyBytes | server/internal/tunnel/session.go:415-421 | the key is the big-endian number of the four bytes, and 0 for any other address |
| Addresses.IPv4Destination | server/internal/tunnel/session.go:400-407 | the destination of an IPv4 packet is the address behind the source address of its header |
| Addresses.IPv6Destination | server/internal/tunnel/session.go:408-411 | the same for IPv6 packets |
| Addresses.NoDestination | server/internal/tunnel/session.go:400-413 | exactly the packets under 20 bytes, IPv6 packets under 40, and packets of any version but 4 and 6 have no destination |
| Sessions.NATTable.Register | server/internal/tunnel/nat.go:25-31 | adds the session under the number of its address, replacing what was there; the number-keyed map stays faithful to addresses |
| Sessions.NATTable.Unregister | server/internal/tunnel/nat.go:34-40 | removes exactly that address's entry |
| Sessions.NATTable.LookupByIP | server/internal/tunnel/nat.go:43-48 | finds the session that the address names, plain or mapped |
| Sessions.NATTable.LookupByPacketDst | server/internal/tunnel/nat.go:51-57 | finds the session whose address is the packet's destination, nothing for malformed packets |
| Sessions.SessionManager.constructor | server/internal/tunnel/session.go:165-177 | starts with the network's pool and no session |
| Sessions.SessionManager.CreateSession | server/internal/tunnel/session.go:180-203 | takes the front address and inserts the session in both maps; an exhausted pool or failed key inserts nothing and gives the address back |
| Sessions.SessionManager.GetSessionByIP | server/internal/tunnel/session.go:213-217 | finds the session that the address names, plain or mapped, by its text |
| Sessions.SessionManager.RemoveSession | server/internal/tunnel/session.go:220-231 | removes the session from both maps and releases its address; a missing id changes nothing |
| Sessions.SessionManager.RoutePacket | server/internal/tunnel/session.go:247-266 | chooses the session whose address is the packet's destination; too short, without a readable destination, and without a session are told apart |
| Sessions.TablesAgree | server/internal/tunnel/session.go:213-217 | a text-keyed and a number-keyed table of the same sessions choose the same session for every byte string, and its address is the packet's destination |
| Routing.IndexesAgree | server/internal/tunnel/nat.go:42-57 | for an IPv4 subnet, in every quiet state of a run without kicks, routing by `ipMap` and by the NAT table agree on every byte string, IPv6 and mapped destinations included |
| Routing.IndexesAgreeExactly | server/internal/tunnel/session.go:415-421 | one session is found alike by both indexes on all packets if and only if its 32-bit key is not 0 |
| Server.Server.constructor | server/internal/server/server.go:48-70 | starts in the initial state of the interleaving model |
| Server.Server.StartSession | server/internal/server/server.go:353-367 | creates a session on the front address and registers it; failure only moves the queue |
| Server.Server.CleanupSession | server/internal/server/server.go:611-614 | Unregister, then RemoveSession, on all five structures |
| Server.Server.KickSession | server/internal/server/server.go:629-636 | cleans up the session found by id, or reports that there is none and changes nothing |
| Server.StartIsRun | server/internal/server/server.go:243-254 | an undisturbed start is its three lock regions in a row |
| Server.FailedStartIsRun | server/internal/tunnel/session.go:180-191 | a start without a key is two lock regions that move the front address to the end of the queue; one on an empty pool changes nothing |
| Server.KickIsRun | server/internal/server/server.go:629-636 | an undisturbed kick is its four lock regions in a row |
| Server.CloseIsRun | server/internal/server/server.go:611-614 | so is a handler's deferred cleanup |
| NonceCache.Cache.Has | server/internal/auth/auth.go:104-117 | true exactly for an unexpired entry; deletes the entry it finds expired |
| NonceCache.Cache.Add | server/internal/auth/auth.go:119-133 | inserts, lists, and evicts from the front while over capacity |
| NonceCache.Cache.Cleanup | server/internal/auth/auth.go:139-156 | drops exactly the expired entries and the items without an entry |
| NonceCache.StructuredAdd | server/internal/auth/auth.go:119-133 | keeps the structure with duplicates allowed, and eviction always ends within `maxSize` |
| NonceCache.StructuredCleanup | server/internal/auth/auth.go:140-155 | keeps the structure, leaving no expired entry and no item without one |
| CacheRuns.RunStructured | server/internal/auth/auth.go:104-157 | over any run on an advancing clock every entry is backed by the last item for its nonce, items are sorted by expiry, and the map never exceeds `maxSize` |
| CacheRefinement.HasIsHistory | server/internal/auth/auth.go:104-117 | in a state that represents a log, has(n) at t holds if and only if n was added at some t0 with t <= t0+ttl and fewer than `maxSize` adds followed |
| CacheRefinement.EvictStep | server/internal/auth/auth.go:128-132 | one turn of the eviction loop keeps cache and log in step |
| CacheRuns.CacheRefinesHistory | server/internal/auth/auth.go:104-157 | the same after every run that adds a nonce again only after a cleanup has followed its expiry, wherever lookups, lazy deletions and other cleanup passes fall |
| CacheRuns.ReaddForgottenAtOnce | server/internal/auth/auth.go:125-132 | for every size above 0 and every lifetime, a run of two adds of one nonce and one add of each other, in which the second add forgets the nonce while the history remembers it |
| CacheRuns.RefinesExactly | server/internal/auth/auth.go:119-133 | every run that adds each nonce at most k times refines the history if and only if k is at most 1 or the cache has size 0 |
| CacheRuns.RememberedFor | server/internal/auth/auth.go:104-133 | in every run that adds each nonce at most once, a nonce added at t is found exactly up to t + ttl and behind fewer than `maxSize` further adds |
| Numerals.ParseExactly | server/internal/auth/auth.go:44-47 | the texts that parse to n are exactly an optional fitting sign, any zeros, and the decimal text of n, for n an int64; every other text is an error |
| Numerals.ParseFormatted | server/internal/auth/auth.go:44-47 | a formatted number parses back to itself if and only if it is an int64 |
| Numerals.ParseOneDigit | server/internal/auth/auth.go:44-47 | one character parses only if it is a digit, to its value |
| Numerals.ParseOneMore | server/internal/auth/auth.go:44-47 | a digit behind a positive number makes it ten times the number and the digit |
| Timestamps.DriftExactly | server/internal/auth/auth.go:48-52 | for every clock reading and timestamp: the check passes if and only if the difference, wrapped to 64 bits and rounded to float64, lies in the window of some multiple of 2^64 ns |
| Timestamps.UnixExactly | server/internal/auth/auth.go:48-48 | the clock in seconds is the whole second that the nanoseconds lie in |
| Timestamps.Float64Exactly | server/internal/auth/auth.go:49-49 | rounding to float64 gives the nearest multiple of the spacing, of two the even one |
| Timestamps.SameVerdict | server/internal/auth/auth.go:49-49 | the verdict does not depend on how the processor converts 2^63 back to an integer |
| Timestamps.DriftCheck | server/internal/auth/auth.go:48-52 | up to 584 years apart that is: at most 30 s, or above 9223372036 s |
| Timestamps.DriftInNanoseconds | server/internal/auth/auth.go:48-52 | the same in nanoseconds: the clock shows a time in [(ts - 30) * 10^9, (ts + 31) * 10^9), or one so far off that the product wraps |
| Authenticator.Authenticator.constructor | server/internal/auth/auth.go:33-38 | the cache holds 10000 nonces for 60 s each and starts empty |
| Authenticator.Authenticator.Validate | server/internal/auth/auth.go:42-75 | undisturbed, with its three clock readings: accepted if and only if timestamp, drift and MAC pass and the cache has no unexpired entry; in the exact range the drift passes exactly in [(ts - 30) * 10^9, (ts + 31) * 10^9) ns; each refusal is due to the first check that fails; the cache update of each outcome |
| ReplayProtection.AtMostOnceExactly | server/internal/auth/auth.go:42-75 | over every run of overlapping Validate calls and cleanup ticks on an advancing clock no nonce is accepted twice if and only if every repeat that passes the other checks looks its nonce up after the add, within the lifetime, and before `maxSize` further adds |
| ReplayProtection.VerdictExactly | server/internal/auth/auth.go:42-75 | in every such run, as long as no nonce has been accepted twice, a call is accepted if and only if it passes the other checks and the history of adds does not remember its nonce |
| ReplayProtection.RunTracks | server/internal/auth/auth.go:55-72 | in every such run the cache represents the log of adds |
| ReplayWindows.OwnCacheExactly | server/internal/auth/auth.go:15-24 | the exact bound on adds, and the run that forgets, at the cache's own size and lifetime |
| ReplayWindows.OwnCacheRemembers | server/internal/auth/auth.go:19-24 | in numbers, over every run that adds each nonce at most once: a nonce is found exactly up to 60 s after its add and behind at most 9999 further adds |
| ReplayWindows.RepeatAcceptedExactly | server/internal/auth/auth.go:54-72 | in every run, as long as no nonce has been accepted twice, a repeat that passes the other checks is accepted if and only if it looks up more than 60 s after the add or behind 10000 further adds |
| ReplayWindows.WithinLifetime | server/internal/auth/auth.go:48-52 | a reading that passes the drift check for a timestamp at most 28 s ahead of an earlier passing reading is at least a second within the nonce lifetime |
| ReplayWindows.OrdinaryOnce | server/internal/auth/auth.go:42-75 | no nonce, hence no signed pair, is accepted twice if each nonce is signed under one timestamp, in the exact range and at most 28 s ahead, calls look up within a second and record before the next call with the nonce, and fewer than `maxSize` adds follow within the lifetime |
| ReplayWindows.OverlappingAccepted | server/internal/auth/auth.go:55-72 | a repeat whose lookup comes before the first call has recorded the nonce is accepted too, in every run in which no nonce has been accepted twice before |
| ReplayWindows.ReplayWindow | server/internal/auth/auth.go:15-24 | a reading after the nonce's expiry can still be within 30 s of the timestamp if and only if the timestamp was a full 30 s ahead and the first reading not in the last nanosecond of a second |
| ReplayWindows.AcceptedTwiceExactly | server/internal/auth/auth.go:48-57 | every request that is let through is accepted again in the second after its nonce expired if and only if its timestamp passes the drift check at the end of that second, or, off the last nanosecond of a second, at its start |
| ReplayWindows.PassesAfterwardsExactly | server/internal/auth/auth.go:48-52 | up to 584 years off that is: exactly 30 s or 9223372097 s ahead and not in the last nanosecond of a second, at least 9223372037 s behind, or at least 9223372098 s ahead |
| Splicing.SplicedAccepted | server/internal/auth/auth.go:59-60 | for clocks of 2004 to 2033, a timely request whose nonce starts with a digit is accepted again at any moment of the next minute, its first nonce character counted to the timestamp |
| Splicing.SplicedExactly | server/internal/auth/auth.go:59-67 | for a MAC without collisions and clocks of 2004 to 2033, another reading of a timely request is accepted within a minute if and only if its nonce starts with a decimal digit |
| Splicing.RequestOnceExactly | server/internal/auth/auth.go:59-67 | for a MAC without collisions, every run with timestamps in the exact range that accepts no nonce twice accepts no request twice if and only if no timely timestamp is ten times another |
| Splicing.OrdinaryRequestsOnce | server/internal/auth/auth.go:42-75 | ordinary clients of this era get no request accepted twice |
| Frames.Encode | server/internal/protocol/frame.go:141-176 | fills the buffer with header, payload and, under the flag, padding and its length |
| Frames.WireFormat | server/internal/protocol/frame.go:47-57 | the position and byte order of every header field and of the payload |
| Frames.WireBytes | server/internal/protocol/frame.go:141-176 | every byte of an encoded frame, for every frame: fields cut to their width, payload, padding and its length |
| Frames.Decode | server/internal/protocol/frame.go:179-219 | returns the frame that the message carries, or an error exactly if it carries none |
| Frames.DecodedBytes | server/internal/protocol/frame.go:179-219 | byte by byte, what Decode returns, and each of its five errors with its exact condition |
| Frames.DecodeExactly | server/internal/protocol/frame.go:179-219 | decoding gives f if and only if header and payload of f come first and the announced padding fits |
| Frames.FrameRoundTrip | server/internal/protocol/frame.go:141-219 | Decode undoes Encode for every random padding if and only if the frame has version 2, type < 16 and payload <= 65535 |
| Frames.DecodeReencodes | server/internal/protocol/frame.go:179-219 | re-encoding whatever Decode accepts gives back the header and payload bytes received |
| Frames.DecodeFromReader | server/internal/protocol/frame.go:222-257 | takes one frame off a stream, or fails on a short header or payload, and consumes what the source consumes |
| Frames.TakenExactly | server/internal/protocol/frame.go:222-246 | succeeds exactly on streams that start with a frame's header and payload |
| Frames.TakenErrors | server/internal/protocol/frame.go:222-246 | fails on a short header or payload, exactly then, and has used up the stream |
| Frames.ReadAll | server/internal/protocol/frame.go:222-257 | reading frames until the stream ends computes the recursive split, error included |
| Frames.StreamRoundTrip | server/internal/protocol/frame.go:222-257 | reading a concatenation of encoded frames gives exactly those frames with nothing left over if and only if every frame fits the header and none is padded |
| Frames.ReaderAgreesWithDecode | server/internal/protocol/frame.go:222-257 | on a message that Decode accepts the stream reader takes the same frame |
| Batches.BatchEncoder.Add | server/internal/protocol/batch.go:59-63 | appends, keeps size the sum of len+2, and asks for a flush exactly at 64 packets or 60000 bytes |
| Batches.BatchEncoder.Flush | server/internal/protocol/batch.go:67-89 | returns the encoding of the collected packets, nothing for none, and empties the encoder |
| Batches.BatchEncoder.Reset | server/internal/protocol/batch.go:97-100 | empties the encoder |
| Batches.DecodeBatch | server/internal/protocol/batch.go:103-133 | the parser loop computes the recursive parse, with the source's error for each failure |
| Batches.ParseExactly | server/internal/protocol/batch.go:103-133 | parsing gives ps if and only if ps is 1 to 64 packets of at most 65535 bytes and the payload starts with their encoding |
| Batches.BatchRoundTrip | server/internal/protocol/batch.go:67-133 | DecodeBatch undoes Flush if and only if there are 1 to 64 packets of at most 65535 bytes |
| Batches.StrictPrefixRefused | server/internal/protocol/batch.go:116-125 | a batch cut short anywhere is refused |
| Batches.RefusedExactly | server/internal/protocol/batch.go:103-133 | each error of DecodeBatch and its exact condition: no count, a count outside 1 to 64, or a payload that breaks off behind the number of packets that the error says |
| Batches.ParseReencodes | server/internal/protocol/batch.go:103-133 | re-encoding a successful parse gives a prefix of the input; trailing bytes change nothing |
| FlushDiscipline.FeedEncoder | server/internal/protocol/batch.go:59-89 | an encoder fed a stream and flushed when it asks returns exactly the payloads of `Flushes`, and keeps what `Flushes` leaves pending |
| FlushDiscipline.FlushesConserve | server/internal/protocol/batch.go:59-89 | so it loses, duplicates and reorders nothing |
| FlushDiscipline.FlushedWhenDue | server/internal/protocol/batch.go:59-63 | each flushed batch is due and was not due without its last packet |
| FlushDiscipline.BudgetExact | server/internal/protocol/batch.go:35-39 | a packet size limit keeps every flushed batch within 64 packets and a frame's 16-bit length, for every stream, if and only if it is at most 5532 bytes |
| Compression.CompressedExactly | server/internal/protocol/batch.go:137-164 | a frame is compressed if and only if its payload has at least 256 bytes and the codec makes a nonempty block of less than nine tenths of it; the payload is then the big-endian length and the block |
| Compression.DecompressedExactly | server/internal/protocol/batch.go:167-193 | what decompression returns for every frame, and each error with its condition |
| Compression.CompressionGains | server/internal/protocol/batch.go:137-164 | so the result is the frame itself or one flagged compressed whose payload saves at least 10% and is strictly shorter with its length field; a raw fallback is never flagged |
| Compression.CompressionRoundTrip | server/internal/protocol/batch.go:137-193 | decompression undoes compression if and only if the frame went raw or its payload is at most 65535 bytes |
| Compression.PipelineIdentity | server/internal/protocol/batch.go:137-193 | compress, encode, decode, decompress is the identity on frames with the flag clear if and only if they have version 2, type < 16 and payload <= 65535 |
| Receiver.HandleData | server/internal/server/server.go:480-502 | writes the packets of one DATA frame to the TUN device, none for an empty or malformed one |
| Receiver.HandleControlFrame | server/internal/server/server.go:529-555 | answers a Ping, closes on Disconnect, ignores the rest |
| Receiver.HandleMessage | server/internal/server/server.go:462-524 | one turn of the loop does what its message asks for, nothing for an undecodable one |
| Receiver.ClientReadLoop | server/internal/server/server.go:452-526 | the loop does so for every message in order |
| Receiver.Session.NextSeq | server/internal/tunnel/session.go:94-96 | returns the number before plus one, and 0 after 2^32 - 1 |
| Dialogue.DispatchExactly | server/internal/server/server.go:480-554 | what a received frame asks for, in wire numbers: delivery exactly for type 1, Pong exactly for type 3 with first byte 8, closing exactly for type 3 with first byte 5, keepalive exactly for type 5, the migration reply exactly for type 6 with a live session id |
| Dialogue.DialogueExactly | server/internal/server/server.go:452-526 | over every inbox the loop sends back exactly, byte by byte, what the received frames ask for before the first Disconnect, each reply under the next sequence number |
| Dialogue.RepliesCounted | server/internal/server/server.go:507-514 | one reply per frame that asks before the first Disconnect |
| Dialogue.DrawnExactly | server/internal/tunnel/session.go:94-96 | the k-th draw is the start plus k, modulo 2^32; k itself in a fresh session |
| Dialogue.RepliesCountUp | server/internal/tunnel/session.go:94-96 | bytes 4 to 7 of the k-th reply of a fresh session are the number k where no other goroutine draws |
| Replies.ReplyTrace | server/internal/server/server.go:507-514 | a client reads in the replies, as frames of version 2 without flags, exactly the answers to Pings, keepalives and answerable Migrates before the first Disconnect, in order, each numbered by its draw |
| Replies.RepliesNumbered | server/internal/tunnel/session.go:94-96 | no two replies carry the same number while the session's goroutines draw at most 2^32 numbers between them |
| Replies.DrawsCollide | server/internal/tunnel/session.go:94-96 | two draws carry the same number if and only if they are a multiple of 2^32 apart |
| Replies.PongDue | server/internal/server/server.go:541-546 | a Pong with given data is due if and only if the message carries a Ping with that data |
| Replies.PingIsAnswered | server/internal/server/server.go:541-546 | a Ping sent padded, compressed or plain is answered with its own data |
| Transparency.DataDelivered | server/internal/server/server.go:480-502 | one DATA message, single or batch, compressed or padded at will, delivers exactly its packets |
| Transparency.NoiseIgnored | server/internal/server/server.go:464-477 | an undecodable, non-DATA, empty or malformed message delivers nothing |
| Transparency.TruncatedBatchIgnored | server/internal/server/server.go:486-491 | a batch frame whose payload lost its end contributes no packet at all |
| Transparency.TunWrites | server/internal/server/server.go:452-526 | the TUN writes of a run are those of its messages in order, whatever replies and disconnects happen |
| Transparency.EndToEnd | server/internal/server/server.go:452-526 | over every stream mixing single packets, batches and any other messages, the TUN writes are the sender's packets in order |
| Transparency.BatchedStreamArrives | server/internal/protocol/batch.go:45-89 | any stream of packets of at most 5532 bytes, batched under the flush discipline and sent in any frames, arrives unchanged |

## Left out

- Authenticator.Authenticator.Validate: runs undisturbed as a method; overlapping calls are the runs of `ReplayProtection`, whose events are its two lock regions.
- Splicing.SplicedExactly: takes the MAC to have no collisions, and a timestamp within 30 s of the clock; for timestamps that already wrap the drift, shorter readings can pass as well, and nothing exact is claimed.
- Splicing.SplicedAccepted: does not cover clocks outside 2004 to 2033, for which one digit more does not wrap the drift once.
- ReplayWindows.PassesAfterwardsExactly: gives numbers up to 584 years; beyond, `Timestamps.DriftExactly` says which differences pass.
- Pools.IPPool.constructor: IPv4 networks only; sessions of an IPv6 network all have NAT key 0 (`Routing.IndexesAgreeExactly`), so IPv6 pools are left out with the tables over them.
- Pools.IPPool.Release: takes 4-byte addresses only, which is what an IPv4 pool hands out and all that the server gives back.
- Sessions.SessionManager.constructor: IPv4 networks only, as its pool.
- Server.Server.constructor: IPv4 networks only, as its pool.
- NetworkOf: starts from a parsed address and prefix; the text form of a CIDR is not parsed.
- SessionManager: the session's key, timestamps, connection list and UDP fields, and closing the connections on removal, are not part of this model.
- RoutePacket: ends with the choice of the session; sending through it is left out, as are logging and the Debug and Warn messages everywhere.
- BatchEncoder: packets are values, so a caller that changes a slice after Add is not modelled.
- Receiver: TUN write errors are ignored as in the source; after a Disconnect the loop still handles what ReadMessage returns, and writes to the closed connection send nothing.
- UDP data packets (`awgReadLoop`, branch H4): the session is picked by map order, so nothing is claimed.
- The AWG packet encoding, session keys and the AEAD: easy once the cipher is abstract.
- HTTP, WebSocket upgrade, TUN and iptables set-up, configuration, the panel, its database and logs: plumbing.
- PaddingGenerator, NormalizeSize, jitter and random intervals: single-loop facts that would add only easy members.
- sendInitialControls: a fixed list of control frames; its sequence draws count among the foreign draws.
- MaxClients, traffic limits and key expiry: stored but not enforced in the files modelled.

# ticketconnect in Dafny

A model of the session pool, the agent's wire protocol, the remote-call primitive, the
install sequence, the freeze/release protocol and symbol resolution of ticketconnect,
with proofs. `dafny verify dfyconfig.toml` checks the whole project.

Everything outside the programs is an input that the results quantify over:

- clock, session source and allocator are functions of "the k-th call" (`PoolSpec.Env`);
- a connection is the peer's byte stream with a schedule of interrupted, failing and partial
  transfers (`Streams.Conn`); when a finite schedule is used up, calls transfer all they can,
  so schedules cover every run in which the read and write loops end;
- the kernel's answers to ptrace requests, the wait statuses, and what the target does to its
  registers and memory whenever it runs, are functions of "the k-th request" (`Target.Oracle`);
- the probe, its stop signal and the injector's steps interleave freely (`Freeze.Step`).

| file | content |
|---|---|
| Bytes, Words | C strings, big-endian lengths, 64-bit arithmetic with masks, little-endian words |
| PoolSpec, PoolLedger, PoolLaws | the pool on values, what every run keeps, what each operation means |
| Pool | the linked list of destinations with arrays compacted in place, refining PoolSpec |
| Wire, Streams, ServerSpec, Server, Client, Exchange | frames, partial I/O, one connection, runs of connections, both ends together |
| Target, Remote, Install, Injector | the traced target, one remote call, the install script, one ring record with its symbol lookups |
| Daemon | agent and injector together, over any number of ring records |
| Freeze | the uprobe, the ring and the injector as a transition system |
| Symbols, FileKey | library choice and symbol lookup, identity of probed files |

The main results, in the system's own terms:

- *Ownership.* After any calls, under any clock, source and allocator, the DER buffers are the
  source's answers to different calls, and each is in exactly one place: one slot, one caller's
  hands, or freed once (`PoolLedger.EveryRunConserves`). The heap pool follows the same states although compaction
  leaves stale copies of pointers above `count` (`Pool.Pool.*`), and `World.Free` accepts live
  buffers only, so no free is a double one.
- *Single use.* Over every sequence of connections a session is popped for at most one of
  them, for the destination it was sourced for, unexpired at the clock value read, and never
  returns to the pool (`ServerSpec.ServeLaw`, `ServerSpec.SingleUse`, `ServerSpec.NothingLeaks`);
  no answer of the source reaches two connections (`ServerSpec.AnswerOnce`).
- *Remote call.* For every behaviour of kernel and target, the requests of a call are a record
  from which its set-up, its result and its success can be read; registers and trap word are put
  back when the restoring requests succeed, the target is resumed at most 17 times, and memory
  changes only in the trap word, the pushed word and where the target itself wrote while this
  call ran it (`Remote.RemoteCall`).
- *Install.* At every point of failure the target's requests are those of a script of calls, with
  nothing else run in the target (`Install.InjectSession`, `Install.ScriptRuns`): one detach per
  successful seize, one unmap per successful map, exact reference counts, and success exactly when
  the set succeeded (`Install.ScriptUnmaps`, `Install.ScriptRefs`, `Install.ScriptSucceeds`).
- *End to end.* Over any number of ring records, with any other clients served in between, against
  a pool that has served any connections before, and with calls failing on either side: a record
  reported as RESUMED installed the DER that the source gave for the destination, unexpired when it
  was taken, by new requests in the log of its own target at the symbols resolved for it; and no
  answer of the source was installed for two records (`Daemon.HandleAll`).
- *Freeze.* Over every run, pending events and SIGCONTs that undid no stop add up to stops in force
  and stops that were swallowed (`Freeze.FreezeSafety`). A target is held exactly while one event of
  its own is pending, throughout a run, if and only if no stop is swallowed and no SIGCONT precedes
  its SIGSTOP (`Freeze.HeldExactly`). No target is left stopped for good if and only if no SIGCONT for
  a target's only pending event precedes its SIGSTOP (`Freeze.ReleasedExactly`).

Where code and documentation differ, the model follows the code:

- `pool_maintain` is documented to return the available depth and returns the stored count; the
  two agree exactly when the survivors and the answers it will store outlive the next clock
  reading (`PoolLaws.MaintainReports`), which for a clock that stands still means that every stored
  lifetime is positive (`PoolLaws.MaintainReportsStill`, `PoolLaws.MaintainOverReports`).
- The probe submits its event before it sends SIGSTOP, so a fast release can be lost and leave
  the target stopped for good (`Freeze.RaceStrands`, `Freeze.ReleasedExactly`).
- `remote_call` resumes its target without the signals that stop it, so an install can swallow the
  SIGSTOP that was to hold the target, which then runs with its event pending (`Freeze.SwallowFrees`,
  `Freeze.HeldExactly`).
- `injector_seize` can fail after it has attached, and then nobody detaches
  (`Install.InjectorSeize`, `Install.SeizeCanLeaveAttached`).
- `find_library` combines the base of the last offset-0 mapping with the path of the first, and
  without an offset-0 mapping takes the lowest one as if it were. For every map the address is right
  exactly when the base line starts where the loader put the named file (`Symbols.ResolvesExactly`).
  If the path line has offset 0 and starts where the loader put its file, that is when the two lines
  start at the same place (`Symbols.LibrariesMix`, `Symbols.TwoLibrariesMix`). If both come from one
  line, as in the fallback, it is when the segment that line maps starts at the address the code
  subtracts (`Symbols.OneLineExactly`, `Symbols.FallbackExactly`), which can fail with offset 0 and
  without (`Symbols.FirstPageWrong`, `Symbols.FallbackWrong`).
- `write_mem` compares with `(ssize_t)n`, so for a length of -1, and for no other, it reports
  success without having written (`Install.WriteAll`). An agent that announces 2^32 - 1 bytes of DER
  leads there (`Injector.MinusOneHeard`, `Injector.MinusOneWritesNothing`).
- `scan` looks at the size of its table only after it has stored an entry, so it stays within the
  table exactly under the condition of `FileKey.ScanWithinTable`. A scan that meets 512 files fills
  the table, and the next one that meets a new file stores a 513th entry (`FileKey.ScanOverfills`,
  `FileKey.ScanLeavesTable`).
- `remote_call` takes any SIGTRAP stop for its return trap. `Remote.RemoteCall` says exactly this:
  it reports success when the last wait was a SIGTRAP stop. That such a stop means the callee
  returned is a property of the target and is not claimed.

## Model

| member | source | states |
|---|---|---|
| PoolLedger.EveryRunConserves | ticket-agent/pool.c:50-188 | after any calls from the empty pool the buffers are the source's answers to different calls, each is in exactly one of slot, hand-out, eviction, and destroying the pool frees each one not handed out exactly once and no other |
| PoolLedger.RunKeeps | ticket-agent/pool.c:74-188 | every run keeps distinct keys, stacks no deeper than the target, conservation of buffers, and entries equal to what the source answered, call by call, for that destination |
| PoolLedger.SurvivorsFilter | ticket-agent/pool.c:109-125 | eviction keeps exactly the entries with `expires_at > now`, in increasing index order |
| PoolLedger.SurvivorsAll | ticket-agent/pool.c:109-125 | eviction keeps the length exactly when everything is unexpired, and then changes nothing |
| PoolLedger.EvictionSplits | ticket-agent/pool.c:109-125 | the buffers before eviction are those kept plus those freed, counted with multiplicity |
| PoolLedger.EvictKeeps | ticket-agent/pool.c:109-125 | eviction preserves the whole invariant |
| PoolLedger.MaintainKeeps | ticket-agent/pool.c:127-154 | `pool_maintain` preserves the whole invariant |
| PoolLedger.GetKeeps | ticket-agent/pool.c:166-188 | `pool_get` preserves the whole invariant |
| PoolLedger.SlotsDistinct | ticket-agent/pool.c:108-124 | two slots of `[0,count)` never hold the same pointer |
| PoolLedger.SlotIsLive | ticket-agent/pool.c:50-54 | a buffer in a slot was neither handed out nor freed |
| PoolLaws.FillLaw | ticket-agent/pool.c:135-153 | filling only appends, calls the source once per new entry, and once more exactly when it stopped short, on a failure; at most depth minus survivors entries |
| PoolLaws.FillEntry | ticket-agent/pool.c:136-151 | the i-th new entry holds length, flag and group of the i-th answer of the source in the next buffer, and expires that answer's lifetime after its own clock reading, or at that reading if the lifetime is not positive |
| PoolLaws.MaintainLaw | ticket-agent/pool.c:127-154 | nothing happens to a destination that cannot be interned; otherwise survivors stay a prefix and source calls equal new entries plus one iff short; other destinations are unchanged |
| PoolLaws.MaintainFills | ticket-agent/pool.c:127-154 | with a source that never fails an interned destination reaches the target depth |
| PoolLaws.MaintainStores | ticket-agent/pool.c:127-154 | from the state before the call: how many answers will be stored, on top of which survivors, each with the length, flag, group and lifetime the source gave, counted from its own clock reading |
| PoolLaws.MaintainReports | ticket-agent/pool.c:150-153 | the returned count is the available depth exactly when every survivor and every answer that will be stored outlives the next clock reading |
| PoolLaws.MaintainReportsStill | ticket-agent/pool.c:150-153 | with a clock that stands still, exactly when every answer stored has a positive lifetime |
| PoolLaws.MaintainOverReports | ticket-agent/pool.c:150-153 | a source with zero lifetimes: one reported, none available |
| PoolLaws.DepthCounts | ticket-agent/pool.c:156-164 | the depth is the number of entries unexpired at the clock value read |
| PoolLaws.GetMisses | ticket-agent/pool.c:169-176 | a miss exactly when nothing unexpired is left at the clock value read |
| PoolLaws.GetPops | ticket-agent/pool.c:178-187 | a hit is the newest unexpired entry, holding what the source answered for this destination, and never handed out before; the rest stays in order |
| PoolLaws.RunElsewhere | ticket-agent/pool.c:74-188 | a run that does not touch a destination leaves its stack as it was |
| Pool.World.Free | ticket-agent/pool.c:50-54 | only an allocated buffer may be freed, and exactly that one goes |
| Pool.Dest.KeepOrClear | ticket-agent/pool.c:114-122 | one turn of the compaction loop: the entry is kept at the write index, or its buffer is freed |
| Pool.Dest.EvictExpired | ticket-agent/pool.c:109-125 | in-place compaction leaves below `count` the filter of what was there, and frees exactly the expired buffers |
| Pool.Dest.ClearAll | ticket-agent/pool.c:64-66 | clearing the slots below `count` frees their buffers and nothing else |
| Pool.Pool.constructor | ticket-agent/pool.c:35-48 | a new pool is empty, with a target depth of at least one |
| Pool.Pool.DestFind | ticket-agent/pool.c:74-82 | list search agrees with the map: a node with that name iff the key is present |
| Pool.Pool.DestIntern | ticket-agent/pool.c:84-106 | interning refines the map operation, including the length limit and both allocation failures |
| Pool.Pool.Store | ticket-agent/pool.c:136-151 | storing into the slot at `count` refines pushing, whatever the slot held before |
| Pool.Pool.Maintain | ticket-agent/pool.c:127-154 | the heap operation moves the abstract state by PoolSpec.Maintain and returns its count |
| Pool.Pool.Depth | ticket-agent/pool.c:156-164 | the heap operation moves the abstract state by PoolSpec.Depth and returns its count |
| Pool.Pool.Get | ticket-agent/pool.c:166-188 | the heap operation moves the abstract state by PoolSpec.Get and hands out pointer, length, flag and group of the popped entry |
| Pool.Pool.Destroy | ticket-agent/pool.c:56-72 | after `pool_free` exactly the buffers handed out and not freed by their receivers are allocated |
| Bytes.U32RoundTrip | ticket-agent/uds.c:54-65 | decoding a big-endian length undoes encoding it |
| Bytes.U32Order | ticket-agent/uds.c:54-65 | the most significant byte comes first |
| Wire.ParseRequestExact | ticket-agent/uds.c:67-90 | a frame parses exactly when it is the request for some payload of 1 to 255 bytes that fits |
| Wire.ParseRequestCodes | ticket-agent/uds.c:67-90 | which error code is returned, for every buffer: the first that applies |
| Wire.RequestBytes | ticket-agent/uds.c:230-235 | the request byte by byte, and what the parser makes of it for every payload: the bytes before the first NUL |
| Wire.RequestRoundTrip | ticket-agent/uds.c:230-235 | a NUL-free destination comes out of the parser as it went in |
| Wire.FramesWellFormed | ticket-agent/uds.c:92-96 | every frame the server builds announces exactly the bytes that follow |
| Wire.FrameBytes | ticket-agent/uds.c:92-145 | the status and OK frames byte by byte |
| Wire.OkRoundTrip | ticket-agent/uds.c:241-281 | the client recovers group, 0/1 flag, length and DER and consumes exactly the frame, whatever follows it |
| Wire.AnyAnswerRead | ticket-agent/uds.c:256-281 | an OK answer with any flag and group: DER whole, length as an int, flag as sent, group to its first NUL and cut to the buffer |
| Wire.ParseAnswerTotal | ticket-agent/uds.c:241-272 | for any bytes: a refusal exactly for a header with a status other than 0, a session exactly for a complete OK answer and memory, else a transport error |
| Wire.StatusRoundTrip | ticket-agent/uds.c:250-254 | a status other than OK is returned as it was sent |
| Streams.Conn.ReadExact | ticket-agent/uds.c:17-35 | under any fragmentation: 1 with exactly the next n bytes, 0 only at the end of input, -1 only after a failing call; the rest of the buffer is untouched |
| Streams.Conn.WriteAll | ticket-agent/uds.c:37-52 | under any fragmentation: all data in order, or a prefix after a failing call |
| ServerSpec.ServeTotal | ticket-agent/uds.c:98-118 | silence exactly when the stream ends inside the header or the destination of an acceptable header, else one well-formed frame; for a wrong magic or version, an empty destination or a complete frame with another operation it is the ERROR frame, byte by byte, and the pool is untouched |
| ServerSpec.HearIgnoresRest | ticket-agent/uds.c:100-111 | bytes after the request make no difference |
| ServerSpec.HearExact | ticket-agent/uds.c:98-118 | a stream asks for a destination exactly when it begins with a GET frame, for the bytes before the first NUL, and is malformed exactly when no request begins like it |
| ServerSpec.ConsumedLeast | ticket-agent/uds.c:100-111 | no byte is read that the answer does not need |
| ServerSpec.ServeLaw | ticket-agent/uds.c:120-150 | one connection takes at most one buffer: unhanded, an answer of the source for the destination asked for, whose lifetime since it was stored had not passed at the clock value read; the reply carries that answer's DER, group and flag, or ERROR without memory, and then nothing is refilled; no other reply is OK, and MISS is the reply exactly when a destination was asked for and nothing popped; other destinations are left alone, and a stream that asks for nothing leaves the pool unchanged |
| ServerSpec.ServeKeeps | ticket-agent/uds.c:98-151 | serving preserves the pool's invariant |
| ServerSpec.SingleUse | ticket-agent/uds.c:120-150 | over every sequence of connections a popped buffer is never popped again and is in no stack ever after |
| ServerSpec.ServedFromSource | ticket-agent/uds.c:120-150 | over every sequence of connections what one is served with is the source's answer to a call for the destination it asked for |
| ServerSpec.AnswerOnce | ticket-agent/uds.c:120-150 | no two connections are served with the source's answer to the same call |
| ServerSpec.NothingLeaks | ticket-agent/uds.c:132-150 | between connections the allocated buffers are exactly those in the pool |
| ServerSpec.ServeRefills | ticket-agent/uds.c:124-150 | after OK or MISS with a source that does not fail, an interned destination holds the target depth |
| ServerSpec.HitExactly | ticket-agent/uds.c:124-128 | a request pops a session exactly when one on the stack is unexpired then |
| ServerSpec.HealedThenHit | ticket-agent/uds.c:124-150 | after a refill and any operations on other destinations, the next request hits iff one of the depth entries is unexpired |
| ServerSpec.EndToEnd | ticket-agent/uds.c:98-151 | in every reachable state the client's reading of the server's answer is what the source answered to a call for the destination asked for, unexpired, or the explicit refusal |
| Server.PutU32Into | ticket-agent/uds.c:54-60 | writes the four bytes of the length and no others |
| Server.BuildOk | ticket-agent/uds.c:130-145 | the buffer filled field by field is the OK frame |
| Server.ReadRequest | ticket-agent/uds.c:100-118 | reads a request in whatever pieces it arrives, and no byte beyond it |
| Server.HandleConn | ticket-agent/uds.c:98-151 | moves the pool by ServerSpec.Serve of the bytes consumed and sends that reply, whole unless a call failed |
| Client.UdsGet | ticket-agent/uds.c:202-282 | an answer that is not a transport error is the one the agent's bytes spell out; without failing calls it always is, consuming exactly them |
| Exchange.Ask | ticket-agent/uds.c:98-282 | client against server with both sides' I/O cut up in any way: the client sees exactly the source's answer behind the popped session or the refusal, and reads exactly what was sent |
| Words.RoundUpLeast | injector/install.c:25-28 | for a power of two, absent overflow, the masked sum is the least multiple not below the argument |
| Words.AndMask | injector/install.c:25-28 | masking with the complement of 2^k - 1 clears exactly the low k bits |
| Install.LayoutExact | injector/install.c:50-63 | DER and pointer cell are disjoint and inside the mapping exactly when der_len + 16 + 4095 does not overflow |
| Install.LayoutLeast | injector/install.c:50-61 | the cell is at the least multiple of 8 from der_len on, the mapping the least multiple of 4096 from der_len + 16 on |
| Install.CellAligned | injector/install.c:61 | the pointer cell is 8-aligned on every page-aligned base |
| Remote.CallSpAligned | injector/remote.c:98-108 | the callee sees rsp % 16 == 8; the pushed word lies 264 to 279 bytes below rsp, clear of the red zone, exactly for rsp >= 272; below that it wraps around |
| Target.PatchOneByte | injector/remote.c:52-64 | patching a word through peek and poke changes the addressed byte and no other |
| Target.PokeRestores | injector/remote.c:149-157 | writing back the saved word restores its eight bytes |
| Remote.PokeByte | injector/remote.c:52-64 | on success one byte is planted and the old word reported; otherwise memory is unchanged |
| Remote.RunToTrap | injector/remote.c:115-141 | at most 17 resumptions; ends at a SIGTRAP stop, at the target's death, or after a refusal or the seventeenth other stop |
| Remote.RemoteCall | injector/remote.c:66-159 | the requests made are the record of one call: before the first of at most 17 resumptions rip, six arguments and rsp are set and every other register is as it was, the return address pushed and int3 planted; success and result read off the record, failure only by death, refusal or the bound; registers and trap word restored; memory changed only in trap word, pushed word and where the target wrote during this call; for every behaviour of kernel and target |
| Install.WriteAll | injector/install.c:17-23 | success exactly when the whole buffer was written or the length is -1, and for -1 nothing is written |
| Injector.MinusOneHeard | ticket-agent/uds.c:258-276 | a header announcing 2^32 - 1 bytes gives the client the length -1 |
| Injector.MinusOneLayout | injector/install.c:50-61 | for that length one page is mapped and the pointer cell lies on top of the DER |
| Injector.MinusOneWritesNothing | injector/install.c:17-23 | write_mem then reports success and memory is unchanged |
| Install.InjectorSeize | injector/remote.c:25-45 | succeeds exactly when attach, interrupt and stop do; leaves the target attached exactly when the attach was accepted |
| Install.InjectSession | injector/install.c:30-91 | no request without all five symbols; exactly one seize, and one detach iff seized, as the last request; every request between them belongs to the script, whose calls are records in the log for the resolved symbols, back to back, with the staging writes in their place; a surviving, restored target differs only where its own code wrote during the calls, in the pushed word and in the scratch buffer |
| Install.SeizeCanLeaveAttached | injector/remote.c:27-43 | a refused interrupt: the attempt fails and the target stays attached |
| Install.ScriptRuns | injector/install.c:50-87 | whenever the target is resumed it is within one call of the script, entered at the resolved symbol with the call's arguments; a completed call's result was read after it ran |
| Install.ScriptArgs | injector/install.c:50-87 | the calls of a script in order with their six argument words, and which of them are made |
| Install.StagedMeans | injector/install.c:61-66 | staged means the DER written whole at scratch and the eight bytes of the number scratch in the cell |
| Install.ZoneInside | injector/install.c:50-66 | absent overflow, the injector writes only inside the region it mapped |
| Install.ScriptUnmaps | injector/install.c:52-89 | every region the target's mmap returned is unmapped once, with the same address and length, as the last call, and no other is; that call enters the target's munmap unless the target could not be resumed |
| Install.ScriptRefs | injector/install.c:68-84 | the injector keeps a reference exactly when its free did not complete, the SSL has one exactly on success, no other session has any; completed calls are ones the target went through |
| Install.ScriptSucceeds | injector/install.c:58-84 | rc is 0 iff every stage succeeded and the set returned the int 1; then DER and pointer were staged and the target went through d2i on them and through the set with d2i's result |
| Injector.OnEvent | injector/main.c:189-216 | one line and one SIGCONT for every full record; a MISS leaves the target untouched; otherwise the five symbols are looked up, without all of them nothing is requested; else there is one seize, at most 85 resumptions, and an install script with the only detach whenever the target could be seized; RESUMED exactly when its set succeeded; a surviving, restored target is left as it was but for its own writes, the pushed word and the scratch buffer |
| Injector.ResolveAll | injector/install.c:34-38 | mmap and munmap are looked up in "libc.so", d2i_SSL_SESSION, SSL_set_session and SSL_SESSION_free in "libssl.so", each for its own call |
| Injector.NoLibrary | injector/install.c:39-42 | a library missing at any lookup leaves the symbols unresolved |
| Injector.EntersAtBias | injector/remote.c:89-96 | an entered call runs at the load bias plus the symbol's value exactly when its lookup's base line starts where the loader put the file |
| Daemon.GotIsSource | ticket-agent/uds.c:98-282 | whatever part of a request the agent heard and whatever part of its reply went out, a session the client makes of it is the one the source gave for the destination, with the length of its DER |
| Daemon.Handle | injector/main.c:189-216 | one record against the agent's pool, after any other clients and with calls failing on either side: one line and SIGCONT, at most one connection; RESUMED means that new requests in the log of the record's target, at the symbols resolved for it, are a successful script for the source's DER for the destination, unexpired when taken |
| Daemon.GenuineInstalls | injector/install.c:58-84 | such a record's target had the DER and the pointer to it staged, went through d2i on them and through SSL_set_session with the result |
| Daemon.HandleAll | injector/main.c:189-216 | any number of records, with other clients in between and calls failing anywhere: lines and SIGCONTs in order, every RESUMED genuine in its own part of its target's log, and no answer of the source installed for two |
| Freeze.ExcludedScan | bpf/ssl_connect.bpf.c:33-50 | the byte loop decides equality of the two names, and is false when none is configured |
| Freeze.ExcludedMeans | bpf/ssl_connect.bpf.c:33-50 | of two names in their buffers: excluded exactly when one is configured and they are equal |
| Freeze.StepKeeps | bpf/ssl_connect.bpf.c:57-84 | every step of probe or injector keeps the order and exclusion invariants |
| Freeze.RunSubmits | bpf/ssl_connect.bpf.c:57-78 | over every run, the events submitted are those of the probes that are not excluded and got a record, each with its pid and SSL object |
| Freeze.RunReports | injector/main.c:203-212 | over every run, the lines report the outcomes decided, one for one and in order |
| Freeze.DetectionOnly | bpf/ssl_connect.bpf.c:16-19 | loaded without freezing, no run stops anybody |
| Freeze.DecideTouches | injector/remote.c:133-141 | deciding changes nothing but a queued stop of the event's own target, and that only if an install ran |
| Freeze.StepBalances | injector/remote.c:130-141 | every step changes pending events and held targets alike, but for swallowed stops and SIGCONTs that undo none |
| Freeze.FreezeSafety | bpf/ssl_connect.bpf.c:57-84 | after every run, for every target: pending plus spent SIGCONTs equals held plus swallowed stops; held iff one pending exactly when those two agree; stranded exactly when one more SIGCONT was spent; excluded processes run |
| Freeze.HeldExactly | bpf/ssl_connect.bpf.c:78-82 | throughout a run every target is held just while one event of its own is pending, iff no install swallows a stop and no SIGCONT precedes the SIGSTOP it is for |
| Freeze.ReleasedExactly | injector/main.c:189-216 | a run leaves no target stopped with nothing pending, iff it never sends SIGCONT for the only pending event of a target whose SIGSTOP is still to be sent |
| Freeze.RaceStrands | bpf/ssl_connect.bpf.c:78-82 | a run that leaves a target stopped with nothing pending |
| Freeze.SwallowFrees | injector/remote.c:133-141 | a run in which a swallowed stop leaves a target running with an event pending |
| Freeze.AtomicUndisturbed | bpf/ssl_connect.bpf.c:78-82 | if nothing comes between a submit and its stop, neither failure occurs |
| Freeze.DueStepProgress | injector/main.c:189-216 | the injector is never blocked and each of its steps leaves one fewer to do |
| Freeze.DrainReleases | injector/main.c:189-216 | after exactly the due steps every submitted event has had one line and one SIGCONT, in order; a target with something pending and its SIGSTOP sent is running, any other is where it was |
| Symbols.FindLibrary | injector/symbols.c:28-62 | base of the last and path of the first offset-0 match, or the lowest match for both, or nothing |
| Symbols.MatchMeans | injector/symbols.c:38-43 | a line matches exactly when its path is absolute and has the library's name in it |
| Symbols.SameLineExactly | injector/symbols.c:45-54 | base and path come from one line exactly when at most one match has offset 0 |
| Symbols.ResolvesExactly | injector/symbols.c:169-170 | for every map and whatever lines were chosen, the address is the load bias plus the value exactly when the base line starts where the loader put the start of the named file |
| Symbols.ChosenLinesExact | injector/symbols.c:31-56 | the two lines as a function of the map, and that they are the chosen ones |
| Symbols.ResolvedRight | injector/symbols.c:147-171 | the same of the result of a whole lookup |
| Symbols.LibrariesMix | injector/symbols.c:51-54 | if the path line has offset 0 and starts where the loader put its file, that is when the base line and the path line start at the same place |
| Symbols.OneLineExactly | injector/symbols.c:45-54 | if base and path come from one line, that is when the segment it maps starts, to the page, at the address of the offset-0 segment, or at 0 if there is none |
| Symbols.FallbackExactly | injector/symbols.c:45-50 | without an offset-0 line both come from one line, so the same condition |
| Symbols.FirstPageWrong | injector/symbols.c:51-54 | one line at offset 0 that maps a segment beginning inside the first page: the address is wrong |
| Symbols.FallbackWrong | injector/symbols.c:45-50 | one line that maps the second segment: base and path agree and the address is wrong |
| Symbols.TwoLibrariesMix | injector/symbols.c:45-54 | two versions mapped at different places: the address is wrong |
| Symbols.DynsymLookup | injector/symbols.c:96-145 | the three loops find the base segment, the first dynamic symbol section and the first definition |
| Symbols.ValueOfFirst | injector/symbols.c:134-143 | undefined, zero-valued and otherwise named entries are skipped, and the first other one counts |
| Symbols.BaseVaddrFirst | injector/symbols.c:106-114 | the address subtracted is that of the first PT_LOAD segment at file offset 0, wherever it is, or 0 |
| Symbols.DynsymFirst | injector/symbols.c:117-133 | the symbols are those of the first section of type 11, wherever it is, none if its entry size is 0, and there are none without one |
| Symbols.SymbolExact | injector/symbols.c:96-145 | the value is that of the first definition in that section, and there is one exactly when there is a definition |
| Symbols.ResolvesDefinition | injector/symbols.c:147-171 | a whole lookup gives the load bias plus the value of the first definition, if the base line starts where the loader put the first offset-0 segment |
| Symbols.ResolvesNothing | injector/symbols.c:147-167 | and 0 without a matching line, a file or a definition |
| Symbols.ResolveSymbol | injector/symbols.c:147-171 | 0 without library, image or definition, else base minus segment address plus value, modulo 2^64 |
| Symbols.ResolvesAtBias | injector/symbols.c:169-170 | for one offset-0 line the address is the load bias plus the symbol's value |
| FileKey.BuildHandleKey | injector/main.c:69-85 | the loop builds the whole key, never cut short, within 300 bytes |
| FileKey.InodeKeyFits | injector/main.c:86 | the device and inode key is at most 34 bytes, so it is never cut short |
| FileKey.KeyInjective | injector/main.c:69-87 | keys are equal exactly for equal identities, within and across the two families |
| FileKey.KeyShape | injector/main.c:80-86 | what stands where in a key of either family |
| FileKey.PrintedNumbers | injector/main.c:80-86 | a decimal and a hexadecimal number in print |
| FileKey.Seen | injector/main.c:59-67 | the table search decides membership |
| FileKey.Scan | injector/main.c:127-187 | the loop over the files found, with table search, failing attaches and the limit, refines the recursive definition |
| FileKey.ScanCounts | injector/main.c:133-186 | unless the table fills up, the count returned is how often a file was met that was not in the table by then |
| FileKey.AttachedOnce | injector/main.c:156-183 | each file is remembered at most once, only if it could be attached to when met, and always then unless the table fills up |
| FileKey.ScanWithinTable | injector/main.c:164-183 | the table stays within 512 entries exactly when it had a free one, or the first new file met cannot be attached to, or none is met |
| FileKey.ScanFills | injector/main.c:156-186 | new files that can all be attached to are all remembered, in order, up to the size of the table, and their number is returned |
| FileKey.ScanOverfills | injector/main.c:336-338 | after 512 different files, the next scan that meets a new one ends with 513 entries |
| FileKey.ScanLeavesTable | injector/main.c:181-183 | 513 inodes of one device are such files |

## Left out

- The session source itself and the demo client: OpenSSL and socket calls; the source is a function of its call number and destination.
- Socket set-up, accept loop, timeouts and signal handlers: a timed-out read is a failing call.
- Reading /proc, parsing its lines, mapping ELF files and their bounds: resolution starts from parsed lines and a parsed image.
- The directory walk of the scan and the uprobe itself: a scan is given the keys it finds and whether each attach succeeds.
- Multi-threaded targets, pid namespaces, other senders of signals, targets that die or stay attached while frozen, and shutdown with events pending.
- Freeing of list nodes and entry arrays by `pool_free`: only DER buffers are accounted for.
- Clock values and lifetimes are unbounded integers: `time_t` overflow is not modelled.
- Install.RefsOf: counts by the documented effect of d2i, set and free when they complete; a call that did not complete counts for nothing.
- Command-line parsing, log texts, deployment files and the parts of the design that are not implemented.

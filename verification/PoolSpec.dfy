/**
 The session pool on values: one stack of entries per destination, plus the history
 (what was sourced, handed out and freed) that the ownership results speak about.

 Everything outside the program is an `Env`: the k-th clock reading, the k-th answer
 of the session source, and whether the k-th memory allocation succeeds. Every result
 holds for all of them, so no clock is assumed to be monotone and no source to be kind.
 */
module PoolSpec {
  import opened Bytes

  const DEST_MAX := 255
  const GROUP_MAX := 64

  /** A serialized session; its length fits the C `int` that carries it. */
  type Der = s: seq<byte> | |s| < TWO31
  type Group = s: CString | |s| < GROUP_MAX

  datatype Outcome = Failed | Session(der: Der, isPqc: int, group: Group, lifetime: int)

  datatype Env = Env(depth: nat, time: nat -> int, source: (nat, CString) -> Outcome, alloc: nat -> bool)

  /** A DER buffer is named by the order in which it was allocated, so names are never reused. */
  datatype Ptr = Null | Block(id: nat)

  datatype Entry = Entry(der: Ptr, derLen: int, isPqc: int, group: CString, expiresAt: int)

  /** What the source produced, for which destination, when it was stored, and by which call and clock reading. */
  datatype Origin = Origin(dest: CString, der: Der, isPqc: int, group: Group, storedAt: int, expiresAt: int,
                           call: nat, tick: nat)

  datatype State = State(
    keys: seq<CString>,                  // destinations, most recently interned first
    stacks: map<CString, seq<Entry>>,    // live entries, oldest first
    clock: nat, calls: nat, allocs: nat, // how much of the environment was consumed
    origins: seq<Origin>,                // origins[i] describes Block(i)
    handed: seq<nat>,                    // blocks given to callers, in order
    evicted: seq<nat>,                   // blocks freed by the pool, in order
    reclaimed: seq<nat>)                 // handed-out blocks freed by their receiver

  const INITIAL := State([], map[], 0, 0, 0, [], [], [], [])

  function EntryOf(id: nat, o: Origin): Entry {
    Entry(Block(id), |o.der|, o.isPqc, o.group, o.expiresAt)
  }

  // ---------- eviction ----------

  /** The entries `evict_expired` keeps, in order. */
  function Survivors(s: seq<Entry>, now: int): (r: seq<Entry>)
    ensures |r| <= |s|
  {
    if s == [] then []
    else
      var e := s[|s| - 1];
      Survivors(s[..|s| - 1], now) + (if e.expiresAt > now then [e] else [])
  }

  function BlockOf(e: Entry): seq<nat> {
    if e.der.Block? then [e.der.id] else []
  }

  function Blocks(s: seq<Entry>): seq<nat> {
    if s == [] then [] else Blocks(s[..|s| - 1]) + BlockOf(s[|s| - 1])
  }

  /** The buffers `evict_expired` frees. */
  function ExpiredBlocks(s: seq<Entry>, now: int): seq<nat> {
    if s == [] then []
    else
      var e := s[|s| - 1];
      ExpiredBlocks(s[..|s| - 1], now) + (if e.expiresAt > now then [] else BlockOf(e))
  }

  function Evict(env: Env, st: State, d: CString): State
    requires d in st.stacks
  {
    var now := env.time(st.clock);
    st.(clock := st.clock + 1,
        stacks := st.stacks[d := Survivors(st.stacks[d], now)],
        evicted := st.evicted + ExpiredBlocks(st.stacks[d], now))
  }

  // ---------- refilling ----------

  /** Both allocations of `dest_intern` must succeed; the second is tried only after the first. */
  function Intern(env: Env, st: State, d: CString): (r: (State, bool))
    ensures r.1 ==> d in r.0.stacks
  {
    if |d| > DEST_MAX then (st, false)
    else if d in st.stacks then (st, true)
    else if !env.alloc(st.allocs) then (st.(allocs := st.allocs + 1), false)
    else if !env.alloc(st.allocs + 1) then (st.(allocs := st.allocs + 2), false)
    else (st.(allocs := st.allocs + 2, keys := [d] + st.keys, stacks := st.stacks[d := []]), true)
  }

  function Lifetime(l: int): nat { if l > 0 then l else 0 }

  /** What is recorded of the call-th source answer, stored at the tick-th clock reading. */
  function OriginAt(env: Env, call: nat, tick: nat, d: CString): Origin
    requires env.source(call, d).Session?
  {
    var o := env.source(call, d);
    var now := env.time(tick);
    Origin(d, o.der, o.isPqc, o.group, now, now + Lifetime(o.lifetime), call, tick)
  }

  /** One successful source call, stored on top of the stack. */
  function Push(env: Env, st: State, d: CString): State
    requires d in st.stacks && env.source(st.calls, d).Session?
  {
    var o := OriginAt(env, st.calls, st.clock, d);
    st.(calls := st.calls + 1, clock := st.clock + 1, origins := st.origins + [o],
        stacks := st.stacks[d := st.stacks[d] + [EntryOf(|st.origins|, o)]])
  }

  function Fill(env: Env, st: State, d: CString): (r: State)
    requires d in st.stacks
    ensures d in r.stacks
    decreases env.depth - |st.stacks[d]|
  {
    if |st.stacks[d]| >= env.depth then st
    else if env.source(st.calls, d).Failed? then st.(calls := st.calls + 1)
    else Fill(env, Push(env, st, d), d)
  }

  // ---------- the operations ----------

  function Maintain(env: Env, st: State, d: CString): (State, nat) {
    var (s1, ok) := Intern(env, st, d);
    if !ok then (s1, 0)
    else
      var s2 := Fill(env, Evict(env, s1, d), d);
      (s2, |s2.stacks[d]|)
  }

  function Depth(env: Env, st: State, d: CString): (State, nat) {
    if d !in st.stacks then (st, 0)
    else
      var s1 := Evict(env, st, d);
      (s1, |s1.stacks[d]|)
  }

  function Pop(st: State, d: CString): (State, Option<Entry>)
    requires d in st.stacks
  {
    var s := st.stacks[d];
    if s == [] then (st, None)
    else
      var e := s[|s| - 1];
      (st.(stacks := st.stacks[d := s[..|s| - 1]],
           handed := st.handed + BlockOf(e)), Some(e))
  }

  function Get(env: Env, st: State, d: CString): (State, Option<Entry>) {
    if d !in st.stacks then (st, None) else Pop(Evict(env, st, d), d)
  }

  /** `free` of a buffer that `pool_get` handed out, by whoever received it. */
  function Reclaim(st: State, id: nat): State {
    st.(reclaimed := st.reclaimed + [id])
  }

  /** All buffers in the pool, in the order `pool_free` visits them. */
  function Held(keys: seq<CString>, stacks: map<CString, seq<Entry>>): seq<nat>
    requires forall k :: k in keys ==> k in stacks
  {
    if keys == [] then [] else Blocks(stacks[keys[0]]) + Held(keys[1..], stacks)
  }

  function Destroy(st: State): State
    requires forall k :: k in st.keys ==> k in st.stacks
  {
    st.(keys := [], stacks := map[], evicted := st.evicted + Held(st.keys, st.stacks))
  }
}

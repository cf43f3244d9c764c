/**
 What every run of the pool keeps: each buffer the source ever produced is in exactly
 one place, keys are distinct, no stack is deeper than the target, and every entry still
 carries what the source said about it.
 */
module PoolLedger {
  import opened Bytes
  import opened PoolSpec

  // ---------- the invariant ----------

  function Count(s: seq<nat>, x: nat): nat {
    if s == [] then 0 else Count(s[..|s| - 1], x) + (if s[|s| - 1] == x then 1 else 0)
  }

  /** How many places name buffer id: slots of the pool, hand-outs, evictions. */
  function Places(st: State, id: nat): nat
    requires forall k :: k in st.keys ==> k in st.stacks
  {
    Count(Held(st.keys, st.stacks), id) + Count(st.handed, id) + Count(st.evicted, id)
  }

  ghost predicate Keyed(keys: seq<CString>, stacks: map<CString, seq<Entry>>) {
    && Distinct(keys)
    && (forall k :: k in keys <==> k in stacks)
  }

  ghost predicate Bounded(depth: nat, stacks: map<CString, seq<Entry>>) {
    forall k :: k in stacks ==> |k| <= DEST_MAX && |stacks[k]| <= depth
  }

  /** An entry on d's stack is the one made from a source answer for d. */
  ghost predicate Sound(origins: seq<Origin>, d: CString, e: Entry) {
    e.der.Block? && e.der.id < |origins| && origins[e.der.id].dest == d && e == EntryOf(e.der.id, origins[e.der.id])
  }

  ghost predicate SoundStack(origins: seq<Origin>, d: CString, s: seq<Entry>) {
    forall i :: 0 <= i < |s| ==> Sound(origins, d, s[i])
  }

  ghost predicate Provenance(origins: seq<Origin>, stacks: map<CString, seq<Entry>>) {
    forall k :: k in stacks ==> SoundStack(origins, k, stacks[k])
  }

  /** Conservation: pooled, handed out and evicted together are every sourced buffer, once each. */
  ghost predicate Conserved(st: State)
    requires forall k :: k in st.keys ==> k in st.stacks
  {
    forall id: nat :: Places(st, id) == if id < |st.origins| then 1 else 0
  }

  ghost predicate Reclaimable(st: State) {
    forall id: nat :: Count(st.reclaimed, id) <= Count(st.handed, id)
  }

  ghost predicate Inv(depth: nat, st: State) {
    && Keyed(st.keys, st.stacks)
    && Bounded(depth, st.stacks)
    && Provenance(st.origins, st.stacks)
    && Conserved(st)
    && Reclaimable(st)
  }

  /**
   The origin is a session that the source answered, at the call and for the destination
   recorded, stored at that clock reading.
   */
  ghost predicate Answered(env: Env, o: Origin) {
    env.source(o.call, o.dest).Session? && o == OriginAt(env, o.call, o.tick, o.dest)
  }

  /** Every buffer is the answer to a call that was made, and no two are answers to the same call. */
  ghost predicate Sourced(env: Env, st: State) {
    && (forall i :: 0 <= i < |st.origins| ==> Answered(env, st.origins[i]) && st.origins[i].call < st.calls)
    && (forall i, j :: 0 <= i < j < |st.origins| ==> st.origins[i].call < st.origins[j].call)
  }

  // ---------- counting ----------

  lemma {:induction false} CountAppend(a: seq<nat>, b: seq<nat>, x: nat)
    ensures Count(a + b, x) == Count(a, x) + Count(b, x)
  {
    if b == [] {
      assert a + b == a;
    } else {
      var n := |b| - 1;
      CountAppend(a, b[..n], x);
      assert (a + b)[..|a| + n] == a + b[..n];
    }
  }

  lemma {:induction false} CountMember(s: seq<nat>, x: nat)
    ensures Count(s, x) > 0 <==> x in s
  {
    if s != [] {
      var n := |s| - 1;
      CountMember(s[..n], x);
      assert s == s[..n] + [s[n]];
    }
  }

  // ---------- eviction is an order-preserving filter ----------

  /** The indices that survive, in increasing order. */
  function Kept(s: seq<Entry>, now: int): seq<nat> {
    if s == [] then []
    else Kept(s[..|s| - 1], now) + (if s[|s| - 1].expiresAt > now then [|s| - 1] else [])
  }

  lemma {:induction false} SurvivorsFilter(s: seq<Entry>, now: int)
    ensures var ks := Kept(s, now);
            && |ks| == |Survivors(s, now)|
            && (forall a, b :: 0 <= a < b < |ks| ==> ks[a] < ks[b])
            && (forall a :: 0 <= a < |ks| ==> ks[a] < |s| && Survivors(s, now)[a] == s[ks[a]])
            && (forall i: nat :: i in ks <==> i < |s| && s[i].expiresAt > now)
  {
    if s != [] {
      var n := |s| - 1;
      SurvivorsFilter(s[..n], now);
      var ks, old_ := Kept(s, now), Kept(s[..n], now);
      assert forall i: nat :: i in ks <==> i in old_ || (i == n && s[n].expiresAt > now);
    }
  }

  /** Eviction shortens a stack unless every entry is unexpired. */
  lemma {:induction false} SurvivorsAll(s: seq<Entry>, now: int)
    ensures |Survivors(s, now)| == |s| <==> forall i :: 0 <= i < |s| ==> s[i].expiresAt > now
    ensures |Survivors(s, now)| == |s| ==> Survivors(s, now) == s
  {
    if s != [] {
      var n := |s| - 1;
      var t := s[..n];
      SurvivorsAll(t, now);
      assert s == t + [s[n]];
      assert forall i :: 0 <= i < n ==> t[i] == s[i];
      if s[n].expiresAt > now {
        assert |Survivors(s, now)| == |Survivors(t, now)| + 1;
      } else {
        assert |Survivors(s, now)| < |s|;
      }
    }
  }

  /** What eviction does not keep it frees, and nothing else. */
  lemma {:induction false} EvictionSplits(s: seq<Entry>, now: int, id: nat)
    ensures Count(Blocks(Survivors(s, now)), id) + Count(ExpiredBlocks(s, now), id) == Count(Blocks(s), id)
  {
    if s != [] {
      var n := |s| - 1;
      var t, e := s[..n], s[n];
      EvictionSplits(t, now, id);
      CountAppend(Blocks(t), BlockOf(e), id);
      var u := Survivors(t, now);
      if e.expiresAt > now {
        assert (u + [e])[..|u|] == u;
        CountAppend(Blocks(u), BlockOf(e), id);
        assert ExpiredBlocks(s, now) == ExpiredBlocks(t, now);
      } else {
        assert Survivors(s, now) == u;
        CountAppend(ExpiredBlocks(t, now), BlockOf(e), id);
      }
    }
  }

  lemma SurvivorsSound(origins: seq<Origin>, d: CString, s: seq<Entry>, now: int)
    requires SoundStack(origins, d, s)
    ensures SoundStack(origins, d, Survivors(s, now))
  {
    SurvivorsFilter(s, now);
  }

  // ---------- changing one stack ----------

  lemma {:induction false} HeldIgnores(keys: seq<CString>, m: map<CString, seq<Entry>>, n: map<CString, seq<Entry>>)
    requires forall k :: k in keys ==> k in m && k in n && m[k] == n[k]
    ensures Held(keys, m) == Held(keys, n)
  {
    if keys != [] {
      assert keys[0] in keys;
      HeldIgnores(keys[1..], m, n);
    }
  }

  lemma {:induction false} HeldUpdate(keys: seq<CString>, m: map<CString, seq<Entry>>, d: CString, s: seq<Entry>,
                                      id: nat)
    requires Distinct(keys) && d in keys && forall k :: k in keys ==> k in m
    ensures Count(Held(keys, m[d := s]), id) + Count(Blocks(m[d]), id)
         == Count(Held(keys, m), id) + Count(Blocks(s), id)
  {
    var n := m[d := s];
    var k, rest := keys[0], keys[1..];
    CountAppend(Blocks(m[k]), Held(rest, m), id);
    CountAppend(Blocks(n[k]), Held(rest, n), id);
    if k == d {
      assert d !in rest;
      HeldIgnores(rest, m, n);
    } else {
      HeldUpdate(rest, m, d, s, id);
    }
  }

  lemma {:induction false} HeldContains(keys: seq<CString>, m: map<CString, seq<Entry>>, d: CString, id: nat)
    requires d in keys && forall k :: k in keys ==> k in m
    ensures Count(Blocks(m[d]), id) <= Count(Held(keys, m), id)
  {
    CountAppend(Blocks(m[keys[0]]), Held(keys[1..], m), id);
    if keys[0] != d { HeldContains(keys[1..], m, d, id); }
  }

  lemma {:induction false} BlocksMember(s: seq<Entry>, i: nat)
    requires i < |s| && s[i].der.Block?
    ensures Count(Blocks(s), s[i].der.id) >= 1
  {
    var n, id := |s| - 1, s[i].der.id;
    CountAppend(Blocks(s[..n]), BlockOf(s[n]), id);
    if i < n { BlocksMember(s[..n], i); }
  }

  lemma {:induction false} BlocksTwice(s: seq<Entry>, i: nat, j: nat)
    requires i < j < |s| && s[i].der.Block? && s[i].der == s[j].der
    ensures Count(Blocks(s), s[i].der.id) >= 2
  {
    var n, id := |s| - 1, s[i].der.id;
    CountAppend(Blocks(s[..n]), BlockOf(s[n]), id);
    assert s[..n][i] == s[i];
    if j < n {
      BlocksTwice(s[..n], i, j);
    } else {
      BlocksMember(s[..n], i);
      assert BlockOf(s[n]) == [id];
      assert Count([id], id) == 1;
    }
  }

  lemma ReplaceProvenance(origins: seq<Origin>, origins': seq<Origin>, m: map<CString, seq<Entry>>, d: CString,
                          s: seq<Entry>)
    requires Provenance(origins, m) && origins <= origins' && SoundStack(origins', d, s)
    ensures Provenance(origins', m[d := s])
  {
  }

  // ---------- each operation keeps the invariant ----------

  lemma EvictPlaces(env: Env, st: State, d: CString, id: nat)
    requires Keyed(st.keys, st.stacks) && d in st.stacks
    ensures Places(Evict(env, st, d), id) == Places(st, id)
  {
    var now := env.time(st.clock);
    var s := st.stacks[d];
    EvictionSplits(s, now, id);
    HeldUpdate(st.keys, st.stacks, d, Survivors(s, now), id);
    CountAppend(st.evicted, ExpiredBlocks(s, now), id);
  }

  lemma EvictKeeps(env: Env, st: State, d: CString)
    requires Inv(env.depth, st) && d in st.stacks
    ensures Inv(env.depth, Evict(env, st, d))
  {
    var now := env.time(st.clock);
    SurvivorsSound(st.origins, d, st.stacks[d], now);
    ReplaceProvenance(st.origins, st.origins, st.stacks, d, Survivors(st.stacks[d], now));
    var r := Evict(env, st, d);
    forall id: nat ensures Places(r, id) == if id < |r.origins| then 1 else 0 {
      EvictPlaces(env, st, d, id);
    }
  }

  lemma AddKeyPlaces(st: State, d: CString, allocs: nat, id: nat)
    requires Keyed(st.keys, st.stacks) && d !in st.stacks
    ensures var r := st.(allocs := allocs, keys := [d] + st.keys, stacks := st.stacks[d := []]);
            Keyed(r.keys, r.stacks) && Places(r, id) == Places(st, id)
  {
    var keys, m := [d] + st.keys, st.stacks[d := []];
    assert d !in st.keys;
    assert keys[1..] == st.keys;
    HeldIgnores(st.keys, st.stacks, m);
    assert Held(keys, m) == Held(st.keys, st.stacks);
  }

  lemma InternKeeps(env: Env, st: State, d: CString)
    requires Inv(env.depth, st)
    ensures Inv(env.depth, Intern(env, st, d).0)
  {
    var r := Intern(env, st, d).0;
    if |d| > DEST_MAX || d in st.stacks {
      assert r == st;
    } else if !env.alloc(st.allocs) || !env.alloc(st.allocs + 1) {
      assert r.keys == st.keys && r.stacks == st.stacks;
      assert forall id: nat :: Places(r, id) == Places(st, id);
    } else {
      ReplaceProvenance(st.origins, st.origins, st.stacks, d, []);
      AddKeyPlaces(st, d, st.allocs + 2, 0);
      forall id: nat ensures Places(r, id) == if id < |r.origins| then 1 else 0 {
        AddKeyPlaces(st, d, st.allocs + 2, id);
      }
    }
  }

  lemma PushPlaces(env: Env, st: State, d: CString, id: nat)
    requires Keyed(st.keys, st.stacks) && d in st.stacks && env.source(st.calls, d).Session?
    ensures Places(Push(env, st, d), id) == Places(st, id) + if id == |st.origins| then 1 else 0
  {
    var s, s' := st.stacks[d], Push(env, st, d).stacks[d];
    assert s'[..|s|] == s;
    CountAppend(Blocks(s), [|st.origins|], id);
    assert [|st.origins|][..0] == [];
    HeldUpdate(st.keys, st.stacks, d, s', id);
  }

  lemma PushKeeps(env: Env, st: State, d: CString)
    requires Inv(env.depth, st) && d in st.stacks && |st.stacks[d]| < env.depth
    requires env.source(st.calls, d).Session?
    ensures Inv(env.depth, Push(env, st, d))
  {
    var r := Push(env, st, d);
    assert SoundStack(st.origins, d, st.stacks[d]);
    assert SoundStack(r.origins, d, r.stacks[d]);
    ReplaceProvenance(st.origins, r.origins, st.stacks, d, r.stacks[d]);
    forall id: nat ensures Places(r, id) == if id < |r.origins| then 1 else 0 {
      PushPlaces(env, st, d, id);
      assert Places(st, id) == if id < |st.origins| then 1 else 0;
    }
  }

  lemma {:induction false} FillKeeps(env: Env, st: State, d: CString)
    requires Inv(env.depth, st) && d in st.stacks
    ensures Inv(env.depth, Fill(env, st, d))
    decreases env.depth - |st.stacks[d]|
  {
    if |st.stacks[d]| < env.depth {
      if env.source(st.calls, d).Session? {
        PushKeeps(env, st, d);
        FillKeeps(env, Push(env, st, d), d);
      } else {
        var r := Fill(env, st, d);
        assert forall id: nat :: Places(r, id) == Places(st, id);
      }
    }
  }

  lemma MaintainKeeps(env: Env, st: State, d: CString)
    requires Inv(env.depth, st)
    ensures Inv(env.depth, Maintain(env, st, d).0)
  {
    InternKeeps(env, st, d);
    var (s1, ok) := Intern(env, st, d);
    if ok {
      EvictKeeps(env, s1, d);
      FillKeeps(env, Evict(env, s1, d), d);
    }
  }

  lemma DepthKeeps(env: Env, st: State, d: CString)
    requires Inv(env.depth, st)
    ensures Inv(env.depth, Depth(env, st, d).0)
  {
    if d in st.stacks { EvictKeeps(env, st, d); }
  }

  lemma PopPlaces(st: State, d: CString, id: nat)
    requires Keyed(st.keys, st.stacks) && d in st.stacks
    ensures Places(Pop(st, d).0, id) == Places(st, id)
    ensures Count(st.handed, id) <= Count(Pop(st, d).0.handed, id)
  {
    var s := st.stacks[d];
    if s != [] {
      var n := |s| - 1;
      HeldUpdate(st.keys, st.stacks, d, s[..n], id);
      CountAppend(Blocks(s[..n]), BlockOf(s[n]), id);
      CountAppend(st.handed, BlockOf(s[n]), id);
    }
  }

  lemma PopKeeps(depth: nat, st: State, d: CString)
    requires Inv(depth, st) && d in st.stacks
    ensures Inv(depth, Pop(st, d).0)
  {
    var s, r := st.stacks[d], Pop(st, d).0;
    if s != [] {
      assert SoundStack(st.origins, d, s);
      assert SoundStack(st.origins, d, s[..|s| - 1]);
      ReplaceProvenance(st.origins, st.origins, st.stacks, d, s[..|s| - 1]);
      forall id: nat
        ensures Places(r, id) == if id < |r.origins| then 1 else 0
        ensures Count(r.reclaimed, id) <= Count(r.handed, id)
      {
        PopPlaces(st, d, id);
        assert Count(st.reclaimed, id) <= Count(st.handed, id);
      }
    }
  }

  lemma GetKeeps(env: Env, st: State, d: CString)
    requires Inv(env.depth, st)
    ensures Inv(env.depth, Get(env, st, d).0)
  {
    if d in st.stacks {
      EvictKeeps(env, st, d);
      PopKeeps(env.depth, Evict(env, st, d), d);
    }
  }

  lemma ReclaimKeeps(depth: nat, st: State, id: nat)
    requires Inv(depth, st) && id in st.handed && id !in st.reclaimed
    ensures Inv(depth, Reclaim(st, id))
  {
    var r := Reclaim(st, id);
    assert forall i: nat :: Places(r, i) == Places(st, i);
    forall i: nat ensures Count(r.reclaimed, i) <= Count(r.handed, i) {
      CountMember(st.handed, i);
      CountMember(st.reclaimed, i);
      assert r.reclaimed[..|st.reclaimed|] == st.reclaimed;
    }
  }

  // ---------- whole runs ----------

  /**
   The pool's calls, and two things its callers do between them: free a buffer they were
   handed and have not freed yet, and allocate memory of their own.
   */
  datatype Op = MaintainOp(dest: CString) | DepthOp(dest: CString) | GetOp(dest: CString) | ReclaimOp(id: nat) | AllocOp

  function CallerAlloc(st: State): State { st.(allocs := st.allocs + 1) }

  lemma AllocKeeps(depth: nat, st: State)
    requires Inv(depth, st)
    ensures Inv(depth, CallerAlloc(st))
  {
    assert forall id: nat :: Places(CallerAlloc(st), id) == Places(st, id);
  }

  function Apply(env: Env, st: State, op: Op): State {
    match op
    case MaintainOp(d) => Maintain(env, st, d).0
    case DepthOp(d) => Depth(env, st, d).0
    case GetOp(d) => Get(env, st, d).0
    case ReclaimOp(id) => if id in st.handed && id !in st.reclaimed then Reclaim(st, id) else st
    case AllocOp => CallerAlloc(st)
  }

  function Run(env: Env, st: State, ops: seq<Op>): State
    decreases |ops|
  {
    if ops == [] then st else Run(env, Apply(env, st, ops[0]), ops[1..])
  }

  lemma {:induction false} RunAppend(env: Env, st: State, ops: seq<Op>, op: Op)
    ensures Run(env, st, ops + [op]) == Apply(env, Run(env, st, ops), op)
    decreases |ops|
  {
    if ops == [] {
      assert [op][1..] == [];
      assert ops + [op] == [op];
      assert Run(env, st, [op]) == Run(env, Apply(env, st, op), []);
    } else {
      assert (ops + [op])[1..] == ops[1..] + [op];
      RunAppend(env, Apply(env, st, ops[0]), ops[1..], op);
    }
  }

  lemma {:induction false} FillSourced(env: Env, st: State, d: CString)
    requires Sourced(env, st) && d in st.stacks
    ensures Sourced(env, Fill(env, st, d))
    decreases env.depth - |st.stacks[d]|
  {
    if |st.stacks[d]| < env.depth && env.source(st.calls, d).Session? { FillSourced(env, Push(env, st, d), d); }
  }

  lemma ApplySourced(env: Env, st: State, op: Op)
    requires Sourced(env, st)
    ensures Sourced(env, Apply(env, st, op))
  {
    if op.MaintainOp? {
      var (s1, ok) := Intern(env, st, op.dest);
      if ok { FillSourced(env, Evict(env, s1, op.dest), op.dest); }
    }
  }

  lemma {:induction false} RunSourced(env: Env, st: State, ops: seq<Op>)
    requires Sourced(env, st)
    ensures Sourced(env, Run(env, st, ops))
    decreases |ops|
  {
    if ops != [] {
      ApplySourced(env, st, ops[0]);
      RunSourced(env, Apply(env, st, ops[0]), ops[1..]);
    }
  }

  lemma ReachedInv(env: Env, ops: seq<Op>)
    ensures Inv(env.depth, Run(env, INITIAL, ops))
  {
    assert forall i: nat :: Places(INITIAL, i) == 0;
    RunKeeps(env, INITIAL, ops);
  }

  lemma {:induction false} RunKeeps(env: Env, st: State, ops: seq<Op>)
    requires Inv(env.depth, st)
    ensures Inv(env.depth, Run(env, st, ops))
    ensures Sourced(env, st) ==> Sourced(env, Run(env, st, ops))
    decreases |ops|
  {
    if Sourced(env, st) { RunSourced(env, st, ops); }
    if ops != [] {
      match ops[0] {
        case MaintainOp(d) => MaintainKeeps(env, st, d);
        case DepthOp(d) => DepthKeeps(env, st, d);
        case GetOp(d) => GetKeeps(env, st, d);
        case ReclaimOp(id) => if id in st.handed && id !in st.reclaimed { ReclaimKeeps(env.depth, st, id); }
        case AllocOp => AllocKeeps(env.depth, st);
      }
      RunKeeps(env, Apply(env, st, ops[0]), ops[1..]);
    }
  }

  /**
   The ownership ledger. From the empty pool, after any operations under any clock,
   source and allocator, buffers are the source's answers to different calls, each with
   what the source said and the destination it was asked for. A sourced buffer is in
   exactly one of: a slot, the hand of one caller, or the evicted ones; a buffer that was
   never sourced is nowhere. Destroying the pool then frees every buffer that was not
   handed out, exactly once, and no other.
   */
  lemma EveryRunConserves(env: Env, ops: seq<Op>, id: nat)
    ensures var st := Run(env, INITIAL, ops);
            && Inv(env.depth, st) && Sourced(env, st)
            && Places(st, id) == (if id < |st.origins| then 1 else 0)
            && Count(Destroy(st).evicted, id) == (if id < |st.origins| && id !in st.handed then 1 else 0)
            && Destroy(st).handed == st.handed
  {
    ReachedInv(env, ops);
    RunSourced(env, INITIAL, ops);
    var st := Run(env, INITIAL, ops);
    assert Places(st, id) == if id < |st.origins| then 1 else 0;
    CountAppend(st.evicted, Held(st.keys, st.stacks), id);
    CountMember(st.handed, id);
  }

  /** Two slots of one stack never name the same buffer. */
  lemma SlotsDistinct(depth: nat, st: State, d: CString, i: nat, j: nat)
    requires Inv(depth, st) && d in st.stacks && i < j < |st.stacks[d]|
    ensures st.stacks[d][i].der != st.stacks[d][j].der
  {
    var s := st.stacks[d];
    assert Sound(st.origins, d, s[i]) && Sound(st.origins, d, s[j]);
    var id := s[i].der.id;
    assert Places(st, id) == 1;
    HeldContains(st.keys, st.stacks, d, id);
    if s[i].der == s[j].der { BlocksTwice(s, i, j); }
  }

  /** A buffer in a slot was neither handed out nor freed. */
  lemma SlotIsLive(depth: nat, st: State, d: CString, i: nat)
    requires Inv(depth, st) && d in st.stacks && i < |st.stacks[d]|
    ensures var p := st.stacks[d][i].der;
            p.Block? && p.id < |st.origins| && p.id !in st.handed && p.id !in st.evicted && p.id !in st.reclaimed
  {
    var s := st.stacks[d];
    assert Sound(st.origins, d, s[i]);
    var id := s[i].der.id;
    BlocksMember(s, i);
    HeldContains(st.keys, st.stacks, d, id);
    assert Places(st, id) == 1;
    assert Count(st.reclaimed, id) <= Count(st.handed, id);
    CountMember(st.handed, id);
    CountMember(st.evicted, id);
    CountMember(st.reclaimed, id);
  }
}

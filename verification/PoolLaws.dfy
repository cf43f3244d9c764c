/** What each pool operation means, on every state and in every environment. */
module PoolLaws {
  import opened Bytes
  import opened PoolSpec
  import opened PoolLedger

  /** The stack `pool_maintain` and `pool_get` start from: what has not expired. */
  function Fresh(env: Env, st: State, d: CString): seq<Entry> {
    if d in st.stacks then Survivors(st.stacks[d], env.time(st.clock)) else []
  }

  /**
   The entry holds what the source answered, and expires its lifetime after now, or at once
   if that is not positive.
   */
  predicate AsAnswered(a: Outcome, now: int, e: Entry) {
    && a.Session? && e.derLen == |a.der| && e.isPqc == a.isPqc && e.group == a.group
    && e.expiresAt == now + if a.lifetime > 0 then a.lifetime else 0
  }

  // ---------- refilling ----------

  /** Everything about a state except d's stack, the sourced buffers and the consumed environment. */
  ghost predicate SameElsewhere(st: State, r: State, d: CString) {
    && r.keys == st.keys && r.stacks.Keys == st.stacks.Keys
    && (forall k :: k in st.stacks && k != d ==> r.stacks[k] == st.stacks[k])
    && r.allocs == st.allocs && r.handed == st.handed && r.evicted == st.evicted && r.reclaimed == st.reclaimed
  }

  /**
   Filling only appends, and calls the source once per new entry; there is one further
   call exactly when filling stopped short, and that call failed.
   */
  lemma {:induction false} FillLaw(env: Env, st: State, d: CString)
    requires d in st.stacks
    ensures var r, s := Fill(env, st, d), st.stacks[d];
            && SameElsewhere(st, r, d)
            && s <= r.stacks[d]
            && var n := |r.stacks[d]| - |s|;
            && n <= (if |s| < env.depth then env.depth - |s| else 0)
            && |r.origins| == |st.origins| + n && st.origins <= r.origins
            && r.clock == st.clock + n
            && r.calls == st.calls + n + (if |r.stacks[d]| < env.depth then 1 else 0)
            && (|r.stacks[d]| < env.depth ==> env.source(st.calls + n, d).Failed?)
    decreases env.depth - |st.stacks[d]|
  {
    if |st.stacks[d]| < env.depth && env.source(st.calls, d).Session? {
      FillLaw(env, Push(env, st, d), d);
    }
  }

  /**
   The i-th new entry is the answer of the i-th source call, stored at its own clock
   reading, in the next buffer.
   */
  lemma {:induction false} FillEntry(env: Env, st: State, d: CString, i: nat)
    requires d in st.stacks && |st.stacks[d]| + i < |Fill(env, st, d).stacks[d]|
    ensures var r := Fill(env, st, d);
            && |st.origins| + i < |r.origins|
            && var o := r.origins[|st.origins| + i];
            && env.source(st.calls + i, d).Session?
            && o == OriginAt(env, st.calls + i, st.clock + i, d)
            && var e := r.stacks[d][|st.stacks[d]| + i];
            && e == EntryOf(|st.origins| + i, o) && e.der == Block(|st.origins| + i)
            && o.dest == d && o.der == env.source(st.calls + i, d).der
            && AsAnswered(env.source(st.calls + i, d), env.time(st.clock + i), e)
    decreases env.depth - |st.stacks[d]|
  {
    var p := Push(env, st, d);
    FillLaw(env, p, d);
    if i > 0 { FillEntry(env, p, d, i - 1); }
  }

  /**
   `pool_maintain`: it does nothing for a destination it cannot intern; otherwise the
   unexpired entries stay where they are and the rest is filled from the source.
   */
  lemma MaintainLaw(env: Env, st: State, d: CString)
    ensures var (r, n) := Maintain(env, st, d);
            var interned := |d| <= 255 && (d in st.stacks || (env.alloc(st.allocs) && env.alloc(st.allocs + 1)));
            && (!interned ==>
                 n == 0 && r.stacks == st.stacks && r.keys == st.keys && r.calls == st.calls && r.origins == st.origins)
            && (interned ==>
                && d in r.stacks && n == |r.stacks[d]|
                && Fresh(env, st, d) <= r.stacks[d]
                && r.calls - st.calls <= env.depth
                && r.calls - st.calls == |r.origins| - |st.origins| + (if n < env.depth then 1 else 0)
                && |r.origins| - |st.origins| == n - |Fresh(env, st, d)|)
            && r.handed == st.handed && r.reclaimed == st.reclaimed && st.origins <= r.origins
            && forall k :: k != d ==>
                 (k in r.stacks <==> k in st.stacks) && (k in st.stacks ==> r.stacks[k] == st.stacks[k])
  {
    var (s1, ok) := Intern(env, st, d);
    if ok {
      var s2 := Evict(env, s1, d);
      FillLaw(env, s2, d);
      if d !in st.stacks { assert Survivors([], env.time(s1.clock)) == []; }
      assert s2.stacks[d] == Fresh(env, st, d);
    }
  }

  /** With a source that never fails, maintaining an interned destination reaches the target depth. */
  lemma MaintainFills(env: Env, st: State, d: CString)
    requires Inv(env.depth, st) && Intern(env, st, d).1
    requires forall k: nat :: env.source(k, d).Session?
    ensures var (r, n) := Maintain(env, st, d);
            d in r.stacks && |r.stacks[d]| == env.depth == n
  {
    var s1 := Intern(env, st, d).0;
    InternKeeps(env, st, d);
    EvictKeeps(env, s1, d);
    var s2 := Evict(env, s1, d);
    FillLaw(env, s2, d);
    FillKeeps(env, s2, d);
  }

  // ---------- taking ----------

  lemma FreshEmpty(s: seq<Entry>, now: int)
    ensures Survivors(s, now) == [] <==> forall i :: 0 <= i < |s| ==> s[i].expiresAt <= now
    ensures forall k :: 0 <= k < |Survivors(s, now)| ==> Survivors(s, now)[k].expiresAt > now
  {
    SurvivorsFilter(s, now);
    var ks := Kept(s, now);
    if Survivors(s, now) == [] {
      assert forall i: nat :: i !in ks;
    } else {
      forall k | 0 <= k < |ks| ensures s[ks[k]].expiresAt > now {
        assert ks[k] in ks;
      }
    }
  }

  /** The newest survivor is what the source said about it, for this destination, and nobody's yet. */
  lemma NewestIsSound(env: Env, st: State, d: CString)
    requires Inv(env.depth, st) && d in st.stacks && Fresh(env, st, d) != []
    ensures var s := Fresh(env, st, d);
            Sound(st.origins, d, s[|s| - 1]) && s[|s| - 1].der.id !in st.handed
  {
    var s1 := Evict(env, st, d);
    EvictKeeps(env, st, d);
    var n := |s1.stacks[d]| - 1;
    assert SoundStack(s1.origins, d, s1.stacks[d]);
    assert Sound(s1.origins, d, s1.stacks[d][n]);
    SlotIsLive(env.depth, s1, d, n);
  }

  /** `pool_get` misses exactly when nothing unexpired is left at the clock value it reads. */
  lemma GetMisses(env: Env, st: State, d: CString)
    ensures var (r, got) := Get(env, st, d);
            && (got.None? <==>
                 || d !in st.stacks
                 || forall i :: 0 <= i < |st.stacks[d]| ==> st.stacks[d][i].expiresAt <= env.time(st.clock))
            && (got.None? ==> r.handed == st.handed && (d in st.stacks ==> r.stacks[d] == []))
  {
    if d in st.stacks { FreshEmpty(st.stacks[d], env.time(st.clock)); }
  }

  /** A hit is the newest unexpired entry, which leaves the pool for good; the others stay in order. */
  lemma GetPops(env: Env, st: State, d: CString)
    requires Inv(env.depth, st) && Get(env, st, d).1.Some?
    ensures var (r, got) := Get(env, st, d);
            var s := Fresh(env, st, d);
            && d in st.stacks && s != [] && got.value == s[|s| - 1] && r.stacks[d] == s[..|s| - 1]
            && got.value.expiresAt > env.time(st.clock)
            && Sound(st.origins, d, got.value)
            && (Sourced(env, st) ==>
                  var o := st.origins[got.value.der.id];
                  && AsAnswered(env.source(o.call, d), env.time(o.tick), got.value)
                  && o.der == env.source(o.call, d).der)
            && got.value.der.id !in st.handed
            && r.handed == st.handed + [got.value.der.id]
  {
    FreshEmpty(st.stacks[d], env.time(st.clock));
    NewestIsSound(env, st, d);
  }

  // ---------- independence ----------

  predicate Touches(op: Op, k: CString) {
    (op.MaintainOp? || op.DepthOp? || op.GetOp?) && op.dest == k
  }

  /** An operation on one destination leaves every other destination's stack alone. */
  lemma ApplyElsewhere(env: Env, st: State, op: Op, k: CString)
    requires !Touches(op, k)
    ensures var r := Apply(env, st, op);
            (k in r.stacks <==> k in st.stacks) && (k in st.stacks ==> r.stacks[k] == st.stacks[k])
  {
    if op.MaintainOp? { MaintainLaw(env, st, op.dest); }
  }

  lemma {:induction false} RunElsewhere(env: Env, st: State, ops: seq<Op>, k: CString)
    requires forall i :: 0 <= i < |ops| ==> !Touches(ops[i], k)
    ensures var r := Run(env, st, ops);
            (k in r.stacks <==> k in st.stacks) && (k in st.stacks ==> r.stacks[k] == st.stacks[k])
    decreases |ops|
  {
    if ops != [] {
      ApplyElsewhere(env, st, ops[0], k);
      RunElsewhere(env, Apply(env, st, ops[0]), ops[1..], k);
    }
  }

  // ---------- what pool_maintain reports ----------

  /** How many sessions the source gives in a row from this call on, up to room of them. */
  function Yield(env: Env, call: nat, d: CString, room: nat): nat
    decreases room
  {
    if room == 0 || env.source(call, d).Failed? then 0 else 1 + Yield(env, call + 1, d, room - 1)
  }

  /** When the i-th answer expires, each stored at a clock reading of its own after the one for eviction. */
  function Expiry(env: Env, st: State, d: CString, i: nat): int {
    env.time(st.clock + 1 + i)
    + match env.source(st.calls + i, d)
      case Failed => 0
      case Session(_, _, _, lifetime) => if lifetime > 0 then lifetime else 0
  }

  /** The room `pool_maintain` has for new entries, how many it will store, and which clock reading comes next. */
  function Room(env: Env, st: State, d: CString): nat {
    var s := Fresh(env, st, d);
    if |s| < env.depth then env.depth - |s| else 0
  }

  function Stored(env: Env, st: State, d: CString): nat { Yield(env, st.calls, d, Room(env, st, d)) }
  function NextTick(env: Env, st: State, d: CString): nat { st.clock + 1 + Stored(env, st, d) }

  lemma {:induction false} FillYields(env: Env, st: State, d: CString)
    requires d in st.stacks
    ensures var room := if |st.stacks[d]| < env.depth then env.depth - |st.stacks[d]| else 0;
            |Fill(env, st, d).stacks[d]| == |st.stacks[d]| + Yield(env, st.calls, d, room)
    decreases env.depth - |st.stacks[d]|
  {
    if |st.stacks[d]| < env.depth && env.source(st.calls, d).Session? { FillYields(env, Push(env, st, d), d); }
  }

  lemma FillExpires(env: Env, st: State, s2: State, d: CString)
    requires d in s2.stacks && s2.calls == st.calls && s2.clock == st.clock + 1
    ensures var r, n := Fill(env, s2, d), |s2.stacks[d]|;
            forall i :: 0 <= i < |r.stacks[d]| - n ==> AnswerAt(env, st, d, r.stacks[d], n, i)
  {
    var r, n := Fill(env, s2, d), |s2.stacks[d]|;
    forall i | 0 <= i < |r.stacks[d]| - n ensures AnswerAt(env, st, d, r.stacks[d], n, i) {
      FillEntry(env, s2, d, i);
    }
  }

  /** On top of n entries, the i-th is the i-th answer from here on, stored at its clock reading. */
  predicate AnswerAt(env: Env, st: State, d: CString, s: seq<Entry>, n: nat, i: nat) {
    n + i < |s| && AsAnswered(env.source(st.calls + i, d), env.time(st.clock + 1 + i), s[n + i])
  }

  /**
   What `pool_maintain` will have stored, from what it can know before: survivors, and so
   many answers of the source, each with its length, flag, group and expiry.
   */
  lemma MaintainStores(env: Env, st: State, d: CString)
    requires Intern(env, st, d).1
    ensures var (r, n) := Maintain(env, st, d);
            var s, k := Fresh(env, st, d), Stored(env, st, d);
            && d in r.stacks && n == |r.stacks[d]| == |s| + k && s <= r.stacks[d] && r.clock == NextTick(env, st, d)
            && forall i :: 0 <= i < k ==> AnswerAt(env, st, d, r.stacks[d], |s|, i)
  {
    var s1 := Intern(env, st, d).0;
    var s2 := Evict(env, s1, d);
    if d !in st.stacks { assert Survivors([], env.time(s1.clock)) == []; }
    assert s2.stacks[d] == Fresh(env, st, d);
    FillLaw(env, s2, d);
    FillYields(env, s2, d);
    FillExpires(env, st, s2, d);
  }

  /**
   The header promises the available depth; the code returns the stored count. The two
   agree, at the clock value the next operation reads, exactly when every survivor outlives
   that reading and so does every answer of the source that will be stored. Without the
   destination both are zero.
   */
  lemma MaintainReports(env: Env, st: State, d: CString)
    ensures var (r, n) := Maintain(env, st, d);
            var s, t := Fresh(env, st, d), env.time(NextTick(env, st, d));
            Intern(env, st, d).1 ==>
              (n == Depth(env, r, d).1 <==>
                 && (forall i :: 0 <= i < |s| ==> s[i].expiresAt > t)
                 && (forall i :: 0 <= i < Stored(env, st, d) ==> Expiry(env, st, d, i) > t))
    ensures Bounded(env.depth, st.stacks) && !Intern(env, st, d).1 ==>
              var (r, n) := Maintain(env, st, d); n == Depth(env, r, d).1 == 0
  {
    if Intern(env, st, d).1 {
      MaintainStores(env, st, d);
      var r, s, t := Maintain(env, st, d).0, Fresh(env, st, d), env.time(NextTick(env, st, d));
      DepthIsAll(env, r, d);
      forall i | 0 <= i < Stored(env, st, d) ensures r.stacks[d][|s| + i].expiresAt == Expiry(env, st, d, i) {
        assert AnswerAt(env, st, d, r.stacks[d], |s|, i);
      }
      PartsOutlive(r.stacks[d], s, t, Stored(env, st, d), (i: nat) => Expiry(env, st, d, i));
    }
  }

  /** `pool_depth` counts the indices whose entries are unexpired at the clock value it reads. */
  lemma DepthCounts(env: Env, st: State, d: CString)
    ensures Depth(env, st, d).1 ==
            if d in st.stacks then |Unexpired(st.stacks[d], env.time(st.clock))| else 0
  {
    if d in st.stacks { SurvivorsCount(st.stacks[d], env.time(st.clock)); }
  }

  function Unexpired(s: seq<Entry>, now: int): set<nat> { set i: nat | i < |s| && s[i].expiresAt > now }

  lemma {:induction false} SurvivorsCount(s: seq<Entry>, now: int)
    ensures |Survivors(s, now)| == |Unexpired(s, now)|
  {
    if s == [] {
      assert Unexpired(s, now) == {};
    } else {
      var n := |s| - 1;
      SurvivorsCount(s[..n], now);
      assert Unexpired(s, now) == Unexpired(s[..n], now) + if s[n].expiresAt > now then {n} else {};
    }
  }

  lemma DepthIsAll(env: Env, st: State, d: CString)
    requires d in st.stacks
    ensures |st.stacks[d]| == Depth(env, st, d).1 <==>
            forall j :: 0 <= j < |st.stacks[d]| ==> st.stacks[d][j].expiresAt > env.time(st.clock)
  {
    SurvivorsAll(st.stacks[d], env.time(st.clock));
  }

  /** A stack outlives t exactly when its first part does, and so do the expiries of the rest. */
  lemma PartsOutlive(all: seq<Entry>, s: seq<Entry>, t: int, k: nat, expiry: nat -> int)
    requires s <= all && |all| == |s| + k && forall i :: 0 <= i < k ==> all[|s| + i].expiresAt == expiry(i)
    ensures (forall j :: 0 <= j < |all| ==> all[j].expiresAt > t) <==>
            (forall i :: 0 <= i < |s| ==> s[i].expiresAt > t) && (forall i :: 0 <= i < k ==> expiry(i) > t)
  {
    forall j | |s| <= j < |all| ensures all[j].expiresAt == expiry(j - |s|) {
      assert all[|s| + (j - |s|)] == all[j];
    }
    forall i | 0 <= i < k ensures all[|s| + i].expiresAt == expiry(i) {}
    assert forall i :: 0 <= i < |s| ==> s[i] == all[i];
  }

  /** The i-th answer from this call on has a lifetime that is not stored as zero. */
  predicate LivesOn(env: Env, call: nat, d: CString, i: nat) {
    env.source(call + i, d).Session? && env.source(call + i, d).lifetime > 0
  }

  /**
   With a clock that stands still during the call, they agree exactly when every answer
   stored has a positive lifetime.
   */
  lemma MaintainReportsStill(env: Env, st: State, d: CString)
    requires Intern(env, st, d).1
    requires forall j :: st.clock <= j <= NextTick(env, st, d) ==> env.time(j) == env.time(st.clock)
    ensures var (r, n) := Maintain(env, st, d);
            n == Depth(env, r, d).1 <==> forall i :: 0 <= i < Stored(env, st, d) ==> LivesOn(env, st.calls, d, i)
  {
    MaintainReports(env, st, d);
    var t := env.time(st.clock);
    if d in st.stacks { FreshEmpty(st.stacks[d], t); }
    forall i | 0 <= i < Stored(env, st, d) ensures LivesOn(env, st.calls, d, i) <==> Expiry(env, st, d, i) > t {
      YieldSessions(env, st.calls, d, Room(env, st, d), i);
      assert env.time(st.clock + 1 + i) == t;
    }
  }

  lemma {:induction false} YieldSessions(env: Env, call: nat, d: CString, room: nat, i: nat)
    requires i < Yield(env, call, d, room)
    ensures env.source(call + i, d).Session?
    decreases i
  {
    if i > 0 { YieldSessions(env, call + 1, d, room - 1, i - 1); }
  }

  function Expired(): Env {
    Env(1, (k: nat) => 0, (k: nat, d: CString) => Session([], 0, [], 0), (k: nat) => true)
  }

  /** A source that sells sessions of no lifetime: one is reported, none is available. */
  lemma MaintainOverReports()
    ensures Maintain(Expired(), INITIAL, [65]).1 == 1
    ensures Depth(Expired(), Maintain(Expired(), INITIAL, [65]).0, [65]).1 == 0
  {
    var env, d: CString := Expired(), [65];
    var s1 := Intern(env, INITIAL, d).0;
    var s2 := Evict(env, s1, d);
    assert s2.stacks[d] == [];
    var s3 := Push(env, s2, d);
    assert Fill(env, s2, d) == Fill(env, s3, d) == s3;
    var s := s3.stacks[d];
    assert s == [EntryOf(0, OriginAt(env, 0, 1, d))];
    assert s[..0] == [];
    assert Survivors(s, 0) == [];
  }
}

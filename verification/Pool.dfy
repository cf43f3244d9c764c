/**
 The pool as the agent keeps it: a linked list of destinations, each owning an array
 that is compacted, popped and refilled in place. `model` is the value-level state of
 PoolSpec; `Valid` ties it to the heap, and every method moves it by the PoolSpec
 operation of the same name.

 Compaction copies entries downwards, so a slot at an index >= count can still hold a
 pointer that is live at a lower index. `Valid` therefore says nothing about such slots,
 and no method may read a pointer out of one.
 */
module Pool {
  import opened Bytes
  import opened PoolSpec
  import opened PoolLedger

  const CLEARED := Entry(Null, 0, 0, [], 0)

  /** Clock, session source and allocator, with the DER buffers that are allocated now. */
  class World {
    const env: Env
    var clock: nat
    var calls: nat
    var allocs: nat
    var live: map<nat, Der>
    var next: nat

    constructor (env: Env)
      ensures this.env == env && clock == calls == allocs == next == 0 && live == map[]
    {
      this.env := env;
      clock, calls, allocs, next, live := 0, 0, 0, 0, map[];
    }

    method Time() returns (t: int)
      modifies this`clock
      ensures t == env.time(old(clock)) && clock == old(clock) + 1
    {
      t := env.time(clock);
      clock := clock + 1;
    }

    method Alloc() returns (ok: bool)
      modifies this`allocs
      ensures ok == env.alloc(old(allocs)) && allocs == old(allocs) + 1
    {
      ok := env.alloc(allocs);
      allocs := allocs + 1;
    }

    /** Calls the session source; a produced DER arrives in a new buffer. */
    method Source(dest: CString) returns (o: Outcome, der: Ptr)
      requires next !in live
      modifies this`calls, this`live, this`next
      ensures o == env.source(old(calls), dest) && calls == old(calls) + 1
      ensures o.Failed? ==> der == Null && live == old(live) && next == old(next)
      ensures o.Session? ==> der == Block(old(next)) && live == old(live)[old(next) := o.der] && next == old(next) + 1
    {
      o, der := env.source(calls, dest), Null;
      calls := calls + 1;
      if o.Session? {
        der := Block(next);
        live := live[next := o.der];
        next := next + 1;
      }
    }

    /** Only a buffer that is allocated may be freed, so no caller can free one twice. */
    method Free(p: Ptr)
      requires p.Block? ==> p.id in live
      modifies this`live
      ensures live == old(live) - set id | id in BlockOf(Entry(p, 0, 0, [], 0))
    {
      if p.Block? { live := live - {p.id}; }
    }
  }

  lemma {:induction false} ExpiredFrom(s: seq<Entry>, now: int, id: nat)
    requires id in ExpiredBlocks(s, now)
    ensures exists i :: 0 <= i < |s| && s[i].der == Block(id)
  {
    var n := |s| - 1;
    if id in ExpiredBlocks(s[..n], now) {
      ExpiredFrom(s[..n], now, id);
      var i :| 0 <= i < n && s[..n][i].der == Block(id);
      assert s[i].der == Block(id);
    } else {
      assert s[n].der == Block(id);
    }
  }

  function SetOf(s: seq<nat>): set<nat> { set id | id in s }

  /** Slots own what they point to: allocated, and not shared with a later slot. */
  ghost predicate Owns(s: seq<Entry>, live: map<nat, Der>) {
    && (forall i :: 0 <= i < |s| && s[i].der.Block? ==> s[i].der.id in live)
    && (forall i, j :: 0 <= i < j < |s| && s[i].der.Block? ==> s[i].der != s[j].der)
  }

  /** One turn of the eviction loop, on values. */
  lemma EvictStep(s: seq<Entry>, r: nat, now: int, live: map<nat, Der>)
    requires r < |s| && Owns(s, live)
    ensures var e, x := s[r], ExpiredBlocks(s[..r], now);
            && Survivors(s[..r + 1], now) == Survivors(s[..r], now) + (if e.expiresAt > now then [e] else [])
            && (e.der.Block? ==> e.der.id in live - SetOf(x))
            && live - SetOf(ExpiredBlocks(s[..r + 1], now))
               == if e.expiresAt > now then live - SetOf(x) else live - SetOf(x) - SetOf(BlockOf(e))
  {
    assert s[..r + 1][..r] == s[..r];
    var e, x := s[r], ExpiredBlocks(s[..r], now);
    if e.der.Block? && e.der.id in x {
      ExpiredFrom(s[..r], now, e.der.id);
    }
    assert SetOf(x + BlockOf(e)) == SetOf(x) + SetOf(BlockOf(e));
    assert x + [] == x;
  }

  lemma {:induction false} BlocksFrom(s: seq<Entry>, id: nat)
    requires id in Blocks(s)
    ensures exists i :: 0 <= i < |s| && s[i].der == Block(id)
  {
    var n := |s| - 1;
    if id in Blocks(s[..n]) {
      BlocksFrom(s[..n], id);
      var i :| 0 <= i < n && s[..n][i].der == Block(id);
      assert s[i].der == Block(id);
    } else {
      assert s[n].der == Block(id);
    }
  }

  /** One turn of the clearing loop of `pool_free`, on values. */
  lemma ClearStep(s: seq<Entry>, i: nat, live: map<nat, Der>)
    requires i < |s| && Owns(s, live)
    ensures s[i].der.Block? ==> s[i].der.id in live - SetOf(Blocks(s[..i]))
    ensures SetOf(Blocks(s[..i + 1])) == SetOf(Blocks(s[..i])) + SetOf(BlockOf(s[i]))
  {
    assert s[..i + 1][..i] == s[..i];
    if s[i].der.Block? && s[i].der.id in Blocks(s[..i]) { BlocksFrom(s[..i], s[i].der.id); }
    assert SetOf(Blocks(s[..i]) + BlockOf(s[i])) == SetOf(Blocks(s[..i])) + SetOf(BlockOf(s[i]));
  }

  class Dest {
    const dest: CString
    const entries: array<Entry>
    const next: Dest?
    var count: nat

    constructor (dest: CString, capacity: nat, next: Dest?)
      ensures this.dest == dest && entries.Length == capacity && count == 0 && this.next == next
      ensures fresh(entries)
    {
      this.dest := dest;
      entries := new Entry[capacity](_ => CLEARED);
      count := 0;
      this.next := next;
    }

    method EntryClear(world: World, i: nat)
      requires i < entries.Length
      requires entries[i].der.Block? ==> entries[i].der.id in world.live
      modifies entries, world`live
      ensures entries[..] == old(entries[..])[i := CLEARED]
      ensures world.live == old(world.live) - SetOf(BlockOf(old(entries[i])))
    {
      world.Free(entries[i].der);
      entries[i] := CLEARED;
    }

    method Append(e: Entry)
      requires count < entries.Length
      modifies this`count, entries
      ensures count == old(count) + 1 && entries[..count] == old(entries[..count]) + [e]
    {
      entries[count] := e;
      count := count + 1;
    }

    /** The newest entry leaves; its slot is zeroed. */
    method TakeLast() returns (e: Entry)
      requires 0 < count <= entries.Length
      modifies this`count, entries
      ensures count == old(count) - 1 && e == old(entries[count - 1]) && entries[..count] == old(entries[..count - 1])
    {
      count := count - 1;
      e := entries[count];
      entries[count] := CLEARED;
    }

    method ClearAll(world: World)
      requires count <= entries.Length && Owns(entries[..count], world.live)
      modifies entries, world`live
      ensures world.live == old(world.live) - SetOf(Blocks(old(entries[..count])))
    {
      ghost var s0, live0, all := entries[..count], world.live, entries[..];
      for i := 0 to count
        invariant entries[i..] == all[i..]
        invariant world.live == live0 - SetOf(Blocks(s0[..i]))
      {
        assert entries[i] == entries[i..][0] == s0[i];
        assert entries[i + 1..] == entries[i..][1..];
        ClearStep(s0, i, live0);
        EntryClear(world, i);
      }
      assert s0[..count] == s0;
    }

    /** The body of the compaction loop. */
    method KeepOrClear(world: World, w: nat, r: nat, now: int) returns (w': nat)
      requires w <= r < entries.Length
      requires entries[r].der.Block? ==> entries[r].der.id in world.live
      modifies entries, world`live
      ensures old(entries[r]).expiresAt > now ==>
                w' == w + 1 && entries[..w'] == old(entries[..w]) + [old(entries[r])] && world.live == old(world.live)
      ensures old(entries[r]).expiresAt <= now ==>
                && w' == w && entries[..w'] == old(entries[..w])
                && world.live == old(world.live) - SetOf(BlockOf(old(entries[r])))
      ensures entries[r + 1..] == old(entries[r + 1..])
    {
      if entries[r].expiresAt > now {
        if w != r { entries[w] := entries[r]; }
        w' := w + 1;
      } else {
        EntryClear(world, r);
        w' := w;
      }
    }

    /** Compacts in place: what remains below count is the order-preserving filter of what was there. */
    method EvictExpired(world: World)
      requires count <= entries.Length && Owns(entries[..count], world.live)
      modifies this`count, entries, world`live, world`clock
      ensures world.clock == old(world.clock) + 1
      ensures count <= old(count)
              && entries[..count] == Survivors(old(entries[..count]), world.env.time(old(world.clock)))
      ensures world.live ==
              old(world.live) - SetOf(ExpiredBlocks(old(entries[..count]), world.env.time(old(world.clock))))
    {
      var now := world.Time();
      Compact(world, now);
    }

    method Compact(world: World, now: int)
      requires count <= entries.Length && Owns(entries[..count], world.live)
      modifies this`count, entries, world`live
      ensures count <= old(count) && entries[..count] == Survivors(old(entries[..count]), now)
      ensures world.live == old(world.live) - SetOf(ExpiredBlocks(old(entries[..count]), now))
    {
      ghost var s0, live0, all := entries[..count], world.live, entries[..];
      var w, r := 0, 0;
      while r < count
        invariant 0 <= w <= r <= count == old(count)
        invariant entries[..w] == Survivors(s0[..r], now)
        invariant entries[r..] == all[r..]
        invariant world.live == live0 - SetOf(ExpiredBlocks(s0[..r], now))
      {
        assert entries[r] == s0[r] && entries[r + 1..] == all[r + 1..] by {
          assert entries[r..][0] == all[r..][0] && entries[r..][1..] == all[r..][1..];
        }
        EvictStep(s0, r, now, live0);
        w := KeepOrClear(world, w, r, now);
        r := r + 1;
      }
      assert s0[..r] == s0;
      count := w;
    }
  }

  // ---------- allocated buffers and the ledger ----------

  /** The allocated buffers: those sourced and not yet freed by the pool or a receiver. */
  ghost function LiveMap(st: State): map<nat, Der> {
    map id: nat | 0 <= id < |st.origins| && id !in st.evicted && id !in st.reclaimed :: st.origins[id].der
  }

  lemma StackOwns(depth: nat, st: State, d: CString)
    requires Inv(depth, st) && d in st.stacks
    ensures Owns(st.stacks[d], LiveMap(st))
  {
    var s := st.stacks[d];
    forall i | 0 <= i < |s| ensures s[i].der.Block? && s[i].der.id in LiveMap(st) {
      SlotIsLive(depth, st, d, i);
    }
    forall i, j | 0 <= i < j < |s| ensures s[i].der != s[j].der {
      SlotsDistinct(depth, st, d, i, j);
    }
  }

  ghost predicate Holds(n: Dest, key: CString, stacks: map<CString, seq<Entry>>)
    reads n, n.entries
  {
    n.dest == key && key in stacks && n.count <= n.entries.Length && n.entries[..n.count] == stacks[key]
  }

  /** n and its array occur nowhere in nodes. */
  ghost predicate Apart(n: Dest, nodes: seq<Dest>) {
    forall j :: 0 <= j < |nodes| ==> nodes[j] != n && nodes[j].entries != n.entries
  }

  /** The list from `first` runs through exactly these nodes, each with its own array. */
  ghost predicate Chain(first: Dest?, nodes: seq<Dest>, capacity: nat) {
    if nodes == [] then first == null
    else
      && first == nodes[0] && nodes[0].entries.Length == capacity
      && Apart(nodes[0], nodes[1..])
      && Chain(nodes[0].next, nodes[1..], capacity)
  }

  /** Node k holds the stack of key k, for all k; nodes and arrays are in cells. */
  ghost predicate HoldAll(nodes: seq<Dest>, cells: set<object>, keys: seq<CString>, stacks: map<CString, seq<Entry>>)
    reads cells
  {
    if nodes == [] then keys == []
    else
      && keys != []
      && nodes[0] in cells && nodes[0].entries in cells && Holds(nodes[0], keys[0], stacks)
      && HoldAll(nodes[1..], cells, keys[1..], stacks)
  }

  /** The same, leaving out node i. */
  ghost predicate HoldBut(nodes: seq<Dest>, cells: set<object>, i: nat, keys: seq<CString>,
                          stacks: map<CString, seq<Entry>>)
    requires i < |nodes|
    reads cells
  {
    && keys != []
    && if i == 0 then HoldAll(nodes[1..], cells, keys[1..], stacks)
       else
         && nodes[0] in cells && nodes[0].entries in cells && Holds(nodes[0], keys[0], stacks)
         && HoldBut(nodes[1..], cells, i - 1, keys[1..], stacks)
  }

  lemma {:induction false} HoldOtherKey(nodes: seq<Dest>, cells: set<object>, keys: seq<CString>,
                                        stacks: map<CString, seq<Entry>>, d: CString, s: seq<Entry>)
    requires HoldAll(nodes, cells, keys, stacks) && d !in keys
    ensures HoldAll(nodes, cells, keys, stacks[d := s])
  {
    if nodes != [] { HoldOtherKey(nodes[1..], cells, keys[1..], stacks, d, s); }
  }

  lemma {:induction false} HoldApart(nodes: seq<Dest>, cells: set<object>, keys: seq<CString>,
                                     stacks: map<CString, seq<Entry>>, n: Dest)
    requires HoldAll(nodes, cells, keys, stacks) && Apart(n, nodes)
    ensures HoldAll(nodes, cells - {n, n.entries}, keys, stacks)
  {
    if nodes != [] { HoldApart(nodes[1..], cells, keys[1..], stacks, n); }
  }

  lemma {:induction false} HoldAt(first: Dest?, nodes: seq<Dest>, cells: set<object>, capacity: nat, i: nat,
                                  keys: seq<CString>, stacks: map<CString, seq<Entry>>)
    requires Chain(first, nodes, capacity) && HoldAll(nodes, cells, keys, stacks) && i < |nodes|
    ensures |nodes| == |keys| && nodes[i] in cells && nodes[i].entries in cells
    ensures nodes[i].entries.Length == capacity && Holds(nodes[i], keys[i], stacks)
  {
    if i > 0 {
      HoldAt(nodes[0].next, nodes[1..], cells, capacity, i - 1, keys[1..], stacks);
    } else if |nodes| > 1 {
      HoldAt(nodes[0].next, nodes[1..], cells, capacity, 0, keys[1..], stacks);
    }
  }

  /** Before node i changes: the others already hold what they will hold. */
  lemma {:induction false} SetAside(first: Dest?, nodes: seq<Dest>, cells: set<object>, capacity: nat, i: nat,
                                    keys: seq<CString>, stacks: map<CString, seq<Entry>>, s: seq<Entry>)
    requires Chain(first, nodes, capacity) && HoldAll(nodes, cells, keys, stacks)
    requires Distinct(keys) && i < |nodes| && i < |keys|
    ensures HoldBut(nodes, cells - {nodes[i], nodes[i].entries}, i, keys, stacks[keys[i] := s])
  {
    if i == 0 {
      HoldApart(nodes[1..], cells, keys[1..], stacks, nodes[0]);
      HoldOtherKey(nodes[1..], cells - {nodes[0], nodes[0].entries}, keys[1..], stacks, keys[0], s);
    } else {
      SetAside(nodes[0].next, nodes[1..], cells, capacity, i - 1, keys[1..], stacks, s);
      assert nodes[1..][i - 1] == nodes[i] && keys[1..][i - 1] == keys[i];
    }
  }

  lemma {:induction false} HoldMore(nodes: seq<Dest>, cells: set<object>, cells': set<object>, keys: seq<CString>,
                                    stacks: map<CString, seq<Entry>>)
    requires HoldAll(nodes, cells, keys, stacks) && cells <= cells'
    ensures HoldAll(nodes, cells', keys, stacks)
  {
    if nodes != [] { HoldMore(nodes[1..], cells, cells', keys[1..], stacks); }
  }

  /** After node i changed: all nodes hold their stacks again. */
  lemma {:induction false} PutBack(nodes: seq<Dest>, less: set<object>, cells: set<object>, i: nat,
                                   keys: seq<CString>, stacks: map<CString, seq<Entry>>)
    requires i < |nodes| && i < |keys| && less <= cells && nodes[i] in cells && nodes[i].entries in cells
    requires HoldBut(nodes, less, i, keys, stacks) && Holds(nodes[i], keys[i], stacks)
    ensures HoldAll(nodes, cells, keys, stacks)
  {
    if i == 0 {
      HoldMore(nodes[1..], less, cells, keys[1..], stacks);
    } else {
      PutBack(nodes[1..], less, cells, i - 1, keys[1..], stacks);
    }
  }

  lemma LiveEvict(env: Env, st: State, d: CString)
    requires d in st.stacks
    ensures LiveMap(Evict(env, st, d)) == LiveMap(st) - SetOf(ExpiredBlocks(st.stacks[d], env.time(st.clock)))
  {
  }

  /** No buffer is freed before it is sourced. */
  ghost predicate Known(st: State) {
    (forall id :: id in st.evicted ==> id < |st.origins|) && (forall id :: id in st.reclaimed ==> id < |st.origins|)
  }

  lemma InvKnown(depth: nat, st: State)
    requires Inv(depth, st)
    ensures Known(st)
  {
    forall id | id in st.evicted || id in st.reclaimed ensures id < |st.origins| {
      assert Places(st, id) > 0 by {
        assert Count(st.reclaimed, id) <= Count(st.handed, id);
        CountMember(st.evicted, id);
        CountMember(st.reclaimed, id);
      }
    }
  }

  lemma LivePush(env: Env, st: State, d: CString)
    requires d in st.stacks && env.source(st.calls, d).Session? && Known(st)
    ensures LiveMap(Push(env, st, d)) == LiveMap(st)[|st.origins| := env.source(st.calls, d).der]
  {
  }

  lemma HandedIsLive(depth: nat, st: State, id: nat)
    requires Inv(depth, st) && id in st.handed && id !in st.reclaimed
    ensures id in LiveMap(st) && LiveMap(Reclaim(st, id)) == LiveMap(st) - {id}
  {
    assert Places(st, id) == if id < |st.origins| then 1 else 0;
    CountMember(st.handed, id);
    CountMember(st.evicted, id);
  }

  /** While the pool is destroyed: a stack not reached yet still owns its buffers. */
  lemma StillOwns(depth: nat, st: State, done: seq<nat>, rest: seq<CString>)
    requires Inv(depth, st) && rest != [] && (forall k :: k in rest ==> k in st.stacks)
    requires done + Held(rest, st.stacks) == Held(st.keys, st.stacks)
    ensures Owns(st.stacks[rest[0]], LiveMap(st) - SetOf(done))
  {
    var s := st.stacks[rest[0]];
    StackOwns(depth, st, rest[0]);
    forall i | 0 <= i < |s| && s[i].der.Block? ensures s[i].der.id !in done {
      var id := s[i].der.id;
      assert Places(st, id) <= 1;
      BlocksMember(s, i);
      HeldContains(rest, st.stacks, rest[0], id);
      CountAppend(done, Held(rest, st.stacks), id);
      CountMember(done, id);
    }
  }

  lemma AlsoDone(live: map<nat, Der>, done: seq<nat>, now: seq<nat>, rest: seq<nat>)
    ensures live - SetOf(done + now) == live - SetOf(done) - SetOf(now)
    ensures done + (now + rest) == done + now + rest
  {
  }

  /** Once every stack is cleared, what is left is in the hands of callers. */
  lemma LeftAfterDestroy(depth: nat, st: State, id: nat)
    requires Inv(depth, st)
    ensures id in LiveMap(st) - SetOf(Held(st.keys, st.stacks)) <==> id in st.handed && id !in st.reclaimed
  {
    assert Places(st, id) == if id < |st.origins| then 1 else 0;
    CountMember(st.handed, id);
    CountMember(st.evicted, id);
    CountMember(Held(st.keys, st.stacks), id);
  }

  class Pool {
    const world: World
    const targetDepth: nat
    var dests: Dest?
    ghost var nodes: seq<Dest>
    ghost var cells: set<object>
    ghost var history: seq<Op>
    ghost var model: State

    /** The environment as PoolSpec sees it: the target depth is the pool's own. */
    ghost function E(): Env { world.env.(depth := targetDepth) }

    ghost predicate Synced(st: State)
      reads world
    {
      && world.clock == st.clock && world.calls == st.calls && world.allocs == st.allocs
      && world.next == |st.origins| && world.live == LiveMap(st)
    }

    /** The heap represents st. */
    ghost predicate Matches(st: State)
      reads this`dests, this`nodes, this`cells, world, cells
    {
      && this !in cells && world !in cells
      && Chain(dests, nodes, targetDepth)
      && HoldAll(nodes, cells, st.keys, st.stacks)
      && Synced(st)
    }

    /** The heap represents the state that the calls so far lead to. */
    ghost predicate Valid()
      reads this, world, cells
    {
      Matches(model) && model == Run(E(), INITIAL, history)
    }

    /** `pool_new`: a target depth below one becomes one. */
    constructor (env: Env, depth: int)
      ensures Valid() && history == [] && model == INITIAL && cells == {} && fresh(world)
      ensures world.env == env && targetDepth == if depth < 1 then 1 else depth
    {
      world := new World(env);
      targetDepth := if depth < 1 then 1 else depth;
      dests, nodes, cells, history, model := null, [], {}, [], INITIAL;
    }

    /** Lookup agrees with the map. */
    method DestFind(dest: CString, ghost st: State) returns (d: Dest?, ghost i: nat)
      requires Matches(st) && Keyed(st.keys, st.stacks)
      ensures d == null <==> dest !in st.keys
      ensures d != null ==> i < |nodes| && d == nodes[i] && d.dest == dest
    {
      d, i := dests, 0;
      while d != null
        invariant i <= |nodes| && i <= |st.keys|
        invariant Chain(d, nodes[i..], targetDepth) && HoldAll(nodes[i..], cells, st.keys[i..], st.stacks)
        invariant dest !in st.keys[..i]
        decreases |nodes| - i
      {
        assert nodes[i..][1..] == nodes[i + 1..] && st.keys[i..][1..] == st.keys[i + 1..];
        assert d == nodes[i] && d.dest == st.keys[i];
        if d.dest == dest { return; }
        d, i := d.next, i + 1;
      }
    }

    /** Links a new, empty destination in front of the list. */
    method AddDest(dest: CString, ghost st: State) returns (d: Dest)
      requires Matches(st) && dest !in st.keys
      modifies this`dests, this`nodes, this`cells
      ensures Matches(st.(keys := [dest] + st.keys, stacks := st.stacks[dest := []]))
      ensures 0 < |nodes| && d == nodes[0] && d.dest == dest && fresh(cells - old(cells))
    {
      d := new Dest(dest, targetDepth, dests);
      ghost var nodes', cells', keys' := [d] + nodes, cells + {d, d.entries}, [dest] + st.keys;
      assert nodes'[1..] == nodes && keys'[1..] == st.keys;
      HoldOtherKey(nodes, cells, st.keys, st.stacks, dest, []);
      HoldMore(nodes, cells, cells', st.keys, st.stacks[dest := []]);
      assert Apart(d, nodes);
      dests, nodes, cells := d, nodes', cells';
    }

    /** The two allocations of a destination that is not there yet, and its linking. */
    method NewDest(dest: CString, ghost st: State) returns (d: Dest?)
      requires Matches(st) && dest !in st.keys
      modifies this`dests, this`nodes, this`cells, world`allocs
      ensures d != null <==> E().alloc(st.allocs) && E().alloc(st.allocs + 1)
      ensures d == null ==> Matches(st.(allocs := st.allocs + if E().alloc(st.allocs) then 2 else 1))
      ensures d != null ==>
                Matches(st.(allocs := st.allocs + 2, keys := [dest] + st.keys, stacks := st.stacks[dest := []]))
      ensures d != null ==> 0 < |nodes| && d == nodes[0] && d.dest == dest
      ensures fresh(cells - old(cells))
    {
      d := null;
      var ok := world.Alloc();
      if !ok { return; }
      ok := world.Alloc();
      if !ok { return; }
      d := AddDest(dest, st.(allocs := st.allocs + 2));
    }

    method DestIntern(dest: CString, ghost st: State) returns (d: Dest?, ghost i: nat)
      requires Matches(st) && Keyed(st.keys, st.stacks)
      modifies this`dests, this`nodes, this`cells, world`allocs
      ensures Matches(Intern(E(), st, dest).0) && (d != null <==> Intern(E(), st, dest).1)
      ensures d != null ==> i < |nodes| && d == nodes[i] && d.dest == dest
      ensures fresh(cells - old(cells))
    {
      d, i := null, 0;
      if |dest| > DEST_MAX { return; }
      d, i := DestFind(dest, st);
      if d != null { return; }
      i := 0;
      d := NewDest(dest, st);
    }

    ghost predicate At(d: Dest, i: nat, st: State)
      reads this
    {
      i < |nodes| && i < |st.keys| && d == nodes[i] && d.dest == st.keys[i] && d.dest in st.stacks
    }

    method EvictDest(d: Dest, ghost i: nat, ghost st: State)
      requires Matches(st) && At(d, i, st) && Distinct(st.keys) && Owns(st.stacks[d.dest], world.live)
      modifies d`count, d.entries, world`live, world`clock
      ensures Matches(Evict(E(), st, d.dest))
    {
      HoldAt(dests, nodes, cells, targetDepth, i, st.keys, st.stacks);
      ghost var goal := Evict(E(), st, d.dest);
      SetAside(dests, nodes, cells, targetDepth, i, st.keys, st.stacks, goal.stacks[d.dest]);
      d.EvictExpired(world);
      LiveEvict(E(), st, d.dest);
      PutBack(nodes, cells - {d, d.entries}, cells, i, goal.keys, goal.stacks);
    }

    /** Every node holds the stack of its key. */
    ghost predicate Linked(keys: seq<CString>, stacks: map<CString, seq<Entry>>)
      reads this`dests, this`nodes, this`cells, cells
    {
      Chain(dests, nodes, targetDepth) && HoldAll(nodes, cells, keys, stacks)
    }

    /** Appends to one node's array; the others are not affected. */
    method AppendTo(d: Dest, ghost i: nat, ghost st: State, e: Entry)
      requires Linked(st.keys, st.stacks) && At(d, i, st) && Distinct(st.keys) && |st.stacks[d.dest]| < targetDepth
      requires this !in cells
      modifies d`count, d.entries
      ensures Linked(st.keys, st.stacks[d.dest := st.stacks[d.dest] + [e]])
    {
      HoldAt(dests, nodes, cells, targetDepth, i, st.keys, st.stacks);
      ghost var stacks := st.stacks[d.dest := st.stacks[d.dest] + [e]];
      SetAside(dests, nodes, cells, targetDepth, i, st.keys, st.stacks, stacks[d.dest]);
      d.Append(e);
      PutBack(nodes, cells - {d, d.entries}, cells, i, st.keys, stacks);
    }

    /** Stores one sourced session in the slot at `count`, whatever that slot held before. */
    method Store(d: Dest, ghost i: nat, ghost st: State) returns (ok: bool)
      requires Matches(st) && At(d, i, st) && Distinct(st.keys) && Known(st) && |st.stacks[d.dest]| < targetDepth
      modifies d`count, d.entries, world`live, world`clock, world`calls, world`next
      ensures ok == E().source(st.calls, d.dest).Session?
      ensures Matches(if ok then Push(E(), st, d.dest) else st.(calls := st.calls + 1))
    {
      HoldAt(dests, nodes, cells, targetDepth, i, st.keys, st.stacks);
      assert world.next !in world.live;
      var o, der := world.Source(d.dest);
      ok := o.Session?;
      if ok {
        LivePush(E(), st, d.dest);
        var now := world.Time();
        AppendTo(d, i, st, Entry(der, |o.der|, o.isPqc, o.group, now + Lifetime(o.lifetime)));
      }
    }

    /** Eviction, then the refill loop. */
    method Refill(d: Dest, ghost i: nat, ghost st0: State) returns (n: nat)
      requires Matches(st0) && At(d, i, st0) && Distinct(st0.keys) && Owns(st0.stacks[d.dest], world.live)
      requires Known(Evict(E(), st0, d.dest))
      modifies d`count, d.entries, world`live, world`clock, world`calls, world`next
      ensures Matches(Fill(E(), Evict(E(), st0, d.dest), d.dest))
      ensures n == |Fill(E(), Evict(E(), st0, d.dest), d.dest).stacks[d.dest]|
    {
      EvictDest(d, i, st0);
      ghost var st := Evict(E(), st0, d.dest);
      ghost var goal := Fill(E(), st, d.dest);
      HoldAt(dests, nodes, cells, targetDepth, i, st.keys, st.stacks);
      while d.count < targetDepth
        invariant Matches(st) && At(d, i, st) && Distinct(st.keys) && Known(st) && goal == Fill(E(), st, d.dest)
        invariant d.count == |st.stacks[d.dest]|
        decreases targetDepth - d.count
      {
        var ok := Store(d, i, st);
        if !ok {
          st := goal;
          break;
        }
        st := Push(E(), st, d.dest);
        HoldAt(dests, nodes, cells, targetDepth, i, st.keys, st.stacks);
      }
      assert st == goal;
      HoldAt(dests, nodes, cells, targetDepth, i, st.keys, st.stacks);
      n := d.count;
    }

    method Maintain(dest: CString) returns (n: nat)
      requires Valid()
      modifies this, world, cells
      ensures Valid() && fresh(cells - old(cells))
      ensures history == old(history) + [MaintainOp(dest)]
      ensures (model, n) == PoolSpec.Maintain(E(), old(model), dest)
    {
      ghost var st := model;
      assert Keyed(st.keys, st.stacks) by { ReachedInv(E(), history); }
      RunAppend(E(), INITIAL, history, MaintainOp(dest));
      history, model := history + [MaintainOp(dest)], PoolSpec.Maintain(E(), st, dest).0;
      var d, i := DestIntern(dest, st);
      if d == null { return 0; }
      ghost var st1 := Intern(E(), st, dest).0;
      HoldAt(dests, nodes, cells, targetDepth, i, st1.keys, st1.stacks);
      assert Distinct(st1.keys) && Owns(st1.stacks[dest], world.live) && Known(Evict(E(), st1, dest)) by {
        ReachedInv(E(), old(history));
        InternKeeps(E(), st, dest);
        EvictKeeps(E(), st1, dest);
        InvKnown(targetDepth, Evict(E(), st1, dest));
        StackOwns(targetDepth, st1, dest);
      }
      n := Refill(d, i, st1);
    }

    /** What a reached state guarantees about the destination found at node i. */
    lemma ReachedOwns(d: Dest, i: nat, ops: seq<Op>, st: State)
      requires Matches(st) && st == Run(E(), INITIAL, ops) && i < |nodes| && d == nodes[i]
      ensures d in cells && d.entries in cells && At(d, i, st) && Distinct(st.keys)
              && Owns(st.stacks[d.dest], world.live)
    {
      HoldAt(dests, nodes, cells, targetDepth, i, st.keys, st.stacks);
      ReachedInv(E(), ops);
      StackOwns(targetDepth, st, d.dest);
    }

    method Depth(dest: CString) returns (n: nat)
      requires Valid()
      modifies this`history, this`model, world, cells
      ensures Valid() && history == old(history) + [DepthOp(dest)]
      ensures (model, n) == PoolSpec.Depth(E(), old(model), dest)
    {
      ghost var st := model;
      assert Keyed(st.keys, st.stacks) by { ReachedInv(E(), history); }
      RunAppend(E(), INITIAL, history, DepthOp(dest));
      history, model := history + [DepthOp(dest)], PoolSpec.Depth(E(), st, dest).0;
      var d, i := DestFind(dest, st);
      if d == null { return 0; }
      ReachedOwns(d, i, old(history), st);
      EvictDest(d, i, st);
      HoldAt(dests, nodes, cells, targetDepth, i, model.keys, model.stacks);
      n := d.count;
    }

    /** The pop itself: the newest entry of d, which must exist. */
    method TakeFrom(d: Dest, ghost i: nat, ghost st: State) returns (e: Entry)
      requires Matches(st) && At(d, i, st) && Distinct(st.keys) && st.stacks[d.dest] != []
      modifies d`count, d.entries
      ensures Pop(st, d.dest).1 == Some(e) && Matches(Pop(st, d.dest).0)
    {
      HoldAt(dests, nodes, cells, targetDepth, i, st.keys, st.stacks);
      ghost var goal := Pop(st, d.dest).0;
      SetAside(dests, nodes, cells, targetDepth, i, st.keys, st.stacks, goal.stacks[d.dest]);
      ghost var s := d.entries[..d.count];
      assert d.entries[..d.count - 1] == s[..|s| - 1];
      e := d.TakeLast();
      PutBack(nodes, cells - {d, d.entries}, cells, i, goal.keys, goal.stacks);
    }

    /** Eviction, then the pop if something is left. */
    method TakeUnexpired(d: Dest, ghost i: nat, ghost st: State) returns (got: Option<Entry>)
      requires Matches(st) && At(d, i, st) && Distinct(st.keys) && Owns(st.stacks[d.dest], world.live)
      modifies d`count, d.entries, world`live, world`clock
      ensures got == Pop(Evict(E(), st, d.dest), d.dest).1 && Matches(Pop(Evict(E(), st, d.dest), d.dest).0)
    {
      EvictDest(d, i, st);
      ghost var st1 := Evict(E(), st, d.dest);
      HoldAt(dests, nodes, cells, targetDepth, i, st1.keys, st1.stacks);
      if d.count == 0 { return None; }
      var e := TakeFrom(d, i, st1);
      return Some(e);
    }

    method Get(dest: CString, groupCap: nat) returns (hit: bool, der: Ptr, derLen: int, isPqc: int, group: CString)
      requires Valid()
      modifies this`history, this`model, world, cells
      ensures Valid() && history == old(history) + [GetOp(dest)]
      ensures var (m, e) := PoolSpec.Get(E(), old(model), dest);
              && model == m && hit == e.Some?
              && (hit ==> der == e.value.der && derLen == e.value.derLen && isPqc == e.value.isPqc)
              && (hit ==> group == if groupCap > 0 then Truncated(e.value.group, groupCap) else [])
    {
      hit, der, derLen, isPqc, group := false, Null, 0, 0, [];
      ghost var st := model;
      assert Keyed(st.keys, st.stacks) by { ReachedInv(E(), history); }
      RunAppend(E(), INITIAL, history, GetOp(dest));
      history, model := history + [GetOp(dest)], PoolSpec.Get(E(), st, dest).0;
      var d, i := DestFind(dest, st);
      if d == null { return; }
      ReachedOwns(d, i, old(history), st);
      var got := TakeUnexpired(d, i, st);
      if got.None? { return; }
      var e := got.value;
      hit, der, derLen, isPqc := true, e.der, e.derLen, e.isPqc;
      if groupCap > 0 { group := Truncated(e.group, groupCap); }
    }

    /** A caller's own allocation, which may fail like the pool's. */
    method CallerAlloc() returns (ok: bool)
      requires Valid()
      modifies this`history, this`model, world`allocs
      ensures Valid() && history == old(history) + [AllocOp] && model == PoolLedger.CallerAlloc(old(model))
      ensures ok == E().alloc(old(model).allocs)
    {
      RunAppend(E(), INITIAL, history, AllocOp);
      history, model := history + [AllocOp], PoolLedger.CallerAlloc(model);
      ok := world.Alloc();
    }

    /** The receiver of a buffer frees it. */
    method Release(der: Ptr)
      requires Valid() && der.Block? && der.id in model.handed && der.id !in model.reclaimed
      modifies this`history, this`model, world`live
      ensures Valid() && history == old(history) + [ReclaimOp(der.id)] && model == Reclaim(old(model), der.id)
    {
      assert der.id in LiveMap(model) && LiveMap(Reclaim(model, der.id)) == LiveMap(model) - {der.id} by {
        ReachedInv(E(), history);
        HandedIsLive(targetDepth, model, der.id);
      }
      RunAppend(E(), INITIAL, history, ReclaimOp(der.id));
      history, model := history + [ReclaimOp(der.id)], Reclaim(model, der.id);
      world.Free(der);
    }

    /** `pool_free`: what stays allocated is what callers hold and have not freed. */
    method Destroy()
      requires Valid()
      modifies world`live, cells
      ensures forall id: nat :: id in world.live <==> id in model.handed && id !in model.reclaimed
    {
      ghost var st, done, left := model, [], cells;
      ghost var ns, ks := nodes, st.keys;
      assert forall k :: k in ks ==> k in st.stacks by { ReachedInv(E(), history); }
      var d := dests;
      while d != null
        invariant left <= cells && (forall k :: k in ks ==> k in st.stacks)
        invariant Chain(d, ns, targetDepth) && HoldAll(ns, left, ks, st.stacks)
        invariant done + Held(ks, st.stacks) == Held(st.keys, st.stacks)
        invariant world.live == LiveMap(st) - SetOf(done)
        decreases |ns|
      {
        ghost var s := st.stacks[d.dest];
        assert Owns(s, world.live) by {
          ReachedInv(E(), history);
          StillOwns(targetDepth, st, done, ks);
        }
        HoldApart(ns[1..], left, ks[1..], st.stacks, d);
        d.ClearAll(world);
        AlsoDone(LiveMap(st), done, Blocks(s), Held(ks[1..], st.stacks));
        left, ns, ks, done := left - {d, d.entries}, ns[1..], ks[1..], done + Blocks(s);
        d := d.next;
      }
      assert done == Held(st.keys, st.stacks);
      forall id: nat ensures id in world.live <==> id in st.handed && id !in st.reclaimed {
        ReachedInv(E(), history);
        LeftAfterDestroy(targetDepth, st, id);
      }
    }
  }
}

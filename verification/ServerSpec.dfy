/**
 One served connection as a function of the bytes heard on it, and what follows for
 whole sequences of connections: single use, provenance, totality and refill.
 */
module ServerSpec {
  import opened Bytes
  import opened PoolSpec
  import opened PoolLedger
  import opened PoolLaws
  import Wire

  const DEST_CAP := Wire.DEST_MAX + 1

  /** block is the buffer popped for this connection, whether or not it could be delivered. */
  datatype Served = Served(pool: State, reply: Option<seq<byte>>, block: Option<nat>)

  function DerOf(st: State, e: Entry): (r: Der) {
    if e.der.Block? && e.der.id < |st.origins| then st.origins[e.der.id].der else []
  }

  /** The header is one the server goes on to read a destination for. */
  predicate Acceptable(h: seq<byte>) {
    |h| >= Wire.REQ_HDR && h[0] == Wire.MAGIC && h[1] == Wire.VERSION && h[3] != 0
  }

  /** What the bytes of a connection amount to: an incomplete request, a bad one, or one for a destination. */
  datatype Heard = Incomplete | Malformed | Asks(dest: CString)

  function Hear(s: seq<byte>): Heard {
    if |s| < Wire.REQ_HDR then Incomplete
    else if !Acceptable(s) then Malformed
    else if |s| < Wire.REQ_HDR + s[3] as int then Incomplete
    else
      match Wire.ParseRequest(s[..Wire.REQ_HDR + s[3] as int], DEST_CAP)
      case Bad(_) => Malformed
      case Good(d) => Asks(d)
  }

  /** `handle_conn` after a hit: answer, free the buffer, top up; without memory, answer ERROR and do not top up. */
  function Deliver(env: Env, st: State, d: CString, e: Entry): Served {
    var s1 := CallerAlloc(st);
    var s2 := if e.der.Block? then Reclaim(s1, e.der.id) else s1;
    var block := if e.der.Block? then Some(e.der.id) else None;
    if !env.alloc(st.allocs) then Served(s2, Some(Wire.StatusFrame(Wire.STATUS_ERROR)), block)
    else Served(Maintain(env, s2, d).0, Some(Wire.OkFrame(e.isPqc, Truncated(e.group, 64), DerOf(st, e))), block)
  }

  /** `handle_conn` once the destination is known. */
  function ServeDest(env: Env, st: State, d: CString): Served {
    var (s1, got) := Get(env, st, d);
    if got.None? then Served(Maintain(env, s1, d).0, Some(Wire.StatusFrame(Wire.STATUS_MISS)), None)
    else Deliver(env, s1, d, got.value)
  }

  function Serve(env: Env, st: State, s: seq<byte>): Served {
    match Hear(s)
    case Incomplete => Served(st, None, None)
    case Malformed => Served(st, Some(Wire.StatusFrame(Wire.STATUS_ERROR)), None)
    case Asks(d) => ServeDest(env, st, d)
  }

  // ---------- totality ----------

  /**
   For every byte stream: silence exactly when it ends inside the header or inside the
   destination of an acceptable header, and otherwise one well-formed frame. That frame is
   an ERROR, and the pool is left alone, for a wrong magic or version, for an empty
   destination, and for an operation other than GET once the destination is complete.
   */
  lemma ServeTotal(env: Env, st: State, heard: seq<byte>)
    ensures BadRequest(heard) ==> Serve(env, st, heard) == Served(st, Some([0x54, 1, 2, 0, 0, 0, 0, 0, 0]), None)
    ensures var r := Serve(env, st, heard).reply;
            && (r.None? <==> |heard| < Wire.REQ_HDR || (Acceptable(heard) && |heard| < Wire.REQ_HDR + heard[3] as int))
            && (r.Some? ==> Wire.WellFormed(r.value))
    ensures Acceptable(heard) && |heard| >= Wire.REQ_HDR + heard[3] as int ==>
              var p := Wire.ParseRequest(heard[..Wire.REQ_HDR + heard[3] as int], DEST_CAP);
              (p == Wire.Bad(-5) <==> heard[2] != Wire.OP_GET) && (p.Good? <==> heard[2] == Wire.OP_GET)
  {
    Wire.FramesWellFormed(Wire.STATUS_ERROR, 0, [], []);
    Wire.FramesWellFormed(Wire.STATUS_MISS, 0, [], []);
    if Hear(heard).Asks? {
      var d := Hear(heard).dest;
      var (s1, got) := Get(env, st, d);
      if got.Some? {
        var e := got.value;
        Wire.FramesWellFormed(Wire.STATUS_ERROR, e.isPqc, Truncated(e.group, 64), DerOf(s1, e));
      }
    }
  }

  /** Four bytes or more that no request begins with, or a complete frame for another operation. */
  predicate BadRequest(s: seq<byte>) {
    && |s| >= 4
    && (s[0] != 0x54 || s[1] != 1 || s[3] == 0 || (|s| >= 4 + s[3] as int && s[2] != 1))
  }

  /** A stream asks for a destination exactly when it begins with a GET frame; the name ends at its first NUL. */
  lemma HearExact(s: seq<byte>)
    ensures Hear(s).Asks? <==> |s| >= 4 && s[..3] == [0x54, 1, 1] && s[3] != 0 && |s| >= 4 + s[3] as int
    ensures Hear(s).Asks? ==> Hear(s).dest == CStr(s[4..4 + s[3] as int])
    ensures Hear(s) == Malformed <==> BadRequest(s)
  {
    if |s| >= 4 {
      assert s[..3] == [s[0], s[1], s[2]];
      if |s| >= 4 + s[3] as int { assert s[..4 + s[3] as int][4..] == s[4..4 + s[3] as int]; }
    }
  }

  /** How much of a stream the server reads before it answers or gives up. */
  function Consumed(s: seq<byte>): nat {
    if |s| < Wire.REQ_HDR then |s|
    else if !Acceptable(s) then Wire.REQ_HDR
    else if |s| < Wire.REQ_HDR + s[3] as int then |s|
    else Wire.REQ_HDR + s[3] as int
  }

  /** What follows those bytes makes no difference. */
  lemma HearIgnoresRest(s: seq<byte>)
    ensures Hear(s[..Consumed(s)]) == Hear(s)
  {
    var t := s[..Consumed(s)];
    if |s| >= Wire.REQ_HDR {
      assert t[0] == s[0] && t[1] == s[1] && t[3] == s[3];
      if Acceptable(s) && |s| >= Wire.REQ_HDR + s[3] as int {
        assert t[..Wire.REQ_HDR + s[3] as int] == s[..Wire.REQ_HDR + s[3] as int];
      }
    }
  }

  /** And it reads no further than it must: after fewer bytes the request is still incomplete. */
  lemma ConsumedLeast(s: seq<byte>, k: nat)
    requires k < Consumed(s)
    ensures Consumed(s) <= |s| && Hear(s[..k]) == Incomplete
  {
    if k >= 4 { assert s[..k][0] == s[0] && s[..k][1] == s[1] && s[..k][3] == s[3]; }
  }

  // ---------- one connection ----------

  lemma DeliverKeeps(env: Env, st: State, d: CString, e: Entry)
    requires Inv(env.depth, st) && e.der.Block? && e.der.id in st.handed && e.der.id !in st.reclaimed
    ensures Inv(env.depth, Deliver(env, st, d, e).pool)
  {
    AllocKeeps(env.depth, st);
    var s1 := CallerAlloc(st);
    ReclaimKeeps(env.depth, s1, e.der.id);
    MaintainKeeps(env, Reclaim(s1, e.der.id), d);
  }

  /** What pool_get leaves of the popped buffer: handed out, and not freed yet. */
  lemma GotBlock(env: Env, st: State, d: CString)
    requires Inv(env.depth, st) && Get(env, st, d).1.Some?
    ensures var (s1, got) := Get(env, st, d);
            && Inv(env.depth, s1) && got.value.der.Block?
            && got.value.der.id in s1.handed && got.value.der.id !in s1.reclaimed
  {
    GetKeeps(env, st, d);
    GetPops(env, st, d);
    var (s1, got) := Get(env, st, d);
    var id := got.value.der.id;
    CountMember(st.handed, id);
    CountMember(st.reclaimed, id);
    assert Count(st.reclaimed, id) <= Count(st.handed, id);
    assert s1.handed[|st.handed|] == id;
  }

  lemma ServeDestKeeps(env: Env, st: State, d: CString)
    requires Inv(env.depth, st)
    ensures Inv(env.depth, ServeDest(env, st, d).pool)
  {
    var (s1, got) := Get(env, st, d);
    GetKeeps(env, st, d);
    if got.None? {
      MaintainKeeps(env, s1, d);
    } else {
      GotBlock(env, st, d);
      DeliverKeeps(env, s1, d, got.value);
    }
  }

  lemma ServeKeeps(env: Env, st: State, heard: seq<byte>)
    requires Inv(env.depth, st)
    ensures Inv(env.depth, Serve(env, st, heard).pool)
  {
    if Hear(heard).Asks? { ServeDestKeeps(env, st, Hear(heard).dest); }
  }

  /** Buffer b, popped for destination d at the first clock reading, becomes the reply. */
  ghost predicate Answers(env: Env, st: State, d: CString, b: nat, reply: Option<seq<byte>>) {
    && b < |st.origins| && b !in st.handed
    && var o := st.origins[b];
    && o.dest == d && o.expiresAt > env.time(st.clock)
    && reply == Some(if env.alloc(st.allocs) then Wire.OkFrame(o.isPqc, o.group, o.der)
                     else Wire.StatusFrame(Wire.STATUS_ERROR))
  }

  /**
   The reply is what the source answered to one of its calls, made for destination d, with
   a lifetime that had not passed at the clock value read; or ERROR, without memory for it.
   */
  ghost predicate FromSource(env: Env, st: State, d: CString, b: nat, reply: Option<seq<byte>>) {
    && b < |st.origins|
    && var o := st.origins[b];
    && o.call < st.calls && env.source(o.call, d).Session?
    && var a := env.source(o.call, d);
    && env.time(o.tick) + (if a.lifetime > 0 then a.lifetime else 0) > env.time(st.clock)
    && reply == Some(if env.alloc(st.allocs) then Wire.OkFrame(a.isPqc, a.group, a.der)
                     else Wire.StatusFrame(Wire.STATUS_ERROR))
  }

  lemma AnswersFromSource(env: Env, st: State, d: CString, b: nat, reply: Option<seq<byte>>)
    requires Answers(env, st, d, b, reply) && Sourced(env, st)
    ensures FromSource(env, st, d, b, reply)
  {
    assert Answered(env, st.origins[b]);
  }

  /** Destination k has the same entries in both states, or is in neither. */
  ghost predicate SameStack(st: State, r: State, k: CString) {
    (k in r.stacks <==> k in st.stacks) && (k in st.stacks ==> r.stacks[k] == st.stacks[k])
  }

  lemma ServeElsewhere(env: Env, st: State, d: CString, k: CString)
    requires k != d
    ensures SameStack(st, ServeDest(env, st, d).pool, k)
  {
    var (s1, got) := Get(env, st, d);
    MaintainLaw(env, s1, d);
    if got.Some? {
      var s2 := CallerAlloc(s1);
      MaintainLaw(env, if got.value.der.Block? then Reclaim(s2, got.value.der.id) else s2, d);
    }
  }

  /** The three kinds of reply differ in their third byte. */
  lemma RepliesDiffer(isPqc: int, group: CString, der: seq<byte>)
    requires |group| < 256 && |der| < TWO32
    ensures Wire.StatusFrame(Wire.STATUS_MISS) == [0x54, 1, 1, 0, 0, 0, 0, 0, 0]
    ensures Wire.StatusFrame(Wire.STATUS_ERROR) == [0x54, 1, 2, 0, 0, 0, 0, 0, 0]
    ensures Wire.StatusFrame(Wire.STATUS_MISS) != Wire.StatusFrame(Wire.STATUS_ERROR)
    ensures Wire.OkFrame(isPqc, group, der) != Wire.StatusFrame(Wire.STATUS_MISS)
  {
    Wire.FrameBytes(1, isPqc, group, der);
    Wire.FrameBytes(2, isPqc, group, der);
    assert Wire.StatusFrame(1)[2] == 1 && Wire.StatusFrame(2)[2] == 2;
    assert Wire.OkFrame(isPqc, group, der)[2] == 0;
  }

  lemma ServeDestLaw(env: Env, st: State, d: CString)
    requires Inv(env.depth, st)
    ensures var r := ServeDest(env, st, d);
            && st.origins <= r.pool.origins
            && (r.block.None? ==> r.pool.handed == st.handed && r.reply == Some(Wire.StatusFrame(Wire.STATUS_MISS)))
            && (r.block.Some? ==>
                 r.pool.handed == st.handed + [r.block.value] && Answers(env, st, d, r.block.value, r.reply))
            && (r.block.Some? && !env.alloc(st.allocs) ==> r.pool.origins == st.origins)
  {
    var (s1, got) := Get(env, st, d);
    if got.None? {
      GetMisses(env, st, d);
      MaintainLaw(env, s1, d);
    } else {
      GetPops(env, st, d);
      var e := got.value;
      MaintainLaw(env, Reclaim(CallerAlloc(s1), e.der.id), d);
      assert Truncated(e.group, 64) == e.group;
    }
  }

  /**
   One connection: at most one buffer leaves the pool. It is one that had not been handed
   out before, that the source produced for the destination asked for, and that had not
   expired at the clock value read for this request. The client gets its DER, group and
   flag in an OK frame, as the source gave them; or, if there was no memory for the frame,
   an ERROR, and then nothing is refilled. No other reply is OK, and MISS is the reply
   exactly when a destination was asked for and nothing was popped. A stream that asks for
   nothing leaves the pool as it was, and any other leaves all other destinations alone.
   */
  lemma ServeLaw(env: Env, st: State, heard: seq<byte>)
    requires Inv(env.depth, st)
    ensures var r := Serve(env, st, heard);
            && st.origins <= r.pool.origins
            && (r.block.None? ==>
                  && r.pool.handed == st.handed
                  && r.reply in {None, Some(Wire.StatusFrame(Wire.STATUS_MISS)),
                                 Some(Wire.StatusFrame(Wire.STATUS_ERROR))})
            && (r.block.Some? ==>
                  && r.pool.handed == st.handed + [r.block.value]
                  && Hear(heard).Asks? && Answers(env, st, Hear(heard).dest, r.block.value, r.reply))
            && (r.block.Some? && Sourced(env, st) ==> FromSource(env, st, Hear(heard).dest, r.block.value, r.reply))
            && (!Hear(heard).Asks? ==> r.pool == st)
            && (r.reply == Some([0x54, 1, 1, 0, 0, 0, 0, 0, 0]) <==> Hear(heard).Asks? && r.block.None?)
            && (forall k :: Hear(heard) != Asks(k) ==> SameStack(st, r.pool, k))
            && (r.block.Some? && !env.alloc(st.allocs) ==> r.pool.origins == st.origins)
  {
    if Hear(heard).Asks? { ServeDestLaw(env, st, Hear(heard).dest); }
    var r := Serve(env, st, heard);
    RepliesDiffer(0, [], []);
    if r.block.Some? {
      var o := st.origins[r.block.value];
      RepliesDiffer(o.isPqc, o.group, o.der);
    }
    forall k | Hear(heard) != Asks(k) ensures SameStack(st, r.pool, k) {
      if Hear(heard).Asks? { ServeElsewhere(env, st, Hear(heard).dest, k); }
    }
    if r.block.Some? && Sourced(env, st) { AnswersFromSource(env, st, Hear(heard).dest, r.block.value, r.reply); }
  }

  // ---------- whole runs ----------

  /** The pool after these connections, in order. */
  function After(env: Env, st: State, conns: seq<seq<byte>>): State {
    if conns == [] then st
    else Serve(env, After(env, st, conns[..|conns| - 1]), conns[|conns| - 1]).pool
  }

  lemma {:induction false} AfterKeeps(env: Env, st: State, conns: seq<seq<byte>>)
    requires Inv(env.depth, st)
    ensures Inv(env.depth, After(env, st, conns))
  {
    if conns != [] {
      var n := |conns| - 1;
      AfterKeeps(env, st, conns[..n]);
      ServeKeeps(env, After(env, st, conns[..n]), conns[n]);
    }
  }

  /** What connection i was served with. */
  function Nth(env: Env, st: State, conns: seq<seq<byte>>, i: nat): Served
    requires i < |conns|
  {
    Serve(env, After(env, st, conns[..i]), conns[i])
  }

  /** Serving connection i extends the hand-outs by its block, if it has one. */
  lemma HandedGrows(env: Env, st: State, conns: seq<seq<byte>>, i: nat)
    requires Inv(env.depth, st) && i < |conns|
    ensures var block := Nth(env, st, conns, i).block;
            After(env, st, conns[..i + 1]).handed
            == After(env, st, conns[..i]).handed + (if block.Some? then [block.value] else [])
  {
    assert conns[..i + 1][..i] == conns[..i];
    AfterKeeps(env, st, conns[..i]);
    ServeLaw(env, After(env, st, conns[..i]), conns[i]);
  }

  lemma {:induction false} HandedKept(env: Env, st: State, conns: seq<seq<byte>>, i: nat, j: nat, b: nat)
    requires Inv(env.depth, st) && i <= j <= |conns| && b in After(env, st, conns[..i]).handed
    ensures b in After(env, st, conns[..j]).handed
    decreases j
  {
    if i < j {
      HandedKept(env, st, conns, i, j - 1, b);
      HandedGrows(env, st, conns, j - 1);
    }
  }

  lemma HandedForever(env: Env, st: State, conns: seq<seq<byte>>, i: nat, j: nat)
    requires Inv(env.depth, st) && i < j <= |conns| && Nth(env, st, conns, i).block.Some?
    ensures Nth(env, st, conns, i).block.value in After(env, st, conns[..j]).handed
  {
    HandedGrows(env, st, conns, i);
    HandedKept(env, st, conns, i + 1, j, Nth(env, st, conns, i).block.value);
  }

  lemma HandedNotPooled(depth: nat, st: State, b: nat)
    requires Inv(depth, st) && b in st.handed
    ensures b !in Held(st.keys, st.stacks)
  {
    assert Places(st, b) <= 1;
    CountMember(st.handed, b);
    CountMember(Held(st.keys, st.stacks), b);
  }

  /**
   Single use, over every sequence of connections: a buffer popped for one connection is
   never popped for a later one, and is in no stack ever after, whether or not the answer
   reached the client.
   */
  lemma SingleUse(env: Env, st: State, conns: seq<seq<byte>>, i: nat, j: nat)
    requires Inv(env.depth, st) && i < j <= |conns| && Nth(env, st, conns, i).block.Some?
    ensures var b, later := Nth(env, st, conns, i).block.value, After(env, st, conns[..j]);
            && (j < |conns| ==> Nth(env, st, conns, j).block != Some(b))
            && Keyed(later.keys, later.stacks) && b !in Held(later.keys, later.stacks)
  {
    var b, later := Nth(env, st, conns, i).block.value, After(env, st, conns[..j]);
    HandedForever(env, st, conns, i, j);
    AfterKeeps(env, st, conns[..j]);
    HandedNotPooled(env.depth, later, b);
    if j < |conns| { ServeLaw(env, later, conns[j]); }
  }

  // ---------- each answer of the source at most once ----------

  lemma ServeSourced(env: Env, st: State, heard: seq<byte>)
    requires Sourced(env, st)
    ensures Sourced(env, Serve(env, st, heard).pool)
  {
    if Hear(heard).Asks? {
      var d := Hear(heard).dest;
      var (s1, got) := Get(env, st, d);
      ApplySourced(env, st, GetOp(d));
      if got.None? {
        ApplySourced(env, s1, MaintainOp(d));
      } else {
        var s2 := CallerAlloc(s1);
        ApplySourced(env, if got.value.der.Block? then Reclaim(s2, got.value.der.id) else s2, MaintainOp(d));
      }
    }
  }

  lemma {:induction false} AfterSourced(env: Env, conns: seq<seq<byte>>)
    ensures Sourced(env, After(env, INITIAL, conns)) && Inv(env.depth, After(env, INITIAL, conns))
  {
    ReachedInv(env, []);
    AfterKeeps(env, INITIAL, conns);
    if conns != [] {
      var n := |conns| - 1;
      AfterSourced(env, conns[..n]);
      ServeSourced(env, After(env, INITIAL, conns[..n]), conns[n]);
    }
  }

  lemma OriginsGrow(env: Env, conns: seq<seq<byte>>, j: nat)
    requires j < |conns|
    ensures After(env, INITIAL, conns[..j]).origins <= After(env, INITIAL, conns[..j + 1]).origins
  {
    AfterSourced(env, conns[..j]);
    assert conns[..j + 1][..j] == conns[..j];
    ServeLaw(env, After(env, INITIAL, conns[..j]), conns[j]);
  }

  lemma {:induction false} OriginsKept(env: Env, conns: seq<seq<byte>>, i: nat, j: nat)
    requires i <= j <= |conns|
    ensures After(env, INITIAL, conns[..i]).origins <= After(env, INITIAL, conns[..j]).origins
    decreases j
  {
    if i < j {
      OriginsKept(env, conns, i, j - 1);
      OriginsGrow(env, conns, j - 1);
    }
  }

  /** The source call whose answer connection i was served with. */
  function CallOf(env: Env, conns: seq<seq<byte>>, i: nat): nat
    requires i < |conns|
  {
    var st, b := After(env, INITIAL, conns[..i]), Nth(env, INITIAL, conns, i).block;
    if b.Some? && b.value < |st.origins| then st.origins[b.value].call else 0
  }

  /**
   Over every sequence of connections from the empty pool, what a connection is served with
   is the answer of the source to a call for the destination that connection asked for.
   */
  lemma ServedFromSource(env: Env, conns: seq<seq<byte>>, i: nat)
    requires i < |conns| && Nth(env, INITIAL, conns, i).block.Some?
    ensures var st, r := After(env, INITIAL, conns[..i]), Nth(env, INITIAL, conns, i);
            && Hear(conns[i]).Asks? && r.block.value < |st.origins|
               && CallOf(env, conns, i) == st.origins[r.block.value].call
            && FromSource(env, st, Hear(conns[i]).dest, r.block.value, r.reply)
  {
    AfterSourced(env, conns[..i]);
    ServeLaw(env, After(env, INITIAL, conns[..i]), conns[i]);
  }

  /** And no two connections are served with the answer to the same call. */
  lemma AnswerOnce(env: Env, conns: seq<seq<byte>>, i: nat, j: nat)
    requires i < j < |conns| && Nth(env, INITIAL, conns, i).block.Some? && Nth(env, INITIAL, conns, j).block.Some?
    ensures CallOf(env, conns, i) != CallOf(env, conns, j)
  {
    var bi, bj := Nth(env, INITIAL, conns, i).block.value, Nth(env, INITIAL, conns, j).block.value;
    assert bi != bj by {
      ReachedInv(env, []);
      SingleUse(env, INITIAL, conns, i, j);
    }
    ServedFromSource(env, conns, i);
    ServedFromSource(env, conns, j);
    OriginsKept(env, conns, i, j);
    CallsDiffer(env, conns[..j], bi, bj);
  }

  lemma CallsDiffer(env: Env, conns: seq<seq<byte>>, a: nat, b: nat)
    requires var os := After(env, INITIAL, conns).origins; a < |os| && b < |os| && a != b
    ensures var os := After(env, INITIAL, conns).origins; os[a].call != os[b].call
  {
    AfterSourced(env, conns);
  }

  // ---------- no leak ----------

  lemma ServeReclaims(env: Env, st: State, s: seq<byte>)
    requires Inv(env.depth, st) && st.reclaimed == st.handed
    ensures Serve(env, st, s).pool.reclaimed == Serve(env, st, s).pool.handed
  {
    if Hear(s).Asks? {
      var d := Hear(s).dest;
      var (s1, got) := Get(env, st, d);
      if got.None? {
        GetMisses(env, st, d);
        MaintainLaw(env, s1, d);
      } else {
        GetPops(env, st, d);
        MaintainLaw(env, Reclaim(CallerAlloc(s1), got.value.der.id), d);
      }
    }
  }

  /**
   Between connections, the server holds no session of its own: over every run from the
   empty pool, the buffers still allocated are exactly those in the pool's stacks.
   */
  lemma {:induction false} NothingLeaks(env: Env, conns: seq<seq<byte>>, id: nat)
    ensures var st := After(env, INITIAL, conns);
            && Inv(env.depth, st) && st.reclaimed == st.handed
            && (id < |st.origins| && id !in st.evicted && id !in st.reclaimed <==> id in Held(st.keys, st.stacks))
  {
    ReachedInv(env, []);
    AfterKeeps(env, INITIAL, conns);
    AfterReclaims(env, conns);
    var st := After(env, INITIAL, conns);
    assert Places(st, id) == if id < |st.origins| then 1 else 0;
    CountMember(st.handed, id);
    CountMember(st.evicted, id);
    CountMember(Held(st.keys, st.stacks), id);
  }

  lemma {:induction false} AfterReclaims(env: Env, conns: seq<seq<byte>>)
    ensures After(env, INITIAL, conns).reclaimed == After(env, INITIAL, conns).handed
  {
    if conns != [] {
      var n := |conns| - 1;
      AfterReclaims(env, conns[..n]);
      ReachedInv(env, []);
      AfterKeeps(env, INITIAL, conns[..n]);
      ServeReclaims(env, After(env, INITIAL, conns[..n]), conns[n]);
    }
  }

  // ---------- refill ----------

  /** The state `pool_maintain` starts from at the end of a request. */
  function BeforeRefill(env: Env, st: State, d: CString): State {
    var (s1, got) := Get(env, st, d);
    if got.Some? && got.value.der.Block? then Reclaim(CallerAlloc(s1), got.value.der.id) else s1
  }

  lemma BeforeRefillKeeps(env: Env, st: State, d: CString)
    requires Inv(env.depth, st)
    ensures Inv(env.depth, BeforeRefill(env, st, d))
    ensures d in BeforeRefill(env, st, d).stacks <==> d in st.stacks
  {
    var (s1, got) := Get(env, st, d);
    GetKeeps(env, st, d);
    if got.Some? {
      GotBlock(env, st, d);
      AllocKeeps(env.depth, s1);
      ReclaimKeeps(env.depth, CallerAlloc(s1), got.value.der.id);
    }
  }

  /**
   Self-healing: a request answered OK or MISS leaves a full stack, if the source does not
   fail and the destination is, or could just be, interned.
   */
  lemma ServeRefills(env: Env, st: State, d: CString)
    requires Inv(env.depth, st) && forall k: nat :: env.source(k, d).Session?
    requires ServeDest(env, st, d).reply != Some(Wire.StatusFrame(Wire.STATUS_ERROR))
    requires d in st.stacks || (|d| <= PoolSpec.DEST_MAX && env.alloc(st.allocs) && env.alloc(st.allocs + 1))
    ensures var r := ServeDest(env, st, d).pool;
            d in r.stacks && |r.stacks[d]| == env.depth
  {
    var s2 := BeforeRefill(env, st, d);
    BeforeRefillKeeps(env, st, d);
    if d in st.stacks {
      assert |d| <= PoolSpec.DEST_MAX && d in s2.stacks;
    } else {
      assert s2 == st;
    }
    MaintainFills(env, s2, d);
    if Get(env, st, d).1.Some? { GotBlock(env, st, d); }
    assert ServeDest(env, st, d).pool == Maintain(env, s2, d).0;
  }

  /** A request finds a session exactly when one on the destination's stack is unexpired then. */
  lemma HitExactly(env: Env, st: State, d: CString)
    requires Inv(env.depth, st)
    ensures ServeDest(env, st, d).block.Some? <==>
            d in st.stacks && exists i :: 0 <= i < |st.stacks[d]| && st.stacks[d][i].expiresAt > env.time(st.clock)
  {
    GetMisses(env, st, d);
    if Get(env, st, d).1.Some? { GotBlock(env, st, d); }
  }

  /**
   After a refill, whatever was done for other destinations since, the next request is a hit
   iff one of the entries is unexpired.
   */
  lemma HealedThenHit(env: Env, st: State, d: CString, ops: seq<Op>)
    requires Inv(env.depth, st) && forall k: nat :: env.source(k, d).Session?
    requires ServeDest(env, st, d).reply != Some(Wire.StatusFrame(Wire.STATUS_ERROR))
    requires d in st.stacks || (|d| <= PoolSpec.DEST_MAX && env.alloc(st.allocs) && env.alloc(st.allocs + 1))
    requires forall i :: 0 <= i < |ops| ==> !Touches(ops[i], d)
    ensures var s1 := ServeDest(env, st, d).pool;
            var s2 := Run(env, s1, ops);
            && d in s1.stacks && |s1.stacks[d]| == env.depth
            && (ServeDest(env, s2, d).block.Some? <==>
                 exists i :: 0 <= i < env.depth && s1.stacks[d][i].expiresAt > env.time(s2.clock))
  {
    var s1 := ServeDest(env, st, d).pool;
    ServeRefills(env, st, d);
    assert Inv(env.depth, s1) by { ServeDestKeeps(env, st, d); }
    RunKeeps(env, s1, ops);
    RunElsewhere(env, s1, ops, d);
    HitExactly(env, Run(env, s1, ops), d);
  }

  // ---------- client and server together ----------

  lemma RequestAsks(dest: CString)
    requires 1 <= |dest| <= Wire.DEST_MAX
    ensures Hear(Wire.Request(dest)) == Asks(dest)
  {
    var req := Wire.Request(dest);
    Wire.RequestRoundTrip(dest, DEST_CAP);
    assert req[..Wire.REQ_HDR + req[3] as int] == req;
  }

  /**
   What a client that asked for dest makes of being served buffer `block`, or none: an answer
   of the source, or a refusal.
   */
  ghost predicate ClientSees(env: Env, st: State, dest: CString, block: Option<nat>, a: Wire.Answer) {
    match block
    case None => a == Wire.Refused(Wire.STATUS_MISS)
    case Some(b) =>
      && b < |st.origins| && b !in st.handed
      && var call := st.origins[b].call;
      && call < st.calls && env.source(call, dest).Session?
      && var o := env.source(call, dest);
      && env.time(st.origins[b].tick) + (if o.lifetime > 0 then o.lifetime else 0) > env.time(st.clock)
      && a == if env.alloc(st.allocs) then Wire.Got(o.der, |o.der|, if o.isPqc != 0 then 1 else 0, o.group)
              else Wire.Refused(Wire.STATUS_ERROR)
  }

  /**
   A client asking for a NUL-free destination reads back, from the server's answer, the
   DER, length, group and 0/1 flag that the source produced for that destination. This is
   for every state a pool can reach.
   */
  lemma EndToEnd(env: Env, ops: seq<Op>, dest: CString)
    requires 1 <= |dest| <= Wire.DEST_MAX
    ensures var st := Run(env, INITIAL, ops);
            var r := Serve(env, st, Wire.Request(dest));
            && r.reply.Some?
            && var (a, n) := Wire.ParseAnswer(r.reply.value, 64, true);
            n == |r.reply.value| && ClientSees(env, st, dest, r.block, a)
  {
    var st := Run(env, INITIAL, ops);
    ReachedInv(env, ops);
    RunSourced(env, INITIAL, ops);
    RequestAsks(dest);
    ServeDestLaw(env, st, dest);
    ReplyIsSeen(env, st, dest);
  }

  lemma ReplyIsSeen(env: Env, st: State, dest: CString)
    requires Sourced(env, st)
    requires var r := ServeDest(env, st, dest);
             match r.block
             case None => r.reply == Some(Wire.StatusFrame(Wire.STATUS_MISS))
             case Some(b) => Answers(env, st, dest, b, r.reply)
    ensures var r := ServeDest(env, st, dest);
            var (a, n) := Wire.ParseAnswer(r.reply.value, 64, true);
            n == |r.reply.value| && ClientSees(env, st, dest, r.block, a)
  {
    var r := ServeDest(env, st, dest);
    assert r.reply.value + [] == r.reply.value;
    Wire.StatusRoundTrip(Wire.STATUS_MISS, [], 64, true);
    Wire.StatusRoundTrip(Wire.STATUS_ERROR, [], 64, true);
    if r.block.Some? {
      AnswersFromSource(env, st, dest, r.block.value, r.reply);
      var o := env.source(st.origins[r.block.value].call, dest);
      Wire.OkRoundTrip(o.isPqc, o.group, o.der, [], 64);
    }
  }
}

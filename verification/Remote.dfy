/** The remote-call primitive: run one function in the target, then put everything back. */
module Remote {
  import opened Bytes
  import opened Words
  import opened Target

  const INT3: byte := 0xCC
  const MAX_RESUMES := 17

  // ---------- the stack pointer of the call ----------

  /** Skip the red zone, align to 16, push one word. */
  function CallSp(rsp: word): word {
    Wrap(And(Wrap(rsp - 256), Not(15)) - 8)
  }

  /**
   For every stack pointer the callee sees rsp % 16 == 8, as section 3.2.2 of the System V
   AMD64 psABI requires. The pushed word lies wholly below the 128-byte red zone, between
   264 and 279 bytes under the old stack pointer, exactly when that is not below 272; below
   that it wraps around.
   */
  lemma CallSpAligned(rsp: word)
    ensures CallSp(rsp) % 16 == 8
    ensures rsp - 279 <= CallSp(rsp) <= rsp - 264 <==> rsp >= 272
    ensures rsp >= 272 ==> CallSp(rsp) + 8 <= rsp - 128
    ensures rsp < 256 ==> rsp + W - 279 <= CallSp(rsp) <= rsp + W - 264
    ensures 256 <= rsp < 272 ==> CallSp(rsp) == W - 8
  {
    var t := Wrap(rsp - 256);
    var q: int := t / 16;
    assert And(t, Not(15)) == 16 * q by { MaskValues(t); }
    WrapOnce(rsp - 256);
    WrapOnce(16 * q - 8);
    SpArith(rsp, q, CallSp(rsp));
  }

  lemma SpArith(rsp: word, q: nat, sp: word)
    requires 16 * q <= (if rsp >= 256 then rsp - 256 else rsp - 256 + W) < 16 * q + 16
    requires sp == if q == 0 then W - 8 else 16 * q - 8
    ensures sp % 16 == 8
    ensures rsp - 279 <= sp <= rsp - 264 <==> rsp >= 272
    ensures rsp >= 272 ==> sp + 8 <= rsp - 128
    ensures rsp < 256 ==> rsp + W - 279 <= sp <= rsp + W - 264
    ensures 256 <= rsp < 272 ==> sp == W - 8
  {
  }

  function CallRegs(saved: Regs, func: word, args: seq<word>): Regs
    requires |args| == 6
  {
    saved.(rip := func, rdi := args[0], rsi := args[1], rdx := args[2], rcx := args[3], r8 := args[4], r9 := args[5],
           rsp := CallSp(saved.rsp))
  }

  // ---------- running to the trap ----------

  datatype Ran = Trapped | Stuck | Dead

  /** A request that resumes the target in exactly this state. */
  ghost predicate Resumes(e: Request, r: Regs, m: Mem) {
    e.Cont? && e.regs == r && e.mem == m
  }

  /** The last of these requests. */
  function Last(s: seq<Request>): Request
    requires s != []
  {
    s[|s| - 1]
  }

  /** The wait loop so far: only resumptions and waits, the first of them in the given state. */
  ghost predicate Looped(s: seq<Request>, r0: Regs, m0: Mem, m: Mem) {
    && (forall i :: 0 <= i < |s| ==> s[i].Cont? || s[i].Wait?)
    && (s != [] ==> Resumes(s[0], r0, m0))
    && AgreeOutside(m0, m, RunWrites(s))
  }

  lemma LoopedCont(s: seq<Request>, r0: Regs, m0: Mem, m: Mem, e: Request)
    requires Looped(s, r0, m0, m) && e.Cont? && e.mem == m && (s == [] ==> e.regs == r0 && m == m0)
    ensures Looped(s + [e], r0, m0, e.after) && Resumptions(s + [e]) == Resumptions(s) + 1
  {
    RecordGrows(s, e);
    forall x | x !in RunWrites(s + [e]) ensures SameAt(m0, e.after, x) {
      assert SameAt(m0, m, x);
      if x in m.Keys + e.after.Keys { assert SameAt(m, e.after, x); }
    }
  }

  lemma LoopedWait(s: seq<Request>, r0: Regs, m0: Mem, m: Mem, e: Request)
    requires Looped(s, r0, m0, m) && e.Wait? && s != []
    ensures Looped(s + [e], r0, m0, m) && Resumptions(s + [e]) == Resumptions(s)
  {
    RecordGrows(s, e);
  }

  /**
   The wait loop. Any SIGTRAP stop is taken for the return trap; other stops are resumed
   without their signal, and the seventeenth of them gives up. s is what it requests.
   */
  method RunToTrap(t: Tracee) returns (out: Ran, ghost s: seq<Request>)
    modifies t`log, t`regs, t`mem, t`dead
    ensures t.log == old(t.log) + s && s != [] && Looped(s, old(t.regs), old(t.mem), t.mem)
    ensures 1 <= Resumptions(s) <= 17
    ensures out == Trapped <==> Last(s) == Wait(Some(Stopped(5)))
    ensures out == Dead <==> IsDeath(Last(s))
    ensures out == Stuck ==> IsRefused(Last(s)) || Resumptions(s) == MAX_RESUMES
    ensures t.dead == (old(t.dead) || out == Dead)
  {
    ghost var log0, r0, m0 := t.log, t.regs, t.mem;
    s := [];
    var spurious := 0;
    while true
      invariant 0 <= spurious <= 16 && t.log == log0 + s && Resumptions(s) == spurious
      invariant Looped(s, r0, m0, t.mem) && (s == [] ==> t.regs == r0 && t.mem == m0)
      invariant t.dead == old(t.dead)
      decreases 17 - spurious
    {
      ghost var m := t.mem;
      var ok := t.PtraceCont();
      LoopedCont(s, r0, m0, m, Last(t.log));
      s := s + [Last(t.log)];
      if !ok { return Stuck, s; }
      var status := t.WaitPid();
      LoopedWait(s, r0, m0, t.mem, Wait(status));
      s := s + [Wait(status)];
      if status.None? { return Stuck, s; }
      match status.value {
        case Exited(_) => return Dead, s;
        case Signaled(_) => return Dead, s;
        case Stopped(sig) =>
          if sig == SIGTRAP { return Trapped, s; }
          spurious := spurious + 1;
          if spurious > 16 { return Stuck, s; }
      }
    }
  }

  // ---------- the call ----------

  /** How a call left the target: not touched, dead, or with the two restoring requests issued. */
  datatype End = Untouched | Died | Restored(poked: bool, set_: bool)

  /** Plants one byte; on success reports the word that was there. */
  method PokeByte(t: Tracee, a: word, b: byte) returns (ok: bool, saved: word, ghost s: seq<Request>)
    modifies t`log, t`mem
    ensures t.log == old(t.log) + s && 1 <= |s| <= 2 && s[0].Peek? && (|s| == 2 ==> s[1].Poke?)
    ensures !ok ==> t.mem == old(t.mem) && IsRefused(Last(s))
    ensures ok ==>
              && |s| == 2 && Mapped(old(t.mem), a, 8)
              && saved == PeekWord(old(t.mem), a) && t.mem == old(t.mem)[a := b]
  {
    ok, saved := t.PtracePeek(a);
    s := [Peek(a, ok)];
    if !ok { return; }
    PatchOneByte(t.mem, a, b);
    ok := t.PtracePoke(a, Patch(saved, b));
    s := [Peek(a, true), Poke(a, Patch(saved, b), ok)];
  }

  /** The two restoring requests. */
  ghost predicate Restores(s: seq<Request>, trap: word, word0: word, saved: Regs, end: End)
    requires end.Restored?
  {
    s == [Poke(trap, word0, end.poked), SetRegs(saved, end.set_)]
  }

  /** Both are issued, whatever becomes of the first. */
  method Restore(t: Tracee, trap: word, word0: word, saved: Regs) returns (ghost end: End, ghost s: seq<Request>)
    modifies t`log, t`mem, t`regs
    ensures end.Restored? && t.log == old(t.log) + s && Restores(s, trap, word0, saved, end)
    ensures end.poked ==> Mapped(old(t.mem), trap, 8)
    ensures t.mem == (if end.poked then PokeWord(old(t.mem), trap, word0) else old(t.mem))
    ensures end.set_ ==> t.regs == saved
  {
    var p := t.PtracePoke(trap, word0);
    var q := t.PtraceSetRegs(saved);
    end, s := Restored(p, q), [Poke(trap, word0, p), SetRegs(saved, q)];
  }

  /** Where a call may leave memory changed: the trap word, the pushed word, and what the target itself changed. */
  ghost predicate Framed(m0: Mem, m: Mem, trap: word, sp: word, wrote: set<int>) {
    forall x :: !InWord(x, trap) && !InWord(x, sp) && x !in wrote ==> SameAt(m0, m, x)
  }

  /** The state in which the target is first resumed: registers set up, return address pushed, trap planted. */
  ghost predicate SetUp(r0: Regs, func: word, args: seq<word>, r: Regs, m: Mem)
    requires |args| == 6
  {
    && r.rip == func && [r.rdi, r.rsi, r.rdx, r.rcx, r.r8, r.r9] == args
    && r.rsp == CallSp(r0.rsp) && r.rax == r0.rax && r.rest == r0.rest
    && Mapped(m, r.rsp, 8) && PeekWord(m, r.rsp) == r0.rip
    && r0.rip in m && (!InWord(r0.rip, r.rsp) ==> m[r0.rip] == 0xCC)
  }

  /** A record at whose end the target had stopped at a trap and its registers were read. */
  ghost predicate Returned(s: seq<Request>) {
    |s| >= 2 && IsTrapStop(s[|s| - 2]) && Last(s).GetRegs? && Last(s).ok
  }

  /** What a remote call may ask for. */
  predicate ForCall(e: Request) {
    e.GetRegs? || e.SetRegs? || e.Peek? || e.Poke? || e.Cont? || e.Wait?
  }

  ghost predicate AllForCall(s: seq<Request>) {
    forall i :: 0 <= i < |s| ==> ForCall(s[i])
  }

  /** If the target is resumed at all in s, then first by request k, set up for the call. */
  ghost predicate Enters(s: seq<Request>, k: nat, r0: Regs, func: word, args: seq<word>)
    requires |args| == 6
  {
    && (forall i :: 0 <= i < k && i < |s| ==> !s[i].Cont?)
    && (Resumptions(s) > 0 ==> |s| > k && s[k].Cont? && SetUp(r0, func, args, s[k].regs, s[k].mem))
  }

  method PushReturn(t: Tracee, saved: Regs, func: word, args: seq<word>) returns (ok: bool, ghost s: seq<Request>)
    requires |args| == 6 && t.regs == saved && saved.rip in t.mem && t.mem[saved.rip] == INT3
    modifies t`log, t`regs, t`mem
    ensures t.log == old(t.log) + s && 1 <= |s| <= 2 && s[0].Poke? && (|s| == 2 ==> s[1].SetRegs?)
    ensures !ok ==> IsRefused(Last(s))
    ensures forall x :: !InWord(x, CallSp(saved.rsp)) ==> SameAt(old(t.mem), t.mem, x)
    ensures ok ==> |s| == 2 && SetUp(saved, func, args, t.regs, t.mem)
  {
    var sp, r := CallSp(saved.rsp), CallRegs(saved, func, args);
    ghost var m0 := t.mem;
    ok := t.PtracePoke(sp, saved.rip);
    s := [Poke(sp, saved.rip, ok)];
    if !ok { return; }
    PeekPoked(m0, sp, saved.rip);
    ok := t.PtraceSetRegs(r);
    s := [Poke(sp, saved.rip, true), SetRegs(r, ok)];
  }

  /** The record of a call from the planted trap on: set-up, wait loop, and the reading of the result. */
  lemma PerformRecord(push: seq<Request>, run: seq<Request>, tail: seq<Request>, saved: Regs, func: word,
                      args: seq<word>, r: Regs, m: Mem, m': Mem)
    requires |args| == 6 && |push| == 2 && push[0].Poke? && push[1].SetRegs? && SetUp(saved, func, args, r, m)
    requires run != [] && Looped(run, r, m, m') && (tail == [] || (|tail| == 1 && tail[0].GetRegs?))
    ensures var s := push + run + tail;
            && AllForCall(s) && Enters(s, 2, saved, func, args) && |s| > 2 && s[2].Cont?
            && Resumptions(s) == Resumptions(run) && RunWrites(s) == RunWrites(run)
  {
    RecordIdle(push);
    RecordIdle(tail);
    RecordSplits(push, run);
    RecordSplits(push + run, tail);
    assert (push + run + tail)[2] == run[0];
  }

  /** The record of a call from the planted trap to the point where the restores are due. */
  ghost predicate Performed(s: seq<Request>, saved: Regs, func: word, args: seq<word>, ret: word, ok: bool, died: bool)
    requires |args| == 6
  {
    && s != [] && AllForCall(s) && Enters(s, 2, saved, func, args) && Resumptions(s) <= MAX_RESUMES
    && (died ==> !ok && IsDeath(Last(s)))
    && (ok <==> Returned(s)) && (ok ==> Resumptions(s) > 0)
    && (!ok && !died ==> IsRefused(Last(s)) || Resumptions(s) == MAX_RESUMES)
    && ret == if ok then Last(s).got.rax else 0
  }

  method Perform(t: Tracee, saved: Regs, func: word, args: seq<word>)
    returns (ok: bool, ret: word, died: bool, ghost s: seq<Request>)
    requires |args| == 6 && t.regs == saved && saved.rip in t.mem && t.mem[saved.rip] == INT3
    modifies t`log, t`regs, t`mem, t`dead
    ensures t.log == old(t.log) + s && Performed(s, saved, func, args, ret, ok, died)
    ensures forall x :: !InWord(x, CallSp(saved.rsp)) && x !in RunWrites(s) ==> SameAt(old(t.mem), t.mem, x)
    ensures t.dead == (old(t.dead) || died)
  {
    ok, ret, died := false, 0, false;
    var pushed;
    ghost var push, run, tail := [], [], [];
    pushed, push := PushReturn(t, saved, func, args);
    s := push;
    if !pushed {
      RecordIdle(push);
      return;
    }
    ghost var r, m := t.regs, t.mem;
    var out;
    out, run := RunToTrap(t);
    died := out == Dead;
    assert t.log == t.log + tail;
    if out == Trapped {
      var g, after := t.PtraceGetRegs();
      tail := [GetRegs(after, g)];
      if g { ok, ret := true, after.rax; }
    }
    s := push + run + tail;
    Assoc(old(t.log), push, run);
    Assoc(old(t.log), push + run, tail);
    PerformRecord(push, run, tail, saved, func, args, r, m, t.mem);
  }

  /** What a call guarantees of its trap word and registers, by how it ended. */
  ghost predicate PutBack(end: End, r0: Regs, m0: Mem, r: Regs, m: Mem) {
    match end
    case Untouched => r == r0 && m == m0
    case Died => true
    case Restored(poked, set_) =>
      (set_ ==> r == r0) && (poked ==> forall x :: InWord(x, r0.rip) ==> SameAt(m0, m, x))
  }

  /** The call in s succeeded: it ran, stopped at a trap, gave up its registers, and the restores followed. */
  ghost predicate Succeeded(s: seq<Request>, end: End) {
    && end.Restored? && |s| >= 9 && s[5].Cont?
    && IsTrapStop(s[|s| - 4]) && s[|s| - 3].GetRegs? && s[|s| - 3].ok
  }

  /** How s ends, by how the call ended. */
  ghost predicate Closes(s: seq<Request>, end: End)
    requires s != [] && s[0].GetRegs?
  {
    match end
    case Untouched => Resumptions(s) == 0
    case Died => IsDeath(Last(s))
    case Restored(poked, set_) =>
      && |s| >= 6 && s[0].ok && s[|s| - 2].Poke? && s[|s| - 2].addr == s[0].got.rip && s[|s| - 2].ok == poked
      && Last(s) == SetRegs(s[0].got, set_)
  }

  ghost predicate SomeRefused(s: seq<Request>) {
    exists i :: 0 <= i < |s| && IsRefused(s[i])
  }

  /**
   The requests s are one remote call of func with args. They begin by reading the
   registers; the target is resumed at most 17 times, first by the sixth request, in the
   state the call convention asks for; the result is the rax read third from the end,
   after a trap stop; the last two requests are the restoring ones. A call fails only if
   the target died, a request was refused, or it stopped 17 times for something else.
   */
  ghost predicate CallRecord(s: seq<Request>, func: word, args: seq<word>, ret: word, ok: bool, end: End)
    requires |args| == 6
  {
    && s != [] && s[0].GetRegs? && AllForCall(s)
    && Enters(s, 5, s[0].got, func, args) && Resumptions(s) <= MAX_RESUMES
    && (ok <==> Succeeded(s, end))
    && ret == (if ok then s[|s| - 3].got.rax else 0)
    && Closes(s, end)
    && (!ok ==> end == Died || Resumptions(s) == MAX_RESUMES || SomeRefused(s))
  }

  /** A call that ended before it changed anything. */
  lemma UntouchedRecord(s: seq<Request>, func: word, args: seq<word>)
    requires |args| == 6 && s != [] && s[0].GetRegs? && |s| <= 3 && IsRefused(Last(s))
    requires forall i :: 0 <= i < |s| ==> ForCall(s[i]) && !s[i].Cont?
    ensures CallRecord(s, func, args, 0, false, Untouched) && RunWrites(s) == {}
  {
    RecordIdle(s);
    assert SomeRefused(s);
  }

  /** The opening requests of a call: registers read, trap planted. */
  ghost predicate Opens(head: seq<Request>, saved: Regs) {
    |head| == 3 && head[0] == GetRegs(saved, true) && head[1].Peek? && head[2].Poke?
  }

  /** Its closing ones, or none if the target died. */
  ghost predicate Ends(tail: seq<Request>, saved: Regs, word0: word, died: bool, end: End) {
    if died then end == Died && tail == [] else end.Restored? && Restores(tail, saved.rip, word0, saved, end)
  }

  /** What the middle of a record says about the whole. */
  lemma Around(head: seq<Request>, s: seq<Request>, tail: seq<Request>)
    requires |head| == 3 && s != []
    requires (forall i :: 0 <= i < |head| ==> !head[i].Cont?) && (forall i :: 0 <= i < |tail| ==> !tail[i].Cont?)
    ensures var all := head + s + tail;
            && Resumptions(all) == Resumptions(s) && RunWrites(all) == RunWrites(s)
            && all[0] == head[0] && all[|s| + 2] == Last(s) && (|s| > 2 ==> all[5] == s[2])
  {
    RecordIdle(head);
    RecordIdle(tail);
    RecordSplits(head, s);
    RecordSplits(head + s, tail);
  }

  lemma FullSuccess(head: seq<Request>, s: seq<Request>, tail: seq<Request>, end: End)
    requires |head| == 3 && s != [] && (Returned(s) ==> |s| > 2 && s[2].Cont?)
    requires end.Restored? ==> |tail| == 2
    ensures Succeeded(head + s + tail, end) <==> end.Restored? && Returned(s)
  {
    var all := head + s + tail;
    if end.Restored? {
      assert |s| >= 2 ==> all[|all| - 4] == s[|s| - 2];
      assert all[|all| - 3] == Last(s);
      if Succeeded(all, end) { assert Returned(s); }
      if Returned(s) {
        assert all[5] == s[2];
        assert !IsTrapStop(s[2]);
      }
    }
  }

  lemma FullEnters(head: seq<Request>, s: seq<Request>, tail: seq<Request>, saved: Regs, func: word, args: seq<word>)
    requires |args| == 6 && Opens(head, saved) && s != [] && AllForCall(s) && Enters(s, 2, saved, func, args)
    requires forall i :: 0 <= i < |tail| ==> tail[i].Poke? || tail[i].SetRegs?
    ensures AllForCall(head + s + tail) && Enters(head + s + tail, 5, saved, func, args)
  {
    Around(head, s, tail);
    var all := head + s + tail;
    forall i | 0 <= i < 5 && i < |all| ensures !all[i].Cont? {
      if 3 <= i < 3 + |s| { assert all[i] == s[i - 3]; }
    }
  }

  lemma FullCloses(head: seq<Request>, s: seq<Request>, tail: seq<Request>, saved: Regs, word0: word, died: bool,
                   end: End)
    requires Opens(head, saved) && s != [] && Ends(tail, saved, word0, died, end) && (died ==> IsDeath(Last(s)))
    ensures Closes(head + s + tail, end)
  {
    var all := head + s + tail;
    assert all[0] == head[0] && all[|s| + 2] == Last(s);
    if !died { assert all[|all| - 2] == tail[0] && all[|all| - 1] == tail[1]; }
  }

  /** A call made of its opening requests, its performance, and the restores unless the target died. */
  lemma FullRecord(head: seq<Request>, s: seq<Request>, tail: seq<Request>, saved: Regs, word0: word, func: word,
                   args: seq<word>, ret: word, ok: bool, died: bool, end: End)
    requires |args| == 6 && Opens(head, saved) && Performed(s, saved, func, args, ret, ok, died)
    requires Ends(tail, saved, word0, died, end)
    ensures CallRecord(head + s + tail, func, args, ret, ok, end) && RunWrites(head + s + tail) == RunWrites(s)
    ensures Resumptions(head + s + tail) == Resumptions(s) && (head + s + tail)[0] == head[0]
  {
    var all := head + s + tail;
    assert forall i :: 0 <= i < |tail| ==> tail[i].Poke? || tail[i].SetRegs?;
    Around(head, s, tail);
    FullEnters(head, s, tail, saved, func, args);
    FullCloses(head, s, tail, saved, word0, died, end);
    assert Returned(s) ==> |s| > 2 && s[2].Cont?;
    FullSuccess(head, s, tail, end);
    if !ok && IsRefused(Last(s)) { assert SomeRefused(all) by { assert IsRefused(all[|s| + 2]); } }
  }

  /** The call from the planted trap on; word0 is the word that was there. */
  method CallPlanted(t: Tracee, saved: Regs, word0: word, func: word, args: seq<word>, ghost m0: Mem)
    returns (ret: word, ok: bool, died: bool, ghost end: End, ghost s: seq<Request>, ghost tail: seq<Request>)
    requires |args| == 6 && t.regs == saved && Mapped(m0, saved.rip, 8) && word0 == PeekWord(m0, saved.rip)
    requires t.mem == m0[saved.rip := INT3]
    modifies t`log, t`regs, t`mem, t`dead
    ensures t.log == old(t.log) + s + tail && Performed(s, saved, func, args, ret, ok, died)
            && Ends(tail, saved, word0, died, end)
    ensures Framed(m0, t.mem, saved.rip, CallSp(saved.rsp), RunWrites(s))
    ensures PutBack(end, saved, m0, t.regs, t.mem)
    ensures t.dead == (old(t.dead) || died)
  {
    tail := [];
    ok, ret, died, s := Perform(t, saved, func, args);
    if died {
      end := Died;
    } else {
      ghost var m1 := t.mem;
      end, tail := Restore(t, saved.rip, word0, saved);
      if end.poked { PokeRestores(m0, m1, saved.rip); }
    }
  }

  /**
   remote_call. Whatever the kernel answers and the target does, s is the record of one
   call; unless the target died, the trap word is what it was if its restoring request
   succeeded, and so are the registers; and nothing changes in memory but the trap word,
   the pushed word and what the target itself changed while this call ran it.
   */
  method RemoteCall(t: Tracee, func: word, args: seq<word>)
    returns (ret: word, ok: bool, ghost end: End, ghost s: seq<Request>)
    requires |args| == 6
    modifies t`log, t`regs, t`mem, t`dead
    ensures t.log == old(t.log) + s && CallRecord(s, func, args, ret, ok, end) && s[0].got == old(t.regs)
    ensures ok ==> Resumptions(s) > 0
    ensures Framed(old(t.mem), t.mem, old(t.regs).rip, CallSp(old(t.regs).rsp), RunWrites(s))
    ensures PutBack(end, old(t.regs), old(t.mem), t.regs, t.mem)
    ensures end.Restored? ==>
              && Mapped(old(t.mem), old(t.regs).rip, 8) && s[|s| - 2].Poke?
              && s[|s| - 2].value == PeekWord(old(t.mem), old(t.regs).rip)
    ensures t.dead == (old(t.dead) || end == Died)
  {
    ret, ok, end := 0, false, Untouched;
    ghost var m0, mid, tail := t.mem, [], [];
    var g, saved := t.PtraceGetRegs();
    s := [GetRegs(saved, g)];
    if !g {
      UntouchedRecord(s, func, args);
      return;
    }
    var planted, word0, died;
    planted, word0, mid := PokeByte(t, saved.rip, INT3);
    ghost var head := s + mid;
    Assoc(old(t.log), s, mid);
    s := head;
    if !planted {
      UntouchedRecord(s, func, args);
      return;
    }
    ret, ok, died, end, mid, tail := CallPlanted(t, saved, word0, func, args, m0);
    s := head + mid + tail;
    Assoc(old(t.log), head, mid);
    Assoc(old(t.log), head + mid, tail);
    FullRecord(head, mid, tail, saved, word0, func, args, ret, ok, died, end);
  }
}

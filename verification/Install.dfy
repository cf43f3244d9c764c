/**
 inject_session: five remote calls that map a scratch buffer, build a session from it,
 set it on the SSL object, drop the injector's reference and unmap, between one attach
 and one detach.
 */
module Install {
  import opened Bytes
  import opened Words
  import opened Target
  import opened Remote

  const MINUS_ONE: word := 0xFFFF_FFFF_FFFF_FFFF

  // ---------- the scratch buffer ----------

  /** The mapped length and the offset of the pointer cell, for a DER of n bytes. */
  function PageLen(n: word): word { RoundUp(Wrap(n + 16), 4096) }
  function CellOffset(n: word): word { RoundUp(n, 8) }

  /** A DER length with the layout it leads to. */
  datatype Layout = Layout(n: word, page: word, cell: word)

  function LayoutOf(n: word): Layout { Layout(n, PageLen(n), CellOffset(n)) }

  /** DER and pointer cell are disjoint and both lie inside the mapping. */
  predicate Fits(n: word) { n <= CellOffset(n) && CellOffset(n) + 8 <= PageLen(n) }

  /** Clearing low bits keeps a multiple: q with 8q <= n + 7 < 8q + 8, unless the sum wrapped. */
  lemma CellIs(n: word) returns (q: nat)
    ensures CellOffset(n) == 8 * q
    ensures n + 7 < W ==> 8 * q <= n + 7 < 8 * q + 8
    ensures n + 7 >= W ==> q == 0
  {
    var t := Wrap(n + 7);
    q := t / 8;
    assert CellOffset(n) == 8 * q by { MaskValues(t); }
    WrapOnce(n + 7);
  }

  lemma PageIs(v: word) returns (q: nat)
    ensures RoundUp(v, 4096) == 4096 * q
    ensures v + 4095 < W ==> 4096 * q <= v + 4095 < 4096 * q + 4096
    ensures v + 4095 >= W ==> q == 0
  {
    var t := Wrap(v + 4095);
    q := t / 4096;
    assert RoundUp(v, 4096) == 4096 * q by { MaskValues(t); }
    WrapOnce(v + 4095);
  }

  lemma LayoutArith(n: word, q: nat, p: nat)
    requires if n + 7 < W then 8 * q <= n + 7 < 8 * q + 8 else q == 0
    requires var v := if n + 16 < W then n + 16 else n + 16 - W;
             if v + 4095 < W then 4096 * p <= v + 4095 < 4096 * p + 4096 else p == 0
    ensures n <= 8 * q && 8 * q + 8 <= 4096 * p <==> n + 16 + 4095 < W
  {
  }

  /** The layout holds exactly for the lengths whose rounding does not overflow. */
  lemma LayoutExact(n: word)
    ensures Fits(n) <==> n + 16 + 4095 < W
  {
    WrapOnce(n + 16);
    var q := CellIs(n);
    var p := PageIs(Wrap(n + 16));
    LayoutArith(n, q, p);
  }

  /**
   Without overflow the cell is at the least multiple of 8 from n on, and the mapping the
   least of 4096 from n + 16 on.
   */
  lemma LayoutLeast(n: word) returns (q: nat, p: nat)
    requires n + 16 + 4095 < W
    ensures CellOffset(n) == 8 * q && n <= 8 * q < n + 8
    ensures PageLen(n) == 4096 * p && n + 16 <= 4096 * p < n + 16 + 4096
  {
    WrapOnce(n + 16);
    q := CellIs(n);
    p := PageIs(Wrap(n + 16));
  }

  /** On a page-aligned base the pointer cell is 8-aligned. */
  lemma CellAligned(n: word, page: nat)
    ensures (4096 * page + CellOffset(n)) % 8 == 0
  {
    var q := CellIs(n);
    assert 4096 * page + 8 * q == 8 * (512 * page + q);
  }

  // ---------- the calls ----------

  datatype Fn = Mmap | Munmap | D2i | SetSession | FreeSession

  datatype Syms = Syms(mmap: word, munmap: word, d2i: word, set_: word, free: word) {
    function Of(f: Fn): word {
      match f
      case Mmap => mmap
      case Munmap => munmap
      case D2i => d2i
      case SetSession => set_
      case FreeSession => free
    }

    predicate Resolved() { mmap != 0 && munmap != 0 && d2i != 0 && set_ != 0 && free != 0 }
  }

  /** One remote call, how it went, and which of the target's requests it is: those from..to. */
  datatype Call = Call(fn: Fn, args: seq<word>, ok: bool, ret: word, end: End, from: nat, to: nat)

  predicate MappedOk(c: Call) { c.ok && c.ret != 0 && c.ret != MINUS_ONE }

  /** SSL_set_session returned the int 1. */
  predicate SetOk(c: Call) { c.ok && c.ret % TWO32 == 1 }

  function MmapArgs(lay: Layout): seq<word> { [0, lay.page, 3, 0x22, MINUS_ONE, 0] }

  /** The address of the pointer cell. */
  function CellAt(scratch: word, lay: Layout): word { Plus(scratch, lay.cell) }

  /** d2i, set and free: the calls between staging and unmapping, with the result code they decide. */
  ghost predicate Middle(cs: seq<Call>, ssl: word, cell: word, n: word, rc: int) {
    && |cs| in {1, 3} && cs[0].fn == D2i && cs[0].args == [0, cell, n, 0, 0, 0]
    && (|cs| == 1 ==> rc == -1 && !(cs[0].ok && cs[0].ret != 0))
    && (|cs| == 3 ==>
         && cs[0].ok && cs[0].ret != 0
         && cs[1].fn == SetSession && cs[1].args == [ssl, cs[0].ret, 0, 0, 0, 0]
         && cs[2].fn == FreeSession && cs[2].args == [cs[0].ret, 0, 0, 0, 0, 0]
         && rc == if SetOk(cs[1]) then 0 else -1)
  }

  /** The calls an attempt may make, with their arguments, and the result code that goes with them. */
  ghost predicate Steps(calls: seq<Call>, ssl: word, lay: Layout, rc: int) {
    && calls != [] && calls[0].fn == Mmap && calls[0].args == MmapArgs(lay)
    && var scratch, k := calls[0].ret, |calls|;
    && if !MappedOk(calls[0]) then k == 1 && rc == -1
       else
         && k >= 2 && calls[k - 1].fn == Munmap && calls[k - 1].args == [scratch, lay.page, 0, 0, 0, 0]
         && ((k == 2 && rc == -1) || Middle(calls[1..k - 1], ssl, CellAt(scratch, lay), lay.n, rc))
  }

  // ---------- the requests behind the calls ----------

  /** The call's requests in the log are the record of a call of the symbol resolved for it. */
  ghost predicate Made(log: seq<Request>, syms: Syms, c: Call) {
    && c.from <= c.to <= |log| && |c.args| == 6
    && CallRecord(log[c.from..c.to], syms.Of(c.fn), c.args, c.ret, c.ok, c.end)
  }

  ghost predicate OnlyWrites(log: seq<Request>, from: nat) {
    forall k :: from <= k < |log| ==> log[k].WriteMem?
  }

  /** From request n on, the log consists of these calls, one after the other, and of memory writes between them. */
  ghost predicate Trace(log: seq<Request>, n: nat, syms: Syms, calls: seq<Call>)
    decreases |calls|
  {
    if calls == [] then n <= |log| && OnlyWrites(log, n)
    else
      var c := calls[|calls| - 1];
      && Made(log, syms, c) && OnlyWrites(log, c.to)
      && Trace(log[..c.from], n, syms, calls[..|calls| - 1])
  }

  lemma TraceCall(log: seq<Request>, n: nat, syms: Syms, calls: seq<Call>, c: Call, s: seq<Request>)
    requires Trace(log, n, syms, calls) && c.from == |log| && c.to == |log| + |s| && |c.args| == 6
    requires CallRecord(s, syms.Of(c.fn), c.args, c.ret, c.ok, c.end)
    ensures Trace(log + s, n, syms, calls + [c])
  {
    Join(log, s);
    Join(calls, [c]);
  }

  lemma TraceWrite(log: seq<Request>, n: nat, syms: Syms, calls: seq<Call>, e: Request)
    requires Trace(log, n, syms, calls) && e.WriteMem?
    ensures Trace(log + [e], n, syms, calls)
  {
    if calls != [] {
      var c := calls[|calls| - 1];
      Join(log, [e]);
      CutCut(log + [e], |log|, c.from, c.to);
      CutCut(log + [e], |log|, 0, c.from);
    }
  }

  /** Each call of a trace lies in the log, behind the one before it. */
  lemma {:induction false} TraceMade(log: seq<Request>, n: nat, syms: Syms, calls: seq<Call>, i: nat)
    requires Trace(log, n, syms, calls) && i < |calls|
    ensures n <= calls[i].from && Made(log, syms, calls[i]) && (i + 1 < |calls| ==> calls[i].to <= calls[i + 1].from)
    decreases |calls|
  {
    var m := |calls| - 1;
    var c := calls[m];
    TraceStart(log[..c.from], n, syms, calls[..m]);
    if i < m {
      TraceMade(log[..c.from], n, syms, calls[..m], i);
      CutCut(log, c.from, calls[i].from, calls[i].to);
    }
  }

  lemma {:induction false} TraceStart(log: seq<Request>, n: nat, syms: Syms, calls: seq<Call>)
    requires Trace(log, n, syms, calls)
    ensures n <= |log|
    decreases |calls|
  {
    if calls != [] { TraceStart(log[..calls[|calls| - 1].from], n, syms, calls[..|calls| - 1]); }
  }

  /** Request k is one of the call's. */
  predicate Within(c: Call, k: nat) { c.from <= k < c.to }

  /** Whatever is asked of the target, other than to write its memory, is asked within one of the calls. */
  lemma {:induction false} TraceCovers(log: seq<Request>, n: nat, syms: Syms, calls: seq<Call>, k: nat) returns (i: nat)
    requires Trace(log, n, syms, calls) && n <= k < |log| && !log[k].WriteMem?
    ensures i < |calls| && Within(calls[i], k) && ForCall(log[k])
    decreases |calls|
  {
    i := |calls| - 1;
    var c := calls[i];
    if k < c.from {
      i := TraceCovers(log[..c.from], n, syms, calls[..i], k);
    } else {
      assert log[c.from..c.to][k - c.from] == log[k];
    }
  }

  lemma {:induction false} TraceResumes(log: seq<Request>, n: nat, syms: Syms, calls: seq<Call>)
    requires Trace(log, n, syms, calls)
    ensures n <= |log| && Resumptions(log[n..]) <= MAX_RESUMES * |calls|
    decreases |calls|
  {
    if calls == [] {
      RecordIdle(log[n..]);
    } else {
      var c := calls[|calls| - 1];
      var a, b, w := log[..c.from], log[c.from..c.to], log[c.to..];
      TraceResumes(a, n, syms, calls[..|calls| - 1]);
      RecordIdle(w);
      RecordSplits(a[n..], b);
      RecordSplits(a[n..] + b, w);
      CutTwice(log, n, c.from, c.to);
    }
  }

  /**
   The target entered the call: it was resumed at the function, with the arguments in their
   registers, the stack pointer moved, and all other registers as they were read at first.
   */
  ghost predicate Entered(log: seq<Request>, syms: Syms, c: Call) {
    && c.from + 5 < c.to <= |log| && log[c.from + 5].Cont?
    && var r := log[c.from + 5].regs;
    && r.rip == syms.Of(c.fn) && [r.rdi, r.rsi, r.rdx, r.rcx, r.r8, r.r9] == c.args
    && log[c.from].GetRegs? && r.rax == log[c.from].got.rax && r.rest == log[c.from].got.rest
    && r.rsp == CallSp(log[c.from].got.rsp)
  }

  /** A call that completed was entered, and its result is the rax read after the trap. */
  ghost predicate Completed(log: seq<Request>, syms: Syms, c: Call) {
    && Entered(log, syms, c) && c.to >= 4 && c.to <= |log|
    && IsTrapStop(log[c.to - 4]) && log[c.to - 3].GetRegs? && log[c.to - 3].ok && c.ret == log[c.to - 3].got.rax
  }

  lemma MadeEntered(log: seq<Request>, syms: Syms, c: Call)
    requires Made(log, syms, c)
    ensures Resumptions(log[c.from..c.to]) > 0 ==> Entered(log, syms, c)
    ensures c.ok ==> Completed(log, syms, c)
  {
    var s := log[c.from..c.to];
    if Resumptions(s) > 0 {
      assert s[5] == log[c.from + 5];
    }
    if c.ok {
      CallRan(s);
      assert s[|s| - 4] == log[c.to - 4] && s[|s| - 3] == log[c.to - 3];
    }
  }

  lemma {:induction false} CallRan(s: seq<Request>)
    requires exists i :: 0 <= i < |s| && s[i].Cont?
    ensures Resumptions(s) > 0
  {
    var i :| 0 <= i < |s| && s[i].Cont?;
    if i < |s| - 1 {
      assert s[..|s| - 1][i].Cont?;
      CallRan(s[..|s| - 1]);
    }
  }

  lemma RanEntered(log: seq<Request>, syms: Syms, c: Call, k: nat)
    requires Made(log, syms, c) && Within(c, k) && log[k].Cont?
    ensures Entered(log, syms, c)
  {
    assert log[c.from..c.to][k - c.from].Cont?;
    CallRan(log[c.from..c.to]);
    MadeEntered(log, syms, c);
  }

  // ---------- staging ----------

  /** The conversion `(ssize_t)n`. */
  function AsSsize(n: word): int { if n < SSIZE_LIMIT then n else n - W }

  ghost predicate Wrote(e: Request, a: word, data: seq<byte>) {
    e.WriteMem? && e.addr == a && e.data == data && e.moved == |data|
  }

  /** What write_mem takes for success: the whole buffer arrived, or, for the length -1, none of it did. */
  ghost predicate Accepted(e: Request, a: word, data: seq<byte>, n: word) {
    if n == MINUS_ONE then e.WriteMem? && e.addr == a && e.data == data && e.moved == -1
    else n < SSIZE_LIMIT && Wrote(e, a, data)
  }

  /** Requests i and i + 1 put the DER in place, so far as write_mem can tell, and the pointer to it in its cell. */
  ghost predicate StagedAt(log: seq<Request>, i: nat, scratch: word, der: seq<byte>, lay: Layout) {
    i + 1 < |log| && Accepted(log[i], scratch, der, lay.n) && Wrote(log[i + 1], CellAt(scratch, lay), ToLe(scratch, 8))
  }

  /** Staged for a length that fits an ssize_t: the DER at scratch, and behind it the 8 bytes of the number scratch. */
  lemma StagedMeans(log: seq<Request>, i: nat, scratch: word, der: seq<byte>, lay: Layout)
    requires lay.n < SSIZE_LIMIT
    ensures StagedAt(log, i, scratch, der, lay) <==>
            && i + 1 < |log| && log[i] == WriteMem(scratch, der, |der|) && log[i + 1].WriteMem?
            && log[i + 1].addr == Wrap(scratch + lay.cell) && log[i + 1].moved == 8
            && |log[i + 1].data| == 8 && FromLe(log[i + 1].data) == scratch
  {
    PlusWraps(scratch, lay.cell);
    Pow2Values();
    LeValue(scratch, 8);
    if i + 1 < |log| && log[i + 1].WriteMem? { LeRoundTrip(log[i + 1].data); }
  }

  /**
   How the calls follow each other: the first at request n, the last up to the end, all
   from d2i on without a gap. Between the first two are the writes that stage the DER, and
   there are further calls exactly when both were accepted.
   */
  ghost predicate Joined(log: seq<Request>, n: nat, calls: seq<Call>, der: seq<byte>, lay: Layout) {
    && calls != [] && calls[0].from == n && calls[|calls| - 1].to == |log|
    && (forall i :: 2 <= i < |calls| ==> calls[i].from == calls[i - 1].to)
    && (|calls| > 1 ==> (|calls| > 2 <==> StagedAt(log, calls[0].to, calls[0].ret, der, lay)))
    && (|calls| > 2 ==> calls[1].from == calls[0].to + 2)
  }

  /** An attempt to install der on ssl, from request n to the end of the log. */
  ghost predicate Script(log: seq<Request>, n: nat, syms: Syms, calls: seq<Call>, ssl: word, der: seq<byte>,
                         lay: Layout, rc: int) {
    Trace(log, n, syms, calls) && Steps(calls, ssl, lay, rc) && Joined(log, n, calls, der, lay)
  }

  /**
   Nothing runs in the target but the calls of the script: whenever it is resumed, that is
   within one of them, which it entered at the symbol resolved for it with its arguments;
   and a call counts as completed only with a result read from the target after it ran.
   */
  lemma ScriptRuns(log: seq<Request>, n: nat, syms: Syms, calls: seq<Call>, ssl: word, der: seq<byte>, lay: Layout,
                   rc: int)
    requires Script(log, n, syms, calls, ssl, der, lay, rc)
    ensures forall k :: n <= k < |log| && log[k].Cont? ==>
              exists i :: 0 <= i < |calls| && Within(calls[i], k) && Entered(log, syms, calls[i])
    ensures forall i :: 0 <= i < |calls| && calls[i].ok ==> Completed(log, syms, calls[i])
  {
    forall k | n <= k < |log| && log[k].Cont?
      ensures exists i :: 0 <= i < |calls| && Within(calls[i], k) && Entered(log, syms, calls[i])
    {
      var i := TraceCovers(log, n, syms, calls, k);
      TraceMade(log, n, syms, calls, i);
      RanEntered(log, syms, calls[i], k);
    }
    forall i | 0 <= i < |calls| && calls[i].ok ensures Completed(log, syms, calls[i]) {
      TraceMade(log, n, syms, calls, i);
      MadeEntered(log, syms, calls[i]);
    }
  }

  /** Which calls a script makes, and their arguments, word by word. */
  lemma ScriptArgs(calls: seq<Call>, ssl: word, lay: Layout, rc: int)
    requires Steps(calls, ssl, lay, rc)
    ensures calls[0].fn == Mmap && calls[0].args == [0, lay.page, 3, 0x22, 0xFFFF_FFFF_FFFF_FFFF, 0]
    ensures |calls| in {1, 2, 3, 5}
    ensures |calls| > 1 <==> calls[0].ok && calls[0].ret !in {0, 0xFFFF_FFFF_FFFF_FFFF}
    ensures |calls| > 2 ==> (|calls| == 5 <==> calls[1].ok && calls[1].ret != 0)
    ensures |calls| > 1 ==>
              calls[|calls| - 1].fn == Munmap && calls[|calls| - 1].args == [calls[0].ret, lay.page, 0, 0, 0, 0]
    ensures |calls| > 2 ==>
              calls[1].fn == D2i && calls[1].args == [0, Wrap(calls[0].ret + lay.cell), lay.n, 0, 0, 0]
    ensures |calls| == 5 ==>
              && calls[2].fn == SetSession && calls[2].args == [ssl, calls[1].ret, 0, 0, 0, 0]
              && calls[3].fn == FreeSession && calls[3].args == [calls[1].ret, 0, 0, 0, 0, 0]
  {
    PlusWraps(calls[0].ret, lay.cell);
    if |calls| > 2 {
      var cs := calls[1..|calls| - 1];
      assert cs[0] == calls[1];
      if |cs| == 3 { assert cs[1] == calls[2] && cs[2] == calls[3]; }
    }
  }

  // ---------- resources over the calls ----------

  /** Regions of length len at address a that are mapped after these calls, by the calls' own results. */
  function Regions(calls: seq<Call>, a: word, len: word): int {
    if calls == [] then 0
    else
      var c := calls[|calls| - 1];
      Regions(calls[..|calls| - 1], a, len)
      + (if c.fn == Mmap && MappedOk(c) && |c.args| == 6 && c.ret == a && c.args[1] == len then 1 else 0)
      - (if c.fn == Munmap && |c.args| == 6 && c.args[0] == a && c.args[1] == len then 1 else 0)
  }

  /** References to session s: the injector's own and the SSL object's. */
  datatype Refs = Refs(injector: int, ssl: int)

  /**
   d2i gives its caller one reference; a successful set gives the SSL object one of its
   own; free drops the caller's. A call that did not complete counts for nothing.
   */
  function RefsOf(calls: seq<Call>, s: word): Refs {
    if calls == [] then Refs(0, 0)
    else
      var c, r := calls[|calls| - 1], RefsOf(calls[..|calls| - 1], s);
      match c.fn
      case D2i => if c.ok && c.ret == s then r.(injector := r.injector + 1) else r
      case SetSession => if SetOk(c) && |c.args| == 6 && c.args[1] == s then r.(ssl := r.ssl + 1) else r
      case FreeSession => if c.ok && |c.args| == 6 && c.args[0] == s then r.(injector := r.injector - 1) else r
      case _ => r
  }

  lemma {:induction false} RegionsStep(calls: seq<Call>, a: word, len: word, k: nat)
    requires k < |calls|
    ensures Regions(calls[..k + 1], a, len) == Regions(calls[..k], a, len)
              + (if calls[k].fn == Mmap && MappedOk(calls[k]) && |calls[k].args| == 6 && calls[k].ret == a
                    && calls[k].args[1] == len then 1 else 0)
              - (if calls[k].fn == Munmap && |calls[k].args| == 6 && calls[k].args[0] == a
                    && calls[k].args[1] == len then 1 else 0)
  {
    assert calls[..k + 1][..k] == calls[..k];
  }

  /**
   Every region an attempt maps it asks to unmap again, once, with the same address and
   length; and no other. The address is the one the target's mmap returned, and the request
   reaches the target's munmap unless the target was not resumed for it at all.
   */
  lemma ScriptUnmaps(log: seq<Request>, n: nat, syms: Syms, calls: seq<Call>, ssl: word, der: seq<byte>, lay: Layout,
                     rc: int, a: word, len: word)
    requires Script(log, n, syms, calls, ssl, der, lay, rc)
    ensures Regions(calls, a, len) == 0
    ensures forall i :: 0 <= i < |calls| && calls[i].fn == Munmap ==> i == |calls| - 1 && MappedOk(calls[0])
    ensures MappedOk(calls[0]) ==>
              && Completed(log, syms, calls[0])
              && var c := calls[|calls| - 1];
              && c.fn == Munmap && c.args == [calls[0].ret, lay.page, 0, 0, 0, 0] && Made(log, syms, c)
              && (Entered(log, syms, c) || Resumptions(log[c.from..c.to]) == 0)
  {
    StepsUnmap(calls, ssl, lay, rc, a, len);
    ScriptRuns(log, n, syms, calls, ssl, der, lay, rc);
    var m := |calls| - 1;
    TraceMade(log, n, syms, calls, m);
    MadeEntered(log, syms, calls[m]);
  }

  lemma StepsUnmap(calls: seq<Call>, ssl: word, lay: Layout, rc: int, a: word, len: word)
    requires Steps(calls, ssl, lay, rc)
    ensures Regions(calls, a, len) == 0
    ensures forall i :: 0 <= i < |calls| && calls[i].fn == Munmap ==> i == |calls| - 1 && MappedOk(calls[0])
  {
    assert calls[..|calls|] == calls;
    RegionsStep(calls, a, len, 0);
    if |calls| > 1 { RegionsStep(calls, a, len, 1); }
    if |calls| > 2 { RegionsStep(calls, a, len, 2); }
    if |calls| > 3 {
      RegionsStep(calls, a, len, 3);
      RegionsStep(calls, a, len, 4);
    }
  }

  lemma {:induction false} RefsStep(calls: seq<Call>, s: word, k: nat)
    requires k < |calls|
    ensures RefsOf(calls[..k + 1], s) ==
            var c, r := calls[k], RefsOf(calls[..k], s);
            match c.fn
            case D2i => if c.ok && c.ret == s then r.(injector := r.injector + 1) else r
            case SetSession => if SetOk(c) && |c.args| == 6 && c.args[1] == s then r.(ssl := r.ssl + 1) else r
            case FreeSession => if c.ok && |c.args| == 6 && c.args[0] == s then r.(injector := r.injector - 1) else r
            case _ => r
  {
    assert calls[..k + 1][..k] == calls[..k];
  }

  lemma StepsRefs(calls: seq<Call>, ssl: word, lay: Layout, rc: int, s: word)
    requires Steps(calls, ssl, lay, rc) && s != 0
    ensures RefsOf(calls, s) == if |calls| == 5 && s == calls[1].ret
                                then Refs(if calls[3].ok then 0 else 1, if rc == 0 then 1 else 0) else Refs(0, 0)
  {
    assert calls[..|calls|] == calls;
    RefsStep(calls, s, 0);
    if |calls| == 2 {
      RefsStep(calls, s, 1);
    } else if |calls| == 3 {
      RefsStep(calls, s, 1);
      RefsStep(calls, s, 2);
    } else if |calls| == 5 {
      RefsStep(calls, s, 1);
      RefsStep(calls, s, 2);
      RefsStep(calls, s, 3);
      RefsStep(calls, s, 4);
    }
  }

  /**
   Reference accounting. If d2i produced session s, the injector is left with a reference
   exactly when its free did not complete, and the SSL object has one exactly when the set
   succeeded, which is when the attempt reports success; so with the free completed and the
   set failed, no reference is left and the session is destroyed. No other session has any.
   */
  lemma ScriptRefs(log: seq<Request>, n: nat, syms: Syms, calls: seq<Call>, ssl: word, der: seq<byte>, lay: Layout,
                   rc: int)
    requires Script(log, n, syms, calls, ssl, der, lay, rc)
    ensures forall s: word :: s != 0 && RefsOf(calls, s) != Refs(0, 0) ==> |calls| == 5 && s == calls[1].ret
    ensures |calls| == 5 ==>
              RefsOf(calls, calls[1].ret) == Refs(if calls[3].ok then 0 else 1, if rc == 0 then 1 else 0)
    ensures forall i :: 0 <= i < |calls| && calls[i].ok ==> Completed(log, syms, calls[i])
  {
    forall s: word | s != 0
      ensures RefsOf(calls, s) == if |calls| == 5 && s == calls[1].ret
                                  then Refs(if calls[3].ok then 0 else 1, if rc == 0 then 1 else 0) else Refs(0, 0)
    {
      StepsRefs(calls, ssl, lay, rc, s);
    }
    StepsD2i(calls, ssl, lay, rc);
    ScriptRuns(log, n, syms, calls, ssl, der, lay, rc);
  }

  lemma StepsD2i(calls: seq<Call>, ssl: word, lay: Layout, rc: int)
    requires Steps(calls, ssl, lay, rc)
    ensures |calls| > 2 ==> calls[1].fn == D2i && calls[1].args == [0, CellAt(calls[0].ret, lay), lay.n, 0, 0, 0]
    ensures |calls| == 5 ==> calls[1].ok && calls[1].ret != 0
    ensures |calls| == 5 ==> calls[2].fn == SetSession && calls[2].args == [ssl, calls[1].ret, 0, 0, 0, 0]
    ensures rc == 0 <==> |calls| == 5 && SetOk(calls[2])
  {
    if |calls| > 2 {
      var cs := calls[1..|calls| - 1];
      assert cs[0] == calls[1];
      if |cs| == 3 { assert cs[1] == calls[2]; }
    }
  }

  /**
   Success is reported exactly when the set succeeded. Then the DER and the pointer to it
   had been staged, and the target went through d2i with the address of that pointer and
   the length, and through SSL_set_session with ssl and what d2i returned.
   */
  lemma ScriptSucceeds(log: seq<Request>, n: nat, syms: Syms, calls: seq<Call>, ssl: word, der: seq<byte>,
                       lay: Layout, rc: int)
    requires Script(log, n, syms, calls, ssl, der, lay, rc)
    ensures rc == 0 <==> |calls| == 5 && SetOk(calls[2])
    ensures rc == 0 ==> Installed(log, syms, calls, ssl, der, lay)
  {
    StepsD2i(calls, ssl, lay, rc);
    ScriptRuns(log, n, syms, calls, ssl, der, lay, rc);
  }

  ghost predicate Installed(log: seq<Request>, syms: Syms, calls: seq<Call>, ssl: word, der: seq<byte>, lay: Layout) {
    && |calls| == 5 && StagedAt(log, calls[0].to, calls[0].ret, der, lay)
    && calls[1].fn == D2i && calls[1].args == [0, CellAt(calls[0].ret, lay), lay.n, 0, 0, 0]
    && Completed(log, syms, calls[1]) && calls[1].ret != 0
    && calls[2].fn == SetSession && calls[2].args == [ssl, calls[1].ret, 0, 0, 0, 0]
    && Completed(log, syms, calls[2]) && calls[2].ret % TWO32 == 1
  }

  // ---------- what an attempt leaves behind ----------

  /** The target survived the call and both restoring requests succeeded, or were not due. */
  ghost predicate Clean(c: Call) {
    c.end != Died && (c.end.Restored? ==> c.end.poked && c.end.set_)
  }

  ghost predicate AllClean(calls: seq<Call>) {
    forall i :: 0 <= i < |calls| ==> Clean(calls[i])
  }

  /** The bytes of the scratch buffer that the injector writes: the DER and the pointer cell. */
  datatype Zone = Nowhere | Scratch(base: word, n: nat, cell: word) {
    predicate Has(x: int) { Scratch? && (base <= x < base + n || cell <= x < cell + 8) }
  }

  /**
   Compared with registers r1 and memory m1: the registers are the same, so is the word at
   the instruction pointer, and memory differs only where the target itself wrote, in the
   word below the red zone, and in the injector's own zone.
   */
  ghost predicate Intact(r1: Regs, m1: Mem, zone: Zone, r: Regs, m: Mem, wrote: set<int>) {
    && r == r1
    && (forall x :: InWord(x, r1.rip) && !zone.Has(x) ==> SameAt(m1, m, x))
    && (forall x :: x !in wrote && !zone.Has(x) && !InWord(x, CallSp(r1.rsp)) ==> SameAt(m1, m, x))
  }

  lemma CallKeepsIntact(r1: Regs, m1: Mem, zone: Zone, m: Mem, wrote: set<int>, end: End, r': Regs, m': Mem,
                        more: set<int>)
    requires Intact(r1, m1, zone, r1, m, wrote)
    requires Framed(m, m', r1.rip, CallSp(r1.rsp), more) && PutBack(end, r1, m, r', m')
    requires end != Died && (end.Restored? ==> end.poked && end.set_)
    ensures Intact(r1, m1, zone, r', m', wrote + more)
  {
  }

  lemma WriteKeepsIntact(r1: Regs, m1: Mem, zone: Zone, r: Regs, m: Mem, wrote: set<int>, a: word, bs: seq<byte>)
    requires Intact(r1, m1, zone, r, m, wrote) && forall x :: a <= x < a + |bs| ==> zone.Has(x)
    ensures Intact(r1, m1, zone, r, WriteBytes(m, a, bs), wrote)
  {
  }

  /** The moment an attempt starts: n requests have been made, with the target stopped in this state. */
  datatype Past = Past(n: nat, regs: Regs, mem: Mem, syms: Syms)

  /** The attempt so far: which calls were made, and what they left behind. */
  ghost predicate SoFar(t: Tracee, p: Past, calls: seq<Call>, zone: Zone)
    reads t
  {
    Trace(t.log, p.n, p.syms, calls) && Left(t, p, calls, zone)
  }

  ghost predicate Left(t: Tracee, p: Past, calls: seq<Call>, zone: Zone)
    reads t
  {
    p.n <= |t.log| && (AllClean(calls) ==> Intact(p.regs, p.mem, zone, t.regs, t.mem, RunWrites(t.log[p.n..])))
  }

  lemma CleanBefore(calls: seq<Call>, c: Call)
    requires AllClean(calls + [c])
    ensures AllClean(calls) && Clean(c)
  {
    assert (calls + [c])[|calls|] == c;
    assert forall i :: 0 <= i < |calls| ==> (calls + [c])[i] == calls[i];
  }

  method DoCall(t: Tracee, fn: Fn, args: seq<word>, p: Past, ghost calls: seq<Call>, ghost zone: Zone)
    returns (ret: word, ok: bool, ghost c: Call)
    requires |args| == 6 && SoFar(t, p, calls, zone)
    modifies t`log, t`regs, t`mem, t`dead
    ensures old(t.log) <= t.log && SoFar(t, p, calls + [c], zone)
    ensures c.fn == fn && c.args == args && c.ok == ok && c.ret == ret && c.from == |old(t.log)| && c.to == |t.log|
  {
    ghost var log, m := t.log, t.mem;
    ghost var end: End, s: seq<Request>;
    ret, ok, end, s := RemoteCall(t, p.syms.Of(fn), args);
    c := Call(fn, args, ok, ret, end, |log|, |t.log|);
    TraceCall(log, p.n, p.syms, calls, c, s);
    if AllClean(calls + [c]) {
      CleanBefore(calls, c);
      RecordSplits(log[p.n..], s);
      SuffixGrows(log, s, p.n);
      CallKeepsIntact(p.regs, p.mem, zone, m, RunWrites(log[p.n..]), end, t.regs, t.mem, RunWrites(s));
    }
  }

  /**
   write_mem: success is a result equal to the length as a signed number. That is the whole
   buffer written, for every length but -1; for that one the kernel's refusal has the same
   value, and nothing is written.
   */
  method WriteAll(t: Tracee, a: word, data: seq<byte>, n: word, p: Past, ghost calls: seq<Call>, ghost zone: Zone)
    returns (ok: bool)
    requires n == |data| || n >= SSIZE_LIMIT
    requires SoFar(t, p, calls, zone) && forall x :: a <= x < a + |data| ==> zone.Has(x)
    modifies t`log, t`mem
    ensures |t.log| == |old(t.log)| + 1 && old(t.log) <= t.log && SoFar(t, p, calls, zone)
    ensures ok <==> n == MINUS_ONE || (n < SSIZE_LIMIT && Wrote(t.log[|old(t.log)|], a, data))
    ensures ok ==> (Wrote(t.log[|old(t.log)|], a, data) <==> n != MINUS_ONE)
    ensures ok <==> Accepted(t.log[|old(t.log)|], a, data, n)
    ensures n == MINUS_ONE ==> t.mem == old(t.mem)
  {
    var moved := Transfer(t, a, data, n, p, calls, zone);
    ok := moved == AsSsize(n);
  }

  /** The transfer itself; within the zone it disturbs nothing. */
  method Transfer(t: Tracee, a: word, data: seq<byte>, n: word, p: Past, ghost calls: seq<Call>, ghost zone: Zone)
    returns (moved: int)
    requires n == |data| || n >= SSIZE_LIMIT
    requires SoFar(t, p, calls, zone) && forall x :: a <= x < a + |data| ==> zone.Has(x)
    modifies t`log, t`mem
    ensures t.log == old(t.log) + [WriteMem(a, data, moved)] && SoFar(t, p, calls, zone)
    ensures -1 <= moved <= |data| && (n >= SSIZE_LIMIT ==> moved == -1) && (moved < 0 ==> t.mem == old(t.mem))
  {
    ghost var log, m := t.log, t.mem;
    moved := t.VmWrite(a, data, n);
    ghost var e := WriteMem(a, data, moved);
    TraceWrite(log, p.n, p.syms, calls, e);
    RecordGrows(log[p.n..], e);
    SuffixGrows(log, [e], p.n);
    if AllClean(calls) && moved >= 0 {
      WriteKeepsIntact(p.regs, p.mem, zone, t.regs, m, RunWrites(log[p.n..]), a, data[..moved]);
    }
  }

  method Stage(t: Tracee, scratch: word, der: seq<byte>, lay: Layout, p: Past, ghost calls: seq<Call>, ghost zone: Zone)
    returns (ok: bool)
    requires lay.n == |der| || lay.n >= SSIZE_LIMIT
    requires zone == Scratch(scratch, |der|, CellAt(scratch, lay)) && SoFar(t, p, calls, zone)
    modifies t`log, t`mem
    ensures old(t.log) <= t.log && SoFar(t, p, calls, zone) && |old(t.log)| < |t.log| <= |old(t.log)| + 2
    ensures ok ==> |t.log| == |old(t.log)| + 2 && StagedAt(t.log, |old(t.log)|, scratch, der, lay)
    ensures !ok ==> Unstaged(t.log, |old(t.log)|, scratch, der, lay)
  {
    ok := WriteAll(t, scratch, der, lay.n, p, calls, zone);
    if ok { ok := WriteAll(t, CellAt(scratch, lay), ToLe(scratch, 8), 8, p, calls, zone); }
  }

  /** One of the two writes was not accepted. */
  ghost predicate Unstaged(log: seq<Request>, i: nat, scratch: word, der: seq<byte>, lay: Layout) {
    && i < |log| <= i + 2
    && (!Accepted(log[i], scratch, der, lay.n)
        || (|log| == i + 2 && !Wrote(log[i + 1], CellAt(scratch, lay), ToLe(scratch, 8))))
  }

  lemma UnstagedLater(log: seq<Request>, log': seq<Request>, i: nat, scratch: word, der: seq<byte>, lay: Layout)
    requires Unstaged(log, i, scratch, der, lay) && log <= log'
    ensures !StagedAt(log', i, scratch, der, lay)
  {
  }

  /** The kernel's three answers that make up a successful seize, from request n on. */
  predicate Attaches(o: Oracle, n: nat) { o.ok(n) }
  predicate Stops(o: Oracle, n: nat) { o.ok(n + 1) && o.status(n + 2).Some? && o.status(n + 2).value.Stopped? }

  /** The requests of a seize, up to the first that fails. */
  ghost predicate Seizing(s: seq<Request>) {
    1 <= |s| <= 3 && s[0].Seize? && (|s| > 1 ==> s[1].Interrupt?) && (|s| > 2 ==> s[2].Wait?)
  }

  /** Seizing: attach, interrupt, and see the target stop. Failing late leaves it attached. */
  method InjectorSeize(t: Tracee) returns (ok: bool, ghost s: seq<Request>)
    modifies t`log, t`attached, t`regs, t`mem, t`dead
    ensures t.log == old(t.log) + s && Seizing(s) && (ok ==> |s| == 3)
    ensures ok ==
            (!old(t.attached) && !old(t.dead) && Attaches(t.oracle, |old(t.log)|) && Stops(t.oracle, |old(t.log)|))
    ensures t.attached == (old(t.attached) || (!old(t.dead) && Attaches(t.oracle, |old(t.log)|)))
    ensures ok ==> (t.regs, t.mem) == t.oracle.run(|old(t.log)| + 1, old(t.regs), old(t.mem))
  {
    ok := t.PtraceSeize();
    s := [Seize(ok)];
    if !ok { return; }
    ok := t.PtraceInterrupt();
    s := s + [Interrupt(ok)];
    if !ok { return; }
    var status := t.WaitPid();
    s := s + [Wait(status)];
    ok := status.Some? && status.value.Stopped?;
  }

  /** Calls made without a gap from one request to another. */
  ghost predicate BackToBack(cs: seq<Call>, from: nat, to: nat) {
    && cs != [] && cs[0].from == from && cs[|cs| - 1].to == to
    && forall i :: 1 <= i < |cs| ==> cs[i].from == cs[i - 1].to
  }

  method BuildAndSet(t: Tracee, ssl: word, cell: word, n: word, p: Past, ghost calls: seq<Call>, ghost zone: Zone)
    returns (rc: int, ghost cs: seq<Call>)
    requires SoFar(t, p, calls, zone)
    modifies t`log, t`regs, t`mem, t`dead
    ensures old(t.log) <= t.log && BackToBack(cs, |old(t.log)|, |t.log|)
    ensures Middle(cs, ssl, cell, n, rc) && SoFar(t, p, calls + cs, zone)
  {
    ghost var c, c2, c3;
    rc := -1;
    var sess, ok;
    sess, ok, c := DoCall(t, D2i, [0, cell, n, 0, 0, 0], p, calls, zone);
    cs := [c];
    if !ok || sess == 0 { return; }
    rc, c2, c3 := SetAndFree(t, ssl, sess, p, calls + cs, zone);
    cs := [c, c2, c3];
    Append3(calls, c, c2, c3);
  }

  lemma Append3<T>(s: seq<T>, a: T, b: T, c: T)
    ensures s + [a] + [b] + [c] == s + [a, b, c]
  {
  }

  method SetAndFree(t: Tracee, ssl: word, sess: word, p: Past, ghost calls: seq<Call>, ghost zone: Zone)
    returns (rc: int, ghost c: Call, ghost d: Call)
    requires SoFar(t, p, calls, zone)
    modifies t`log, t`regs, t`mem, t`dead
    ensures old(t.log) <= t.log && c.from == |old(t.log)| && d.from == c.to && d.to == |t.log|
    ensures c.fn == SetSession && c.args == [ssl, sess, 0, 0, 0, 0] && d.fn == FreeSession
            && d.args == [sess, 0, 0, 0, 0, 0]
    ensures rc == (if SetOk(c) then 0 else -1) && SoFar(t, p, calls + [c] + [d], zone)
  {
    var setRet, setOk, freed, freeOk;
    setRet, setOk, c := DoCall(t, SetSession, [ssl, sess, 0, 0, 0, 0], p, calls, zone);
    freed, freeOk, d := DoCall(t, FreeSession, [sess, 0, 0, 0, 0, 0], p, calls + [c], zone);
    rc := if setOk && setRet % TWO32 == 1 then 0 else -1;
  }

  /** Where an attempt writes, by its calls: a DER of len bytes, staged for the length n. */
  ghost function ZoneOf(calls: seq<Call>, len: nat, lay: Layout): Zone {
    if calls != [] && MappedOk(calls[0]) then Scratch(calls[0].ret, len, CellAt(calls[0].ret, lay)) else Nowhere
  }

  /** The calls between mapping and unmapping: none after a failed staging, and else from d2i on. */
  ghost predicate Filled(log: seq<Request>, i: nat, cs: seq<Call>, ssl: word, scratch: word, der: seq<byte>,
                         lay: Layout, rc: int) {
    if cs == [] then rc == -1 && Unstaged(log, i, scratch, der, lay)
    else
      && StagedAt(log, i, scratch, der, lay)
      && BackToBack(cs, i + 2, |log|) && Middle(cs, ssl, CellAt(scratch, lay), lay.n, rc)
  }

  /** What is done with the scratch buffer while it is mapped. */
  method Fill(t: Tracee, ssl: word, der: seq<byte>, lay: Layout, scratch: word, p: Past, ghost c0: Call)
    returns (rc: int, ghost cs: seq<Call>)
    requires lay.n == |der| || lay.n >= SSIZE_LIMIT
    requires SoFar(t, p, [c0], Nowhere)
    modifies t`log, t`regs, t`mem, t`dead
    ensures old(t.log) <= t.log && Filled(t.log, |old(t.log)|, cs, ssl, scratch, der, lay, rc)
    ensures SoFar(t, p, [c0] + cs, Scratch(scratch, |der|, CellAt(scratch, lay)))
  {
    var cell := CellAt(scratch, lay);
    ghost var zone := Scratch(scratch, |der|, cell);
    rc, cs := -1, [];
    var staged := Stage(t, scratch, der, lay, p, [c0], zone);
    assert [c0] + [] == [c0];
    if !staged { return; }
    rc, cs := BuildAndSet(t, ssl, cell, lay.n, p, [c0], zone);
  }

  /** The first call, what followed it, and the unmapping make up the script. */
  lemma ScriptOf(log: seq<Request>, log': seq<Request>, n: nat, c0: Call, cs: seq<Call>, cu: Call, ssl: word,
                 der: seq<byte>, lay: Layout, rc: int)
    requires c0.fn == Mmap && c0.args == MmapArgs(lay) && MappedOk(c0) && c0.from == n
    requires Filled(log, c0.to, cs, ssl, c0.ret, der, lay, rc) && log <= log'
    requires cu.fn == Munmap && cu.args == [c0.ret, lay.page, 0, 0, 0, 0] && cu.from == |log| && cu.to == |log'|
    ensures Steps([c0] + cs + [cu], ssl, lay, rc) && Joined(log', n, [c0] + cs + [cu], der, lay)
  {
    var calls := [c0] + cs + [cu];
    assert calls[1..|calls| - 1] == cs;
    if cs == [] {
      UnstagedLater(log, log', c0.to, c0.ret, der, lay);
    } else {
      assert calls[1] == cs[0] && calls[|calls| - 2] == cs[|cs| - 1];
      assert forall i :: 0 <= i < |cs| ==> calls[i + 1] == cs[i];
    }
  }

  /** Everything between seizing and detaching. */
  method Attempt(t: Tracee, ssl: word, der: seq<byte>, lay: Layout, p: Past) returns (rc: int, ghost calls: seq<Call>)
    requires lay.n == |der| || lay.n >= SSIZE_LIMIT
    requires p.n == |t.log| && p.regs == t.regs && p.mem == t.mem
    modifies t`log, t`regs, t`mem, t`dead
    ensures old(t.log) <= t.log && Script(t.log, p.n, p.syms, calls, ssl, der, lay, rc)
    ensures Left(t, p, calls, ZoneOf(calls, |der|, lay))
  {
    var scratch, ok;
    ghost var c0;
    scratch, ok, c0 := Map(t, lay, p);
    if !ok || scratch == 0 || scratch == MINUS_ONE {
      rc, calls := -1, [c0];
      ScriptOfOne(t.log, p, c0, ssl, der, lay);
      return;
    }
    rc, calls := UseScratch(t, ssl, der, lay, scratch, p, c0);
  }

  /** The first call. */
  method Map(t: Tracee, lay: Layout, p: Past) returns (scratch: word, ok: bool, ghost c0: Call)
    requires p.n == |t.log| && p.regs == t.regs && p.mem == t.mem
    modifies t`log, t`regs, t`mem, t`dead
    ensures old(t.log) <= t.log && SoFar(t, p, [c0], Nowhere) && c0.from == p.n && c0.to == |t.log|
    ensures c0.fn == Mmap && c0.args == MmapArgs(lay) && c0.ok == ok && c0.ret == scratch
  {
    scratch, ok, c0 := DoCall(t, Mmap, MmapArgs(lay), p, [], Nowhere);
    assert [] + [c0] == [c0];
  }

  lemma ScriptOfOne(log: seq<Request>, p: Past, c0: Call, ssl: word, der: seq<byte>, lay: Layout)
    requires Trace(log, p.n, p.syms, [c0]) && c0.from == p.n && c0.to == |log|
    requires c0.fn == Mmap && c0.args == MmapArgs(lay) && !MappedOk(c0)
    ensures Script(log, p.n, p.syms, [c0], ssl, der, lay, -1)
  {
  }

  /** From the mapped scratch buffer to its unmapping. */
  method UseScratch(t: Tracee, ssl: word, der: seq<byte>, lay: Layout, scratch: word, p: Past, ghost c0: Call)
    returns (rc: int, ghost calls: seq<Call>)
    requires lay.n == |der| || lay.n >= SSIZE_LIMIT
    requires SoFar(t, p, [c0], Nowhere) && c0.from == p.n && c0.to == |t.log|
    requires c0.fn == Mmap && c0.args == MmapArgs(lay) && c0.ret == scratch && MappedOk(c0)
    modifies t`log, t`regs, t`mem, t`dead
    ensures old(t.log) <= t.log && Script(t.log, p.n, p.syms, calls, ssl, der, lay, rc)
    ensures Left(t, p, calls, ZoneOf(calls, |der|, lay))
  {
    var ok, ret;
    ghost var cs, cu;
    rc, cs := Fill(t, ssl, der, lay, scratch, p, c0);
    ghost var log := t.log;
    ghost var zone := Scratch(scratch, |der|, CellAt(scratch, lay));
    ret, ok, cu := DoCall(t, Munmap, [scratch, lay.page, 0, 0, 0, 0], p, [c0] + cs, zone);
    calls := [c0] + cs + [cu];
    ScriptOf(log, t.log, p.n, c0, cs, cu, ssl, der, lay, rc);
  }

  /** What follows a successful seize: an attempt, and as the last request the only detach. */
  ghost predicate Attempted(log: seq<Request>, n: nat, syms: Syms, calls: seq<Call>, ssl: word, der: seq<byte>,
                            lay: Layout, rc: int) {
    && log != [] && Last(log).Detach?
    && Script(log[..|log| - 1], n, syms, calls, ssl, der, lay, rc)
  }

  /** The requests of an attempt, by kind and number. */
  lemma ScriptKinds(log: seq<Request>, n: nat, syms: Syms, calls: seq<Call>, ssl: word, der: seq<byte>, lay: Layout,
                    rc: int)
    requires Script(log, n, syms, calls, ssl, der, lay, rc)
    ensures n <= |log| && Resumptions(log[n..]) <= 5 * MAX_RESUMES
    ensures forall k :: n <= k < |log| ==> log[k].WriteMem? || ForCall(log[k])
  {
    TraceResumes(log, n, syms, calls);
    forall k | n <= k < |log| && !log[k].WriteMem? ensures ForCall(log[k]) {
      var _ := TraceCovers(log, n, syms, calls, k);
    }
  }

  /**
   Of the requests from n on, the first is a seize and no other is; the last is a detach if
   the target was seized, and no other is.
   */
  ghost predicate OneSeize(log: seq<Request>, n: nat, seized: bool) {
    forall k :: n <= k < |log| ==>
      (log[k].Seize? <==> k == n) && (log[k].Detach? <==> seized && k == |log| - 1)
  }

  /** All requests of a seized attempt: three to seize, those of the script, and the detach. */
  lemma SeizedLog(log0: seq<Request>, s: seq<Request>, log2: seq<Request>, e: Request)
    requires Seizing(s) && |s| == 3 && log0 + s <= log2 && e.Detach?
             && Resumptions(log2[|log0| + 3..]) <= 5 * MAX_RESUMES
    ensures var log, n := log2 + [e], |log0|;
            && |log| > n + 3 && log[n..n + 3] == s && Resumptions(log[n..]) <= 5 * MAX_RESUMES
            && RunWrites(log[n + 3..]) == RunWrites(log2[n + 3..])
  {
    var log, n := log2 + [e], |log0|;
    SeizedSlices(log0, s, log2, e);
    RecordIdle(s);
    RecordSplits(s, log[n + 3..]);
    RecordGrows(log2[n + 3..], e);
  }

  lemma SeizedOnce(log0: seq<Request>, s: seq<Request>, log2: seq<Request>, e: Request)
    requires Seizing(s) && |s| == 3 && log0 + s <= log2 && e.Detach?
    requires forall k :: |log0| + 3 <= k < |log2| ==> log2[k].WriteMem? || ForCall(log2[k])
    ensures OneSeize(log2 + [e], |log0|, true)
  {
    var log, n := log2 + [e], |log0|;
    SeizedSlices(log0, s, log2, e);
    forall k | n <= k < |log| ensures (log[k].Seize? <==> k == n) && (log[k].Detach? <==> k == |log| - 1) {
      if k < n + 3 { assert log[n + (k - n)] == s[k - n]; } else if k < |log2| { assert log[k] == log2[k]; }
    }
  }

  lemma AttemptedLog(log: seq<Request>, e: Request, n: nat, syms: Syms, calls: seq<Call>, ssl: word, der: seq<byte>,
                     lay: Layout, rc: int)
    requires Script(log, n, syms, calls, ssl, der, lay, rc) && e.Detach?
    ensures Attempted(log + [e], n, syms, calls, ssl, der, lay, rc)
  {
    Join(log, [e]);
    assert |log + [e]| - 1 == |log|;
  }

  lemma SeizedSlices<T>(log0: seq<T>, s: seq<T>, log2: seq<T>, e: T)
    requires log0 + s <= log2
    ensures var log, n, m := log2 + [e], |log0|, |log0| + |s|;
            log[n..m] == s && log[n..] == s + log[m..] && log[m..] == log2[m..] + [e]
            && forall i :: 0 <= i < |s| ==> log[n + i] == s[i]
  {
    var log, n, m := log2 + [e], |log0|, |log0| + |s|;
    assert log2[..m] == log0 + s;
    assert log[..m] == log2[..m];
    assert log[n..m] == log[..m][n..];
  }

  /**
   What the injector writes, absent overflow: the DER at the start of the mapped region and
   eight bytes behind it, and so nothing outside that region.
   */
  lemma ZoneInside(calls: seq<Call>, n: word, x: int)
    requires calls != [] && MappedOk(calls[0]) && n + 16 + 4095 < W && calls[0].ret + PageLen(n) <= W
    ensures var a := calls[0].ret;
            && (ZoneOf(calls, n, LayoutOf(n)).Has(x) <==>
                 a <= x < a + n || a + CellOffset(n) <= x < a + CellOffset(n) + 8)
            && (ZoneOf(calls, n, LayoutOf(n)).Has(x) ==> a <= x < a + PageLen(n))
  {
    LayoutExact(n);
  }

  lemma NothingAsked(log: seq<Request>)
    ensures Resumptions(log[|log|..]) == 0 && OneSeize(log, |log|, false)
  {
    assert log[|log|..] == [];
  }

  lemma SeizeFailed(log0: seq<Request>, s: seq<Request>)
    requires Seizing(s)
    ensures var log, n := log0 + s, |log0|;
            Seizing(log[n..]) && Resumptions(log[n..]) == 0 && OneSeize(log, n, false)
  {
    Join(log0, s);
    RecordIdle(s);
    assert forall k :: |log0| <= k < |log0 + s| ==> (log0 + s)[k] == s[k - |log0|];
  }

  /**
   How a seized target is left: if it survived all calls and their restores succeeded, as it
   was when it stopped after request n + 1, but for the zone of the calls, the pushed word
   and what its own code changed from request n + 3 on.
   */
  ghost predicate LeftIntact(o: Oracle, n: nat, r0: Regs, m0: Mem, calls: seq<Call>, len: nat, lay: Layout,
                             log: seq<Request>, r: Regs, m: Mem) {
    AllClean(calls) ==>
      && |log| >= n + 3
      && var (r1, m1) := o.run(n + 1, r0, m0);
      Intact(r1, m1, ZoneOf(calls, len, lay), r, m, RunWrites(log[n + 3..]))
  }

  /**
   inject_session, at every point it can fail. Nothing is requested of the target unless
   all five symbols resolved. Once it is seized there is exactly one detach, the last
   request; between the two, the requests are those of the script; and if the target
   survived and the restores succeeded, it is left as it was when it stopped, but for what
   its own code changed during the calls, one word below the red zone and the scratch buffer. An
   attempt that fails to seize makes no call and does not detach, so the target stays
   attached if the attach itself succeeded.
   The length n is that of the DER, or what a negative int becomes as a size_t.
   */
  method InjectSession(t: Tracee, syms: Syms, ssl: word, der: seq<byte>, n: word)
    returns (rc: int, ghost seized: bool, ghost calls: seq<Call>)
    requires n == |der| || n >= SSIZE_LIMIT
    modifies t
    ensures !syms.Resolved() ==> unchanged(t)
    ensures seized ==
            (&& syms.Resolved() && !old(t.attached) && !old(t.dead)
             && Attaches(t.oracle, |old(t.log)|) && Stops(t.oracle, |old(t.log)|))
    ensures old(t.log) <= t.log && (!seized ==> rc == -1 && calls == [])
    ensures syms.Resolved() && !seized ==>
              && Seizing(t.log[|old(t.log)|..])
              && t.attached == (old(t.attached) || (!old(t.dead) && Attaches(t.oracle, |old(t.log)|)))
    ensures seized ==>
              && |t.log| > |old(t.log)| + 3 && Seizing(t.log[|old(t.log)|..|old(t.log)| + 3])
              && Attempted(t.log, |old(t.log)| + 3, syms, calls, ssl, der, LayoutOf(n), rc)
              && t.attached == !Last(t.log).ok
    ensures Resumptions(t.log[|old(t.log)|..]) <= 5 * MAX_RESUMES && OneSeize(t.log, |old(t.log)|, seized)
    ensures seized ==>
              LeftIntact(t.oracle, |old(t.log)|, old(t.regs), old(t.mem), calls, |der|, LayoutOf(n),
                         t.log, t.regs, t.mem)
  {
    rc, seized, calls := -1, false, [];
    ghost var log0 := t.log;
    if !syms.Resolved() {
      NothingAsked(t.log);
      return;
    }
    var ok;
    ghost var s;
    ok, s := InjectorSeize(t);
    if !ok {
      SeizeFailed(log0, s);
      return;
    }
    seized := true;
    rc, calls := AttemptAndDetach(t, syms, ssl, der, LayoutOf(n), log0, s);
  }

  /** What follows a seize; s are the requests that made it up. */
  method AttemptAndDetach(t: Tracee, syms: Syms, ssl: word, der: seq<byte>, lay: Layout, ghost log0: seq<Request>,
                          ghost s: seq<Request>)
    returns (rc: int, ghost calls: seq<Call>)
    requires lay.n == |der| || lay.n >= SSIZE_LIMIT
    requires t.attached && t.log == log0 + s && Seizing(s) && |s| == 3
    modifies t`log, t`regs, t`mem, t`dead, t`attached
    ensures old(t.log) <= t.log && |t.log| > |log0| + 3 && t.log[|log0|..|log0| + 3] == s
    ensures Attempted(t.log, |log0| + 3, syms, calls, ssl, der, lay, rc) && t.attached == !Last(t.log).ok
    ensures Resumptions(t.log[|log0|..]) <= 5 * MAX_RESUMES && OneSeize(t.log, |log0|, true)
    ensures AllClean(calls) ==>
              Intact(old(t.regs), old(t.mem), ZoneOf(calls, |der|, lay), t.regs, t.mem, RunWrites(t.log[|log0| + 3..]))
  {
    var p := Past(|t.log|, t.regs, t.mem, syms);
    rc, calls := Attempt(t, ssl, der, lay, p);
    ghost var log2 := t.log;
    var detached := t.PtraceDetach();
    ScriptKinds(log2, |log0| + 3, syms, calls, ssl, der, lay, rc);
    SeizedLog(log0, s, log2, Detach(detached));
    SeizedOnce(log0, s, log2, Detach(detached));
    AttemptedLog(log2, Detach(detached), |log0| + 3, syms, calls, ssl, der, lay, rc);
  }

  /** A target whose interrupt is refused: the attempt fails, and nobody detaches from it. */
  method SeizeCanLeaveAttached(regs: Regs, mem: Mem, ssl: word) returns (t: Tracee, rc: int)
    ensures fresh(t) && rc == -1 && t.attached && forall k :: 0 <= k < |t.log| ==> !t.log[k].Detach?
  {
    var oracle := Oracle((k: nat) => k != 1, (k: nat) => None, (k: nat) => 0, (k: nat, r: Regs, m: Mem) => (r, m));
    t := new Tracee(oracle, regs, mem);
    ghost var seized, calls;
    rc, seized, calls := InjectSession(t, Syms(1, 1, 1, 1, 1), ssl, [], 0);
  }
}

/**
 A ptrace target: registers, byte memory and trace state. Everything the kernel and the
 target decide is an oracle, consulted once per request: whether the request succeeds,
 what waitpid reports, and what the target does to its registers and memory while it runs.
 */
module Target {
  import opened Bytes
  import opened Words

  const SIGTRAP := 5
  const SSIZE_LIMIT: int := 0x8000_0000_0000_0000

  /** user_regs_struct: the registers the call convention names, and the rest. */
  datatype Regs = Regs(rip: word, rsp: word, rax: word, rdi: word, rsi: word, rdx: word, rcx: word, r8: word, r9: word,
                       rest: seq<word>)

  /** The mapped bytes. */
  type Mem = map<int, byte>

  predicate Mapped(m: Mem, a: int, n: nat) {
    forall i :: a <= i < a + n ==> i in m
  }

  function ReadBytes(m: Mem, a: int, n: nat): (r: seq<byte>)
    requires Mapped(m, a, n)
    ensures |r| == n && forall i :: 0 <= i < n ==> r[i] == m[a + i]
  {
    seq(n, i requires 0 <= i < n => m[a + i])
  }

  function WriteBytes(m: Mem, a: int, bs: seq<byte>): (r: Mem)
    ensures r.Keys == m.Keys
    ensures forall x :: x in m ==> r[x] == if a <= x < a + |bs| then bs[x - a] else m[x]
  {
    map x | x in m :: if a <= x < a + |bs| then bs[x - a] else m[x]
  }

  /** The 8-byte word at a, least significant byte first. */
  function PeekWord(m: Mem, a: int): word
    requires Mapped(m, a, 8)
  {
    LeBound(ReadBytes(m, a, 8));
    Pow2Values();
    FromLe(ReadBytes(m, a, 8))
  }

  function PokeWord(m: Mem, a: int, v: word): Mem {
    WriteBytes(m, a, ToLe(v, 8))
  }

  /** Address x holds the same in both memories, or is mapped in neither. */
  predicate SameAt(m: Mem, n: Mem, x: int) {
    (x in m <==> x in n) && (x in m ==> m[x] == n[x])
  }

  predicate InWord(x: int, a: int) { a <= x < a + 8 }

  /** A word can be read back where it was written. */
  lemma PeekPoked(m: Mem, a: int, v: word)
    requires Mapped(m, a, 8)
    ensures Mapped(PokeWord(m, a, v), a, 8) && PeekWord(PokeWord(m, a, v), a) == v
  {
    var n := PokeWord(m, a, v);
    assert ReadBytes(n, a, 8) == ToLe(v, 8);
    Pow2Values();
    LeValue(v, 8);
  }

  /** Writing the word that was once read at a brings its 8 bytes back. */
  lemma PokeRestores(m0: Mem, m: Mem, a: int)
    requires Mapped(m0, a, 8) && Mapped(m, a, 8)
    ensures forall x :: InWord(x, a) ==> SameAt(m0, PokeWord(m, a, PeekWord(m0, a)), x)
  {
    LeRoundTrip(ReadBytes(m0, a, 8));
  }

  // ---------- one byte of a word ----------

  /** (word & ~0xFF) | value */
  function Patch(w: word, b: byte): nat { Or(And(w, Not(0xFF)), b) }

  lemma {:induction false} AndDisjoint(x: nat, y: nat, k: nat)
    requires LowBits(x, k) == 0 && y < Pow2(k)
    ensures And(x, y) == 0
  {
    if k > 0 && x != 0 && y != 0 { AndDisjoint(x / 2, y / 2, k - 1); }
  }

  lemma LowByteClear(w: word)
    ensures And(w, Not(0xFF)) == w - w % 256 && LowBits(w - w % 256, 8) == 0
  {
    assert And(w, Not(0xFF)) == w - w % 256 by { MaskValues(w); }
    var x := w - w % 256;
    assert x == 256 * (w / 256);
    assert x % 256 == 0;
    assert LowBits(x, 8) == x % 256 by { MaskLow(x, 8); }
  }

  lemma PatchValue(w: word, b: byte)
    ensures Patch(w, b) == w - w % 256 + b
  {
    LowByteClear(w);
    assert Pow2(8) == 256;
    AndDisjoint(w - w % 256, b, 8);
  }

  lemma PatchBytes(w: word, b: byte)
    ensures Patch(w, b) < W && ToLe(Patch(w, b), 8) == [b] + ToLe(w, 8)[1..]
  {
    PatchValue(w, b);
    var p := w - w % 256 + b;
    assert p % 256 == b as int && p / 256 == w / 256;
  }

  /** Patching the word at a changes the byte at a and no other. */
  lemma PatchOneByte(m: Mem, a: int, b: byte)
    requires Mapped(m, a, 8)
    ensures Patch(PeekWord(m, a), b) < W
    ensures PokeWord(m, a, Patch(PeekWord(m, a), b)) == m[a := b]
  {
    var w := PeekWord(m, a);
    PatchBytes(w, b);
    LeRoundTrip(ReadBytes(m, a, 8));
    var n := PokeWord(m, a, Patch(w, b));
    assert a in m;
    forall x | x in m ensures n[x] == m[a := b][x] {
      if a <= x < a + 8 { assert ToLe(w, 8)[x - a] == m[x]; }
    }
  }

  // ---------- the tracer's requests ----------

  datatype Status = Exited(code: int) | Signaled(sig: int) | Stopped(sig: int)

  /**
   A request with its arguments and result; for a resumption, the state the target resumes in
   and the memory it leaves.
   */
  datatype Request =
    | GetRegs(got: Regs, ok: bool)
    | SetRegs(regs: Regs, ok: bool)
    | Peek(addr: word, ok: bool)
    | Poke(addr: word, value: word, ok: bool)
    | Cont(regs: Regs, mem: Mem, after: Mem, ok: bool)
    | Wait(status: Option<Status>)
    | Seize(ok: bool)
    | Interrupt(ok: bool)
    | Detach(ok: bool)
    | WriteMem(addr: word, data: seq<byte>, moved: int)

  /** What the kernel and the target do, by the number of the request. */
  datatype Oracle = Oracle(ok: nat -> bool, status: nat -> Option<Status>, moved: nat -> nat,
                           run: (nat, Regs, Mem) -> (Regs, Mem))

  predicate IsTrapStop(e: Request) {
    e.Wait? && e.status.Some? && e.status.value.Stopped? && e.status.value.sig == SIGTRAP
  }

  /** waitpid reported the end of the target. */
  predicate IsDeath(e: Request) {
    e.Wait? && e.status.Some? && !e.status.value.Stopped?
  }

  /** The kernel refused the request. */
  predicate IsRefused(e: Request) {
    match e
    case GetRegs(_, ok) => !ok
    case SetRegs(_, ok) => !ok
    case Peek(_, ok) => !ok
    case Poke(_, _, ok) => !ok
    case Cont(_, _, _, ok) => !ok
    case Wait(s) => s.None?
    case Seize(ok) => !ok
    case Interrupt(ok) => !ok
    case Detach(ok) => !ok
    case WriteMem(_, data, moved) => moved != |data|
  }

  /** The addresses whose contents or mapping differ. */
  ghost function Changed(m: Mem, n: Mem): set<int> {
    set x | x in m.Keys + n.Keys && !SameAt(m, n, x)
  }

  /** Outside t, the two memories agree. */
  ghost predicate AgreeOutside(m: Mem, n: Mem, t: set<int>) {
    forall x :: x !in t ==> SameAt(m, n, x)
  }

  // ---------- what a record of requests says ----------

  /** How often these requests tell the target to run. */
  function Resumptions(s: seq<Request>): nat {
    if s == [] then 0 else Resumptions(s[..|s| - 1]) + (if s[|s| - 1].Cont? then 1 else 0)
  }

  /** What the target itself changed in memory when these requests made it run. */
  ghost function RunWrites(s: seq<Request>): set<int> {
    if s == [] then {}
    else
      var e := s[|s| - 1];
      RunWrites(s[..|s| - 1]) + (if e.Cont? then Changed(e.mem, e.after) else {})
  }

  lemma RecordGrows(s: seq<Request>, e: Request)
    ensures Resumptions(s + [e]) == Resumptions(s) + (if e.Cont? then 1 else 0)
    ensures RunWrites(s + [e]) == RunWrites(s) + (if e.Cont? then Changed(e.mem, e.after) else {})
  {
    assert (s + [e])[..|s|] == s;
  }

  lemma {:induction false} RecordSplits(a: seq<Request>, b: seq<Request>)
    ensures Resumptions(a + b) == Resumptions(a) + Resumptions(b)
    ensures RunWrites(a + b) == RunWrites(a) + RunWrites(b)
  {
    if b == [] {
      assert a + b == a;
    } else {
      var n := |b| - 1;
      RecordSplits(a, b[..n]);
      RecordGrows(a + b[..n], b[n]);
      assert a + b[..n] + [b[n]] == a + b;
    }
  }

  /** Requests among which none is a resumption. */
  lemma {:induction false} RecordIdle(s: seq<Request>)
    requires forall i :: 0 <= i < |s| ==> !s[i].Cont?
    ensures Resumptions(s) == 0 && RunWrites(s) == {}
  {
    if s != [] { RecordIdle(s[..|s| - 1]); }
  }

  class Tracee {
    const oracle: Oracle
    var regs: Regs
    var mem: Mem
    var attached: bool
    var dead: bool
    var log: seq<Request>

    constructor (oracle: Oracle, regs: Regs, mem: Mem)
      ensures this.oracle == oracle && this.regs == regs && this.mem == mem && !attached && !dead && log == []
    {
      this.oracle, this.regs, this.mem := oracle, regs, mem;
      attached, dead, log := false, false, [];
    }

    /** The kernel serves requests about a live, attached target only, and may refuse any. */
    predicate Served()
      reads this
    {
      attached && !dead && oracle.ok(|log|)
    }

    method PtraceGetRegs() returns (ok: bool, r: Regs)
      modifies this`log
      ensures log == old(log) + [GetRegs(r, ok)] && r == regs && ok == old(Served())
    {
      ok, r := Served(), regs;
      log := log + [GetRegs(r, ok)];
    }

    method PtraceSetRegs(r: Regs) returns (ok: bool)
      modifies this`log, this`regs
      ensures log == old(log) + [SetRegs(r, ok)] && regs == (if ok then r else old(regs)) && ok == old(Served())
    {
      ok := Served();
      log := log + [SetRegs(r, ok)];
      if ok { regs := r; }
    }

    method PtracePeek(a: word) returns (ok: bool, v: word)
      modifies this`log
      ensures log == old(log) + [Peek(a, ok)] && ok == (old(Served()) && Mapped(mem, a, 8))
      ensures ok ==> v == PeekWord(mem, a)
    {
      ok, v := Served() && Mapped(mem, a, 8), 0;
      if ok { v := PeekWord(mem, a); }
      log := log + [Peek(a, ok)];
    }

    method PtracePoke(a: word, v: word) returns (ok: bool)
      modifies this`log, this`mem
      ensures log == old(log) + [Poke(a, v, ok)] && ok == (old(Served()) && Mapped(old(mem), a, 8))
      ensures mem == if ok then PokeWord(old(mem), a, v) else old(mem)
    {
      ok := Served() && Mapped(mem, a, 8);
      log := log + [Poke(a, v, ok)];
      if ok { mem := PokeWord(mem, a, v); }
    }

    /** The target runs until it next stops, and does as it likes with its registers and memory. */
    method PtraceCont() returns (ok: bool)
      modifies this`log, this`regs, this`mem
      ensures log == old(log) + [Cont(old(regs), old(mem), mem, ok)] && ok == old(Served())
      ensures (regs, mem) == if ok then oracle.run(|old(log)|, old(regs), old(mem)) else (old(regs), old(mem))
    {
      ok := Served();
      var r0, m0 := regs, mem;
      if ok {
        var (r, n) := oracle.run(|log|, regs, mem);
        regs, mem := r, n;
      }
      log := log + [Cont(r0, m0, mem, ok)];
    }

    method WaitPid() returns (s: Option<Status>)
      modifies this`log, this`dead
      ensures log == old(log) + [Wait(s)] && s == oracle.status(old(|log|))
      ensures dead == (old(dead) || (s.Some? && !s.value.Stopped?))
    {
      s := oracle.status(|log|);
      log := log + [Wait(s)];
      if s.Some? && !s.value.Stopped? { dead := true; }
    }

    /** Attaching leaves the target running; interrupting lets it run up to its next stop. */
    method PtraceSeize() returns (ok: bool)
      modifies this`log, this`attached
      ensures log == old(log) + [Seize(ok)] && ok == (!old(attached) && !dead && oracle.ok(|old(log)|))
      ensures attached == (old(attached) || ok)
    {
      ok := !attached && !dead && oracle.ok(|log|);
      log := log + [Seize(ok)];
      if ok { attached := true; }
    }

    method PtraceInterrupt() returns (ok: bool)
      modifies this`log, this`regs, this`mem
      ensures log == old(log) + [Interrupt(ok)] && ok == old(Served())
      ensures (regs, mem) == if ok then oracle.run(|old(log)|, old(regs), old(mem)) else (old(regs), old(mem))
    {
      ok := Served();
      log := log + [Interrupt(ok)];
      if ok {
        var (r, n) := oracle.run(|log| - 1, regs, mem);
        regs, mem := r, n;
      }
    }

    method PtraceDetach() returns (ok: bool)
      modifies this`log, this`attached
      ensures log == old(log) + [Detach(ok)] && ok == old(Served())
      ensures attached == (old(attached) && !ok)
    {
      ok := Served();
      log := log + [Detach(ok)];
      if ok { attached := false; }
    }

    /**
     process_vm_writev of n bytes. A length that no ssize_t can hold is refused; otherwise a
     prefix of the data may arrive.
     */
    method VmWrite(a: word, data: seq<byte>, n: word) returns (moved: int)
      requires n == |data| || n >= SSIZE_LIMIT
      modifies this`log, this`mem
      ensures -1 <= moved <= |data| && (dead || n >= SSIZE_LIMIT ==> moved == -1)
      ensures log == old(log) + [WriteMem(a, data, moved)]
      ensures mem == if moved < 0 then old(mem) else WriteBytes(old(mem), a, data[..moved])
      ensures moved >= 0 ==> Mapped(old(mem), a, moved)
    {
      var k := oracle.moved(|log|);
      if k > |data| { k := |data|; }
      moved := if dead || n >= SSIZE_LIMIT || !Mapped(mem, a, k) then -1 else k;
      log := log + [WriteMem(a, data, moved)];
      if moved >= 0 { mem := WriteBytes(mem, a, data[..moved]); }
    }
  }
}

/** on_event: one ring record from end to end, over the agent's connection and the target. */
module Injector {
  import opened Bytes
  import opened Words
  import opened Target
  import opened Remote
  import opened Streams
  import Client
  import Wire
  import Install
  import F = Freeze
  import S = Symbols

  // ---------- resolving the symbols ----------

  function LibraryOf(f: Install.Fn): string { if f.Mmap? || f.Munmap? then "libc.so" else "libssl.so" }

  function NameOf(f: Install.Fn): string {
    match f
    case Mmap => "mmap"
    case Munmap => "munmap"
    case D2i => "d2i_SSL_SESSION"
    case SetSession => "SSL_set_session"
    case FreeSession => "SSL_SESSION_free"
  }

  /** What is seen of the target at each of the five lookups; it may change from one to the next. */
  type Views = Install.Fn -> S.View

  function Lookup(views: Views, f: Install.Fn): word { S.Resolution(views(f), LibraryOf(f), NameOf(f)) }

  /** The symbols that the five lookups give. */
  function SymsOf(views: Views): Install.Syms {
    Install.Syms(Lookup(views, Install.Mmap), Lookup(views, Install.Munmap), Lookup(views, Install.D2i),
                 Lookup(views, Install.SetSession), Lookup(views, Install.FreeSession))
  }

  method ResolveOne(views: Views, f: Install.Fn) returns (r: word)
    ensures r == Lookup(views, f)
  {
    r := S.Resolve(views(f), LibraryOf(f), NameOf(f));
  }

  method ResolveAll(views: Views) returns (syms: Install.Syms)
    ensures syms == SymsOf(views)
    ensures syms.mmap == S.Resolution(views(Install.Mmap), "libc.so", "mmap")
    ensures syms.munmap == S.Resolution(views(Install.Munmap), "libc.so", "munmap")
    ensures syms.d2i == S.Resolution(views(Install.D2i), "libssl.so", "d2i_SSL_SESSION")
    ensures syms.set_ == S.Resolution(views(Install.SetSession), "libssl.so", "SSL_set_session")
    ensures syms.free == S.Resolution(views(Install.FreeSession), "libssl.so", "SSL_SESSION_free")
  {
    var mmap := ResolveOne(views, Install.Mmap);
    var munmap := ResolveOne(views, Install.Munmap);
    var d2i := ResolveOne(views, Install.D2i);
    var set_ := ResolveOne(views, Install.SetSession);
    var free := ResolveOne(views, Install.FreeSession);
    syms := Install.Syms(mmap, munmap, d2i, set_, free);
  }

  /** Each symbol is what its own lookup gives. */
  lemma SymsEach(views: Views, f: Install.Fn)
    ensures SymsOf(views).Of(f) == Lookup(views, f)
  {
    match f
    case Mmap =>
    case Munmap =>
    case D2i =>
    case SetSession =>
    case FreeSession =>
  }

  /** A library that is not mapped, at any of the lookups, leaves the symbols unresolved. */
  lemma NoLibrary(views: Views, f: Install.Fn)
    requires S.NoMatch(views(f).lines, if f.Mmap? || f.Munmap? then "libc.so" else "libssl.so")
    ensures !SymsOf(views).Resolved()
  {
    SymsEach(views, f);
    S.ChosenLinesExact(views(f).lines, LibraryOf(f), |views(f).lines|);
    assert Lookup(views, f) == 0;
  }

  /**
   Where the target runs when a call is entered whose symbol was looked up in this view:
   if the file named for the library defines it, at the load bias plus its value exactly
   when the base line of the lookup starts where the loader put that file.
   */
  lemma EntersAtBias(v: S.View, lib: string, name: string, syms: Install.Syms, log: seq<Request>, c: Install.Call,
                     b: nat, p: nat, img: S.Image, bias: word)
    requires syms.Of(c.fn) == S.Resolution(v, lib, name) && Install.Entered(log, syms, c)
    requires S.Chosen(v.lines, lib, |v.lines|, b, p) && v.files(v.lines[p].path) == Some(img)
             && S.SymbolValue(img, name) != 0
    ensures log[c.from + 5].regs.rip == Wrap(bias + S.SymbolValue(img, name)) <==>
            v.lines[b].start == Wrap(bias + S.BaseVaddr(img.phdrs))
  {
    S.ResolvedRight(v, lib, name, b, p, img, bias);
  }

  // ---------- one record ----------

  /**
   All symbols resolved, the target is there to be attached to, and the kernel's answers from
   request n on make a seize.
   */
  predicate CanSeize(syms: Install.Syms, gone: bool, oracle: Oracle, n: nat) {
    syms.Resolved() && !gone && Install.Attaches(oracle, n) && Install.Stops(oracle, n)
  }

  /**
   What the target's log says of an install, from request n on: nothing without all symbols;
   else one seize, at most 85 resumptions, and after a successful seize a script and the only
   detach, with the outcome that goes with it.
   */
  ghost predicate Logged(log: seq<Request>, n: nat, syms: Install.Syms, calls: seq<Install.Call>, ssl: word,
                         der: seq<byte>, lay: Install.Layout, outcome: F.Outcome) {
    && n <= |log| && Resumptions(log[n..]) <= 5 * MAX_RESUMES
    && (syms.Resolved() ==> Install.OneSeize(log, n, calls != []))
    && (calls != [] ==>
         Install.Attempted(log, n + 3, syms, calls, ssl, der, lay, if outcome == F.Resumed then 0 else -1))
    && (outcome == F.Resumed <==> |calls| == 5 && Install.SetOk(calls[2]))
  }

  /**
   A short record is dropped. Any other gives exactly one line and one SIGCONT, whatever
   happens in between. Without a session from the agent the line is a MISS and the target
   is not touched at all. With one, the five symbols are resolved, an install is attempted
   whenever they all were and the target can be seized, its requests are those of the
   script, and RESUMED is written exactly when that ran to a successful SSL_set_session.
   Install.ScriptSucceeds says what that means for the target, and LeftIntact how it is left.
   */
  method OnEvent(e: F.Event, dest: CString, conn: Conn, allocOk: bool, t: Tracee, views: Views)
    returns (lines: seq<F.Line>, conts: seq<F.Pid>, ghost answer: Wire.Answer, ghost calls: seq<Install.Call>)
    requires conn.Valid()
    modifies conn, t
    ensures old(t.log) <= t.log
    ensures e.len < 16 ==> lines == [] && conts == [] && unchanged(conn) && unchanged(t) && !answer.Got?
    ensures e.len >= 16 ==> |lines| == 1 && lines[0].pid == e.pid && conts == [e.pid]
    ensures e.len >= 16 ==>
              && (answer == Wire.Transport || answer == Wire.ParseAnswer(conn.input[old(conn.pos)..], 64, allocOk).0)
              && (1 <= |dest| <= Wire.DEST_MAX && !Faulty(old(conn.events)) ==>
                    answer == Wire.ParseAnswer(conn.input[old(conn.pos)..], 64, allocOk).0)
              && (lines[0].outcome == F.Miss <==> !answer.Got?)
              && (lines[0].outcome == F.Miss ==> unchanged(t))
    ensures answer.Got? && !SymsOf(views).Resolved() ==> unchanged(t)
    ensures calls != [] <==>
              answer.Got? && CanSeize(SymsOf(views), old(t.attached) || old(t.dead), t.oracle, |old(t.log)|)
    ensures answer.Got? ==>
              && |lines| == 1
              && Logged(t.log, |old(t.log)|, SymsOf(views), calls, e.ssl, answer.der,
                        Install.LayoutOf(Wrap(answer.derLen)), lines[0].outcome)
    ensures calls != [] ==>
              Install.LeftIntact(t.oracle, |old(t.log)|, old(t.regs), old(t.mem), calls, |answer.der|,
                                 Install.LayoutOf(Wrap(answer.derLen)), t.log, t.regs, t.mem)
  {
    lines, conts, answer, calls := [], [], Wire.Transport, [];
    if e.len < F.EVENT_SIZE { return; }
    var a := Client.UdsGet(conn, dest, 64, allocOk);
    answer := a;
    conts := [e.pid];
    if !a.Got? {
      lines := [F.Line(e.pid, F.Miss)];
      return;
    }
    LengthFits(conn.input[old(conn.pos)..], allocOk);
    var found := ResolveAll(views);
    var outcome;
    outcome, calls := Inject(t, found, e.ssl, a.der, Wrap(a.derLen));
    lines := [F.Line(e.pid, outcome)];
  }

  /** The install, and the outcome it is reported as. */
  method Inject(t: Tracee, syms: Install.Syms, ssl: word, der: seq<byte>, n: word)
    returns (outcome: F.Outcome, ghost calls: seq<Install.Call>)
    requires n == |der| || n >= SSIZE_LIMIT
    modifies t
    ensures old(t.log) <= t.log && (!syms.Resolved() ==> unchanged(t)) && outcome != F.Miss
    ensures calls != [] <==> CanSeize(syms, old(t.attached) || old(t.dead), t.oracle, |old(t.log)|)
    ensures Logged(t.log, |old(t.log)|, syms, calls, ssl, der, Install.LayoutOf(n), outcome)
    ensures calls != [] ==>
              Install.LeftIntact(t.oracle, |old(t.log)|, old(t.regs), old(t.mem), calls, |der|, Install.LayoutOf(n),
                                 t.log, t.regs, t.mem)
  {
    var rc;
    ghost var seized;
    rc, seized, calls := Install.InjectSession(t, syms, ssl, der, n);
    outcome := if rc == 0 then F.Resumed else F.InstallFailed;
    if seized { Install.StepsD2i(calls, ssl, Install.LayoutOf(n), rc); }
  }

  /** The DER length as a size_t is its length, or, from 2^31 on, larger than any object. */
  lemma LengthFits(s: seq<byte>, allocOk: bool)
    ensures var a := Wire.ParseAnswer(s, 64, allocOk).0;
            a.Got? ==> Wrap(a.derLen) == |a.der| || Wrap(a.derLen) >= SSIZE_LIMIT
  {
  }

  // ---------- the length -1 ----------

  /** The header of an agent that announces 2^32 - 1 bytes of DER and no group. */
  const MINUS_ONE_HEADER: seq<byte> := [Wire.MAGIC, Wire.VERSION, Wire.STATUS_OK, 0, 0, 255, 255, 255, 255]

  /** The client takes such a DER for one of length -1. */
  lemma MinusOneHeard(body: seq<byte>)
    requires |body| == TWO32 - 1
    ensures Wire.ParseAnswer(MINUS_ONE_HEADER + body, 64, true).0 == Wire.Got(body, -1, 0, [])
            && Wrap(-1) == Install.MINUS_ONE
  {
    var s := MINUS_ONE_HEADER + body;
    assert s[5..9] == [255, 255, 255, 255];
    assert s[9..9] == [] && s[9..9 + |body|] == body;
    WrapOnce(-1);
  }

  /** For that length the install maps one page and puts the pointer cell on top of the DER. */
  lemma MinusOneLayout()
    ensures Install.CellOffset(Install.MINUS_ONE) == 0 && Install.PageLen(Install.MINUS_ONE) == 4096
    ensures !Install.Fits(Install.MINUS_ONE)
  {
    var q := Install.CellIs(Install.MINUS_ONE);
    assert Wrap(Install.MINUS_ONE + 16) == 15 by { WrapOnce(Install.MINUS_ONE + 16); }
    var p := Install.PageIs(15);
    assert p == 1;
  }

  /** Then write_mem reports success for that DER, and the target's memory is as it was. */
  method MinusOneWritesNothing(t: Tracee, scratch: word, body: seq<byte>) returns (a: Wire.Answer, ok: bool)
    requires |body| == TWO32 - 1
    modifies t`log, t`mem
    ensures a == Wire.ParseAnswer(MINUS_ONE_HEADER + body, 64, true).0 && a.Got? && a.der == body
    ensures ok && t.mem == old(t.mem) && |t.log| == |old(t.log)| + 1
            && !Install.Wrote(t.log[|old(t.log)|], scratch, body)
  {
    MinusOneHeard(body);
    a := Wire.ParseAnswer(MINUS_ONE_HEADER + body, 64, true).0;
    var p := Install.Past(|t.log|, t.regs, t.mem, Install.Syms(0, 0, 0, 0, 0));
    ok := Install.WriteAll(t, scratch, a.der, Wrap(a.derLen), p, [], Install.Scratch(scratch, |body|, scratch));
  }
}

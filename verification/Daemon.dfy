/**
 Agent and injector together: ring records handled one after the other, each against the
 agent's pool over a connection of its own, each on its own target; before each, the agent
 may serve any other clients. `conns` is all that the agent heard, connection by connection.
 */
module Daemon {
  import opened Bytes
  import opened Words
  import opened PoolSpec
  import opened PoolLedger
  import opened Streams
  import opened ServerSpec
  import opened Target
  import P = Pool
  import F = Freeze
  import Injector
  import Install
  import Server
  import Wire

  /** Another client of the agent: what it sends, and how the agent's calls on its connection behave. */
  datatype Other = Other(bytes: seq<byte>, io: seq<Event>)

  /**
   A ring record with the circumstances it meets: the clients served before it, both ends'
   I/O, the client's memory, the target and what is seen of it.
   */
  datatype Job = Job(event: F.Event, before: seq<Other>, serverIo: seq<Event>, clientIo: seq<Event>, allocOk: bool,
                     target: Tracee, views: Injector.Views)

  /**
   How a record was handled: the lines written for it, its connection to the agent, and the
   calls made in its target, which are requests start.. of log.
   */
  datatype Handled = Handled(lines: seq<F.Line>, conn: nat, calls: seq<Install.Call>, start: nat, log: seq<Request>) {
    predicate Resumed() { lines != [] && lines[0].outcome == F.Resumed }
  }

  /** The DER that connection k was served with, by the source. */
  ghost function SourceDer(env: Env, conns: seq<seq<byte>>, k: nat, dest: CString): seq<byte>
    requires k < |conns|
  {
    var o := env.source(CallOf(env, conns, k), dest);
    if o.Session? then o.der else []
  }

  /**
   Connection k asked for dest and was served an answer that the source gave for dest, with
   a lifetime that had not passed at the clock value read.
   */
  ghost predicate Served(env: Env, conns: seq<seq<byte>>, k: nat, dest: CString) {
    && k < |conns| && Hear(conns[k]) == Asks(dest)
    && var r := Nth(env, INITIAL, conns, k);
    && r.block.Some? && env.source(CallOf(env, conns, k), dest).Session?
    && FromSource(env, After(env, INITIAL, conns[..k]), dest, r.block.value, r.reply)
  }

  /**
   A record reported as RESUMED: the requests to its target, at the symbols resolved for it,
   are those of a script that succeeded in installing on the record's SSL object the very
   DER that the source gave for dest.
   */
  ghost predicate Genuine(env: Env, conns: seq<seq<byte>>, dest: CString, job: Job, h: Handled) {
    h.Resumed() ==>
      && Served(env, conns, h.conn, dest)
      && var der := SourceDer(env, conns, h.conn, dest);
      && |der| < TWO31
      && Install.Script(h.log, h.start + 3, Injector.SymsOf(job.views), h.calls, job.event.ssl,
                        der, Install.LayoutOf(|der|), 0)
  }

  /**
   In the target that means: the DER and the pointer to it were staged, d2i ran on them, and
   the set on its result.
   */
  lemma GenuineInstalls(env: Env, conns: seq<seq<byte>>, dest: CString, job: Job, h: Handled)
    requires Genuine(env, conns, dest, job, h) && h.Resumed()
    ensures var der := SourceDer(env, conns, h.conn, dest);
            Install.Installed(h.log, Injector.SymsOf(job.views), h.calls, job.event.ssl, der, Install.LayoutOf(|der|))
  {
    var der := SourceDer(env, conns, h.conn, dest);
    Install.ScriptSucceeds(h.log, h.start + 3, Injector.SymsOf(job.views), h.calls, job.event.ssl,
                           der, Install.LayoutOf(|der|), 0);
  }

  /** Later connections change nothing about it. */
  lemma GenuineStays(env: Env, conns: seq<seq<byte>>, all: seq<seq<byte>>, dest: CString, job: Job, h: Handled)
    requires Genuine(env, conns, dest, job, h) && conns <= all
    ensures Genuine(env, all, dest, job, h)
    ensures h.Resumed() ==> h.conn < |conns| && CallOf(env, all, h.conn) == CallOf(env, conns, h.conn)
  {
    if h.Resumed() { ServedStays(env, conns, all, h.conn, dest); }
  }

  lemma ServedStays(env: Env, conns: seq<seq<byte>>, all: seq<seq<byte>>, k: nat, dest: CString)
    requires Served(env, conns, k, dest) && conns <= all
    ensures Served(env, all, k, dest) && CallOf(env, all, k) == CallOf(env, conns, k)
  {
    assert all[..k] == conns[..k] && all[k] == conns[k];
  }

  predicate Askable(dest: CString) { 1 <= |dest| <= Wire.DEST_MAX }

  /** A request cut short is no request: the agent says nothing. */
  lemma CutShort(dest: CString, heard: seq<byte>)
    requires Askable(dest) && heard <= Wire.Request(dest)
    ensures if heard == Wire.Request(dest) then Hear(heard) == Asks(dest) else Hear(heard) == Incomplete
  {
    RequestAsks(dest);
    if heard != Wire.Request(dest) && |heard| >= Wire.REQ_HDR {
      assert |heard| < |Wire.Request(dest)|;
      assert heard[0] == Wire.MAGIC && heard[1] == Wire.VERSION && heard[3] as int == |dest|;
    }
  }

  /** A client that makes a session out of the beginning of a reply makes the same out of all of it. */
  lemma GotFromPrefix(s: seq<byte>, t: seq<byte>, allocOk: bool)
    requires s <= t && Wire.ParseAnswer(s, 64, allocOk).0.Got?
    ensures allocOk && Wire.ParseAnswer(t, 64, true).0 == Wire.ParseAnswer(s, 64, allocOk).0
  {
    assert s[5..9] == t[5..9];
    var g, n := s[4] as int, GetU32(s[5..9]);
    assert s[9..9 + g] == t[9..9 + g] && s[9 + g..9 + g + n] == t[9 + g..9 + g + n];
  }

  /** The reply to what was heard, as far as it was sent. */
  ghost predicate SentPart(reply: Option<seq<byte>>, out: seq<byte>) {
    match reply
    case None => out == []
    case Some(f) => out <= f
  }

  /**
   To make a session of what was sent, the agent must have heard the whole request, and the
   client read the whole reply.
   */
  lemma GotWhole(env: Env, st: State, dest: CString, heard: seq<byte>, out: seq<byte>, allocOk: bool)
    requires Askable(dest) && heard <= Wire.Request(dest) && SentPart(Serve(env, st, heard).reply, out)
    requires Wire.ParseAnswer(out, 64, allocOk).0.Got?
    ensures heard == Wire.Request(dest) && Hear(heard) == Asks(dest)
    ensures var r := Serve(env, st, heard).reply;
            r.Some? && Wire.ParseAnswer(r.value, 64, true).0 == Wire.ParseAnswer(out, 64, allocOk).0
  {
    CutShort(dest, heard);
    if Serve(env, st, heard).reply.Some? { GotFromPrefix(out, Serve(env, st, heard).reply.value, allocOk); }
  }

  /** A session in the whole reply is the one the source gave. */
  lemma WholeIsSource(env: Env, ops: seq<Op>, conns: seq<seq<byte>>, dest: CString, a: Wire.Answer)
    requires Askable(dest) && Run(env, INITIAL, ops) == After(env, INITIAL, conns)
    requires var r := Serve(env, After(env, INITIAL, conns), Wire.Request(dest)).reply;
             r.Some? && a == Wire.ParseAnswer(r.value, 64, true).0 && a.Got?
    ensures var all, k := conns + [Wire.Request(dest)], |conns|;
            Served(env, all, k, dest) && a.der == SourceDer(env, all, k, dest) && a.derLen == |a.der| < TWO31
  {
    EndToEnd(env, ops, dest);
    RequestAsks(dest);
    LastServed(env, conns, Wire.Request(dest));
    ServedFromSource(env, conns + [Wire.Request(dest)], |conns|);
    Join(conns, [Wire.Request(dest)]);
  }

  /**
   Whatever part of a request for dest the agent heard, and whatever part of its reply went
   out: a session that the client makes of it is the one the source gave for dest.
   */
  lemma GotIsSource(env: Env, ops: seq<Op>, conns: seq<seq<byte>>, dest: CString, heard: seq<byte>, out: seq<byte>,
                    allocOk: bool)
    requires Askable(dest) && heard <= Wire.Request(dest) && Run(env, INITIAL, ops) == After(env, INITIAL, conns)
    requires SentPart(Serve(env, After(env, INITIAL, conns), heard).reply, out)
    ensures var all, k := conns + [heard], |conns|;
            var a := Wire.ParseAnswer(out, 64, allocOk).0;
            a.Got? ==> Served(env, all, k, dest) && a.der == SourceDer(env, all, k, dest) && a.derLen == |a.der| < TWO31
  {
    var a := Wire.ParseAnswer(out, 64, allocOk).0;
    if a.Got? {
      GotWhole(env, After(env, INITIAL, conns), dest, heard, out, allocOk);
      WholeIsSource(env, ops, conns, dest, a);
    }
  }

  lemma LastServed(env: Env, conns: seq<seq<byte>>, c: seq<byte>)
    ensures Nth(env, INITIAL, conns + [c], |conns|) == Serve(env, After(env, INITIAL, conns), c)
    ensures After(env, INITIAL, conns + [c]) == Serve(env, After(env, INITIAL, conns), c).pool
  {
    assert (conns + [c])[..|conns|] == conns;
  }

  /** The agent's part: it hears some of the request, and some of its reply goes out. */
  method Agent(pool: P.Pool, dest: CString, io: seq<Event>) returns (out: seq<byte>, ghost heard: seq<byte>)
    requires pool.Valid() && Askable(dest)
    modifies pool, pool.world, pool.cells
    ensures pool.Valid() && fresh(pool.cells - old(pool.cells)) && heard <= Wire.Request(dest)
    ensures var r := Serve(pool.E(), old(pool.model), heard); pool.model == r.pool && SentPart(r.reply, out)
    ensures !Faulty(io) ==> heard == Wire.Request(dest)
  {
    var conn := new Conn(Wire.Request(dest), io);
    Server.HandleConn(conn, pool);
    out, heard := conn.output, conn.input[0..conn.pos];
    if !Faulty(io) {
      RequestAsks(dest);
      assert conn.input[0..] == conn.input;
    }
  }

  /** What the injector's part of a record leaves in its target's log, by the bytes the agent sent. */
  ghost predicate Finished(job: Job, bytes: seq<byte>, h: Handled) {
    h.Resumed() ==>
      && var a := Wire.ParseAnswer(bytes, 64, job.allocOk).0;
      && a.Got?
      && (a.derLen == |a.der| < TWO31 ==>
            Install.Script(h.log, h.start + 3, Injector.SymsOf(job.views), h.calls, job.event.ssl,
                           a.der, Install.LayoutOf(|a.der|), 0))
  }

  /** The lines and SIGCONTs of one record. */
  ghost predicate Told(e: F.Event, lines: seq<F.Line>, conts: seq<F.Pid>) {
    if e.len < F.EVENT_SIZE then lines == [] && conts == []
    else |lines| == 1 && lines[0].pid == e.pid && conts == [e.pid]
  }

  /** The injector's part, on the bytes the agent sent; k is the number of the connection. */
  method Finish(job: Job, dest: CString, bytes: seq<byte>, ghost k: nat)
    returns (lines: seq<F.Line>, conts: seq<F.Pid>, ghost h: Handled)
    modifies job.target
    ensures Told(job.event, lines, conts) && h.lines == lines && h.conn == k && Finished(job, bytes, h)
    ensures old(job.target.log) <= job.target.log && h.start == |old(job.target.log)| && h.log <= job.target.log
  {
    var conn := new Conn(bytes, job.clientIo);
    ghost var answer, calls;
    ghost var n := |job.target.log|;
    lines, conts, answer, calls := Injector.OnEvent(job.event, dest, conn, job.allocOk, job.target, job.views);
    ghost var log := job.target.log;
    h := Handled(lines, k, calls, n, if log == [] then [] else log[..|log| - 1]);
    assert Finished(job, bytes, h) by {
      if h.Resumed() {
        assert bytes[0..] == bytes;
        ResumedScript(job, bytes, h, log);
      }
    }
  }

  lemma ResumedScript(job: Job, bytes: seq<byte>, h: Handled, log: seq<Request>)
    requires h.log == if log == [] then [] else log[..|log| - 1]
    requires var a := Wire.ParseAnswer(bytes, 64, job.allocOk).0;
             && a.Got?
             && Injector.Logged(log, h.start, Injector.SymsOf(job.views), h.calls, job.event.ssl, a.der,
                                Install.LayoutOf(Wrap(a.derLen)), F.Resumed)
    ensures Finished(job, bytes, h)
  {
    var a := Wire.ParseAnswer(bytes, 64, job.allocOk).0;
    if a.derLen == |a.der| < TWO31 { WrapOnce(a.derLen); }
  }

  // ---------- the connections ----------

  /** The connection a record makes itself: none if it is too short, or the destination cannot be asked for. */
  function Own(dest: CString, job: Job): nat { if job.event.len >= F.EVENT_SIZE && Askable(dest) then 1 else 0 }

  /** What the agent heard of these clients, one connection each. */
  ghost predicate Heard(others: seq<Other>, conns: seq<seq<byte>>, all: seq<seq<byte>>) {
    && conns <= all && |all| == |conns| + |others|
    && forall i :: 0 <= i < |others| ==> all[|conns| + i] <= others[i].bytes
  }

  /** What it heard for one record: first of the other clients, then of the request itself. */
  ghost predicate Added(dest: CString, job: Job, conns: seq<seq<byte>>, all: seq<seq<byte>>) {
    var k := |conns| + |job.before|;
    && |all| == k + Own(dest, job) && Heard(job.before, conns, all[..k])
    && (Own(dest, job) == 1 ==> all[k] <= Wire.Request(dest))
  }

  /** Other clients are served. */
  method ServeOthers(pool: P.Pool, others: seq<Other>, ghost conns: seq<seq<byte>>) returns (ghost all: seq<seq<byte>>)
    requires pool.Valid() && pool.model == After(pool.E(), INITIAL, conns)
    modifies pool, pool.world, pool.cells
    ensures pool.Valid() && fresh(pool.cells - old(pool.cells)) && pool.model == After(pool.E(), INITIAL, all)
    ensures Heard(others, conns, all)
  {
    all := conns;
    for i := 0 to |others|
      invariant pool.Valid() && fresh(pool.cells - old(pool.cells)) && pool.model == After(pool.E(), INITIAL, all)
      invariant Heard(others[..i], conns, all)
    {
      var conn := new Conn(others[i].bytes, others[i].io);
      Server.HandleConn(conn, pool);
      ghost var heard := conn.input[0..conn.pos];
      LastServed(pool.E(), all, heard);
      HeardNext(others, i, conns, all, heard);
      all := all + [heard];
    }
    assert others[..|others|] == others;
  }

  lemma HeardNext(others: seq<Other>, i: nat, conns: seq<seq<byte>>, all: seq<seq<byte>>, heard: seq<byte>)
    requires i < |others| && Heard(others[..i], conns, all) && heard <= others[i].bytes
    ensures Heard(others[..i + 1], conns, all + [heard])
  {
  }

  /** The record's own connection, if it makes one, and what the client can make of the bytes that come back. */
  method Contact(pool: P.Pool, dest: CString, job: Job, ghost mid: seq<seq<byte>>)
    returns (bytes: seq<byte>, ghost all: seq<seq<byte>>)
    requires pool.Valid() && pool.model == After(pool.E(), INITIAL, mid)
    modifies pool, pool.world, pool.cells
    ensures pool.Valid() && fresh(pool.cells - old(pool.cells)) && pool.model == After(pool.E(), INITIAL, all)
    ensures mid <= all && all[..|mid|] == mid && |all| == |mid| + Own(dest, job)
    ensures Own(dest, job) == 1 ==> all[|mid|] <= Wire.Request(dest)
    ensures Brought(pool.E(), all, |mid|, dest, job, bytes)
  {
    bytes, all := [], mid;
    if job.event.len >= F.EVENT_SIZE && Askable(dest) {
      ghost var ops, heard := pool.history, [];
      bytes, heard := Agent(pool, dest, job.serverIo);
      all := mid + [heard];
      LastServed(pool.E(), mid, heard);
      Join(mid, [heard]);
      GotIsSource(pool.E(), ops, mid, dest, heard, bytes, job.allocOk);
    }
  }

  /** What the client can make of the bytes that came over connection k. */
  ghost predicate Brought(env: Env, all: seq<seq<byte>>, k: nat, dest: CString, job: Job, bytes: seq<byte>) {
    var a := Wire.ParseAnswer(bytes, 64, job.allocOk).0;
    a.Got? ==> Served(env, all, k, dest) && a.der == SourceDer(env, all, k, dest) && a.derLen == |a.der| < TWO31
  }

  /** The clients served before, and then the record's own connection, which is number k. */
  method Reach(pool: P.Pool, dest: CString, job: Job, ghost conns: seq<seq<byte>>)
    returns (bytes: seq<byte>, ghost all: seq<seq<byte>>, ghost k: nat)
    requires pool.Valid() && pool.model == After(pool.E(), INITIAL, conns)
    modifies pool, pool.world, pool.cells
    ensures pool.Valid() && fresh(pool.cells - old(pool.cells)) && pool.model == After(pool.E(), INITIAL, all)
    ensures Added(dest, job, conns, all) && k >= |conns| && Brought(pool.E(), all, k, dest, job, bytes)
  {
    ghost var mid := ServeOthers(pool, job.before, conns);
    bytes, all := Contact(pool, dest, job, mid);
    k := |mid|;
  }

  lemma GenuineFrom(env: Env, all: seq<seq<byte>>, dest: CString, job: Job, bytes: seq<byte>, h: Handled)
    requires Brought(env, all, h.conn, dest, job, bytes) && Finished(job, bytes, h)
    ensures Genuine(env, all, dest, job, h)
  {
  }

  /** One record, against the agent's pool, after the clients served before it. */
  method Handle(pool: P.Pool, dest: CString, job: Job, ghost conns: seq<seq<byte>>)
    returns (lines: seq<F.Line>, conts: seq<F.Pid>, ghost h: Handled, ghost all: seq<seq<byte>>)
    requires pool.Valid() && pool.model == After(pool.E(), INITIAL, conns) && job.target !in pool.cells
    modifies pool, pool.world, pool.cells, job.target
    ensures pool.Valid() && fresh(pool.cells - old(pool.cells)) && pool.model == After(pool.E(), INITIAL, all)
    ensures Added(dest, job, conns, all) && Told(job.event, lines, conts) && h.lines == lines
    ensures Genuine(pool.E(), all, dest, job, h) && (h.Resumed() ==> h.conn >= |conns|)
    ensures old(job.target.log) <= job.target.log && h.start == |old(job.target.log)| && h.log <= job.target.log
  {
    var bytes;
    ghost var k;
    bytes, all, k := Reach(pool, dest, job, conns);
    lines, conts, h := Finish(job, dest, bytes, k);
    GenuineFrom(pool.E(), all, dest, job, bytes, h);
  }

  /** No answer of the source is behind two of them. */
  ghost predicate AllDifferent(env: Env, conns: seq<seq<byte>>, hs: seq<Handled>) {
    forall i, j {:trigger CallOf(env, conns, hs[i].conn), CallOf(env, conns, hs[j].conn)} ::
      0 <= i < j < |hs| && hs[i].Resumed() && hs[j].Resumed() ==>
      hs[i].conn < hs[j].conn < |conns| && CallOf(env, conns, hs[i].conn) != CallOf(env, conns, hs[j].conn)
  }

  ghost predicate AllGenuine(env: Env, conns: seq<seq<byte>>, dest: CString, jobs: seq<Job>, hs: seq<Handled>)
    requires |hs| == |jobs|
  {
    forall i {:trigger Genuine(env, conns, dest, jobs[i], hs[i])} ::
      0 <= i < |hs| ==> Genuine(env, conns, dest, jobs[i], hs[i])
  }

  lemma OneMoreGenuine(env: Env, conns: seq<seq<byte>>, all: seq<seq<byte>>, dest: CString,
                       jobs: seq<Job>, job: Job, hs: seq<Handled>, h: Handled)
    requires |hs| == |jobs| && AllGenuine(env, conns, dest, jobs, hs) && conns <= all && Genuine(env, all, dest, job, h)
    ensures AllGenuine(env, all, dest, jobs + [job], hs + [h])
  {
    forall i | 0 <= i < |hs + [h]| ensures Genuine(env, all, dest, (jobs + [job])[i], (hs + [h])[i]) {
      if i < |hs| {
        assert Genuine(env, conns, dest, jobs[i], hs[i]);
        GenuineStays(env, conns, all, dest, jobs[i], hs[i]);
      }
    }
  }

  /** A record handled earlier and one handled now. */
  lemma TwoDiffer(env: Env, conns: seq<seq<byte>>, all: seq<seq<byte>>, dest: CString, i: Job, g: Handled, j: Job,
                  h: Handled)
    requires Genuine(env, conns, dest, i, g) && conns <= all && g.Resumed()
    requires Genuine(env, all, dest, j, h) && h.Resumed() && h.conn >= |conns|
    ensures g.conn < h.conn < |all| && CallOf(env, all, g.conn) != CallOf(env, all, h.conn)
  {
    GenuineStays(env, conns, all, dest, i, g);
    AnswerOnce(env, all, g.conn, h.conn);
  }

  lemma OneMoreDiffers(env: Env, conns: seq<seq<byte>>, all: seq<seq<byte>>, dest: CString,
                       jobs: seq<Job>, job: Job, hs: seq<Handled>, h: Handled)
    requires |hs| == |jobs| && AllGenuine(env, conns, dest, jobs, hs) && AllDifferent(env, conns, hs) && conns <= all
    requires Genuine(env, all, dest, job, h) && (h.Resumed() ==> h.conn >= |conns|)
    ensures AllDifferent(env, all, hs + [h])
  {
    var r := hs + [h];
    forall i, j | 0 <= i < j < |r| && r[i].Resumed() && r[j].Resumed()
      ensures r[i].conn < r[j].conn < |all| && CallOf(env, all, r[i].conn) != CallOf(env, all, r[j].conn)
    {
      assert Genuine(env, conns, dest, jobs[i], hs[i]);
      if j < |hs| {
        assert Genuine(env, conns, dest, jobs[j], hs[j]);
        GenuineStays(env, conns, all, dest, jobs[i], hs[i]);
        GenuineStays(env, conns, all, dest, jobs[j], hs[j]);
      } else {
        TwoDiffer(env, conns, all, dest, jobs[i], hs[i], job, h);
      }
    }
  }

  // ---------- any number of records ----------

  /** The targets of the records that are not too short. */
  function FullPids(jobs: seq<Job>): seq<F.Pid> {
    if jobs == [] then []
    else
      var e := jobs[|jobs| - 1].event;
      FullPids(jobs[..|jobs| - 1]) + (if e.len < F.EVENT_SIZE then [] else [e.pid])
  }

  function AllLines(hs: seq<Handled>): seq<F.Line> {
    if hs == [] then [] else AllLines(hs[..|hs| - 1]) + hs[|hs| - 1].lines
  }

  /** All that the agent heard: for each record in turn what was added for it. */
  ghost predicate Woven(dest: CString, conns: seq<seq<byte>>, jobs: seq<Job>, all: seq<seq<byte>>)
    decreases |jobs|
  {
    if jobs == [] then all == conns
    else
      var job := jobs[|jobs| - 1];
      var k := |all| - |job.before| - Own(dest, job);
      k >= 0 && Woven(dest, conns, jobs[..|jobs| - 1], all[..k]) && Added(dest, job, all[..k], all)
  }

  lemma WovenMore(dest: CString, conns: seq<seq<byte>>, jobs: seq<Job>, job: Job, all: seq<seq<byte>>,
                  more: seq<seq<byte>>)
    requires Woven(dest, conns, jobs, all) && Added(dest, job, all, more)
    ensures Woven(dest, conns, jobs + [job], more) && all <= more
  {
    assert all <= more[..|all| + |job.before|];
    assert more[..|all|] == all;
    Join(jobs, [job]);
  }

  /**
   How these records were handled: one line and one SIGCONT for each full one, in order; a
   genuine session for each line that says RESUMED; and no answer of the source for two.
   */
  ghost predicate Report(env: Env, conns: seq<seq<byte>>, dest: CString, jobs: seq<Job>,
                         lines: seq<F.Line>, conts: seq<F.Pid>, hs: seq<Handled>, all: seq<seq<byte>>) {
    && |hs| == |jobs| && lines == AllLines(hs) && Woven(dest, conns, jobs, all)
    && conts == FullPids(jobs) && F.LinePids(lines) == conts
    && AllGenuine(env, all, dest, jobs, hs) && AllDifferent(env, all, hs)
  }

  lemma OneMoreLine(jobs: seq<Job>, job: Job, hs: seq<Handled>, h: Handled, lines: seq<F.Line>)
    ensures FullPids(jobs + [job]) == FullPids(jobs) + (if job.event.len < F.EVENT_SIZE then [] else [job.event.pid])
    ensures AllLines(hs + [h]) == AllLines(hs) + h.lines
    ensures F.LinePids(lines + h.lines) == F.LinePids(lines) + F.LinePids(h.lines)
  {
    assert (jobs + [job])[..|jobs|] == jobs;
    assert (hs + [h])[..|hs|] == hs;
  }

  lemma ReportStart(env: Env, conns: seq<seq<byte>>, dest: CString, jobs: seq<Job>)
    ensures Report(env, conns, dest, jobs[..0], [], [], [], conns)
  {
    assert F.LinePids([]) == [];
  }

  lemma ReportGrows(env: Env, conns: seq<seq<byte>>, dest: CString, jobs: seq<Job>, job: Job,
                    lines: seq<F.Line>, conts: seq<F.Pid>, hs: seq<Handled>, h: Handled, c: seq<F.Pid>,
                    all: seq<seq<byte>>, more: seq<seq<byte>>)
    requires Report(env, conns, dest, jobs, lines, conts, hs, all) && Added(dest, job, all, more)
    requires Genuine(env, more, dest, job, h) && (h.Resumed() ==> h.conn >= |all|) && Told(job.event, h.lines, c)
    ensures Report(env, conns, dest, jobs + [job], lines + h.lines, conts + c, hs + [h], more)
  {
    WovenMore(dest, conns, jobs, job, all, more);
    OneMoreGenuine(env, all, more, dest, jobs, job, hs, h);
    OneMoreDiffers(env, all, more, dest, jobs, job, hs, h);
    OneMoreLine(jobs, job, hs, h, lines);
  }

  /** The logs of the records' targets. */
  ghost function Logs(jobs: seq<Job>): (r: seq<seq<Request>>)
    reads set i | 0 <= i < |jobs| :: jobs[i].target
    ensures |r| == |jobs| && forall i :: 0 <= i < |jobs| ==> r[i] == jobs[i].target.log
  {
    seq(|jobs|, i requires 0 <= i < |jobs| reads set j | 0 <= j < |jobs| :: jobs[j].target => jobs[i].target.log)
  }

  /** No log lost anything. */
  ghost predicate Grew(logs: seq<seq<Request>>, logs': seq<seq<Request>>) {
    |logs| == |logs'| && forall i :: 0 <= i < |logs| ==> logs[i] <= logs'[i]
  }

  /**
   The handling of each record is in its target's log, behind what that log held at first;
   records on the same target have separate parts of it.
   */
  ghost predicate Anchored(jobs: seq<Job>, hs: seq<Handled>, first: seq<seq<Request>>, logs: seq<seq<Request>>)
    requires |hs| <= |jobs| == |first| == |logs|
  {
    && (forall i :: 0 <= i < |hs| ==> |first[i]| <= hs[i].start && hs[i].log <= logs[i])
    && (forall i, j :: 0 <= i < j < |hs| && jobs[i].target == jobs[j].target ==> |hs[i].log| <= hs[j].start)
  }

  lemma AnchoredMore(jobs: seq<Job>, hs: seq<Handled>, h: Handled, first: seq<seq<Request>>, logs: seq<seq<Request>>,
                     logs': seq<seq<Request>>)
    requires |hs| < |jobs| == |first| == |logs| && Anchored(jobs, hs, first, logs) && Grew(first, logs)
             && Grew(logs, logs')
    requires forall i :: 0 <= i < |hs| && jobs[i].target == jobs[|hs|].target ==> logs[i] == logs[|hs|]
    requires h.start == |logs[|hs|]| && h.log <= logs'[|hs|]
    ensures Anchored(jobs, hs + [h], first, logs') && Grew(first, logs')
  {
    var r, n := hs + [h], |hs|;
    assert first[n] <= logs[n];
    forall i | 0 <= i < |r| ensures |first[i]| <= r[i].start && r[i].log <= logs'[i] {
      if i < n { assert hs[i].log <= logs[i] <= logs'[i]; }
    }
    forall i, j | 0 <= i < j < |r| && jobs[i].target == jobs[j].target ensures |r[i].log| <= r[j].start {
      if j == n { assert hs[i].log <= logs[i]; }
    }
  }

  /** One record more than those done. */
  method HandleNext(pool: P.Pool, dest: CString, ghost done: seq<Job>, job: Job, ghost conns: seq<seq<byte>>,
                    lines: seq<F.Line>, conts: seq<F.Pid>, ghost hs: seq<Handled>, ghost all: seq<seq<byte>>)
    returns (lines': seq<F.Line>, conts': seq<F.Pid>, ghost h: Handled, ghost all': seq<seq<byte>>)
    requires pool.Valid() && pool.model == After(pool.E(), INITIAL, all)
    requires job.target !in pool.cells
    requires Report(pool.E(), conns, dest, done, lines, conts, hs, all)
    modifies pool, pool.world, pool.cells, job.target
    ensures pool.Valid() && fresh(pool.cells - old(pool.cells)) && pool.model == After(pool.E(), INITIAL, all')
    ensures Report(pool.E(), conns, dest, done + [job], lines', conts', hs + [h], all')
    ensures old(job.target.log) <= job.target.log && h.start == |old(job.target.log)| && h.log <= job.target.log
  {
    var l, c;
    l, c, h, all' := Handle(pool, dest, job, all);
    lines', conts' := lines + l, conts + c;
    ReportGrows(pool.E(), conns, dest, done, job, lines, conts, hs, h, c, all, all');
  }

  /** Record i of them, with what becomes of the targets' logs. */
  method HandleAt(pool: P.Pool, dest: CString, jobs: seq<Job>, i: nat, ghost conns: seq<seq<byte>>,
                  lines: seq<F.Line>, conts: seq<F.Pid>, ghost hs: seq<Handled>, ghost all: seq<seq<byte>>,
                  ghost first: seq<seq<Request>>)
    returns (lines': seq<F.Line>, conts': seq<F.Pid>, ghost hs': seq<Handled>, ghost all': seq<seq<byte>>)
    requires pool.Valid() && pool.model == After(pool.E(), INITIAL, all)
    requires |hs| == i < |jobs| == |first| && forall j :: 0 <= j < |jobs| ==> jobs[j].target !in pool.cells
    requires Report(pool.E(), conns, dest, jobs[..i], lines, conts, hs, all)
    requires Anchored(jobs, hs, first, Logs(jobs)) && Grew(first, Logs(jobs))
    modifies pool, pool.world, pool.cells, jobs[i].target
    ensures pool.Valid() && fresh(pool.cells - old(pool.cells)) && pool.model == After(pool.E(), INITIAL, all')
    ensures |hs'| == i + 1 && Report(pool.E(), conns, dest, jobs[..i + 1], lines', conts', hs', all')
    ensures Anchored(jobs, hs', first, Logs(jobs)) && Grew(first, Logs(jobs))
  {
    ghost var logs := Logs(jobs);
    ghost var h;
    lines', conts', h, all' := HandleNext(pool, dest, jobs[..i], jobs[i], conns, lines, conts, hs, all);
    hs' := hs + [h];
    TakeNext(jobs, i);
    assert Grew(logs, Logs(jobs));
    AnchoredMore(jobs, hs, h, first, logs, Logs(jobs));
  }

  /**
   Any number of records, in any circumstances and with any other clients in between: each
   full one gets one line and one SIGCONT, in order; each reported as RESUMED installed in
   its target, by new requests in that target's log, a session that the source gave for the
   destination, unexpired when it was taken from the pool; and no session that the source
   gave was installed for two records. A failing call on either side, such as a read that
   times out, can lose a session but does not bring it back.
   */
  method HandleAll(pool: P.Pool, dest: CString, jobs: seq<Job>, ghost conns: seq<seq<byte>>)
    returns (lines: seq<F.Line>, conts: seq<F.Pid>, ghost hs: seq<Handled>, ghost all: seq<seq<byte>>)
    requires pool.Valid() && pool.model == After(pool.E(), INITIAL, conns)
    requires forall i :: 0 <= i < |jobs| ==> jobs[i].target !in pool.cells
    modifies pool, pool.world, pool.cells, set i | 0 <= i < |jobs| :: jobs[i].target
    ensures pool.Valid() && pool.model == After(pool.E(), INITIAL, all)
    ensures Report(pool.E(), conns, dest, jobs, lines, conts, hs, all)
    ensures Anchored(jobs, hs, old(Logs(jobs)), Logs(jobs))
  {
    lines, conts, hs, all := HandleEach(pool, dest, jobs, conns, set i | 0 <= i < |jobs| :: jobs[i].target);
  }

  /** The loop of it; targets are those of the records. */
  method HandleEach(pool: P.Pool, dest: CString, jobs: seq<Job>, ghost conns: seq<seq<byte>>,
                    ghost targets: set<Tracee>)
    returns (lines: seq<F.Line>, conts: seq<F.Pid>, ghost hs: seq<Handled>, ghost all: seq<seq<byte>>)
    requires pool.Valid() && pool.model == After(pool.E(), INITIAL, conns)
    requires forall i :: 0 <= i < |jobs| ==> jobs[i].target in targets && jobs[i].target !in pool.cells
    modifies pool, pool.world, pool.cells, targets
    ensures pool.Valid() && pool.model == After(pool.E(), INITIAL, all)
    ensures Report(pool.E(), conns, dest, jobs, lines, conts, hs, all)
    ensures Anchored(jobs, hs, old(Logs(jobs)), Logs(jobs))
  {
    lines, conts, hs, all := [], [], [], conns;
    ghost var first := Logs(jobs);
    ReportStart(pool.E(), conns, dest, jobs);
    TakeAll(jobs);
    for i := 0 to |jobs|
      invariant pool.Valid() && pool.model == After(pool.E(), INITIAL, all) && fresh(pool.cells - old(pool.cells))
      invariant |hs| == i && Report(pool.E(), conns, dest, jobs[..i], lines, conts, hs, all)
      invariant Anchored(jobs, hs, first, Logs(jobs)) && Grew(first, Logs(jobs))
    {
      lines, conts, hs, all := HandleAt(pool, dest, jobs, i, conns, lines, conts, hs, all, first);
    }
  }
}

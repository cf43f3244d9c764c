/**
 Freezing and releasing targets. The uprobe submits an event and only then sends SIGSTOP,
 which takes effect later still; the injector takes events from the ring in order, asks
 the agent, installs, writes one line and sends SIGCONT. Steps of the two sides interleave
 freely. Two things can go wrong with a stop: SIGCONT can come before it is sent, and an
 install can swallow it, because remote_call resumes its target without the signals that
 stop it. Targets are single-threaded: a stopped target does not reach the probe again.
 */
module Freeze {
  import opened Bytes
  import opened Words

  type Pid = nat

  const COMM_LEN := 16
  const EVENT_SIZE := 16

  // ---------- the excluded process ----------

  /** The name equals the configured one, and one is configured. */
  predicate Excluded(exclude: seq<byte>, comm: seq<byte>) {
    CStr(exclude) != [] && CStr(comm) == CStr(exclude)
  }

  /** The first i bytes are the same, and none is the terminator. */
  ghost predicate Agree(a: seq<byte>, b: seq<byte>, i: nat) {
    i <= |a| && i <= |b| && a[..i] == b[..i] && forall j :: 0 <= j < i ==> a[j] != 0 && b[j] != 0
  }

  /** What the byte at i decides, once all before it agree. */
  lemma ScanStep(a: seq<byte>, b: seq<byte>, i: nat)
    requires i < |a| && i < |b| && Agree(a, b, i)
    ensures a[i] == b[i] != 0 ==> Agree(a, b, i + 1)
    ensures a[i] == 0 ==> (CStr(a) == CStr(b) <==> b[i] == 0)
    ensures a[i] != 0 && b[i] != a[i] ==> CStr(a) != CStr(b)
  {
    CStrReaches(a, i);
    CStrReaches(b, i);
    var x, y := CStr(a), CStr(b);
    if a[i] == 0 && b[i] == 0 {
      assert x == x[..i] && y == y[..i];
    } else if a[i] != 0 && b[i] != 0 && a[i] != b[i] {
      assert x[i] != y[i];
    }
  }

  lemma CStrReaches(a: seq<byte>, i: nat)
    requires i < |a| && forall j :: 0 <= j < i ==> a[j] != 0
    ensures var x := CStr(a);
            && |x| >= i && x[..i] == a[..i]
            && (a[i] == 0 ==> |x| == i)
            && (a[i] != 0 ==> |x| > i && x[i] == a[i])
  {
  }

  /** The byte-by-byte comparison of the probe decides exactly that. */
  method ExcludedScan(exclude: seq<byte>, comm: seq<byte>) returns (r: bool)
    requires |exclude| == 16 && |comm| == 16
    ensures r == Excluded(exclude, comm)
  {
    if exclude[0] == 0 { return false; }
    assert CStr(exclude) != [];
    for i := 0 to COMM_LEN
      invariant Agree(exclude, comm, i)
    {
      ScanStep(exclude, comm, i);
      if exclude[i] == 0 { return comm[i] == 0; }
      if comm[i] != exclude[i] { return false; }
    }
    assert exclude[..COMM_LEN] == exclude && comm[..COMM_LEN] == comm;
    return true;
  }

  /** Of two names in their buffers, the process is excluded exactly when one is configured and it is the same. */
  lemma ExcludedMeans(name: CString, tail: seq<byte>, comm: CString, rest: seq<byte>)
    ensures Excluded(name + [0] + tail, comm + [0] + rest) <==> name != [] && name == comm
  {
    CStrOfCString(name, tail);
    CStrOfCString(comm, rest);
  }

  // ---------- the system ----------

  datatype Event = Event(pid: Pid, ssl: word, len: nat)

  /** Submitted: the event is in the ring, SIGSTOP is not sent yet. Queued: it is sent, and has not taken effect. */
  datatype Phase = Running | Submitted | Queued | Frozen

  datatype Outcome = Resumed | InstallFailed | Miss

  /** Where the injector is with the event it took. */
  datatype Stage = Taken | Decided(outcome: Outcome) | Reported

  datatype Line = Line(pid: Pid, outcome: Outcome)

  datatype State = State(
    targets: map<Pid, Phase>,                // a target that is absent is running
    ring: seq<Event>,
    current: Option<(Event, Stage)>,         // what on_event is working on
    submitted: seq<Event>, done: seq<Event>, // history: all events, and those handled to the end
    lines: seq<Line>, conts: seq<Pid>)       // log lines written, SIGCONTs sent

  const START := State(map[], [], None, [], [], [], [])

  /** The loaded program's configuration, and every process's name. */
  datatype Config = Config(freeze: bool, exclude: seq<byte>, comm: Pid -> seq<byte>)

  function PhaseOf(s: State, pid: Pid): Phase {
    if pid in s.targets then s.targets[pid] else Running
  }

  /** What the injector learns and does about an event: an install may swallow a stop that has not taken effect. */
  datatype Handling = Handling(outcome: Outcome, swallow: bool)

  datatype Step =
    | Probe(pid: Pid, ssl: word, reserved: bool) // on_ssl_connect up to the submit
    | Signal(pid: Pid)                          // its SIGSTOP
    | Stop(pid: Pid)                            // the SIGSTOP takes effect
    | Take                                      // the ring hands the oldest event to on_event
    | Decide(how: Handling)                     // uds_get and, on OK, inject_session
    | Report                                    // the outcome line
    | Release                                   // SIGCONT

  predicate Enabled(s: State, step: Step) {
    match step
    case Probe(pid, _, _) => PhaseOf(s, pid) == Running
    case Signal(pid) => PhaseOf(s, pid) == Submitted
    case Stop(pid) => PhaseOf(s, pid) == Queued
    case Take => s.current.None? && s.ring != []
    case Decide(_) => s.current.Some? && s.current.value.1 == Taken
    case Report => s.current.Some? && s.current.value.1.Decided?
    case Release => s.current.Some? && s.current.value.1 == Reported
  }

  /** The install finds the target with its stop still queued, and resumes it without the signal. */
  predicate Swallows(s: State, step: Step)
    requires Enabled(s, step)
  {
    step.Decide? && step.how.swallow && step.how.outcome != Miss && PhaseOf(s, s.current.value.0.pid) == Queued
  }

  /** SIGCONT resumes a stopped target and discards a queued SIGSTOP; it does nothing about one still to be sent. */
  function Continued(p: Phase): Phase { if p == Submitted then Submitted else Running }

  function Next(c: Config, s: State, step: Step): State
    requires Enabled(s, step)
  {
    match step
    case Probe(pid, ssl, reserved) =>
      if Excluded(c.exclude, c.comm(pid)) || !reserved then s
      else
        var e := Event(pid, ssl, EVENT_SIZE);
        s.(ring := s.ring + [e], submitted := s.submitted + [e],
           targets := s.targets[pid := if c.freeze then Submitted else Running])
    case Signal(pid) => s.(targets := s.targets[pid := Queued])
    case Stop(pid) => s.(targets := s.targets[pid := Frozen])
    case Take =>
      var e := s.ring[0];
      if e.len < EVENT_SIZE then s.(ring := s.ring[1..], done := s.done + [e])
      else s.(ring := s.ring[1..], current := Some((e, Taken)))
    case Decide(how) =>
      var e := s.current.value.0;
      s.(current := Some((e, Decided(how.outcome))),
         targets := if Swallows(s, step) then s.targets[e.pid := Running] else s.targets)
    case Report =>
      var (e, d) := s.current.value;
      s.(lines := s.lines + [Line(e.pid, d.outcome)], current := Some((e, Reported)))
    case Release =>
      var e := s.current.value.0;
      s.(current := None, done := s.done + [e], conts := s.conts + [e.pid],
         targets := s.targets[e.pid := Continued(PhaseOf(s, e.pid))])
  }

  // ---------- order and exclusion ----------

  function CountPid(es: seq<Event>, pid: Pid): nat {
    if es == [] then 0 else (if es[0].pid == pid then 1 else 0) + CountPid(es[1..], pid)
  }

  lemma {:induction false} CountPidAppend(es: seq<Event>, e: Event, pid: Pid)
    ensures CountPid(es + [e], pid) == CountPid(es, pid) + if e.pid == pid then 1 else 0
  {
    if es == [] {
      assert [] + [e] == [e] && [e][1..] == [];
    } else {
      assert (es + [e])[1..] == es[1..] + [e];
      CountPidAppend(es[1..], e, pid);
    }
  }

  function InHand(s: State): seq<Event> {
    if s.current.Some? then [s.current.value.0] else []
  }

  /** Events are handled in the order they were submitted, each with one line and one SIGCONT. */
  ghost predicate Ordered(s: State) {
    && s.submitted == s.done + InHand(s) + s.ring
    && s.conts == Pids(s.done)
    && LinePids(s.lines) == s.conts
       + (if s.current.Some? && s.current.value.1 == Reported then [s.current.value.0.pid] else [])
    && FullSize(s.ring) && FullSize(InHand(s))
  }

  function Pids(es: seq<Event>): seq<Pid> { seq(|es|, i requires 0 <= i < |es| => es[i].pid) }
  function LinePids(ls: seq<Line>): seq<Pid> { seq(|ls|, i requires 0 <= i < |ls| => ls[i].pid) }

  ghost predicate FullSize(es: seq<Event>) {
    forall i :: 0 <= i < |es| ==> es[i].len == EVENT_SIZE
  }

  /** A process the probe excludes is never stopped. */
  ghost predicate Spared(c: Config, s: State) {
    forall pid :: pid in s.targets && s.targets[pid] != Running ==> !Excluded(c.exclude, c.comm(pid))
  }

  ghost predicate Inv(c: Config, s: State) {
    Ordered(s) && Spared(c, s)
  }

  lemma StepOrdered(c: Config, s: State, step: Step)
    requires Enabled(s, step) && Ordered(s)
    ensures Ordered(Next(c, s, step))
  {
    var r := Next(c, s, step);
    match step
    case Probe(p, ssl, reserved) =>
      assert r.submitted == s.done + InHand(s) + r.ring;
    case Signal(p) =>
    case Stop(p) =>
    case Take =>
      assert s.ring[0].len == EVENT_SIZE;
      assert s.ring == [s.ring[0]] + r.ring;
      assert r.submitted == r.done + InHand(r) + r.ring;
    case Decide(how) =>
    case Report =>
      assert LinePids(r.lines) == LinePids(s.lines) + [s.current.value.0.pid];
    case Release =>
      assert Pids(r.done) == Pids(s.done) + [s.current.value.0.pid];
      assert r.submitted == r.done + InHand(r) + r.ring;
  }

  lemma StepKeeps(c: Config, s: State, step: Step)
    requires Inv(c, s) && Enabled(s, step)
    ensures Inv(c, Next(c, s, step))
  {
    StepOrdered(c, s, step);
  }

  /** A run: every step is enabled where it is taken. */
  ghost predicate Run(c: Config, s: State, steps: seq<Step>)
    decreases |steps|
  {
    steps == [] || (Enabled(s, steps[0]) && Run(c, Next(c, s, steps[0]), steps[1..]))
  }

  function End(c: Config, s: State, steps: seq<Step>): State
    requires Run(c, s, steps)
    decreases |steps|
  {
    if steps == [] then s else End(c, Next(c, s, steps[0]), steps[1..])
  }

  lemma {:induction false} RunKeeps(c: Config, s: State, steps: seq<Step>)
    requires Inv(c, s) && Run(c, s, steps)
    ensures Inv(c, End(c, s, steps))
    decreases |steps|
  {
    if steps != [] {
      StepKeeps(c, s, steps[0]);
      RunKeeps(c, Next(c, s, steps[0]), steps[1..]);
    }
  }

  lemma StartInv(c: Config)
    ensures Inv(c, START) && AllHeld(START) && NoneStranded(START)
  {
    assert Pids([]) == [] && LinePids([]) == [];
  }

  /** Deciding on an event touches nobody but its target, and that only if an install ran while its stop was queued. */
  lemma DecideTouches(c: Config, s: State, how: Handling, pid: Pid)
    requires Enabled(s, Decide(how))
    ensures PhaseOf(Next(c, s, Decide(how)), pid) ==
            if && PhaseOf(s, pid) == Queued && pid == s.current.value.0.pid
               && how.swallow && how.outcome in {Resumed, InstallFailed}
            then Running else PhaseOf(s, pid)
  {
  }

  // ---------- what is submitted, and what is reported ----------

  /** The events of the probes in these steps: of those that are not excluded and get a record. */
  ghost function Submissions(c: Config, steps: seq<Step>): seq<Event>
    decreases |steps|
  {
    if steps == [] then []
    else
      (match steps[0]
       case Probe(pid, ssl, reserved) =>
         if reserved && !Excluded(c.exclude, c.comm(pid)) then [Event(pid, ssl, 16)] else []
       case _ => [])
      + Submissions(c, steps[1..])
  }

  /** Each carries the pid that was probed and the SSL object it was about to connect, and nothing else is submitted. */
  lemma {:induction false} RunSubmits(c: Config, s: State, steps: seq<Step>)
    requires Run(c, s, steps)
    ensures End(c, s, steps).submitted == s.submitted + Submissions(c, steps)
    decreases |steps|
  {
    if steps != [] {
      var n := Next(c, s, steps[0]);
      RunSubmits(c, n, steps[1..]);
      Assoc(s.submitted, n.submitted[|s.submitted|..], Submissions(c, steps[1..]));
    }
  }

  function Outcomes(ls: seq<Line>): seq<Outcome> { seq(|ls|, i requires 0 <= i < |ls| => ls[i].outcome) }

  /** The outcomes decided in these steps, and the one that is decided and not yet written. */
  ghost function Decisions(steps: seq<Step>): seq<Outcome>
    decreases |steps|
  {
    if steps == [] then [] else (if steps[0].Decide? then [steps[0].how.outcome] else []) + Decisions(steps[1..])
  }

  function Undisclosed(s: State): seq<Outcome> {
    if s.current.Some? && s.current.value.1.Decided? then [s.current.value.1.outcome] else []
  }

  /** The lines report what was decided, one for one and in order. */
  lemma {:induction false} RunReports(c: Config, s: State, steps: seq<Step>)
    requires Run(c, s, steps)
    ensures var r := End(c, s, steps);
            Outcomes(r.lines) + Undisclosed(r) == Outcomes(s.lines) + Undisclosed(s) + Decisions(steps)
    decreases |steps|
  {
    if steps != [] {
      var n := Next(c, s, steps[0]);
      var d := if steps[0].Decide? then [steps[0].how.outcome] else [];
      assert Outcomes(n.lines) + Undisclosed(n) == Outcomes(s.lines) + Undisclosed(s) + d;
      RunReports(c, n, steps[1..]);
      Assoc(Outcomes(s.lines) + Undisclosed(s), d, Decisions(steps[1..]));
    }
  }

  /** Loaded without freezing, the probe stops nobody. */
  lemma {:induction false} DetectionOnly(c: Config, s: State, steps: seq<Step>)
    requires !c.freeze && Run(c, s, steps) && (forall pid: Pid :: PhaseOf(s, pid) == Running)
    ensures forall pid: Pid :: PhaseOf(End(c, s, steps), pid) == Running
    decreases |steps|
  {
    if steps != [] {
      var n := Next(c, s, steps[0]);
      assert steps[0].Probe? || steps[0].Signal? || steps[0].Stop? ==> PhaseOf(s, steps[0].pid) == Running;
      forall pid: Pid ensures PhaseOf(n, pid) == Running {
        assert PhaseOf(s, pid) == Running;
      }
      DetectionOnly(c, n, steps[1..]);
    }
  }

  // ---------- stops and events balance ----------

  /** Events for pid that are submitted and not fully handled. */
  function Pending(s: State, pid: Pid): nat {
    CountPid(s.ring, pid) + if s.current.Some? && s.current.value.0.pid == pid then 1 else 0
  }

  /** 1 while the target is stopped or its stop is on the way. */
  function Held(s: State, pid: Pid): nat { if PhaseOf(s, pid) == Running then 0 else 1 }

  /** The step swallows pid's stop. */
  function SwallowedBy(s: State, step: Step, pid: Pid): nat
    requires Enabled(s, step)
  {
    if Swallows(s, step) && s.current.value.0.pid == pid then 1 else 0
  }

  /** The step is a SIGCONT for pid that undoes no stop: it finds the target running, or its stop not sent yet. */
  function SpentBy(s: State, step: Step, pid: Pid): nat
    requires Enabled(s, step)
  {
    if step == Release && s.current.value.0.pid == pid && PhaseOf(s, pid) in {Running, Submitted} then 1 else 0
  }

  /** How many of pid's stops a run swallows, and how many of its SIGCONTs undo none. */
  ghost function Swallowed(c: Config, s: State, steps: seq<Step>, pid: Pid): nat
    requires Run(c, s, steps)
    decreases |steps|
  {
    if steps == [] then 0 else SwallowedBy(s, steps[0], pid) + Swallowed(c, Next(c, s, steps[0]), steps[1..], pid)
  }

  ghost function Spent(c: Config, s: State, steps: seq<Step>, pid: Pid): nat
    requires Run(c, s, steps)
    decreases |steps|
  {
    if steps == [] then 0 else SpentBy(s, steps[0], pid) + Spent(c, Next(c, s, steps[0]), steps[1..], pid)
  }

  /**
   Each step changes pending events and held targets in the same measure, but for swallowed
   stops and spent SIGCONTs.
   */
  lemma StepBalances(c: Config, s: State, step: Step, pid: Pid)
    requires c.freeze && Enabled(s, step) && Ordered(s)
    ensures var r := Next(c, s, step);
            Pending(r, pid) + SpentBy(s, step, pid) + Held(s, pid)
            == Pending(s, pid) + SwallowedBy(s, step, pid) + Held(r, pid)
  {
    match step
    case Probe(p, ssl, reserved) => CountPidAppend(s.ring, Event(p, ssl, EVENT_SIZE), pid);
    case Signal(p) =>
    case Stop(p) =>
    case Take => assert s.ring[0].len == EVENT_SIZE;
    case Decide(how) =>
    case Report =>
    case Release =>
  }

  lemma {:induction false} RunBalances(c: Config, s: State, steps: seq<Step>, pid: Pid)
    requires c.freeze && Run(c, s, steps) && Inv(c, s)
    ensures var r := End(c, s, steps);
            Pending(r, pid) + Spent(c, s, steps, pid) + Held(s, pid)
            == Pending(s, pid) + Swallowed(c, s, steps, pid) + Held(r, pid)
    decreases |steps|
  {
    if steps != [] {
      StepBalances(c, s, steps[0], pid);
      StepKeeps(c, s, steps[0]);
      RunBalances(c, Next(c, s, steps[0]), steps[1..], pid);
    }
  }

  /** Stopped, or about to be, with nothing pending that would release it. */
  ghost predicate Stranded(s: State, pid: Pid) {
    PhaseOf(s, pid) != Running && Pending(s, pid) == 0
  }

  /**
   Freeze safety over every run, for every target: pending events and SIGCONTs that undid
   no stop add up to stops in force and stops that were swallowed. So a target is held
   exactly while one event of its own is pending if and only if the two failures balance;
   it is stranded exactly when one SIGCONT more was spent than stops were swallowed; and at
   most one event is pending beyond the swallowed stops. Every event that left the ring
   gave one line and one SIGCONT, in order; a process the probe excludes is running.
   */
  lemma FreezeSafety(c: Config, steps: seq<Step>, pid: Pid)
    requires c.freeze && Run(c, START, steps)
    ensures var s := End(c, START, steps);
            var spent, swallowed := Spent(c, START, steps, pid), Swallowed(c, START, steps, pid);
            && Inv(c, s)
            && Pending(s, pid) + spent == Held(s, pid) + swallowed
            && (Held(s, pid) == Pending(s, pid) <==> spent == swallowed)
            && (Stranded(s, pid) <==> spent == swallowed + 1)
            && Pending(s, pid) <= 1 + swallowed
            && (Excluded(c.exclude, c.comm(pid)) ==> PhaseOf(s, pid) == Running)
  {
    StartInv(c);
    RunKeeps(c, START, steps);
    RunBalances(c, START, steps, pid);
  }

  // ---------- held throughout, exactly ----------

  /** Every target is held exactly while one event of its own is pending. */
  ghost predicate AllHeld(s: State) {
    forall pid: Pid :: Held(s, pid) == Pending(s, pid)
  }

  ghost predicate HeldThroughout(c: Config, s: State, steps: seq<Step>)
    requires Run(c, s, steps)
    decreases |steps|
  {
    AllHeld(s) && (steps != [] ==> HeldThroughout(c, Next(c, s, steps[0]), steps[1..]))
  }

  /** The step swallows a stop, or sends SIGCONT to a target whose stop is not sent yet. */
  predicate Disturbs(s: State, step: Step)
    requires Enabled(s, step)
  {
    Swallows(s, step) || (step == Release && PhaseOf(s, s.current.value.0.pid) == Submitted)
  }

  ghost predicate Undisturbed(c: Config, s: State, steps: seq<Step>)
    requires Run(c, s, steps)
    decreases |steps|
  {
    steps == [] || (!Disturbs(s, steps[0]) && Undisturbed(c, Next(c, s, steps[0]), steps[1..]))
  }

  lemma StepHeld(c: Config, s: State, step: Step)
    requires c.freeze && Enabled(s, step) && Ordered(s) && AllHeld(s)
    ensures AllHeld(Next(c, s, step)) <==> !Disturbs(s, step)
  {
    var r := Next(c, s, step);
    forall pid: Pid ensures Held(r, pid) - Pending(r, pid) == SpentBy(s, step, pid) - SwallowedBy(s, step, pid) {
      assert Held(s, pid) == Pending(s, pid);
      StepBalances(c, s, step, pid);
    }
    if s.current.Some? {
      var p := s.current.value.0.pid;
      assert Pending(s, p) >= 1 && Held(s, p) == Pending(s, p);
      if Disturbs(s, step) { assert Held(r, p) != Pending(r, p); }
    }
  }

  /**
   The promise of the freeze, exactly: at every moment of a run every target is held just
   while one event of its own is pending, if and only if no install swallows a stop and no
   SIGCONT is sent before the stop it is meant to undo.
   */
  lemma {:induction false} HeldExactly(c: Config, s: State, steps: seq<Step>)
    requires c.freeze && Run(c, s, steps) && Inv(c, s) && AllHeld(s)
    ensures HeldThroughout(c, s, steps) <==> Undisturbed(c, s, steps)
    decreases |steps|
  {
    if steps != [] {
      var n := Next(c, s, steps[0]);
      StepHeld(c, s, steps[0]);
      StepKeeps(c, s, steps[0]);
      if AllHeld(n) { HeldExactly(c, n, steps[1..]); }
    }
  }

  // ---------- released, exactly ----------

  /** SIGCONT for the only pending event of a target, sent before its SIGSTOP. */
  predicate Strands(s: State, step: Step)
    requires Enabled(s, step)
  {
    && step == Release
    && var pid := s.current.value.0.pid;
    && PhaseOf(s, pid) == Submitted && CountPid(s.ring, pid) == 0
  }

  ghost predicate NeverStrands(c: Config, s: State, steps: seq<Step>)
    requires Run(c, s, steps)
    decreases |steps|
  {
    steps == [] || (!Strands(s, steps[0]) && NeverStrands(c, Next(c, s, steps[0]), steps[1..]))
  }

  ghost predicate NoneStranded(s: State) {
    forall pid: Pid :: !Stranded(s, pid)
  }

  lemma StrandedStep(c: Config, s: State, step: Step, pid: Pid)
    requires c.freeze && Enabled(s, step) && Ordered(s)
    ensures Stranded(s, pid) ==> Stranded(Next(c, s, step), pid)
    ensures Strands(s, step) ==> Stranded(Next(c, s, step), s.current.value.0.pid)
    ensures !Stranded(s, pid) && Stranded(Next(c, s, step), pid) ==> Strands(s, step)
  {
    match step
    case Probe(p, ssl, reserved) => CountPidAppend(s.ring, Event(p, ssl, EVENT_SIZE), pid);
    case Signal(p) =>
    case Stop(p) =>
    case Take => assert s.ring[0].len == EVENT_SIZE;
    case Decide(how) =>
    case Report =>
    case Release =>
  }

  lemma {:induction false} StrandedStays(c: Config, s: State, steps: seq<Step>, pid: Pid)
    requires c.freeze && Run(c, s, steps) && Inv(c, s) && Stranded(s, pid)
    ensures Stranded(End(c, s, steps), pid)
    decreases |steps|
  {
    if steps != [] {
      StrandedStep(c, s, steps[0], pid);
      StepKeeps(c, s, steps[0]);
      StrandedStays(c, Next(c, s, steps[0]), steps[1..], pid);
    }
  }

  /**
   The promise that the thread is always released, exactly: a run leaves no target stopped
   with nothing pending, if and only if it never sends SIGCONT for the only pending event
   of a target whose SIGSTOP is still to be sent. A target so stranded stays stranded.
   */
  lemma {:induction false} ReleasedExactly(c: Config, s: State, steps: seq<Step>)
    requires c.freeze && Run(c, s, steps) && Inv(c, s) && NoneStranded(s)
    ensures NoneStranded(End(c, s, steps)) <==> NeverStrands(c, s, steps)
    decreases |steps|
  {
    if steps != [] {
      var n := Next(c, s, steps[0]);
      StepKeeps(c, s, steps[0]);
      forall pid: Pid ensures Stranded(n, pid) ==> Strands(s, steps[0]) { StrandedStep(c, s, steps[0], pid); }
      if Strands(s, steps[0]) {
        var pid := s.current.value.0.pid;
        StrandedStep(c, s, steps[0], pid);
        StrandedStays(c, n, steps[1..], pid);
      } else {
        ReleasedExactly(c, n, steps[1..]);
      }
    }
  }

  // ---------- the two failures ----------

  lemma RunFirst(c: Config, s: State, step: Step, rest: seq<Step>)
    requires Enabled(s, step) && Run(c, Next(c, s, step), rest)
    ensures Run(c, s, [step] + rest) && End(c, s, [step] + rest) == End(c, Next(c, s, step), rest)
  {
    assert ([step] + rest)[1..] == rest;
  }

  /** A run that strands a target: the whole handling of its event fits between submit and SIGSTOP. */
  lemma RaceStrands(comm: Pid -> seq<byte>) returns (steps: seq<Step>)
    ensures var c := Config(true, [], comm);
            && Run(c, START, steps)
            && PhaseOf(End(c, START, steps), 1) == Frozen && Stranded(End(c, START, steps), 1)
  {
    var c := Config(true, [], comm);
    var miss := Decide(Handling(Miss, false));
    var s1 := Next(c, START, Probe(1, 0, true));
    assert s1.ring == [Event(1, 0, EVENT_SIZE)];
    var s2 := Next(c, s1, Take);
    steps := StopComesLate(c, Next(c, s2, miss));
    RunFirst(c, s2, miss, steps);
    steps := [miss] + steps;
    RunFirst(c, s1, Take, steps);
    steps := [Take] + steps;
    RunFirst(c, START, Probe(1, 0, true), steps);
    steps := [Probe(1, 0, true)] + steps;
  }

  /** The rest of the handling, with SIGSTOP still to be sent. */
  lemma StopComesLate(c: Config, s: State) returns (steps: seq<Step>)
    requires s.ring == [] && s.current.Some? && s.current.value.0.pid == 1 && s.current.value.1.Decided?
             && PhaseOf(s, 1) == Submitted
    ensures Run(c, s, steps) && PhaseOf(End(c, s, steps), 1) == Frozen && Stranded(End(c, s, steps), 1)
  {
    var s4 := Next(c, s, Report);
    var s5 := Next(c, s4, Release);
    var s6 := Next(c, s5, Signal(1));
    steps := [];
    RunFirst(c, s6, Stop(1), steps);
    steps := [Stop(1)] + steps;
    RunFirst(c, s5, Signal(1), steps);
    steps := [Signal(1)] + steps;
    RunFirst(c, s4, Release, steps);
    steps := [Release] + steps;
    RunFirst(c, s, Report, steps);
    steps := [Report] + steps;
  }

  /** After a swallowed stop: the target submits again, and the SIGCONT for its first event discards its second stop. */
  lemma SecondStopLost(c: Config, s: State) returns (steps: seq<Step>)
    requires c.freeze && c.exclude == [] && s.ring == []
    requires s.current.Some? && s.current.value.0.pid == 1 && s.current.value.1.Decided? && PhaseOf(s, 1) == Running
    ensures Run(c, s, steps) && PhaseOf(End(c, s, steps), 1) == Running && Pending(End(c, s, steps), 1) == 1
  {
    var s5 := Next(c, s, Probe(1, 0, true));
    assert s5.ring == [Event(1, 0, EVENT_SIZE)];
    var s6 := Next(c, s5, Signal(1));
    var s7 := Next(c, s6, Report);
    var s8 := Next(c, s7, Release);
    assert s8.ring == s5.ring && PhaseOf(s8, 1) == Running;
    assert CountPid([Event(1, 0, EVENT_SIZE)], 1) == 1;
    steps := [];
    RunFirst(c, s7, Release, steps);
    steps := [Release] + steps;
    RunFirst(c, s6, Report, steps);
    steps := [Report] + steps;
    RunFirst(c, s5, Signal(1), steps);
    steps := [Signal(1)] + steps;
    RunFirst(c, s, Probe(1, 0, true), steps);
    steps := [Probe(1, 0, true)] + steps;
  }

  /**
   A swallowed stop: the target runs on with its event still being handled, submits a
   second one, and ends up running with that one pending.
   */
  lemma SwallowFrees(comm: Pid -> seq<byte>) returns (steps: seq<Step>)
    ensures var c := Config(true, [], comm);
            && Run(c, START, steps) && Swallowed(c, START, steps, 1) >= 1
            && PhaseOf(End(c, START, steps), 1) == Running && Pending(End(c, START, steps), 1) == 1
  {
    var c := Config(true, [], comm);
    var swallow := Decide(Handling(Resumed, true));
    var s1 := Next(c, START, Probe(1, 0, true));
    assert s1.ring == [Event(1, 0, EVENT_SIZE)];
    var s2 := Next(c, s1, Signal(1));
    var s3 := Next(c, s2, Take);
    steps := SecondStopLost(c, Next(c, s3, swallow));
    RunFirst(c, s3, swallow, steps);
    steps := [swallow] + steps;
    RunFirst(c, s2, Take, steps);
    steps := [Take] + steps;
    RunFirst(c, s1, Signal(1), steps);
    steps := [Signal(1)] + steps;
    RunFirst(c, START, Probe(1, 0, true), steps);
    steps := [Probe(1, 0, true)] + steps;
    FreezeSafety(c, steps, 1);
  }

  /** The probe is atomic: while a target is between submit and stop, nothing but its signal and its stop happen. */
  ghost predicate AtomicProbes(c: Config, s: State, steps: seq<Step>)
    requires Run(c, s, steps)
    decreases |steps|
  {
    steps == [] ||
    (((exists pid :: pid in s.targets && s.targets[pid] in {Submitted, Queued}) ==> steps[0].Signal? || steps[0].Stop?)
     && AtomicProbes(c, Next(c, s, steps[0]), steps[1..]))
  }

  /** Atomic probes rule out both failures, so then every target is held while it should be, and never stranded. */
  lemma {:induction false} AtomicUndisturbed(c: Config, s: State, steps: seq<Step>)
    requires Run(c, s, steps) && AtomicProbes(c, s, steps)
    ensures Undisturbed(c, s, steps) && NeverStrands(c, s, steps)
    decreases |steps|
  {
    if steps != [] {
      AtomicUndisturbed(c, Next(c, s, steps[0]), steps[1..]);
    }
  }

  // ---------- release is bounded ----------

  /** The injector's steps that are due before it is idle. */
  function Due(s: State): nat {
    4 * |s.ring| + match s.current
                   case None => 0
                   case Some(p) => (match p.1 case Taken => 3 case Decided(_) => 2 case Reported => 1)
  }

  /** The injector's next step; how an event is handled is what agent and target make it. */
  function DueStep(s: State, how: Handling): Step
    requires Due(s) > 0
  {
    match s.current
    case None => Take
    case Some(p) => (match p.1 case Taken => Decide(how) case Decided(_) => Report case Reported => Release)
  }

  /** It is never blocked, and each step leaves one fewer to do. */
  lemma DueStepProgress(c: Config, s: State, how: Handling)
    requires Due(s) > 0 && Ordered(s)
    ensures Enabled(s, DueStep(s, how)) && Due(Next(c, s, DueStep(s, how))) == Due(s) - 1
  {
  }

  /** The state after the injector has done all that is due. */
  ghost function Drain(c: Config, s: State, how: nat -> Handling): State
    requires Inv(c, s)
    decreases Due(s)
  {
    if Due(s) == 0 then s
    else
      var step := DueStep(s, how(Due(s)));
      DueStepProgress(c, s, how(Due(s)));
      StepKeeps(c, s, step);
      Drain(c, Next(c, s, step), how)
  }

  /** One due step: a target with something pending whose stop was sent either keeps both, or runs. */
  lemma DueStepPhase(c: Config, s: State, how: Handling, pid: Pid)
    requires Due(s) > 0 && Ordered(s)
    ensures Enabled(s, DueStep(s, how))
    ensures var r := Next(c, s, DueStep(s, how));
            var before, after := PhaseOf(s, pid), PhaseOf(r, pid);
            && (Pending(s, pid) == 0 ==> after == before && Pending(r, pid) == 0)
            && (before in {Running, Submitted} ==> after == before)
            && (Pending(s, pid) > 0 && before in {Queued, Frozen} ==>
                 after == Running || (after == before && Pending(r, pid) > 0))
  {
    if DueStep(s, how) == Take { assert s.ring[0].len == EVENT_SIZE; }
  }

  /**
   Release: however the events are handled, after exactly Due(s) steps of its own the
   injector is idle and has written one line and sent one SIGCONT for each event ever
   submitted, in order. A target that had something pending and whose SIGSTOP had been sent
   is then running; any other is where it was.
   */
  lemma {:induction false} DrainReleases(c: Config, s: State, how: nat -> Handling, pid: Pid)
    requires Inv(c, s)
    ensures var r := Drain(c, s, how);
            && Inv(c, r) && r.ring == [] && r.current == None && r.submitted == s.submitted
            && r.conts == LinePids(r.lines) == Pids(s.submitted)
            && PhaseOf(r, pid) ==
               (if Pending(s, pid) > 0 && PhaseOf(s, pid) in {Queued, Frozen} then Running else PhaseOf(s, pid))
    decreases Due(s)
  {
    if Due(s) == 0 {
      assert s.submitted == s.done;
    } else {
      var step := DueStep(s, how(Due(s)));
      DueStepProgress(c, s, how(Due(s)));
      DueStepPhase(c, s, how(Due(s)), pid);
      StepKeeps(c, s, step);
      DrainReleases(c, Next(c, s, step), how, pid);
    }
  }
}

/**
 A connection under any fragmentation. The bytes the peer sends are `input`; `events`
 schedules how the next system calls behave. Once the schedule is used up, calls transfer
 all they can, so the schedules cover every run in which the loops below end.
 */
module Streams {
  import opened Bytes

  datatype Event = Interrupted | Fails | Moves(n: nat)
  datatype Result = Eintr | Error | Moved(n: nat)

  /** Some scheduled call fails. */
  predicate Faulty(events: seq<Event>) {
    events != [] && (events[0].Fails? || Faulty(events[1..]))
  }

  function Min(a: nat, b: nat): nat { if a < b then a else b }

  class Conn {
    const input: seq<byte>
    var pos: nat
    var output: seq<byte>
    var events: seq<Event>

    constructor (input: seq<byte>, events: seq<Event>)
      ensures this.input == input && pos == 0 && output == [] && this.events == events
    {
      this.input := input;
      pos, output, this.events := 0, [], events;
    }

    ghost predicate Valid() reads this { pos <= |input| }

    /** Only scheduled events happen, so a schedule without failures stays one. */
    ghost predicate Later(old_: seq<Event>) reads this {
      |events| <= |old_| && (Faulty(events) ==> Faulty(old_))
    }

    /** read(2): nothing is transferred only at the end of the input. */
    method Read(buf: array<byte>, off: nat, n: nat) returns (r: Result)
      requires Valid() && 0 < n && off + n <= buf.Length
      modifies this`pos, this`events, buf
      ensures Valid() && Later(old(events)) && (old(events) != [] ==> |events| < |old(events)|)
      ensures r == Error ==> Faulty(old(events))
      ensures r == Eintr ==> |events| < |old(events)|
      ensures !r.Moved? ==> pos == old(pos) && buf[..] == old(buf[..])
      ensures r.Moved? ==> r.n <= n && pos == old(pos) + r.n && (r.n == 0 <==> old(pos) == |input|)
      ensures r.Moved? ==> buf[..off] == old(buf[..off]) && buf[off + r.n..] == old(buf[off + r.n..])
      ensures r.Moved? ==> buf[off..off + r.n] == input[old(pos)..pos]
    {
      var e := Moves(n);
      if events != [] { e, events := events[0], events[1..]; }
      match e {
        case Interrupted => r := Eintr;
        case Fails => r := Error;
        case Moves(k) =>
          var m := Min(Min(n, |input| - pos), if k == 0 then 1 else k);
          forall i | 0 <= i < m { buf[off + i] := input[pos + i]; }
          pos := pos + m;
          r := Moved(m);
      }
    }

    /** write(2): any part of the data, even none of it, may be accepted. */
    method Write(data: seq<byte>) returns (r: Result)
      requires data != []
      modifies this`output, this`events
      ensures Later(old(events)) && (old(events) != [] ==> |events| < |old(events)|)
      ensures r == Error ==> Faulty(old(events))
      ensures r == Eintr ==> |events| < |old(events)|
      ensures !r.Moved? ==> output == old(output)
      ensures r.Moved? ==> r.n <= |data| && output == old(output) + data[..r.n] && (old(events) == [] ==> r.n > 0)
    {
      var e := Moves(|data|);
      if events != [] { e, events := events[0], events[1..]; }
      match e {
        case Interrupted => r := Eintr;
        case Fails => r := Error;
        case Moves(k) =>
          r := Moved(Min(|data|, k));
          output := output + data[..r.n];
      }
    }

    /**
     1: the buffer holds exactly the next n bytes of the input, however they arrived.
     0: the input ended first. -1: a call failed.
     */
    method ReadExact(buf: array<byte>, off: nat, n: nat) returns (code: int)
      requires Valid() && off + n <= buf.Length
      modifies this`pos, this`events, buf
      ensures Valid() && Later(old(events)) && old(pos) <= pos <= old(pos) + n
      ensures code in {1, 0, -1}
      ensures buf[..off] == old(buf[..off]) && buf[off + n..] == old(buf[off + n..])
      ensures code == 1 ==> pos == old(pos) + n && buf[off..off + n] == input[old(pos)..pos]
      ensures code != 1 ==> pos < old(pos) + n
      ensures code == 0 ==> pos == |input|
      ensures code == -1 ==> Faulty(old(events))
    {
      ghost var b0, p0, ev0 := buf[..], pos, events;
      assert Filled(buf[..], b0, off, 0, n, p0);
      var got := 0;
      while got < n
        invariant Valid() && Later(ev0) && 0 <= got <= n && pos == p0 + got && Filled(buf[..], b0, off, got, n, p0)
        decreases |events|, n - got
      {
        var r := ReadMore(buf, off, got, n, b0, p0);
        match r {
          case Eintr =>
          case Error => return -1;
          case Moved(m) =>
            if m == 0 { return 0; }
            got := got + m;
        }
      }
      return 1;
    }

    /** The got bytes at off are the input from p on; outside off..off+n the buffer is as it was. */
    ghost predicate Filled(b: seq<byte>, b0: seq<byte>, off: nat, got: nat, n: nat, p: nat) {
      && |b| == |b0| && got <= n && off + n <= |b| && p + got <= |input|
      && b[..off] == b0[..off] && b[off + n..] == b0[off + n..] && b[off..off + got] == input[p..p + got]
    }

    method ReadMore(buf: array<byte>, off: nat, got: nat, n: nat, ghost b0: seq<byte>, ghost p: nat) returns (r: Result)
      requires Valid() && got < n && pos == p + got && Filled(buf[..], b0, off, got, n, p)
      modifies this`pos, this`events, buf
      ensures Valid() && Later(old(events)) && (old(events) != [] ==> |events| < |old(events)|)
      ensures r == Error ==> Faulty(old(events))
      ensures r == Eintr ==> |events| < |old(events)|
      ensures !r.Moved? ==> pos == old(pos) && Filled(buf[..], b0, off, got, n, p)
      ensures r.Moved? ==> got + r.n <= n && pos == old(pos) + r.n && (r.n == 0 <==> old(pos) == |input|)
      ensures r.Moved? ==> Filled(buf[..], b0, off, got + r.n, n, p)
    {
      ghost var b1 := buf[..];
      r := Read(buf, off + got, n - got);
      if r.Moved? { Extend(b1, buf[..], off, got, r.n, n, input, p); }
    }

    /** Appending m received bytes to the got ones leaves the rest of the buffer alone. */
    static lemma Extend(b0: seq<byte>, b: seq<byte>, off: nat, got: nat, m: nat, n: nat, s: seq<byte>, p: nat)
      requires |b0| == |b| && off + n <= |b| && got + m <= n && p + got + m <= |s|
      requires b[..off + got] == b0[..off + got] && b[off + got + m..] == b0[off + got + m..]
      requires b0[off..off + got] == s[p..p + got] && b[off + got..off + got + m] == s[p + got..p + got + m]
      ensures b[..off] == b0[..off] && b[off + n..] == b0[off + n..] && b[off..off + got + m] == s[p..p + got + m]
    {
      assert b[..off] == b[..off + got][..off] && b0[..off] == b0[..off + got][..off];
      assert b[off + n..] == b[off + got + m..][n - got - m..] && b0[off + n..] == b0[off + got + m..][n - got - m..];
      assert b[off..off + got] == b[..off + got][off..] && b0[off..off + got] == b0[..off + got][off..];
      assert b[off..off + got + m] == b[off..off + got] + b[off + got..off + got + m];
    }

    /** 1: all of the data went out, in order. -1: a call failed, and only a prefix went out. */
    method WriteAll(data: seq<byte>) returns (code: int)
      modifies this`output, this`events
      ensures Later(old(events)) && code in {1, -1}
      ensures code == 1 ==> output == old(output) + data
      ensures code == -1 ==> Faulty(old(events)) && old(output) <= output <= old(output) + data
    {
      ghost var out0 := output;
      var sent := 0;
      while sent < |data|
        invariant Later(old(events)) && 0 <= sent <= |data| && output == out0 + data[..sent]
        decreases |events|, |data| - sent
      {
        var r := Write(data[sent..]);
        match r {
          case Eintr =>
          case Error => return -1;
          case Moved(m) =>
            assert data[..sent] + data[sent..][..m] == data[..sent + m];
            sent := sent + m;
        }
      }
      assert data[..sent] == data;
      return 1;
    }
  }
}

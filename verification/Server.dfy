/** The agent's side of a connection, over real buffers and partial I/O. */
module Server {
  import opened Bytes
  import opened PoolSpec
  import opened PoolLedger
  import opened Streams
  import opened ServerSpec
  import P = Pool
  import Wire

  // ---------- building frames ----------

  method PutU32Into(buf: array<byte>, off: nat, v: nat)
    requires off + 4 <= buf.Length && v < TWO32
    modifies buf
    ensures buf[..off] == old(buf[..off]) && buf[off..off + 4] == PutU32(v) && buf[off + 4..] == old(buf[off + 4..])
  {
    buf[off] := v / 0x100_0000;
    buf[off + 1] := v / 0x1_0000 % 256;
    buf[off + 2] := v / 0x100 % 256;
    buf[off + 3] := v % 256;
  }

  method CopyInto(buf: array<byte>, off: nat, src: seq<byte>)
    requires off + |src| <= buf.Length
    modifies buf
    ensures buf[..off] == old(buf[..off]) && buf[off..off + |src|] == src
            && buf[off + |src|..] == old(buf[off + |src|..])
  {
    forall i | 0 <= i < |src| { buf[off + i] := src[i]; }
  }

  method PutHeader(resp: array<byte>, isPqc: int, groupLen: nat)
    requires resp.Length >= Wire.RESP_HDR && groupLen < 256
    modifies resp
    ensures resp[..5] == [Wire.MAGIC, Wire.VERSION, Wire.STATUS_OK, if isPqc != 0 then 1 else 0, groupLen]
  {
    resp[0] := Wire.MAGIC;
    resp[1] := Wire.VERSION;
    resp[2] := Wire.STATUS_OK;
    resp[3] := if isPqc != 0 then 1 else 0;
    resp[4] := groupLen;
  }

  /** The response of an OK answer, filled in field by field. */
  method BuildOk(isPqc: int, group: CString, der: seq<byte>) returns (resp: array<byte>)
    requires |group| < 256 && |der| < TWO32
    ensures fresh(resp) && resp[..] == Wire.OkFrame(isPqc, group, der)
  {
    resp := new byte[Wire.RESP_HDR + |group| + |der|];
    PutHeader(resp, isPqc, |group|);
    ghost var h := resp[..5];
    PutU32Into(resp, 5, |der|);
    ghost var h1 := resp[..9];
    assert h1 == h + PutU32(|der|);
    CopyInto(resp, 9, group);
    var g := 9 + |group|;
    ghost var h2 := resp[..g];
    assert h2 == h1 + group;
    CopyInto(resp, g, der);
    assert resp[..] == h2 + der;
  }

  // ---------- the server ----------

  method SendStatus(conn: Conn, status: byte)
    modifies conn`output, conn`events
    ensures conn.Later(old(conn.events))
            && Sent(conn, old(conn.output), old(conn.events), Some(Wire.StatusFrame(status)))
  {
    var _ := conn.WriteAll(Wire.StatusFrame(status));
  }

  /** The reply went out whole, or, if a call failed, in part; without a reply nothing did. */
  ghost predicate Sent(conn: Conn, out0: seq<byte>, ev0: seq<Event>, reply: Option<seq<byte>>)
    reads conn
  {
    match reply
    case None => conn.output == out0
    case Some(f) => out0 <= conn.output <= out0 + f && (!Faulty(ev0) ==> conn.output == out0 + f)
  }

  method SendOk(conn: Conn, isPqc: int, group: CString, der: seq<byte>)
    requires |group| < 256 && |der| < TWO32
    modifies conn`output, conn`events
    ensures conn.Later(old(conn.events))
            && Sent(conn, old(conn.output), old(conn.events), Some(Wire.OkFrame(isPqc, group, der)))
  {
    var resp := BuildOk(isPqc, group, der);
    var _ := conn.WriteAll(resp[..]);
  }

  /** pool_get, then answer and top up, for a known destination. */
  method Respond(conn: Conn, pool: P.Pool, dest: CString)
    requires pool.Valid() && conn !in pool.cells
    modifies conn`output, conn`events, pool, pool.world, pool.cells
    ensures pool.Valid() && fresh(pool.cells - old(pool.cells))
    ensures conn.Later(old(conn.events))
    ensures var r := ServeDest(pool.E(), old(pool.model), dest);
            pool.model == r.pool && Sent(conn, old(conn.output), old(conn.events), r.reply)
  {
    ghost var st, ops := pool.model, pool.history;
    var hit, der, derLen, isPqc, group := pool.Get(dest, 64);
    if !hit {
      SendStatus(conn, Wire.STATUS_MISS);
      var _ := pool.Maintain(dest);
      return;
    }
    assert der.Block? && der.id in pool.model.handed && der.id !in pool.model.reclaimed by {
      ReachedInv(pool.E(), ops);
      GotBlock(pool.E(), st, dest);
    }
    DeliverTo(conn, pool, dest, der, isPqc, group, PoolSpec.Get(pool.E(), st, dest).1.value);
  }

  method DeliverTo(conn: Conn, pool: P.Pool, dest: CString, der: Ptr, isPqc: int, group: CString, ghost e: Entry)
    requires pool.Valid() && conn !in pool.cells
    requires der.Block? && der.id in pool.model.handed && der.id !in pool.model.reclaimed
    requires der == e.der && isPqc == e.isPqc && group == Truncated(e.group, 64)
    modifies conn`output, conn`events, pool, pool.world, pool.cells
    ensures pool.Valid() && fresh(pool.cells - old(pool.cells))
    ensures conn.Later(old(conn.events))
    ensures var r := Deliver(pool.E(), old(pool.model), dest, e);
            pool.model == r.pool && Sent(conn, old(conn.output), old(conn.events), r.reply)
  {
    ghost var st := pool.model;
    assert der.id in P.LiveMap(st) by {
      ReachedInv(pool.E(), pool.history);
      P.HandedIsLive(pool.targetDepth, st, der.id);
    }
    var ok := pool.CallerAlloc();
    if !ok {
      pool.Release(der);
      SendStatus(conn, Wire.STATUS_ERROR);
      return;
    }
    SendOk(conn, isPqc, group, pool.world.live[der.id]);
    pool.Release(der);
    var _ := pool.Maintain(dest);
  }

  /** Reads a request, in whatever pieces it arrives, and no byte beyond it. */
  method ReadRequest(conn: Conn) returns (h: Heard)
    requires conn.Valid()
    modifies conn`pos, conn`events
    ensures conn.Valid() && conn.Later(old(conn.events)) && old(conn.pos) <= conn.pos
    ensures h == Hear(conn.input[old(conn.pos)..conn.pos])
    ensures !Faulty(old(conn.events)) ==> conn.pos == old(conn.pos) + Consumed(conn.input[old(conn.pos)..])
  {
    ghost var p0, s := conn.pos, conn.input[conn.pos..];
    var frame := new byte[Wire.REQ_HDR + Wire.DEST_MAX];
    var code := conn.ReadExact(frame, 0, Wire.REQ_HDR);
    ghost var got := conn.input[p0..conn.pos];
    assert got == s[..|got|];
    if code != 1 { return Incomplete; }
    assert frame[..4] == frame[0..4] == got;
    if frame[0] != Wire.MAGIC || frame[1] != Wire.VERSION || frame[3] == 0 { return Malformed; }
    h := ReadDest(conn, frame, p0);
  }

  /** The destination, once an acceptable header is in the frame buffer. */
  method ReadDest(conn: Conn, frame: array<byte>, ghost p0: nat) returns (h: Heard)
    requires conn.Valid() && conn.pos == p0 + 4 && frame.Length == Wire.REQ_HDR + Wire.DEST_MAX
    requires frame[..4] == conn.input[p0..p0 + 4] && Acceptable(frame[..4])
    modifies conn`pos, conn`events, frame
    ensures conn.Valid() && conn.Later(old(conn.events)) && old(conn.pos) <= conn.pos
    ensures h == Hear(conn.input[p0..conn.pos])
    ensures !Faulty(old(conn.events)) ==> conn.pos == p0 + Consumed(conn.input[p0..])
  {
    ghost var got, s := frame[..4], conn.input[p0..];
    var destLen := frame[3] as int;
    assert got[3] as int == destLen && s[..4] == got;
    var code := conn.ReadExact(frame, Wire.REQ_HDR, destLen);
    ghost var all := conn.input[p0..conn.pos];
    assert all[..4] == got;
    if code != 1 { return Incomplete; }
    assert frame[..4 + destLen] == frame[..4] + frame[4..4 + destLen];
    assert all == got + conn.input[p0 + 4..conn.pos];
    assert all[..4 + destLen] == all;
    match Wire.ParseRequest(frame[..Wire.REQ_HDR + destLen], DEST_CAP) {
      case Bad(_) => h := Malformed;
      case Good(dest) => h := Asks(dest);
    }
  }

  /** One connection, from the first byte read to the last byte written. */
  method HandleConn(conn: Conn, pool: P.Pool)
    requires pool.Valid() && conn.Valid() && conn !in pool.cells
    modifies conn, pool, pool.world, pool.cells
    ensures pool.Valid() && fresh(pool.cells - old(pool.cells))
    ensures conn.Valid() && old(conn.pos) <= conn.pos
    ensures var r := Serve(pool.E(), old(pool.model), conn.input[old(conn.pos)..conn.pos]);
            pool.model == r.pool && Sent(conn, old(conn.output), old(conn.events), r.reply)
    ensures !Faulty(old(conn.events)) ==> conn.pos == old(conn.pos) + Consumed(conn.input[old(conn.pos)..])
  {
    var h := ReadRequest(conn);
    match h {
      case Incomplete =>
      case Malformed => SendStatus(conn, Wire.STATUS_ERROR);
      case Asks(dest) => Respond(conn, pool, dest);
    }
  }
}

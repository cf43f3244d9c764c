/** `uds_get`: the injector asks the agent for a session and reads the answer. */
module Client {
  import opened Bytes
  import opened Streams
  import Wire

  /** Reads the next n bytes, in whatever pieces they arrive; n may be 0. */
  method Take(conn: Conn, n: nat) returns (code: int, data: seq<byte>)
    requires conn.Valid()
    modifies conn`pos, conn`events
    ensures conn.Valid() && conn.Later(old(conn.events)) && old(conn.pos) <= conn.pos
    ensures code in {1, 0, -1}
    ensures code == 1 ==> conn.pos == old(conn.pos) + n && data == conn.input[old(conn.pos)..conn.pos]
    ensures code != 1 && !Faulty(old(conn.events)) ==> conn.pos == |conn.input| < old(conn.pos) + n
  {
    var buf := new byte[n];
    code := conn.ReadExact(buf, 0, n);
    data := buf[..];
    assert buf[0..n] == buf[..];
  }

  /** The answer, read after the request has gone out. */
  method ReadAnswer(conn: Conn, groupCap: nat, allocOk: bool) returns (a: Wire.Answer)
    requires conn.Valid()
    modifies conn`pos, conn`events
    ensures conn.Valid() && conn.Later(old(conn.events))
    ensures a == Wire.Transport || a == Wire.ParseAnswer(conn.input[old(conn.pos)..], groupCap, allocOk).0
    ensures !Faulty(old(conn.events)) ==>
              var (b, n) := Wire.ParseAnswer(conn.input[old(conn.pos)..], groupCap, allocOk);
              a == b && conn.pos == old(conn.pos) + n
  {
    ghost var s, p0 := conn.input[conn.pos..], conn.pos;
    var code, hdr := Take(conn, Wire.RESP_HDR);
    if code != 1 { return Wire.Transport; }
    assert hdr == s[..9];
    if hdr[0] != Wire.MAGIC || hdr[1] != Wire.VERSION { return Wire.Transport; }
    if hdr[2] != Wire.STATUS_OK { return Wire.Refused(hdr[2]); }
    assert hdr[5..9] == s[5..9];
    a := ReadBody(conn, hdr[3], hdr[4] as int, GetU32(hdr[5..9]), groupCap, allocOk, s, p0);
  }

  /** Group and DER, once the header of an OK answer is in. */
  method ReadBody(conn: Conn, flag: byte, g: nat, n: nat, groupCap: nat, allocOk: bool, ghost s: seq<byte>,
                  ghost p0: nat)
    returns (a: Wire.Answer)
    requires conn.Valid() && p0 + 9 <= |conn.input| && s == conn.input[p0..] && conn.pos == p0 + 9 && n < TWO32
    modifies conn`pos, conn`events
    ensures conn.Valid() && conn.Later(old(conn.events))
    ensures a == Wire.Transport || a == Wire.ParseBody(s, flag, g, n, groupCap, allocOk).0
    ensures !Faulty(old(conn.events)) ==>
              var (b, k) := Wire.ParseBody(s, flag, g, n, groupCap, allocOk);
              a == b && conn.pos == p0 + k
  {
    var code, group := Take(conn, g);
    if code != 1 { return Wire.Transport; }
    assert group == s[9..9 + g];
    if !allocOk { return Wire.Transport; }
    var der: seq<byte>;
    code, der := Take(conn, n);
    if code != 1 { return Wire.Transport; }
    assert der == s[9 + g..9 + g + n];
    a := Wire.Deliver(der, n, flag, group, groupCap);
  }

  /**
   Whatever the fragmentation, an answer that is not a transport error is the one the
   agent's bytes spell out; without failing calls it always is, exactly those bytes are
   consumed, and exactly the request was sent.
   */
  method UdsGet(conn: Conn, dest: CString, groupCap: nat, allocOk: bool) returns (a: Wire.Answer)
    requires conn.Valid()
    modifies conn
    ensures !(1 <= |dest| <= Wire.DEST_MAX) ==> a == Wire.Transport && unchanged(conn)
    ensures a == Wire.Transport || a == Wire.ParseAnswer(conn.input[old(conn.pos)..], groupCap, allocOk).0
    ensures 1 <= |dest| <= Wire.DEST_MAX && !Faulty(old(conn.events)) ==>
              var (b, n) := Wire.ParseAnswer(conn.input[old(conn.pos)..], groupCap, allocOk);
              && a == b && conn.pos == old(conn.pos) + n
              && conn.output == old(conn.output) + Wire.Request(dest)
  {
    if |dest| == 0 || |dest| > Wire.DEST_MAX { return Wire.Transport; }
    var code := conn.WriteAll(Wire.Request(dest));
    if code != 1 { return Wire.Transport; }
    a := ReadAnswer(conn, groupCap, allocOk);
  }
}

/** The frames that agent and injector exchange, built and parsed on values. */
module Wire {
  import opened Bytes

  const MAGIC: byte := 0x54
  const VERSION: byte := 1
  const OP_GET: byte := 1
  const STATUS_OK: byte := 0
  const STATUS_MISS: byte := 1
  const STATUS_ERROR: byte := 2
  const REQ_HDR := 4
  const RESP_HDR := 9
  const DEST_MAX := 255

  // ---------- requests ----------

  /** What `uds_get` sends for a destination of 1 to 255 bytes. */
  function Request(payload: seq<byte>): (r: seq<byte>)
    requires 1 <= |payload| <= DEST_MAX
  {
    [MAGIC, VERSION, OP_GET, |payload|] + payload
  }

  /** `uds_parse_request`: the destination as the C string the pool will compare, or an error code. */
  datatype Parsed = Bad(code: int) | Good(dest: CString)

  function ParseRequest(buf: seq<byte>, destCap: nat): Parsed {
    if |buf| < REQ_HDR then Bad(-1)
    else if buf[0] != MAGIC || buf[1] != VERSION then Bad(-2)
    else if buf[3] == 0 || REQ_HDR + buf[3] as int != |buf| then Bad(-3)
    else if buf[3] as int + 1 > destCap then Bad(-4)
    else if buf[2] != OP_GET then Bad(-5)
    else Good(CStr(buf[REQ_HDR..]))
  }

  /** A frame is accepted exactly when it is the request for some payload that fits. */
  lemma ParseRequestExact(buf: seq<byte>, destCap: nat)
    ensures ParseRequest(buf, destCap).Good? <==>
            exists p: seq<byte> :: 1 <= |p| <= DEST_MAX && |p| < destCap && buf == Request(p)
    ensures ParseRequest(buf, destCap).Good? ==>
            1 <= |buf[REQ_HDR..]| <= DEST_MAX && buf == Request(buf[REQ_HDR..])
  {
    if ParseRequest(buf, destCap).Good? {
      assert buf == Request(buf[REQ_HDR..]);
    }
  }

  /** The frame as bytes, and what the parser makes of it for every payload: the bytes before the first NUL. */
  lemma RequestBytes(payload: seq<byte>, destCap: nat)
    requires 1 <= |payload| <= 255
    ensures Request(payload) == [0x54, 1, 1, |payload|] + payload
    ensures ParseRequest(Request(payload), destCap) == if |payload| < destCap then Good(CStr(payload)) else Bad(-4)
  {
    var f := Request(payload);
    Join([MAGIC, VERSION, OP_GET, |payload|], payload);
    assert f[4..] == payload && |f| == 4 + |payload|;
    assert f[0] == 0x54 && f[1] == 1 && f[2] == 1 && f[3] as int == |payload|;
  }

  /** Which of its errors the parser reports: the first that applies. */
  lemma ParseRequestCodes(buf: seq<byte>, destCap: nat)
    ensures var r := ParseRequest(buf, destCap);
            && (r == Bad(-1) <==> |buf| < 4)
            && (|buf| >= 4 ==>
                  && (r == Bad(-2) <==> buf[..2] != [0x54, 1])
                  && (buf[..2] == [0x54, 1] ==>
                        var n := buf[3] as int;
                        && (r == Bad(-3) <==> n == 0 || |buf| != 4 + n)
                        && (r == Bad(-4) <==> n != 0 && |buf| == 4 + n && n >= destCap)
                        && (r == Bad(-5) <==> n != 0 && |buf| == 4 + n && n < destCap && buf[2] != 1)))
            && (r.Bad? ==> -5 <= r.code <= -1)
  {
    if |buf| >= 4 { assert buf[..2] == [buf[0], buf[1]]; }
  }

  /** What the client asks for is what the server looks up, if it has no NUL inside. */
  lemma RequestRoundTrip(dest: CString, destCap: nat)
    requires 1 <= |dest| <= DEST_MAX < destCap
    ensures ParseRequest(Request(dest), destCap) == Good(dest)
  {
  }

  // ---------- responses ----------

  function StatusFrame(status: byte): seq<byte> {
    [MAGIC, VERSION, status, 0, 0, 0, 0, 0, 0]
  }

  /** An OK response; the flag is 0 or 1 whatever nonzero value the pool held. */
  function OkFrame(isPqc: int, group: CString, der: seq<byte>): seq<byte>
    requires |group| < 256 && |der| < TWO32
  {
    [MAGIC, VERSION, STATUS_OK, if isPqc != 0 then 1 else 0, |group|] + PutU32(|der|) + group + der
  }

  /** A frame whose header announces exactly the bytes that follow it. */
  ghost predicate WellFormed(f: seq<byte>) {
    && |f| >= RESP_HDR && f[0] == MAGIC && f[1] == VERSION && f[2] <= STATUS_ERROR && f[3] <= 1
    && |f| == RESP_HDR + f[4] as int + GetU32(f[5..9])
    && (f[2] != STATUS_OK ==> |f| == RESP_HDR)
  }

  lemma FramesWellFormed(status: byte, isPqc: int, group: CString, der: seq<byte>)
    requires status in {STATUS_MISS, STATUS_ERROR} && |group| < 256 && |der| < TWO32
    ensures WellFormed(StatusFrame(status)) && StatusFrame(status)[2] == status
    ensures WellFormed(OkFrame(isPqc, group, der)) && OkFrame(isPqc, group, der)[2] == STATUS_OK
  {
    U32RoundTrip(|der|);
    assert StatusFrame(status)[5..9] == [0, 0, 0, 0];
    assert OkFrame(isPqc, group, der)[5..9] == PutU32(|der|);
  }

  /** The frames as bytes. */
  lemma FrameBytes(status: byte, isPqc: int, group: CString, der: seq<byte>)
    requires |group| < 256 && |der| < TWO32
    ensures StatusFrame(status) == [0x54, 1, status, 0, 0, 0, 0, 0, 0]
    ensures STATUS_MISS == 1 && STATUS_ERROR == 2
    ensures OkFrame(isPqc, group, der)
         == [0x54, 1, 0, if isPqc != 0 then 1 else 0, |group|] + PutU32(|der|) + group + der
  {
  }

  // ---------- the client's reading of a response ----------

  datatype Answer = Transport | Refused(status: byte) | Got(der: seq<byte>, derLen: int, isPqc: int, group: CString)

  /** The out-parameters of `uds_get`: the length as an int, the group as a C string cut to the caller's buffer. */
  function Deliver(der: seq<byte>, n: nat, flag: byte, group: seq<byte>, groupCap: nat): Answer
    requires n < TWO32
  {
    Got(der, AsInt32(n), flag, if groupCap > 0 then Truncated(CStr(group), groupCap) else [])
  }

  /** Group and DER after an accepted header that announces g and n bytes. */
  function ParseBody(s: seq<byte>, flag: byte, g: nat, n: nat, groupCap: nat, allocOk: bool): (r: (Answer, nat))
    requires |s| >= RESP_HDR && n < TWO32
    ensures r.1 <= |s|
  {
    if |s| < RESP_HDR + g then (Transport, |s|)
    else if !allocOk then (Transport, RESP_HDR + g)
    else if |s| < RESP_HDR + g + n then (Transport, |s|)
    else
      (Deliver(s[RESP_HDR + g..RESP_HDR + g + n], n, flag, s[RESP_HDR..RESP_HDR + g], groupCap), RESP_HDR + g + n)
  }

  /** What `uds_get` makes of the bytes that follow, and how many of them it consumes. */
  function ParseAnswer(s: seq<byte>, groupCap: nat, allocOk: bool): (r: (Answer, nat))
    ensures r.1 <= |s|
  {
    if |s| < RESP_HDR then (Transport, |s|)
    else if s[0] != MAGIC || s[1] != VERSION then (Transport, RESP_HDR)
    else if s[2] != STATUS_OK then (Refused(s[2]), RESP_HDR)
    else ParseBody(s, s[3], s[4] as int, GetU32(s[5..9]), groupCap, allocOk)
  }

  /** The OK answer of any agent, with any flag and any bytes for a group. */
  function AnyAnswer(flag: byte, group: seq<byte>, der: seq<byte>): seq<byte>
    requires |group| < 256 && |der| < TWO32
  {
    [0x54, 1, 0, flag, |group|] + PutU32(|der|) + group + der
  }

  lemma AnswerSlices(flag: byte, group: seq<byte>, der: seq<byte>, rest: seq<byte>)
    requires |group| < 256 && |der| < TWO32
    ensures var s, g := AnyAnswer(flag, group, der) + rest, |group|;
            && s[0] == 0x54 && s[1] == 1 && s[2] == 0 && s[3] == flag && s[4] == g
            && s[5..9] == PutU32(|der|) && s[9..9 + g] == group && s[9 + g..9 + g + |der|] == der
  {
  }

  /** A header of an answer: magic, version and status 0. */
  ghost predicate OkHeader(s: seq<byte>) { |s| >= 9 && s[..3] == [0x54, 1, 0] }

  /**
   What the client makes of any bytes at all. A status other than 0 is passed on; a stream
   that is too short, or does not begin with magic and version, or for which there is no
   memory, is a transport error; and nothing else is.
   */
  lemma ParseAnswerTotal(s: seq<byte>, groupCap: nat, allocOk: bool)
    ensures var a := ParseAnswer(s, groupCap, allocOk).0;
            && (forall x: byte :: a == Refused(x) <==> x != 0 && |s| >= 9 && s[..3] == [0x54, 1, x])
            && (a.Got? <==> OkHeader(s) && allocOk && |s| >= 9 + s[4] as int + GetU32(s[5..9]))
  {
    if |s| >= 9 { assert s[..3] == [s[0], s[1], s[2]]; }
  }

  /**
   An OK answer from any agent, whatever its flag and group: the DER comes back whole, its
   length as an int, the flag as sent, and the group up to its first NUL, cut to the buffer.
   */
  lemma AnyAnswerRead(flag: byte, group: seq<byte>, der: seq<byte>, rest: seq<byte>, groupCap: nat)
    requires |group| < 256 && |der| < TWO32 && groupCap > 0
    ensures var (a, n) := ParseAnswer(AnyAnswer(flag, group, der) + rest, groupCap, true);
            && a.Got? && a.der == der && a.isPqc == flag && a.group == Truncated(CStr(group), groupCap)
            && a.derLen == (if |der| < 0x8000_0000 then |der| else |der| - 0x1_0000_0000)
            && n == 9 + |group| + |der|
  {
    AnswerSlices(flag, group, der, rest);
    U32RoundTrip(|der|);
  }

  /** The client recovers group, flag, length and DER, and consumes exactly the frame. */
  lemma OkRoundTrip(isPqc: int, group: CString, der: seq<byte>, rest: seq<byte>, groupCap: nat)
    requires |group| < 256 && |der| < TWO31 && |group| < groupCap
    ensures ParseAnswer(OkFrame(isPqc, group, der) + rest, groupCap, true)
         == (Got(der, |der|, if isPqc != 0 then 1 else 0, group), |OkFrame(isPqc, group, der)|)
  {
    assert OkFrame(isPqc, group, der) == AnyAnswer(if isPqc != 0 then 1 else 0, group, der);
    AnyAnswerRead(if isPqc != 0 then 1 else 0, group, der, rest, groupCap);
    CStrOfCString(group, []);
  }

  lemma StatusRoundTrip(status: byte, rest: seq<byte>, groupCap: nat, allocOk: bool)
    requires status != STATUS_OK
    ensures ParseAnswer(StatusFrame(status) + rest, groupCap, allocOk) == (Refused(status), RESP_HDR)
  {
  }
}

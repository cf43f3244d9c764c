/** Bytes, NUL-terminated strings and the integer encodings the wire uses. */
module Bytes {

  type byte = x: int | 0 <= x < 256

  /** The contents of a C string: the bytes before its terminator. */
  type CString = s: seq<byte> | forall i :: 0 <= i < |s| ==> s[i] != 0

  datatype Option<+T> = None | Some(value: T)

  const TWO32: int := 0x1_0000_0000
  const TWO31: int := 0x8000_0000

  /** What `strlen` and `strcmp` see of a NUL-terminated buffer. */
  function CStr(s: seq<byte>): (r: CString)
    ensures r <= s
    ensures |r| < |s| ==> s[|r|] == 0
  {
    if s == [] || s[0] == 0 then []
    else
      var rest := CStr(s[1..]);
      [s[0]] + rest
  }

  lemma {:induction false} CStrOfCString(s: CString, tail: seq<byte>)
    ensures CStr(s) == s
    ensures CStr(s + [0] + tail) == s
  {
    if s != [] {
      CStrOfCString(s[1..], tail);
      assert (s + [0] + tail)[1..] == s[1..] + [0] + tail;
    }
  }

  /** `snprintf(dst, cap, "%s", s)` for a nonzero cap. */
  function Truncated(s: CString, cap: nat): (r: CString)
    requires cap > 0
    ensures r <= s && |r| == if |s| < cap then |s| else cap - 1
  {
    if |s| < cap then s else s[..cap - 1]
  }

  /** `put_u32`: most significant byte first. */
  function PutU32(v: nat): (r: seq<byte>)
    requires v < TWO32
    ensures |r| == 4
  {
    [v / 0x100_0000, v / 0x1_0000 % 256, v / 0x100 % 256, v % 256]
  }

  /** `get_u32`. */
  function GetU32(p: seq<byte>): (r: nat)
    requires |p| == 4
    ensures r < TWO32
  {
    (p[0] as int) * 0x100_0000 + (p[1] as int) * 0x1_0000 + (p[2] as int) * 0x100 + p[3]
  }

  /** Decoding undoes encoding. */
  lemma U32RoundTrip(v: nat)
    requires v < TWO32
    ensures GetU32(PutU32(v)) == v
  {
    assert v == 256 * (v / 256) + v % 256;
    assert v / 0x1_0000 == v / 256 / 256 && v / 0x100_0000 == v / 0x1_0000 / 256;
  }

  /** The most significant byte comes first, and each weighs 256 times the next. */
  lemma U32Order(a: byte, b: byte, c: byte, d: byte)
    ensures GetU32([a, b, c, d]) == ((a as int * 256 + b as int) * 256 + c as int) * 256 + d as int
    ensures PutU32(0x01020304) == [1, 2, 3, 4]
  {
  }

  /** The conversion `(int)n` of a 32-bit unsigned value. */
  function AsInt32(n: nat): (r: int)
    requires n < TWO32
    ensures -TWO31 <= r < TWO31 && (r == n || r == n - TWO32)
  {
    if n < TWO31 then n else n - TWO32
  }

  /** No value occurs twice. */
  ghost predicate Distinct<T>(s: seq<T>) {
    forall i, j :: 0 <= i < j < |s| ==> s[i] != s[j]
  }

  lemma DistinctAppend<T>(s: seq<T>, x: T)
    requires Distinct(s) && x !in s
    ensures Distinct(s + [x])
  {
  }

  // ---------- cutting and joining sequences ----------

  lemma Assoc<T>(a: seq<T>, b: seq<T>, c: seq<T>)
    ensures a + b + c == a + (b + c)
  {
  }

  lemma Join<T>(a: seq<T>, b: seq<T>)
    ensures (a + b)[..|a|] == a && (a + b)[|a|..] == b && (a + b)[|a|..|a| + |b|] == b
  {
  }

  lemma TakeNext<T>(s: seq<T>, i: nat)
    requires i < |s|
    ensures s[..i] + [s[i]] == s[..i + 1]
  {
  }

  lemma TakeAll<T>(s: seq<T>)
    ensures s[..|s|] == s
  {
  }

  lemma SuffixGrows<T>(a: seq<T>, b: seq<T>, n: nat)
    requires n <= |a|
    ensures (a + b)[n..] == a[n..] + b
  {
  }

  lemma CutTwice<T>(s: seq<T>, n: nat, a: nat, b: nat)
    requires n <= a <= b <= |s|
    ensures s[n..] == s[..a][n..] + s[a..b] + s[b..]
  {
  }

  lemma CutCut<T>(s: seq<T>, m: nat, a: nat, b: nat)
    requires a <= b <= m <= |s|
    ensures s[..m][a..b] == s[a..b]
  {
  }
}

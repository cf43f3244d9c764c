/** The identity of a probed libssl file, as the key string under which it is remembered. */
module FileKey {
  import opened Bytes
  import opened Words

  const KEY_CAP := 300
  const HANDLE_MAX := 128

  // ---------- numbers in print ----------

  function Digit(d: nat): char
    requires d < 16
  {
    "0123456789abcdef"[d]
  }

  /** A number without leading zeros, in base 10 or 16. */
  function Digits(n: nat, base: nat): (r: string)
    requires base in {10, 16}
    ensures r != []
  {
    if n < base then [Digit(n)] else Digits(n / base, base) + [Digit(n % base)]
  }

  function DigitValue(c: char): nat {
    if '0' <= c <= '9' then (c - '0') as nat else if 'a' <= c <= 'f' then (c - 'a') as nat + 10 else 0
  }

  function Value(s: string, base: nat): nat {
    if s == [] then 0 else Value(s[..|s| - 1], base) * base + DigitValue(s[|s| - 1])
  }

  lemma DigitRoundTrip(d: nat)
    requires d < 16
    ensures DigitValue(Digit(d)) == d && Digit(d) != ':' && Digit(d) != '-'
  {
  }

  lemma {:induction false} DigitsRoundTrip(n: nat, base: nat)
    requires base in {10, 16}
    ensures Value(Digits(n, base), base) == n
    ensures ':' !in Digits(n, base) && '-' !in Digits(n, base)
  {
    DigitRoundTrip(n % base);
    if n < base {
      assert [Digit(n)][..0] == [];
    } else {
      var s := Digits(n / base, base);
      DigitsRoundTrip(n / base, base);
      assert (s + [Digit(n % base)])[..|s|] == s;
      if base == 10 { assert n == (n / 10) * 10 + n % 10; } else { assert n == (n / 16) * 16 + n % 16; }
    }
  }

  /** "%d" */
  function Decimal(n: int): string {
    if n < 0 then "-" + Digits(-n, 10) else Digits(n, 10)
  }

  /** "%02x" of a byte, and of a sequence of bytes. */
  function Hex2(b: byte): (r: string)
    ensures |r| == 2
  {
    [Digit(b / 16), Digit(b % 16)]
  }

  function HexBytes(bs: seq<byte>): (r: string)
    ensures |r| == 2 * |bs|
  {
    if bs == [] then [] else HexBytes(bs[..|bs| - 1]) + Hex2(bs[|bs| - 1])
  }

  lemma DecimalInjective(m: int, n: int)
    ensures Decimal(m) == Decimal(n) ==> m == n
    ensures ':' !in Decimal(m)
  {
    DigitsRoundTrip(if m < 0 then -m else m, 10);
    DigitsRoundTrip(if n < 0 then -n else n, 10);
    if Decimal(m) == Decimal(n) {
      assert Decimal(m)[0] == Decimal(n)[0];
      if m < 0 && n < 0 { assert Decimal(m)[1..] == Decimal(n)[1..]; }
    }
  }

  lemma Hex2Injective(a: byte, b: byte)
    requires Hex2(a) == Hex2(b)
    ensures a == b
  {
    DigitRoundTrip(a / 16);
    DigitRoundTrip(a % 16);
    DigitRoundTrip(b / 16);
    DigitRoundTrip(b % 16);
    assert Hex2(a)[0] == Hex2(b)[0] && Hex2(a)[1] == Hex2(b)[1];
  }

  lemma {:induction false} HexBytesInjective(a: seq<byte>, b: seq<byte>)
    requires HexBytes(a) == HexBytes(b)
    ensures a == b
  {
    if a != [] && b != [] {
      var m, n := |a| - 1, |b| - 1;
      var s, t := HexBytes(a), HexBytes(b);
      assert s[..2 * m] == HexBytes(a[..m]) && t[..2 * n] == HexBytes(b[..n]);
      HexBytesInjective(a[..m], b[..n]);
      assert s[2 * m..] == Hex2(a[m]) && t[2 * n..] == Hex2(b[n]);
      Hex2Injective(a[m], b[n]);
      assert a == a[..m] + [a[m]] && b == b[..n] + [b[n]];
    }
  }

  /** Two strings cut at their first colon are equal only piece by piece. */
  lemma CutAtColon(a: string, b: string, c: string, d: string)
    requires a + ":" + b == c + ":" + d && ':' !in a && ':' !in c
    ensures a == c && b == d
  {
    var s := a + ":" + b;
    assert s[|a|] == ':' && s[|c|] == ':';
    assert forall i :: 0 <= i < |a| ==> s[i] == a[i] && s[i] != ':';
    assert forall i :: 0 <= i < |c| ==> s[i] == c[i] && s[i] != ':';
    assert a == s[..|a|] && b == s[|a| + 1..] && d == s[|c| + 1..];
  }

  // ---------- keys ----------

  /** What identifies a file: its handle where the file system has one, else device and inode. */
  datatype Identity = Handle(kind: int, bytes: seq<byte>) | Inode(dev: word, ino: word)

  function HandleKey(kind: int, bytes: seq<byte>): string { "h" + (Decimal(kind) + ":" + HexBytes(bytes)) }
  function InodeKey(dev: word, ino: word): string { "i" + (Digits(dev, 16) + ":" + Digits(ino, 16)) }

  function Key(f: Identity): string {
    match f
    case Handle(kind, bytes) => HandleKey(kind, bytes)
    case Inode(dev, ino) => InodeKey(dev, ino)
  }

  lemma HandleKeyInjective(k: int, a: seq<byte>, l: int, b: seq<byte>)
    requires HandleKey(k, a) == HandleKey(l, b)
    ensures k == l && a == b
  {
    DecimalInjective(k, l);
    DecimalInjective(l, k);
    assert HandleKey(k, a)[1..] == Decimal(k) + ":" + HexBytes(a);
    assert HandleKey(l, b)[1..] == Decimal(l) + ":" + HexBytes(b);
    CutAtColon(Decimal(k), HexBytes(a), Decimal(l), HexBytes(b));
    HexBytesInjective(a, b);
  }

  lemma InodeKeyInjective(d: word, i: word, e: word, j: word)
    requires InodeKey(d, i) == InodeKey(e, j)
    ensures d == e && i == j
  {
    DigitsRoundTrip(d, 16);
    DigitsRoundTrip(e, 16);
    DigitsRoundTrip(i, 16);
    DigitsRoundTrip(j, 16);
    assert InodeKey(d, i)[1..] == Digits(d, 16) + ":" + Digits(i, 16);
    assert InodeKey(e, j)[1..] == Digits(e, 16) + ":" + Digits(j, 16);
    CutAtColon(Digits(d, 16), Digits(i, 16), Digits(e, 16), Digits(j, 16));
  }

  /** Different files have different keys, within each family and across the two. */
  lemma KeyInjective(f: Identity, g: Identity)
    ensures Key(f) == Key(g) <==> f == g
  {
    if Key(f) == Key(g) {
      assert Key(f)[0] == Key(g)[0];
      if f.Handle? {
        HandleKeyInjective(f.kind, f.bytes, g.kind, g.bytes);
      } else {
        InodeKeyInjective(f.dev, f.ino, g.dev, g.ino);
      }
    }
  }

  /** Keys in print: what stands where, for both families. */
  lemma KeyShape(kind: int, b: byte, dev: word, ino: word)
    ensures Key(Handle(kind, [b])) == "h" + (Decimal(kind) + ":" + [Digit(b / 16), Digit(b % 16)])
    ensures Key(Inode(dev, ino)) == "i" + (Digits(dev, 16) + ":" + Digits(ino, 16))
  {
    HexOne(b);
  }

  lemma HexOne(b: byte)
    ensures HexBytes([b]) == [Digit(b / 16), Digit(b % 16)]
  {
    assert [b][..0] == [];
    assert HexBytes([]) + Hex2(b) == Hex2(b);
  }

  lemma PrintedNumbers()
    ensures Decimal(-12) == "-12" && Digits(0x2f, 16) == "2f"
  {
    assert Digits(12, 10) == "12";
  }

  // ---------- building a key in its buffer ----------

  function Power(base: nat, k: nat): nat { if k == 0 then 1 else base * Power(base, k - 1) }

  lemma {:induction false} DigitsLength(n: nat, base: nat, k: nat)
    requires base in {10, 16} && k > 0 && n < Power(base, k)
    ensures |Digits(n, base)| <= k
  {
    if n >= base {
      if base == 10 { assert n / 10 < Power(10, k - 1); } else { assert n / 16 < Power(16, k - 1); }
      DigitsLength(n / base, base, k - 1);
    }
  }

  lemma DecimalLength(n: int)
    requires -TWO31 <= n < TWO31
    ensures |Decimal(n)| <= 11
  {
    assert Power(10, 5) == 100000;
    assert Power(10, 10) == 100000 * 100000;
    DigitsLength(if n < 0 then -n else n, 10, 10);
  }

  lemma Power16()
    ensures Power(16, 16) == W
  {
    assert Power(16, 4) == 0x1_0000;
    assert Power(16, 8) == 0x1_0000 * Power(16, 4);
    assert Power(16, 12) == 0x1_0000 * Power(16, 8);
    assert Power(16, 16) == 0x1_0000 * Power(16, 12);
  }

  /** The key made of device and inode is never cut short either. */
  lemma InodeKeyFits(dev: word, ino: word)
    ensures |InodeKey(dev, ino)| <= 34 < 300
  {
    Power16();
    DigitsLength(dev, 16, 16);
    DigitsLength(ino, 16, 16);
  }

  /**
   file_key on a file with a handle: pad is the buffer behind the handle, and handleBytes
   its announced length. The guard against a full buffer never cuts a key short.
   */
  method BuildHandleKey(kind: int, pad: seq<byte>, handleBytes: nat) returns (out: string)
    requires -TWO31 <= kind < TWO31 && |pad| == 128
    ensures out == Key(Handle(kind, pad[..if handleBytes < 128 then handleBytes else 128]))
    ensures |out| < 300
  {
    DecimalLength(kind);
    out := "h" + (Decimal(kind) + ":");
    out := AppendHex(out, pad, handleBytes);
    HandleKeyHead(kind, pad[..if handleBytes < HANDLE_MAX then handleBytes else HANDLE_MAX]);
  }

  /** The loop of file_key: two characters a byte, while they surely fit. */
  method AppendHex(head: string, pad: seq<byte>, handleBytes: nat) returns (out: string)
    requires |head| <= 13 && |pad| == HANDLE_MAX
    ensures out == head + HexBytes(pad[..if handleBytes < HANDLE_MAX then handleBytes else HANDLE_MAX])
  {
    out := head;
    var i := 0;
    while i < handleBytes && i < HANDLE_MAX && |out| < KEY_CAP - 3
      invariant 0 <= i <= HANDLE_MAX && i <= handleBytes
      invariant out == head + HexBytes(pad[..i])
    {
      HexStep(head, pad, i);
      out := out + Hex2(pad[i]);
      i := i + 1;
    }
  }

  lemma HandleKeyHead(kind: int, bs: seq<byte>)
    ensures HandleKey(kind, bs) == "h" + (Decimal(kind) + ":") + HexBytes(bs)
  {
  }

  lemma HexStep(head: string, pad: seq<byte>, i: nat)
    requires i < |pad|
    ensures head + HexBytes(pad[..i]) + Hex2(pad[i]) == head + HexBytes(pad[..i + 1])
  {
    assert pad[..i + 1][..i] == pad[..i];
  }

  // ---------- the table of attached files ----------

  method Seen(table: seq<string>, key: string) returns (r: bool)
    ensures r <==> key in table
  {
    for i := 0 to |table|
      invariant key !in table[..i]
    {
      if table[i] == key { return true; }
    }
    return false;
  }

  const TABLE_CAP := 512

  /**
   The key of a libssl file the scan comes across, and whether a uprobe can be attached to
   it. A dry run records every file.
   */
  datatype Found = Found(key: string, link: bool)

  /**
   What scan remembers of what it finds, and how many files it counts as new; a table that is
   full by then ends it.
   */
  function Scanned(table: seq<string>, found: seq<Found>): (seq<string>, nat)
    decreases |found|
  {
    if found == [] then (table, 0)
    else
      var key := found[0].key;
      if key in table then Scanned(table, found[1..])
      else
        var t := if found[0].link then table + [key] else table;
        if |t| >= TABLE_CAP then (t, 1)
        else
          var (r, n) := Scanned(t, found[1..]);
          (r, n + 1)
  }

  lemma ScannedFrom(table: seq<string>, found: seq<Found>, i: nat, key: string)
    requires i < |found| && key == found[i].key
    ensures var t := if found[i].link then table + [key] else table;
            Scanned(table, found[i..]) ==
              if key in table then Scanned(table, found[i + 1..])
              else if |t| >= TABLE_CAP then (t, 1)
              else (Scanned(t, found[i + 1..]).0, Scanned(t, found[i + 1..]).1 + 1)
  {
    assert found[i..][1..] == found[i + 1..];
  }

  method Scan(table: seq<string>, found: seq<Found>) returns (r: seq<string>, new_: nat)
    ensures (r, new_) == Scanned(table, found)
  {
    r, new_ := table, 0;
    var i := 0;
    ghost var goal := Scanned(table, found);
    assert found[0..] == found;
    while i < |found|
      invariant 0 <= i <= |found| && goal.0 == Scanned(r, found[i..]).0 && goal.1 == new_ + Scanned(r, found[i..]).1
    {
      var key := found[i].key;
      ScannedFrom(r, found, i, key);
      var known := Seen(r, key);
      if !known {
        if found[i].link { r := r + [key]; }
        new_ := new_ + 1;
        if |r| >= TABLE_CAP { return; }
      }
      i := i + 1;
    }
  }

  /** The key is among those found, at a moment when its file could be attached to. */
  ghost predicate Linked(found: seq<Found>, key: string) {
    exists i :: 0 <= i < |found| && found[i] == Found(key, true)
  }

  lemma LinkedRest(found: seq<Found>, key: string)
    requires found != []
    ensures Linked(found, key) <==> found[0] == Found(key, true) || Linked(found[1..], key)
  {
    if Linked(found, key) && found[0] != Found(key, true) {
      var i :| 0 <= i < |found| && found[i] == Found(key, true);
      assert found[1..][i - 1] == Found(key, true);
    }
    if Linked(found[1..], key) {
      var i :| 0 <= i < |found[1..]| && found[1..][i] == Found(key, true);
      assert found[i + 1] == Found(key, true);
    }
  }

  /** What scan returns: how many times it met a file that was not in the table by then. */
  ghost function NewOnes(table: seq<string>, found: seq<Found>): set<nat> {
    set i: nat |
      && i < |found| && found[i].key !in table
      && forall j :: 0 <= j < i ==> found[j] != Found(found[i].key, true)
  }

  lemma NewOnesShift(table: seq<string>, t: seq<string>, found: seq<Found>)
    requires found != [] && t == if found[0].key !in table && found[0].link then table + [found[0].key] else table
    ensures NewOnes(table, found) ==
            (if found[0].key !in table then {0} else {}) + set i: nat | i in NewOnes(t, found[1..]) :: i + 1
  {
    var rest := found[1..];
    forall i: nat | 0 < i < |found| ensures i in NewOnes(table, found) <==> i - 1 in NewOnes(t, rest) {
      assert rest[i - 1] == found[i];
      if i in NewOnes(table, found) {
        assert found[0] != Found(found[i].key, true);
        forall j | 0 <= j < i - 1 ensures rest[j] != Found(rest[i - 1].key, true) { assert rest[j] == found[j + 1]; }
      }
      if i - 1 in NewOnes(t, rest) {
        forall j | 0 <= j < i ensures found[j] != Found(found[i].key, true) {
          if j > 0 { assert found[j] == rest[j - 1]; }
        }
      }
    }
    forall i: nat | i in NewOnes(table, found) && i > 0 ensures i in set k: nat | k in NewOnes(t, rest) :: k + 1 {
      assert i - 1 in NewOnes(t, rest);
    }
  }

  /**
   Unless the table fills up, the count is that number; a file that cannot be attached to
   counts whenever it is met.
   */
  lemma {:induction false} ScanCounts(table: seq<string>, found: seq<Found>)
    ensures |Scanned(table, found).0| < TABLE_CAP ==> Scanned(table, found).1 == |NewOnes(table, found)|
    decreases |found|
  {
    if found == [] {
      assert NewOnes(table, found) == {};
    } else {
      var t := if found[0].key !in table && found[0].link then table + [found[0].key] else table;
      ScanCounts(t, found[1..]);
      NewOnesShift(table, t, found);
      ShiftSize(NewOnes(t, found[1..]));
      assert 0 !in set i: nat | i in NewOnes(t, found[1..]) :: i + 1;
    }
  }

  lemma {:induction false} ShiftSize(s: set<nat>)
    ensures |set i: nat | i in s :: i + 1| == |s|
  {
    var r := set i: nat | i in s :: i + 1;
    if s == {} {
      assert r == {};
    } else {
      var x :| x in s;
      ShiftSize(s - {x});
      assert x + 1 in r;
      var q := set i: nat | i in s - {x} :: i + 1;
      forall y ensures y in r - {x + 1} <==> y in q {
        if y in r - {x + 1} { assert y - 1 in s - {x}; }
      }
      assert r - {x + 1} == q;
    }
  }

  /** Nothing is forgotten, and nothing is remembered twice. */
  lemma {:induction false} ScanDistinct(table: seq<string>, found: seq<Found>)
    requires Distinct(table)
    ensures table <= Scanned(table, found).0 && Distinct(Scanned(table, found).0)
    decreases |found|
  {
    if found != [] {
      var key := found[0].key;
      if key in table {
        ScanDistinct(table, found[1..]);
      } else {
        var t := if found[0].link then table + [key] else table;
        if found[0].link { DistinctAppend(table, key); }
        if |t| < TABLE_CAP { ScanDistinct(t, found[1..]); }
      }
    }
  }

  lemma {:induction false} ScanMember(table: seq<string>, found: seq<Found>, key: string)
    ensures key in Scanned(table, found).0 ==> key in table || Linked(found, key)
    ensures |Scanned(table, found).0| < TABLE_CAP ==>
              (key in Scanned(table, found).0 <==> key in table || Linked(found, key))
    decreases |found|
  {
    if found != [] {
      LinkedRest(found, key);
      if found[0].key in table {
        ScanMember(table, found[1..], key);
      } else {
        ScanMember(if found[0].link then table + [found[0].key] else table, found[1..], key);
      }
    }
  }

  /** The scan met file f at a moment when it could be attached to. */
  ghost predicate Met(files: seq<Identity>, found: seq<Found>, f: Identity)
    requires |files| == |found|
  {
    exists i :: 0 <= i < |files| && files[i] == f && found[i].link
  }

  /**
   However often and in whatever order files are met, over one scan from an empty table or
   from what earlier ones left: each is remembered at most once, and none that could not be
   attached to; and if the table does not fill up, every one that could be, is.
   */
  lemma AttachedOnce(table: seq<string>, files: seq<Identity>, found: seq<Found>)
    requires Distinct(table) && |files| == |found| && forall i :: 0 <= i < |files| ==> found[i].key == Key(files[i])
    ensures var t := Scanned(table, found).0;
            && Distinct(t) && table <= t
            && (forall f: Identity :: Key(f) in t ==> Key(f) in table || Met(files, found, f))
            && (|t| < TABLE_CAP ==> forall f: Identity :: Key(f) in table || Met(files, found, f) ==> Key(f) in t)
  {
    ScanDistinct(table, found);
    forall f: Identity
      ensures Key(f) in Scanned(table, found).0 ==> Key(f) in table || Met(files, found, f)
      ensures |Scanned(table, found).0| < TABLE_CAP && (Key(f) in table || Met(files, found, f)) ==>
                Key(f) in Scanned(table, found).0
    {
      ScanMember(table, found, Key(f));
      LinkedMet(files, found, f);
    }
  }

  /** A key stands for its file. */
  lemma LinkedMet(files: seq<Identity>, found: seq<Found>, f: Identity)
    requires |files| == |found| && forall i :: 0 <= i < |files| ==> found[i].key == Key(files[i])
    ensures Linked(found, Key(f)) <==> Met(files, found, f)
  {
    if Linked(found, Key(f)) {
      var i :| 0 <= i < |found| && found[i] == Found(Key(f), true);
      KeyInjective(f, files[i]);
    }
    if Met(files, found, f) {
      var i :| 0 <= i < |files| && files[i] == f && found[i].link;
      assert found[i] == Found(Key(f), true);
    }
  }

  /** The first file found that is not in the table. */
  function FirstNew(table: seq<string>, found: seq<Found>): Option<Found> {
    if found == [] then None
    else if found[0].key in table then FirstNew(table, found[1..])
    else Some(found[0])
  }

  /**
   The table has 512 entries, and its limit is looked at only after an entry was stored.
   So a scan stays within the table exactly when it starts with a free entry, or the first
   new file it meets cannot be attached to, or it meets none.
   */
  lemma {:induction false} ScanWithinTable(table: seq<string>, found: seq<Found>)
    requires |table| <= TABLE_CAP
    ensures |Scanned(table, found).0| <= TABLE_CAP <==>
            |table| < TABLE_CAP || (FirstNew(table, found).Some? ==> !FirstNew(table, found).value.link)
    decreases |found|
  {
    if found != [] {
      var key := found[0].key;
      if key in table {
        ScanWithinTable(table, found[1..]);
      } else {
        var t := if found[0].link then table + [key] else table;
        if |t| < TABLE_CAP { ScanWithinTable(t, found[1..]); }
      }
    }
  }

  function Keys(found: seq<Found>): seq<string> { seq(|found|, i requires 0 <= i < |found| => found[i].key) }

  /** New files that can all be attached to, as many as there is room for: the scan remembers them all, in order. */
  lemma {:induction false} ScanFills(table: seq<string>, found: seq<Found>)
    requires |table| + |found| <= TABLE_CAP && Distinct(Keys(found))
    requires forall i :: 0 <= i < |found| ==> found[i].link && found[i].key !in table
    ensures Scanned(table, found) == (table + Keys(found), |found|)
    decreases |found|
  {
    if found == [] {
      assert table + Keys(found) == table;
    } else {
      var t, rest := table + [found[0].key], found[1..];
      assert Keys(found) == [found[0].key] + Keys(rest);
      forall i | 0 <= i < |rest| ensures rest[i].link && rest[i].key !in t {
        assert Keys(found)[0] != Keys(found)[i + 1];
      }
      assert Distinct(Keys(rest)) by {
        forall i, j | 0 <= i < j < |rest| ensures Keys(rest)[i] != Keys(rest)[j] {
          assert Keys(found)[i + 1] != Keys(found)[j + 1];
        }
      }
      ScanFills(t, rest);
      assert t + Keys(rest) == table + Keys(found);
      if rest == [] { assert t == table + Keys(found); }
    }
  }

  /** 512 different files fill the table, and the next scan that meets a new one stores a 513th entry. */
  lemma ScanOverfills(fs: seq<Found>, g: Found)
    requires |fs| == 512 && Distinct(Keys(fs)) && (forall i :: 0 <= i < |fs| ==> fs[i].link)
    requires g.link && g.key !in Keys(fs)
    ensures var t := Scanned([], fs).0; t == Keys(fs) && |Scanned(t, [g]).0| == 513
  {
    ScanFills([], fs);
    assert [] + Keys(fs) == Keys(fs);
  }

  /** Such files there are: 513 inodes of one device. */
  lemma ScanLeavesTable()
    ensures var fs := seq(TABLE_CAP, i requires 0 <= i < TABLE_CAP => Found(Key(Inode(0, i)), true));
            |Scanned(Scanned([], fs).0, [Found(Key(Inode(0, TABLE_CAP)), true)]).0| == TABLE_CAP + 1
  {
    var fs := seq(TABLE_CAP, i requires 0 <= i < TABLE_CAP => Found(Key(Inode(0, i)), true));
    var g := Found(Key(Inode(0, TABLE_CAP)), true);
    var ks := Keys(fs);
    forall i, j | 0 <= i < j < |ks| ensures ks[i] != ks[j] { KeyInjective(Inode(0, i), Inode(0, j)); }
    forall i | 0 <= i < |ks| ensures ks[i] != g.key { KeyInjective(Inode(0, i), Inode(0, TABLE_CAP)); }
    ScanOverfills(fs, g);
  }
}

/**
 Symbol resolution: pick a library among the parsed lines of /proc/pid/maps, look the
 symbol up in its dynamic symbol table, and turn the value into a runtime address.
 */
module Symbols {
  import opened Bytes
  import opened Words

  const PT_LOAD := 1
  const SHT_DYNSYM := 11
  const SHN_UNDEF := 0

  // ---------- choosing the library ----------

  /** A line of the map that parsed completely. */
  datatype MapLine = MapLine(start: word, offset: word, path: string)

  predicate OccursAt(s: string, t: string, i: nat) { i + |t| <= |s| && s[i..i + |t|] == t }

  /** strstr finds t in s. */
  predicate Contains(s: string, t: string) {
    exists i :: 0 <= i <= |s| && OccursAt(s, t, i)
  }

  predicate Match(l: MapLine, lib: string) {
    l.path != [] && l.path[0] == '/' && Contains(l.path, lib)
  }

  /** A line matches exactly when its path is absolute and has the library's name in it. */
  lemma MatchMeans(l: MapLine, lib: string)
    ensures Match(l, lib) <==> "/" <= l.path && exists a: string, b: string :: l.path == a + lib + b
  {
    if Match(l, lib) {
      var i :| 0 <= i <= |l.path| && OccursAt(l.path, lib, i);
      assert l.path == l.path[..i] + lib + l.path[i + |lib|..];
    }
    if exists a: string, b: string :: l.path == a + lib + b {
      var a: string, b: string :| l.path == a + lib + b;
      assert OccursAt(l.path, lib, |a|);
    }
  }

  predicate Match0(l: MapLine, lib: string) { Match(l, lib) && l.offset == 0 }

  /** Index i is the first, or the last, line of the first n that maps the library at file offset 0. */
  ghost predicate First0(lines: seq<MapLine>, lib: string, n: nat, i: nat) {
    i < n <= |lines| && Match0(lines[i], lib) && forall j :: 0 <= j < i ==> !Match0(lines[j], lib)
  }

  ghost predicate Last0(lines: seq<MapLine>, lib: string, n: nat, i: nat) {
    i < n <= |lines| && Match0(lines[i], lib) && forall j :: i < j < n ==> !Match0(lines[j], lib)
  }

  /** Index i is the matching line with the lowest start, the first of them. */
  ghost predicate Lowest(lines: seq<MapLine>, lib: string, n: nat, i: nat) {
    && i < n <= |lines| && Match(lines[i], lib)
    && forall j :: 0 <= j < n && Match(lines[j], lib) ==>
         lines[i].start <= lines[j].start && (j < i ==> lines[i].start < lines[j].start)
  }

  /** What the selection loop has after n lines: base from line b, path from line p. */
  ghost predicate Chosen(lines: seq<MapLine>, lib: string, n: nat, b: nat, p: nat) {
    && n <= |lines|
    && if exists i :: 0 <= i < n && Match0(lines[i], lib) then Last0(lines, lib, n, b) && First0(lines, lib, n, p)
       else Lowest(lines, lib, n, b) && b == p
  }

  /** The chosen lines as a function of the first n lines: where the base comes from, and the path. */
  function ChosenLines(lines: seq<MapLine>, lib: string, n: nat): (r: Option<(nat, nat)>)
    requires n <= |lines|
    ensures r.Some? ==> r.value.0 < n && r.value.1 < n
  {
    if n == 0 then None
    else
      var prev, l := ChosenLines(lines, lib, n - 1), lines[n - 1];
      if !Match(l, lib) then prev
      else if prev.None? then Some((n - 1, n - 1))
      else
        var (b, p) := prev.value;
        if l.offset == 0 then Some((n - 1, if lines[p].offset == 0 then p else n - 1))
        else if lines[p].offset != 0 && l.start < lines[b].start then Some((n - 1, n - 1))
        else prev
  }

  lemma {:induction false} ChosenLinesExact(lines: seq<MapLine>, lib: string, n: nat)
    requires n <= |lines|
    ensures var r := ChosenLines(lines, lib, n);
            && (r.Some? <==> exists i :: 0 <= i < n && Match(lines[i], lib))
            && (r.Some? ==> Chosen(lines, lib, n, r.value.0, r.value.1))
  {
    if n > 0 {
      ChosenLinesExact(lines, lib, n - 1);
      var prev := ChosenLines(lines, lib, n - 1);
      if !Match(lines[n - 1], lib) {
        if prev.Some? { ChosenSkip(lines, lib, n, prev.value.0, prev.value.1); }
      } else if prev.Some? {
        ChosenStep(lines, lib, n, prev.value.0, prev.value.1);
      } else {
        ChosenAlone(lines, lib, n);
      }
    }
  }

  lemma ChosenSkip(lines: seq<MapLine>, lib: string, n: nat, b: nat, p: nat)
    requires 0 < n <= |lines| && Chosen(lines, lib, n - 1, b, p) && !Match(lines[n - 1], lib)
    ensures Chosen(lines, lib, n, b, p)
  {
  }

  lemma ChosenAlone(lines: seq<MapLine>, lib: string, n: nat)
    requires 0 < n <= |lines| && Match(lines[n - 1], lib) && forall i :: 0 <= i < n - 1 ==> !Match(lines[i], lib)
    ensures Chosen(lines, lib, n, n - 1, n - 1)
  {
  }

  /** One more matching line, and what becomes of the choice. */
  lemma ChosenStep(lines: seq<MapLine>, lib: string, n: nat, b: nat, p: nat)
    requires 0 < n <= |lines| && Chosen(lines, lib, n - 1, b, p) && Match(lines[n - 1], lib)
    ensures var l := lines[n - 1];
            if l.offset == 0 then Chosen(lines, lib, n, n - 1, if lines[p].offset == 0 then p else n - 1)
            else if lines[p].offset != 0 && l.start < lines[b].start then Chosen(lines, lib, n, n - 1, n - 1)
            else Chosen(lines, lib, n, b, p)
  {
    if lines[n - 1].offset == 0 { assert Match0(lines[n - 1], lib); }
  }

  datatype Library = Library(base: word, path: string)

  /**
   find_library. With a line at offset 0: the base of the last such line and the path of
   the first. Without: the lowest line for both. Nothing if no line matches.
   */
  method FindLibrary(lines: seq<MapLine>, lib: string) returns (r: Option<Library>, ghost b: nat, ghost p: nat)
    ensures r.None? <==> forall i :: 0 <= i < |lines| ==> !Match(lines[i], lib)
    ensures r.Some? ==> Chosen(lines, lib, |lines|, b, p) && r == Some(Library(lines[b].start, lines[p].path))
  {
    var found, haveOff0 := false, false;
    var base: word, path := 0, "";
    b, p := 0, 0;
    for n := 0 to |lines|
      invariant found <==> exists i :: 0 <= i < n && Match(lines[i], lib)
      invariant haveOff0 <==> exists i :: 0 <= i < n && Match0(lines[i], lib)
      invariant found ==> Chosen(lines, lib, n, b, p) && base == lines[b].start && path == lines[p].path
    {
      var l := lines[n];
      if Match(l, lib) {
        if !found || (l.offset == 0 && !haveOff0) || (l.start < base && !haveOff0) {
          base, path, b, p := l.start, l.path, n, n;
        }
        if l.offset == 0 {
          base, haveOff0, b := l.start, true, n;
        }
        found := true;
      }
    }
    r := if found then Some(Library(base, path)) else None;
  }

  /** At most one matching line has file offset 0. */
  ghost predicate OneOff0(lines: seq<MapLine>, lib: string) {
    forall i, j :: 0 <= i < j < |lines| ==> !(Match0(lines[i], lib) && Match0(lines[j], lib))
  }

  /** Base and path come from the same line exactly when at most one matching line has offset 0. */
  lemma SameLineExactly(lines: seq<MapLine>, lib: string, b: nat, p: nat)
    requires Chosen(lines, lib, |lines|, b, p)
    ensures b == p <==> OneOff0(lines, lib)
  {
    if exists i :: 0 <= i < |lines| && Match0(lines[i], lib) {
      if b != p { assert Match0(lines[p], lib) && Match0(lines[b], lib); }
    }
  }

  // ---------- the dynamic symbol table ----------

  datatype Phdr = Phdr(kind: nat, offset: word, vaddr: word)
  datatype Sym = Sym(name: string, shndx: nat, value: word)
  datatype Shdr = Shdr(kind: nat, entsize: nat, syms: seq<Sym>)

  /** A parsed image; elf64 says that magic and class are right. */
  datatype Image = Image(elf64: bool, phdrs: seq<Phdr>, shdrs: seq<Shdr>)

  predicate Base(h: Phdr) { h.kind == PT_LOAD && h.offset == 0 }
  predicate Defines(s: Sym, name: string) { s.shndx != SHN_UNDEF && s.value != 0 && s.name == name }

  /** The address at which the segment at file offset 0 asks to be loaded; 0 if there is none. */
  function BaseVaddr(phdrs: seq<Phdr>): word {
    if phdrs == [] then 0 else if Base(phdrs[0]) then phdrs[0].vaddr else BaseVaddr(phdrs[1..])
  }

  /** The entries of the first dynamic symbol section; none if its entry size is 0. */
  function Dynsym(shdrs: seq<Shdr>): Option<seq<Sym>> {
    if shdrs == [] then None
    else if shdrs[0].kind == SHT_DYNSYM then Some(if shdrs[0].entsize != 0 then shdrs[0].syms else [])
    else Dynsym(shdrs[1..])
  }

  /** The value of the first entry that defines the name; 0, which no definition has, if there is none. */
  function ValueOf(syms: seq<Sym>, name: string): (r: word)
    ensures r != 0 <==> exists i :: 0 <= i < |syms| && Defines(syms[i], name)
  {
    if syms == [] then 0
    else if Defines(syms[0], name) then syms[0].value
    else ValueOf(syms[1..], name)
  }

  /** Entries that are undefined, zero or named otherwise do not count, and of the others the first does. */
  lemma {:induction false} ValueOfFirst(syms: seq<Sym>, name: string, i: nat)
    requires i < |syms| && Defines(syms[i], name) && forall j :: 0 <= j < i ==> !Defines(syms[j], name)
    ensures ValueOf(syms, name) == syms[i].value
  {
    if i > 0 { ValueOfFirst(syms[1..], name, i - 1); }
  }

  function SymbolValue(img: Image, name: string): word {
    if !img.elf64 || Dynsym(img.shdrs).None? then 0 else ValueOf(Dynsym(img.shdrs).value, name)
  }

  /** Index i is the first for which the test holds. */
  ghost predicate IsFirst<T(!new)>(s: seq<T>, test: T -> bool, i: nat) {
    i < |s| && test(s[i]) && forall j :: 0 <= j < i ==> !test(s[j])
  }

  /** The address that is subtracted is that of the first loadable segment at file offset 0. */
  lemma {:induction false} BaseVaddrFirst(phdrs: seq<Phdr>, i: nat)
    requires i <= |phdrs| && (forall j :: 0 <= j < i ==> !(phdrs[j].kind == 1 && phdrs[j].offset == 0))
    ensures i < |phdrs| && phdrs[i].kind == 1 && phdrs[i].offset == 0 ==> BaseVaddr(phdrs) == phdrs[i].vaddr
    ensures i == |phdrs| ==> BaseVaddr(phdrs) == 0
  {
    if i > 0 { BaseVaddrFirst(phdrs[1..], i - 1); }
  }

  /** The symbols are those of the first section of type 11, wherever it is. */
  lemma {:induction false} DynsymFirst(shdrs: seq<Shdr>, i: nat)
    requires i <= |shdrs| && (forall j :: 0 <= j < i ==> shdrs[j].kind != 11)
    ensures i < |shdrs| && shdrs[i].kind == 11 ==>
              Dynsym(shdrs) == Some(if shdrs[i].entsize == 0 then [] else shdrs[i].syms)
    ensures i == |shdrs| ==> Dynsym(shdrs) == None
  {
    if i > 0 { DynsymFirst(shdrs[1..], i - 1); }
  }

  /** A defined symbol of this name, in the sense of the symbol table. */
  predicate Definition(s: Sym, name: string) { s.shndx != 0 && s.value != 0 && s.name == name }

  /** Entry k of section i: the first definition of the name in the first section of dynamic symbols. */
  ghost predicate FirstDefinition(img: Image, name: string, i: nat, k: nat) {
    && img.elf64
    && i < |img.shdrs| && img.shdrs[i].kind == 11 && (forall j :: 0 <= j < i ==> img.shdrs[j].kind != 11)
    && img.shdrs[i].entsize != 0 && IsFirst(img.shdrs[i].syms, (s: Sym) => Definition(s, name), k)
  }

  /** The value of a name is that of its first definition, and it has one exactly when there is a definition. */
  lemma SymbolExact(img: Image, name: string)
    ensures forall i: nat, k: nat :: FirstDefinition(img, name, i, k) ==>
              SymbolValue(img, name) == img.shdrs[i].syms[k].value
    ensures SymbolValue(img, name) != 0 <==> exists i: nat, k: nat :: FirstDefinition(img, name, i, k)
  {
    forall i: nat, k: nat | FirstDefinition(img, name, i, k)
      ensures SymbolValue(img, name) == img.shdrs[i].syms[k].value
    {
      DynsymFirst(img.shdrs, i);
      var syms := img.shdrs[i].syms;
      assert forall j :: 0 <= j < |syms| ==> (Defines(syms[j], name) <==> Definition(syms[j], name));
      ValueOfFirst(syms, name, k);
    }
    if SymbolValue(img, name) != 0 {
      var i := DynsymAt(img.shdrs);
      DynsymFirst(img.shdrs, i);
      var k := FirstOf(img.shdrs[i].syms, (s: Sym) => Definition(s, name));
      assert FirstDefinition(img, name, i, k);
    }
  }

  lemma {:induction false} DynsymAt(shdrs: seq<Shdr>) returns (i: nat)
    requires Dynsym(shdrs).Some?
    ensures i < |shdrs| && shdrs[i].kind == 11 && forall j :: 0 <= j < i ==> shdrs[j].kind != 11
  {
    i := 0;
    if shdrs[0].kind != 11 {
      var k := DynsymAt(shdrs[1..]);
      i := k + 1;
      forall j | 0 <= j < i ensures shdrs[j].kind != 11 {
        if j > 0 { assert shdrs[1..][j - 1] == shdrs[j]; }
      }
    }
  }

  lemma {:induction false} FirstOf<T(!new)>(s: seq<T>, test: T -> bool) returns (i: nat)
    requires exists j :: 0 <= j < |s| && test(s[j])
    ensures IsFirst(s, test, i)
  {
    i := 0;
    if !test(s[0]) {
      assert exists j :: 0 <= j < |s[1..]| && test(s[1..][j]) by {
        var j :| 0 <= j < |s| && test(s[j]);
        assert s[1..][j - 1] == s[j];
      }
      var k := FirstOf(s[1..], test);
      i := k + 1;
      forall j | 0 <= j < i ensures !test(s[j]) {
        if j > 0 { assert s[1..][j - 1] == s[j]; }
      }
    }
  }

  method FindBase(phdrs: seq<Phdr>) returns (vaddr: word)
    ensures vaddr == BaseVaddr(phdrs)
  {
    var i := 0;
    while i < |phdrs|
      invariant 0 <= i <= |phdrs| && BaseVaddr(phdrs) == BaseVaddr(phdrs[i..])
    {
      assert phdrs[i..][1..] == phdrs[i + 1..];
      if Base(phdrs[i]) { return phdrs[i].vaddr; }
      i := i + 1;
    }
    return 0;
  }

  method FindDynsym(shdrs: seq<Shdr>) returns (syms: Option<seq<Sym>>)
    ensures syms == Dynsym(shdrs)
  {
    var i := 0;
    while i < |shdrs|
      invariant 0 <= i <= |shdrs| && Dynsym(shdrs) == Dynsym(shdrs[i..])
    {
      assert shdrs[i..][1..] == shdrs[i + 1..];
      if shdrs[i].kind == SHT_DYNSYM { return Some(if shdrs[i].entsize != 0 then shdrs[i].syms else []); }
      i := i + 1;
    }
    return None;
  }

  method FindValue(syms: seq<Sym>, name: string) returns (ok: bool, value: word)
    ensures value == ValueOf(syms, name) && ok == (value != 0)
  {
    var i := 0;
    while i < |syms|
      invariant 0 <= i <= |syms| && ValueOf(syms, name) == ValueOf(syms[i..], name)
    {
      assert syms[i..][1..] == syms[i + 1..];
      var s := syms[i];
      if s.shndx != SHN_UNDEF && s.value != 0 && s.name == name { return true, s.value; }
      i := i + 1;
    }
    return false, 0;
  }

  /** dynsym_lookup: three loops, over segments, sections and symbols. */
  method DynsymLookup(img: Image, name: string) returns (ok: bool, value: word, baseVaddr: word)
    ensures ok == (SymbolValue(img, name) != 0)
    ensures ok ==> value == SymbolValue(img, name) && baseVaddr == BaseVaddr(img.phdrs)
  {
    ok, value, baseVaddr := false, 0, 0;
    if !img.elf64 { return; }
    baseVaddr := FindBase(img.phdrs);
    var syms := FindDynsym(img.shdrs);
    if syms.None? { return; }
    ok, value := FindValue(syms.value, name);
  }

  // ---------- resolution ----------

  /** The file behind a path, in the target's namespace or ours; None if it cannot be mapped. */
  type Files = string -> Option<Image>

  /** The address for a symbol whose library is mapped at base from the image. */
  function Address(base: word, img: Image, name: string): word {
    Wrap(base - BaseVaddr(img.phdrs) + SymbolValue(img, name))
  }

  /** The address from the line that gave the base and the line that named the file; 0 without image or definition. */
  function AddressFrom(base: MapLine, named: MapLine, files: Files, name: string): word {
    match files(named.path)
    case None => 0
    case Some(img) => if SymbolValue(img, name) == 0 then 0 else Address(base.start, img, name)
  }

  method ResolveSymbol(lines: seq<MapLine>, files: Files, lib: string, name: string)
    returns (r: word, ghost b: nat, ghost p: nat)
    ensures (forall i :: 0 <= i < |lines| ==> !Match(lines[i], lib)) ==> r == 0
    ensures (exists i :: 0 <= i < |lines| && Match(lines[i], lib)) ==>
              Chosen(lines, lib, |lines|, b, p) && r == AddressFrom(lines[b], lines[p], files, name)
  {
    r := 0;
    var found;
    found, b, p := FindLibrary(lines, lib);
    if found.None? { return; }
    var img := files(found.value.path);
    if img.None? { return; }
    var ok, value, vaddr := DynsymLookup(img.value, name);
    if !ok { return; }
    r := Wrap(found.value.base - vaddr + value);
  }

  /** What is seen of a target when one of its symbols is resolved: its map, and the files that map names. */
  datatype View = View(lines: seq<MapLine>, files: Files)

  ghost predicate NoMatch(lines: seq<MapLine>, lib: string) {
    forall i :: 0 <= i < |lines| ==> !Match(lines[i], lib)
  }

  /** What resolving a name in a library gives; 0 if it cannot be resolved. */
  function Resolution(v: View, lib: string, name: string): word {
    match ChosenLines(v.lines, lib, |v.lines|)
    case None => 0
    case Some((b, p)) => AddressFrom(v.lines[b], v.lines[p], v.files, name)
  }

  /** The chosen lines are determined by the map. */
  lemma ChosenOnce(lines: seq<MapLine>, lib: string, n: nat, b: nat, p: nat, c: nat, q: nat)
    requires Chosen(lines, lib, n, b, p) && Chosen(lines, lib, n, c, q)
    ensures b == c && p == q
  {
  }

  lemma ResolutionFrom(v: View, lib: string, name: string, b: nat, p: nat)
    requires Chosen(v.lines, lib, |v.lines|, b, p)
    ensures Resolution(v, lib, name) == AddressFrom(v.lines[b], v.lines[p], v.files, name)
  {
    assert Match(v.lines[b], lib);
    ChosenLinesExact(v.lines, lib, |v.lines|);
    var (c, q) := ChosenLines(v.lines, lib, |v.lines|).value;
    ChosenOnce(v.lines, lib, |v.lines|, b, p, c, q);
  }

  method Resolve(v: View, lib: string, name: string) returns (r: word)
    ensures r == Resolution(v, lib, name)
  {
    ghost var b, p;
    r, b, p := ResolveSymbol(v.lines, v.files, lib, name);
    if NoMatch(v.lines, lib) {
      ChosenLinesExact(v.lines, lib, |v.lines|);
    } else {
      ResolutionFrom(v, lib, name, b, p);
    }
  }

  /** The image is loaded at this bias, as seen by a line that maps it from file offset 0. */
  ghost predicate LoadedAt(l: MapLine, files: Files, img: Image, bias: word) {
    files(l.path) == Some(img) && l.offset == 0 && l.start == Wrap(bias + BaseVaddr(img.phdrs))
  }

  /** The base that the loader chose cancels the segment's own address: bias plus value, modulo 2^64. */
  lemma AddressIsBiased(bias: word, img: Image, name: string)
    ensures Address(Wrap(bias + BaseVaddr(img.phdrs)), img, name) == Wrap(bias + SymbolValue(img, name))
  {
    var v, s := BaseVaddr(img.phdrs), SymbolValue(img, name);
    WrapOnce(bias + v);
    WrapOnce(bias + s);
    WrapOnce(Wrap(bias + v) - v + s);
  }

  /**
   Whatever resolution returns, it is right for every library loaded at any bias with one
   offset-0 line: bias plus the value of the first definition of the name.
   */
  lemma ResolvesAtBias(lines: seq<MapLine>, files: Files, lib: string, name: string, b: nat, p: nat, i: nat,
                       img: Image, bias: word)
    requires Chosen(lines, lib, |lines|, b, p) && OneOff0(lines, lib)
    requires i < |lines| && Match(lines[i], lib) && LoadedAt(lines[i], files, img, bias)
    ensures b == i == p && Address(lines[b].start, img, name) == Wrap(bias + SymbolValue(img, name))
  {
    assert Match0(lines[i], lib);
    SameLineExactly(lines, lib, b, p);
    AddressIsBiased(bias, img, name);
  }

  /**
   An address computed from any base word is the right one exactly when that base is where
   the loader put the image.
   */
  lemma AddressRight(base: word, bias: word, img: Image, name: string)
    ensures Address(base, img, name) == Wrap(bias + SymbolValue(img, name)) <==>
              base == Wrap(bias + BaseVaddr(img.phdrs))
  {
    AddressIsBiased(bias, img, name);
    AddressInjective(base, Wrap(bias + BaseVaddr(img.phdrs)), img, name);
  }

  /**
   For every map, and whatever lines were chosen: the address is the load bias plus the
   value exactly when the line that gave the base starts where the loader put the start of
   the image that the other line names.
   */
  lemma ResolvesExactly(lines: seq<MapLine>, files: Files, lib: string, name: string, b: nat, p: nat, img: Image,
                        bias: word)
    requires Chosen(lines, lib, |lines|, b, p) && files(lines[p].path) == Some(img)
    ensures Address(lines[b].start, img, name) == Wrap(bias + SymbolValue(img, name)) <==>
            lines[b].start == Wrap(bias + BaseVaddr(img.phdrs))
  {
    AddressRight(lines[b].start, bias, img, name);
  }

  /**
   With several versions of a library mapped at offset 0, the address mixes them: the table
   of the first with the base of the last. It is the right one exactly when those two lines
   start at the same place, which is one line if only one has offset 0.
   */
  lemma LibrariesMix(lines: seq<MapLine>, files: Files, lib: string, name: string, b: nat, p: nat, img: Image,
                     bias: word)
    requires Chosen(lines, lib, |lines|, b, p) && LoadedAt(lines[p], files, img, bias)
    ensures Address(lines[b].start, img, name) == Wrap(bias + SymbolValue(img, name)) <==>
              lines[b].start == lines[p].start
    ensures OneOff0(lines, lib) <==> b == p
  {
    SameLineExactly(lines, lib, b, p);
    ResolvesExactly(lines, files, lib, name, b, p, img, bias);
  }

  /** Two versions mapped at different places: the address is wrong. */
  lemma TwoLibrariesMix(lib: string, x: MapLine, y: MapLine, b: nat, p: nat, img: Image, bias: word, name: string,
                        files: Files)
    requires Match0(x, lib) && Match0(y, lib) && x.start != y.start
    requires LoadedAt(x, files, img, bias) && Chosen([x, y], lib, 2, b, p)
    ensures b == 1 && p == 0 && Address(y.start, img, name) != Wrap(bias + SymbolValue(img, name))
  {
    var lines := [x, y];
    assert Match0(lines[0], lib) && Match0(lines[1], lib);
    LibrariesMix(lines, files, lib, name, b, p, img, bias);
  }

  /**
   What resolution gives, for every map that has the library: if the named file defines the
   symbol, the load bias plus its value exactly when the base line starts where the loader
   put the start of that file.
   */
  lemma ResolvedRight(v: View, lib: string, name: string, b: nat, p: nat, img: Image, bias: word)
    requires Chosen(v.lines, lib, |v.lines|, b, p)
    requires v.files(v.lines[p].path) == Some(img) && SymbolValue(img, name) != 0
    ensures Resolution(v, lib, name) == Wrap(bias + SymbolValue(img, name)) <==>
            v.lines[b].start == Wrap(bias + BaseVaddr(img.phdrs))
  {
    ResolutionFrom(v, lib, name, b, p);
    ResolvesExactly(v.lines, v.files, lib, name, b, p, img, bias);
  }

  /**
   A whole lookup, in terms of the file: if entry k of section i is the first definition of
   the name, and the base line starts where the loader put segment h, the first loadable one
   at file offset 0, then the result is the load bias plus the value of that entry.
   */
  lemma ResolvesDefinition(v: View, lib: string, name: string, b: nat, p: nat, img: Image, bias: word, h: nat, i: nat,
                           k: nat)
    requires Chosen(v.lines, lib, |v.lines|, b, p) && v.files(v.lines[p].path) == Some(img)
    requires FirstDefinition(img, name, i, k)
    requires h < |img.phdrs| && img.phdrs[h].kind == 1 && img.phdrs[h].offset == 0
    requires forall j :: 0 <= j < h ==> !(img.phdrs[j].kind == 1 && img.phdrs[j].offset == 0)
    requires v.lines[b].start == Wrap(bias + img.phdrs[h].vaddr)
    ensures Resolution(v, lib, name) == Wrap(bias + img.shdrs[i].syms[k].value)
  {
    BaseVaddrFirst(img.phdrs, h);
    SymbolExact(img, name);
    ResolvedRight(v, lib, name, b, p, img, bias);
  }

  /** And 0 is the result when no line matches, the file cannot be mapped, or it has no definition of the name. */
  lemma ResolvesNothing(v: View, lib: string, name: string, b: nat, p: nat)
    requires NoMatch(v.lines, lib) || Chosen(v.lines, lib, |v.lines|, b, p)
    requires NoMatch(v.lines, lib) || v.files(v.lines[p].path) == None
             || forall i: nat, k: nat :: !FirstDefinition(v.files(v.lines[p].path).value, name, i, k)
    ensures Resolution(v, lib, name) == 0
  {
    if NoMatch(v.lines, lib) {
      ChosenLinesExact(v.lines, lib, |v.lines|);
    } else {
      ResolutionFrom(v, lib, name, b, p);
      if v.files(v.lines[p].path).Some? { SymbolExact(v.files(v.lines[p].path).value, name); }
    }
  }

  function PageDown(x: word): word { x - x % 4096 }

  /** The line maps this segment of the image, loaded at this bias; mappings begin on a page. */
  ghost predicate MapsSegment(l: MapLine, files: Files, img: Image, h: Phdr, bias: word) {
    && files(l.path) == Some(img) && h in img.phdrs && h.kind == PT_LOAD
    && l.offset == PageDown(h.offset) && l.start == Wrap(bias + PageDown(h.vaddr))
  }

  /**
   If base and path come from one line, whichever segment it maps: the address is right
   exactly when that segment starts, to the page, at the address the code subtracts, that of
   the segment at file offset 0, or 0 if there is none.
   */
  lemma OneLineExactly(lines: seq<MapLine>, files: Files, lib: string, name: string, b: nat, h: Phdr, img: Image,
                       bias: word)
    requires Chosen(lines, lib, |lines|, b, b) && MapsSegment(lines[b], files, img, h, bias)
    ensures Address(lines[b].start, img, name) == Wrap(bias + SymbolValue(img, name)) <==>
            PageDown(h.vaddr) == BaseVaddr(img.phdrs)
  {
    ResolvesExactly(lines, files, lib, name, b, b, img, bias);
    WrapOnce(bias + PageDown(h.vaddr));
    WrapOnce(bias + BaseVaddr(img.phdrs));
  }

  /** So it is in the fallback: without a line at offset 0 the lowest one is used for both. */
  lemma FallbackExactly(lines: seq<MapLine>, files: Files, lib: string, name: string, b: nat, p: nat, h: Phdr,
                        img: Image, bias: word)
    requires Chosen(lines, lib, |lines|, b, p) && (forall i :: 0 <= i < |lines| ==> !Match0(lines[i], lib))
    requires MapsSegment(lines[b], files, img, h, bias)
    ensures b == p
    ensures Address(lines[b].start, img, name) == Wrap(bias + SymbolValue(img, name)) <==>
            PageDown(h.vaddr) == BaseVaddr(img.phdrs)
  {
    OneLineExactly(lines, files, lib, name, b, h, img, bias);
  }

  /**
   A library of which only the second segment is mapped: one line, so base and path agree,
   and the address is wrong.
   */
  lemma FallbackWrong(b: nat, p: nat)
    requires Chosen([MapLine(0x7000_1000, 0x1000, "/libssl.so")], "libssl.so", 1, b, p)
    ensures var text := Phdr(PT_LOAD, 0x1000, 0x1000);
            var img := Image(true, [Phdr(PT_LOAD, 0, 0), text],
                [Shdr(SHT_DYNSYM, 24, [Sym("SSL_connect", 1, 0x1234)])]);
            var l := MapLine(0x7000_1000, 0x1000, "/libssl.so");
            && Match(l, "libssl.so") && b == p == 0
            && MapsSegment(l, _ => Some(img), img, text, 0x7000_0000)
            && SymbolValue(img, "SSL_connect") == 0x1234
            && Address(l.start, img, "SSL_connect") == 0x7000_2234 != Wrap(0x7000_0000 + 0x1234)
  {
    var text := Phdr(PT_LOAD, 0x1000, 0x1000);
    var syms := [Sym("SSL_connect", 1, 0x1234)];
    var img := Image(true, [Phdr(PT_LOAD, 0, 0), text], [Shdr(SHT_DYNSYM, 24, syms)]);
    assert OccursAt("/libssl.so", "libssl.so", 1);
    ValueOfFirst(syms, "SSL_connect", 0);
    assert img.phdrs[1] == text;
    WrapOnce(0x7000_2234);
    WrapOnce(0x7000_1234);
  }

  /** One line at offset 0, mapping a segment that begins inside the first page: the address is wrong as well. */
  lemma FirstPageWrong(b: nat, p: nat)
    requires Chosen([MapLine(0x7040_0000, 0, "/libssl.so")], "libssl.so", 1, b, p)
    ensures var text := Phdr(PT_LOAD, 0x200, 0x40_0200);
            var img := Image(true, [text], [Shdr(SHT_DYNSYM, 24, [Sym("SSL_connect", 1, 0x40_1234)])]);
            var l := MapLine(0x7040_0000, 0, "/libssl.so");
            && Match0(l, "libssl.so") && b == p == 0
            && MapsSegment(l, _ => Some(img), img, text, 0x7000_0000)
            && SymbolValue(img, "SSL_connect") == 0x40_1234
            && Address(l.start, img, "SSL_connect") == 0x7080_1234 != Wrap(0x7000_0000 + 0x40_1234)
  {
    var text := Phdr(PT_LOAD, 0x200, 0x40_0200);
    var syms := [Sym("SSL_connect", 1, 0x40_1234)];
    var img := Image(true, [text], [Shdr(SHT_DYNSYM, 24, syms)]);
    assert OccursAt("/libssl.so", "libssl.so", 1);
    ValueOfFirst(syms, "SSL_connect", 0);
    assert img.phdrs[0] == text && img.phdrs[1..] == [] && BaseVaddr(img.phdrs) == 0;
    assert PageDown(0x200) == 0 && PageDown(0x40_0200) == 0x40_0000;
    assert Match0(MapLine(0x7040_0000, 0, "/libssl.so"), "libssl.so");
    WrapOnce(0x7080_1234);
    WrapOnce(0x7040_1234);
  }

  lemma AddressInjective(a: word, c: word, img: Image, name: string)
    ensures Address(a, img, name) == Address(c, img, name) <==> a == c
  {
    var d := SymbolValue(img, name) - BaseVaddr(img.phdrs);
    WrapOnce(a + d);
    WrapOnce(c + d);
  }
}

/** ELF files as section 1 of the System V ABI's object file format lays them out: a header, a
    table of section headers and the sections' contents. Loading the file of a program gives a
    space the program's sections. */
module ElfImage {
  import opened PhysicalMemory
  import opened PageTables
  import opened Mapping
  import opened UserCopy
  import HardwareWalk
  import PagePool
  import Elf

  /** A section: its data in the file, and size, which NOBITS sections have without any. rest
      is the end of its header: link, info, alignment and entry size. */
  datatype Part = Part(name: int, kind: int, flags: int, addr: int, size: int, data: seq<Byte>, rest: seq<Byte>)

  /** A program, with the fields of the header that do not matter here as bytes: from behind
      the magic to the entry point, the program header offset, from the flags to the size of a
      section header, and the index of the name table. */
  datatype Program = Program(entry: int, parts: seq<Part>, head: seq<Byte>, phoff: seq<Byte>, middle: seq<Byte>, names: seq<Byte>)

  function Le16(v: int): (s: seq<Byte>)
    ensures |s| == 2
  {
    [v % 0x100, v / 0x100 % 0x100]
  }

  function Le32(v: int): (s: seq<Byte>)
    ensures |s| == 4
  {
    [v % 0x100, v / 0x100 % 0x100, v / 0x1_0000 % 0x100, v / 0x100_0000 % 0x100]
  }

  /** Pieces one behind the other. */
  function Join(pieces: seq<seq<Byte>>): seq<Byte> {
    if pieces == [] then [] else Join(pieces[..|pieces| - 1]) + pieces[|pieces| - 1]
  }

  /** Where piece k begins. */
  function Place(pieces: seq<seq<Byte>>, k: nat): nat
    requires k <= |pieces|
  {
    if k == 0 then 0 else Place(pieces, k - 1) + |pieces[k - 1]|
  }

  function HeaderPieces(p: Program): seq<seq<Byte>> {
    [[0x7F, 0x45, 0x4C, 0x46], p.head, Le32(p.entry), p.phoff, Le32(52), p.middle, Le16(|p.parts|), p.names]
  }

  /** The header of a section whose data begins at offset. */
  function SectionPieces(s: Part, offset: int): seq<seq<Byte>> {
    [Le32(s.name), Le32(s.kind), Le32(s.flags), Le32(s.addr), Le32(offset), Le32(s.size), s.rest]
  }

  function Contents(parts: seq<Part>): seq<seq<Byte>> { seq(|parts|, i requires 0 <= i < |parts| => parts[i].data) }

  /** Bytes of data in the first n parts. */
  function DataSize(parts: seq<Part>, n: nat): nat
    requires n <= |parts|
  {
    if n == 0 then 0 else DataSize(parts, n - 1) + |parts[n - 1].data|
  }

  /** The offset of part i's data in the file: behind both kinds of headers and the data of
      the parts in front. Behind the last one that is the file's length. */
  function DataAt(parts: seq<Part>, i: nat): nat
    requires i <= |parts|
  {
    52 + 40 * |parts| + DataSize(parts, i)
  }

  function Headers(parts: seq<Part>): seq<seq<Byte>> {
    seq(|parts|, i requires 0 <= i < |parts| => Join(SectionPieces(parts[i], DataAt(parts, i))))
  }

  /** The file: header, section headers, contents. */
  function Encode(p: Program): seq<Byte> {
    Join([Join(HeaderPieces(p)), Join(Headers(p.parts)), Join(Contents(p.parts))])
  }

  predicate Is32(v: int) { 0 <= v < 0x1_0000_0000 }

  predicate PartStorable(s: Part) {
    && Is32(s.name) && Is32(s.kind) && Is32(s.flags) && Is32(s.addr) && Is32(s.size) && |s.rest| == 16
    && (if s.kind == 8 then s.data == [] else s.size == |s.data|)
  }

  predicate PartsStorable(parts: seq<Part>) {
    forall i :: 0 <= i < |parts| ==> PartStorable(parts[i])
  }

  /** What the format can hold. */
  predicate Storable(p: Program) {
    && Is32(p.entry) && |p.parts| < 0x1_0000 && PartsStorable(p.parts)
    && |p.head| == 20 && |p.phoff| == 4 && |p.middle| == 12 && |p.names| == 2
    && Is32(DataAt(p.parts, |p.parts|))
  }

  // ---- what is read where

  lemma {:induction false} PlaceIn(pieces: seq<seq<Byte>>, n: nat, k: nat)
    requires k <= n <= |pieces|
    ensures Place(pieces[..n], k) == Place(pieces, k)
    decreases k
  {
    if k == 0 {
    } else {
      PlaceIn(pieces, n, k - 1);
    }
  }

  lemma {:induction false} JoinLength(pieces: seq<seq<Byte>>)
    ensures |Join(pieces)| == Place(pieces, |pieces|)
    decreases |pieces|
  {
    if pieces == [] {
    } else {
      var n := |pieces| - 1;
      JoinLength(pieces[..n]);
      PlaceIn(pieces, n, n);
    }
  }

  /** Every piece is where it should be. */
  lemma {:induction false} JoinAt(pieces: seq<seq<Byte>>, k: nat)
    requires k < |pieces|
    ensures Place(pieces, k) + |pieces[k]| <= |Join(pieces)|
    ensures Join(pieces)[Place(pieces, k)..Place(pieces, k) + |pieces[k]|] == pieces[k]
    decreases |pieces|
  {
    var n := |pieces| - 1;
    var front := Join(pieces[..n]);
    JoinLength(pieces[..n]);
    PlaceIn(pieces, n, n);
    PlaceIn(pieces, n, k);
    assert Join(pieces) == front + pieces[n];
    if k < n {
      JoinAt(pieces[..n], k);
      var i := Place(pieces, k);
      assert (front + pieces[n])[i..i + |pieces[k]|] == front[i..i + |pieces[k]|];
    } else {
      assert |front| == Place(pieces, k);
      assert (front + pieces[n])[|front|..|front| + |pieces[n]|] == pieces[n];
    }
  }

  lemma Slices(img: seq<Byte>, at: int, part: seq<Byte>, a: int, b: int)
    requires 0 <= at && at + |part| <= |img| && img[at..at + |part|] == part && 0 <= a <= b <= |part|
    ensures img[at + a..at + b] == part[a..b]
  {
    assert part[a..b] == img[at..at + |part|][a..b];
    forall i | 0 <= i < b - a
      ensures img[at + a..at + b][i] == part[a..b][i]
    {
      assert part[a + i] == img[at..at + |part|][a + i];
    }
  }

  /** Where a piece of a piece is. */
  lemma PieceIn(img: seq<Byte>, at: int, pieces: seq<seq<Byte>>, k: nat)
    requires 0 <= at && at + |Join(pieces)| <= |img| && img[at..at + |Join(pieces)|] == Join(pieces) && k < |pieces|
    ensures var i := at + Place(pieces, k); i + |pieces[k]| <= |img| && img[i..i + |pieces[k]|] == pieces[k]
  {
    hide Join, Place;
    JoinAt(pieces, k);
    Slices(img, at, Join(pieces), Place(pieces, k), Place(pieces, k) + |pieces[k]|);
  }

  lemma HalfIs(img: seq<Byte>, at: int, v: int)
    requires 0 <= at && at + 2 <= |img| && img[at..at + 2] == Le16(v) && 0 <= v < 0x1_0000
    ensures Elf.Half(img, at) == v
  {
    assert img[at] == img[at..at + 2][0] && img[at + 1] == img[at..at + 2][1];
  }

  lemma Octets(v: int)
    requires Is32(v)
    ensures v == v % 0x100 + 0x100 * (v / 0x100 % 0x100) + 0x1_0000 * (v / 0x1_0000 % 0x100 + 0x100 * (v / 0x100_0000 % 0x100))
  {
    assert v / 0x1_0000 == v / 0x100 / 0x100 && v / 0x100_0000 == v / 0x1_0000 / 0x100;
  }

  lemma WordIs(img: seq<Byte>, at: int, v: int)
    requires 0 <= at && at + 4 <= |img| && img[at..at + 4] == Le32(v) && Is32(v)
    ensures Elf.Word(img, at) == v
  {
    var w := img[at..at + 4];
    assert img[at] == w[0] && img[at + 1] == w[1] && img[at + 2] == w[2] && img[at + 3] == w[3];
    assert w[0] == v % 0x100 && w[1] == v / 0x100 % 0x100 && w[2] == v / 0x1_0000 % 0x100 && w[3] == v / 0x100_0000 % 0x100;
    Octets(v);
  }

  lemma HeaderPlaces(p: Program)
    requires Storable(p)
    ensures var ps := HeaderPieces(p);
      && Place(ps, 0) == 0 && Place(ps, 2) == 24 && Place(ps, 4) == 32 && Place(ps, 6) == 48 && |Join(ps)| == 52
  {
    var ps := HeaderPieces(p);
    assert Place(ps, 1) == 4 && Place(ps, 2) == 24;
    assert Place(ps, 3) == 28 && Place(ps, 4) == 32;
    assert Place(ps, 5) == 36 && Place(ps, 6) == 48;
    assert Place(ps, 7) == 50 && Place(ps, 8) == 52;
    JoinLength(ps);
  }

  lemma SectionPlaces(s: Part, offset: int)
    requires |s.rest| == 16
    ensures var ps := SectionPieces(s, offset);
      && Place(ps, 1) == 4 && Place(ps, 2) == 8 && Place(ps, 3) == 12 && Place(ps, 4) == 16 && Place(ps, 5) == 20
      && |Join(ps)| == 40
  {
    var ps := SectionPieces(s, offset);
    assert Place(ps, 1) == 4 && Place(ps, 2) == 8 && Place(ps, 3) == 12;
    assert Place(ps, 4) == 16 && Place(ps, 5) == 20;
    assert Place(ps, 6) == 24 && Place(ps, 7) == 40;
    JoinLength(ps);
  }

  lemma {:induction false} EvenPlaces(pieces: seq<seq<Byte>>, k: nat)
    requires k <= |pieces| && forall i :: 0 <= i < |pieces| ==> |pieces[i]| == 40
    ensures Place(pieces, k) == 40 * k
    decreases k
  {
    if k == 0 {
    } else {
      EvenPlaces(pieces, k - 1);
    }
  }

  /** The section headers are of 40 bytes each. */
  lemma TablePlaces(parts: seq<Part>)
    requires PartsStorable(parts)
    ensures forall i :: 0 <= i < |parts| ==> |Headers(parts)[i]| == 40 && Place(Headers(parts), i) == 40 * i
    ensures |Join(Headers(parts))| == 40 * |parts|
  {
    hide Place, Join, SectionPieces, DataAt;
    var hs := Headers(parts);
    forall i | 0 <= i < |parts|
      ensures |hs[i]| == 40
    {
      assert PartStorable(parts[i]);
      SectionPlaces(parts[i], DataAt(parts, i));
    }
    hide Headers;
    forall i | 0 <= i <= |parts|
      ensures Place(hs, i) == 40 * i
    {
      EvenPlaces(hs, i);
    }
    JoinLength(hs);
  }

  lemma {:induction false} ContentsPlaces(parts: seq<Part>, n: nat)
    requires n <= |parts|
    ensures Place(Contents(parts), n) == DataSize(parts, n)
    decreases n
  {
    if n == 0 {
    } else {
      ContentsPlaces(parts, n - 1);
    }
  }

  lemma ContentsLength(parts: seq<Part>)
    ensures |Join(Contents(parts))| == DataSize(parts, |parts|)
  {
    hide Join, Place;
    JoinLength(Contents(parts));
    ContentsPlaces(parts, |parts|);
  }

  lemma ThreePieces(a: seq<Byte>, b: seq<Byte>, c: seq<Byte>)
    ensures var s := Join([a, b, c]);
      && |s| == |a| + |b| + |c|
      && s[0..|a|] == a && s[|a|..|a| + |b|] == b && s[|a| + |b|..|a| + |b| + |c|] == c
  {
    hide Join;
    var ps := [a, b, c];
    assert Place(ps, 1) == |a| && Place(ps, 2) == |a| + |b| && Place(ps, 3) == |a| + |b| + |c|;
    JoinLength(ps);
    JoinAt(ps, 0);
    JoinAt(ps, 1);
    JoinAt(ps, 2);
  }

  /** The three pieces of the file. */
  lemma FilePlaces(p: Program)
    requires Storable(p)
    ensures var img, h, t, c := Encode(p), Join(HeaderPieces(p)), Join(Headers(p.parts)), Join(Contents(p.parts));
      && |h| == 52 && |t| == 40 * |p.parts| && |img| == |h| + |t| + |c| == DataAt(p.parts, |p.parts|)
      && img[0..|h|] == h && img[|h|..|h| + |t|] == t && img[|h| + |t|..|h| + |t| + |c|] == c
  {
    hide Join, Place, HeaderPieces, Headers, Contents, PartsStorable, DataSize;
    HeaderPlaces(p);
    TablePlaces(p.parts);
    ContentsLength(p.parts);
    ThreePieces(Join(HeaderPieces(p)), Join(Headers(p.parts)), Join(Contents(p.parts)));
  }

  lemma HeaderBytes(p: Program)
    requires Storable(p)
    ensures var img := Encode(p);
      && |img| >= 52 + 40 * |p.parts| && img[..4] == [0x7F, 0x45, 0x4C, 0x46]
      && img[24..28] == Le32(p.entry) && img[32..36] == Le32(52) && img[48..50] == Le16(|p.parts|)
  {
    hide Encode, Join, Place, Headers, Contents, Le16, Le32, Storable;
    var img, ps := Encode(p), HeaderPieces(p);
    FilePlaces(p);
    HeaderPlaces(p);
    PieceIn(img, 0, ps, 0);
    PieceIn(img, 0, ps, 2);
    PieceIn(img, 0, ps, 4);
    PieceIn(img, 0, ps, 6);
  }

  lemma HeaderReads(p: Program)
    requires Storable(p)
    ensures var img := Encode(p);
      && |img| >= 52 + 40 * |p.parts| && Elf.HasIdent(img)
      && Elf.EntryPoint(img) == p.entry && Elf.SectionCount(img) == |p.parts| && Elf.Word(img, 32) == 52
  {
    hide Encode, Join, Place, Le16, Le32, Elf.Word, Elf.Half, PartsStorable;
    var img := Encode(p);
    HeaderBytes(p);
    WordIs(img, 24, p.entry);
    WordIs(img, 32, 52);
    HalfIs(img, 48, |p.parts|);
  }

  lemma FieldsRead(img: seq<Byte>, h: int, s: Part, d: int)
    requires PartStorable(s) && Is32(d) && 0 <= h && h + 40 <= |img| && img[h..h + 40] == Join(SectionPieces(s, d))
    ensures Elf.Word(img, h + 4) == s.kind && Elf.Word(img, h + 8) == s.flags && Elf.Word(img, h + 12) == s.addr
    ensures Elf.Word(img, h + 16) == d && Elf.Word(img, h + 20) == s.size
  {
    var ps := SectionPieces(s, d);
    SectionPlaces(s, d);
    hide Join, Place, Le32, Elf.Word;
    PieceIn(img, h, ps, 1);
    PieceIn(img, h, ps, 2);
    PieceIn(img, h, ps, 3);
    PieceIn(img, h, ps, 4);
    PieceIn(img, h, ps, 5);
    WordIs(img, h + 4, s.kind);
    WordIs(img, h + 8, s.flags);
    WordIs(img, h + 12, s.addr);
    WordIs(img, h + 16, d);
    WordIs(img, h + 20, s.size);
  }

  lemma PiecesOf(parts: seq<Part>, i: nat)
    requires i < |parts|
    ensures |Headers(parts)| == |Contents(parts)| == |parts|
    ensures Headers(parts)[i] == Join(SectionPieces(parts[i], DataAt(parts, i))) && Contents(parts)[i] == parts[i].data
    ensures DataAt(parts, i) == 52 + 40 * |parts| + Place(Contents(parts), i)
  {
    hide Join, Place, SectionPieces;
    ContentsPlaces(parts, i);
  }

  /** Header and data of part i in the file. */
  lemma PartBytes(p: Program, i: nat)
    requires Storable(p) && i < |p.parts|
    ensures var img, s, d := Encode(p), p.parts[i], DataAt(p.parts, i);
      && 52 + 40 * i + 40 <= |img| && img[52 + 40 * i..52 + 40 * i + 40] == Join(SectionPieces(s, d))
      && d + |s.data| <= |img| && img[d..d + |s.data|] == s.data && Is32(d)
  {
    hide Encode, Join, Place, Headers, Contents, SectionPieces, HeaderPieces, DataAt, PartStorable;
    var img, hs, cs := Encode(p), Headers(p.parts), Contents(p.parts);
    PiecesOf(p.parts, i);
    FilePlaces(p);
    TablePlaces(p.parts);
    PieceIn(img, 52, hs, i);
    PieceIn(img, 52 + 40 * |p.parts|, cs, i);
  }

  /** Each header of the table reads as the section's, with its data where it says. */
  lemma SectionReads(p: Program, i: nat)
    requires Storable(p) && i < |p.parts|
    ensures var img, s, d := Encode(p), p.parts[i], DataAt(p.parts, i);
      && Elf.SectionAt(img, i) == Elf.Section(s.kind, s.flags, s.addr, d, s.size)
      && d + |s.data| <= |img| && img[d..d + |s.data|] == s.data
  {
    hide Encode, Join, Headers, Contents, SectionPieces, HeaderPieces, DataAt, Elf.Word, Elf.HasIdent, Elf.EntryPoint, Elf.SectionCount;
    PartBytes(p, i);
    HeaderReads(p);
    assert PartStorable(p.parts[i]);
    FieldsRead(Encode(p), 52 + 40 * i, p.parts[i], DataAt(p.parts, i));
  }

  // ---- loading the file

  /** The section takes up memory: PROGBITS or NOBITS, with SHF_ALLOC set. */
  predicate Allocated(s: Part) { (s.kind == 1 || s.kind == 8) && s.flags / 2 % 2 == 1 }

  /** The section takes its bytes from the file. */
  predicate FromFile(s: Part) { s.kind == 1 && s.flags / 2 % 2 == 1 }

  /** Page q is one of the section's. */
  predicate LiesOn(s: Part, q: int) { s.addr / 4096 <= q && q * 4096 < s.addr + s.size }

  predicate Covers(s: Part, x: int) { s.addr <= x < s.addr + s.size }

  /** Page q is one of an allocated section's. */
  predicate Lies(parts: seq<Part>, q: int) {
    exists i :: 0 <= i < |parts| && Allocated(parts[i]) && LiesOn(parts[i], q)
  }

  function Pages(parts: seq<Part>, i: nat): int
    requires i <= |parts|
    decreases |parts| - i
  {
    if i == |parts| then 0
    else (if Allocated(parts[i]) then (parts[i].addr + parts[i].size + 4095) / 4096 - parts[i].addr / 4096 else 0) + Pages(parts, i + 1)
  }

  ghost predicate PartFits(s: Part, t: Tables, kernel: int, dst: int) {
    && 0x400 <= s.addr / 4096 && (s.addr + s.size + 4095) / 4096 <= 0xFFC00
    && forall q :: LiesOn(s, q) ==> Lookup(t, kernel, q) == Unmapped && !Lookup(t, dst, q).Large?
  }

  /** What the loader demands of a program: user addresses that the kernel space leaves alone,
      no byte in two sections from the file, and enough free pages. */
  ghost predicate Fits(parts: seq<Part>, t: Tables, free: set<int>, kernel: int, dst: int) {
    && (forall i :: 0 <= i < |parts| && Allocated(parts[i]) ==> PartFits(parts[i], t, kernel, dst))
    && (forall i, j, x :: 0 <= i < j < |parts| && FromFile(parts[i]) && FromFile(parts[j]) ==>
          !(Covers(parts[i], x) && Covers(parts[j], x)))
    && Elf.Apart(t, dst, free) && Pages(parts, 0) <= |free|
  }

  lemma SectionKind(p: Program, i: nat)
    requires Storable(p) && i < |p.parts|
    ensures var sec, s := Elf.SectionAt(Encode(p), i), p.parts[i];
      && (Elf.Loaded(sec) <==> Allocated(s)) && (Elf.Filled(sec) <==> FromFile(s))
      && sec.addr == s.addr && sec.size == s.size && 0 <= s.size && (forall q :: Elf.OnPage(sec, q) <==> LiesOn(s, q))
      && PagesSpanned(s.addr, s.size) == (s.addr + s.size + 4095) / 4096 - s.addr / 4096
  {
    hide Encode, Elf.SectionAt;
    SectionReads(p, i);
    assert PartStorable(p.parts[i]);
  }

  lemma {:induction false} PagesAgree(p: Program, i: nat)
    requires Storable(p) && i <= |p.parts|
    ensures Elf.PagesNeeded(Encode(p), i) == Pages(p.parts, i)
    decreases |p.parts| - i
  {
    hide Encode, Storable, Allocated, Elf.SectionAt, Elf.Loaded, Elf.SectionCount, PagesSpanned;
    HeaderReads(p);
    if i < |p.parts| {
      SectionKind(p, i);
      PagesAgree(p, i + 1);
    }
  }

  lemma DisjointFiles(p: Program, t: Tables, free: set<int>, kernel: int, dst: int)
    requires Storable(p) && Fits(p.parts, t, free, kernel, dst)
    ensures Elf.Disjoint(Encode(p))
  {
    hide Encode, Storable, Allocated, FromFile, LiesOn, PartFits, Elf.SectionAt, Elf.Filled, Elf.SectionCount, PagesSpanned, Elf.Apart;
    HeaderReads(p);
    forall i | 0 <= i < |p.parts|
      ensures Elf.Filled(Elf.SectionAt(Encode(p), i)) <==> FromFile(p.parts[i])
      ensures forall x :: Elf.Inside(Elf.SectionAt(Encode(p), i), x) <==> Covers(p.parts[i], x)
    {
      SectionKind(p, i);
    }
    hide Covers, Elf.Inside;
  }

  lemma DataInside(p: Program, i: nat)
    requires Storable(p) && i < |p.parts|
    ensures var sec := Elf.SectionAt(Encode(p), i); sec.kind == 1 ==> sec.offset + sec.size <= |Encode(p)|
  {
    hide Encode, Elf.SectionAt;
    SectionReads(p, i);
    assert PartStorable(p.parts[i]);
  }

  lemma PartLoadable(p: Program, t: Tables, kernel: int, dst: int, i: nat)
    requires Storable(p) && i < |p.parts| && (Allocated(p.parts[i]) ==> PartFits(p.parts[i], t, kernel, dst))
    ensures Elf.Loaded(Elf.SectionAt(Encode(p), i)) ==> Elf.SectionFits(Encode(p), Elf.SectionAt(Encode(p), i), t, kernel, dst)
    ensures Allocated(p.parts[i]) <==> Elf.Loaded(Elf.SectionAt(Encode(p), i))
  {
    hide Encode, Storable, Allocated, LiesOn, Elf.OnPage, Elf.SectionAt, Elf.Loaded, PagesSpanned, Lookup;
    SectionKind(p, i);
    DataInside(p, i);
  }

  lemma FitsLoadable(p: Program, t: Tables, free: set<int>, kernel: int, dst: int)
    requires Storable(p) && Fits(p.parts, t, free, kernel, dst)
    ensures Elf.Loadable(Encode(p), t, free, kernel, dst)
  {
    hide Encode, Storable, Allocated, FromFile, LiesOn, Elf.SectionAt, Elf.Loaded, Elf.Filled, Elf.SectionCount, Elf.Word, PagesSpanned, Lookup, Elf.Apart, Elf.Disjoint, PartFits, Elf.SectionFits;
    var img := Encode(p);
    HeaderReads(p);
    PagesAgree(p, 0);
    DisjointFiles(p, t, free, kernel, dst);
    forall i | 0 <= i < |p.parts| && Elf.Loaded(Elf.SectionAt(img, i))
      ensures Elf.SectionFits(img, Elf.SectionAt(img, i), t, kernel, dst)
    {
      PartLoadable(p, t, kernel, dst, i);
    }
  }

  // ---- what a program finds in its space

  /** The mapping the processor's walk comes to for page q of the space. */
  ghost function Walked(m: Machine, dst: int, q: int): PageTables.Mapping
    requires m.Ready()
    reads m, m.mmu, m.mmu.pool, m.mmu.phys
  {
    HardwareWalk.Walk(m.mmu.tables, m.mmu.role, m.mmu.pool.frames, Rd(m.mmu.tables, dst, 0), q)
  }

  /** The space has byte b at address x, in the frame the processor's walk comes to. */
  ghost predicate Holds(m: Machine, dst: int, x: int, b: int)
    requires m.Ready()
    reads m, m.mmu, m.mmu.pool, m.mmu.phys
  {
    var w := Walked(m, dst, x / 4096);
    w.Small? && PhysicalByte(m.ram, w.word - w.word % 4096 + x % 4096) == b
  }

  lemma WalkedIs(m: Machine, dst: int, q: int)
    requires m.Ready() && IsSpace(m.mmu.role, dst) && 0 <= q < ALL_PAGES
    ensures Walked(m, dst, q) == Lookup(m.mmu.tables, dst, q)
  {
    hide Lookup, HardwareWalk.Walk, Sound, FreeMatches, PagePool.LiveMatches;
    HardwareWalk.WalkAgrees(m.mmu.tables, m.mmu.role, m.mmu.pool.frames, dst, q);
  }

  lemma HoldsIs(m: Machine, dst: int, x: int)
    requires m.Ready() && IsSpace(m.mmu.role, dst) && 0 <= x < ADDRESSES && Lookup(m.mmu.tables, dst, x / 4096).Small?
    ensures Holds(m, dst, x, ReadByte(m.mmu.tables, m.ram, dst, x))
  {
    hide Lookup, HardwareWalk.Walk, Sound, FreeMatches, PagePool.LiveMatches, ReadByte, PhysicalByte;
    WalkedIs(m, dst, x / 4096);
    ReadIsWalk(m.mmu.tables, m.mmu.role, m.mmu.pool.frames, m.ram, dst, x);
  }

  lemma TouchedIs(p: Program, q: int)
    requires Storable(p)
    ensures Elf.TouchedBelow(Encode(p), |p.parts|, q) <==> Lies(p.parts, q)
  {
    hide Encode, Storable, Allocated, LiesOn, Elf.SectionAt, Elf.Loaded, Elf.OnPage;
    forall i | 0 <= i < |p.parts|
      ensures Elf.Loaded(Elf.SectionAt(Encode(p), i)) <==> Allocated(p.parts[i])
      ensures Elf.OnPage(Elf.SectionAt(Encode(p), i), q) <==> LiesOn(p.parts[i], q)
    {
      SectionKind(p, i);
    }
  }

  lemma PartData(p: Program, i: nat, k: nat)
    requires Storable(p) && i < |p.parts| && FromFile(p.parts[i]) && k < |p.parts[i].data|
    ensures Elf.ByteAt(Encode(p), Elf.SectionAt(Encode(p), i).offset + k) == p.parts[i].data[k]
    ensures p.parts[i].size == |p.parts[i].data| && 0 <= p.parts[i].addr
  {
    hide Encode, Elf.SectionAt, DataAt;
    SectionReads(p, i);
    assert PartStorable(p.parts[i]);
    var img, d := Encode(p), DataAt(p.parts, i);
    assert img[d..d + |p.parts[i].data|][k] == img[d + k];
  }

  /** After a load: byte k of section i is in its place. */
  lemma ByteThere(m: Machine, dst: int, p: Program, t0: Tables, i: nat, k: nat)
    requires m.Ready() && IsSpace(m.mmu.role, dst) && Storable(p)
    requires i < |p.parts| && FromFile(p.parts[i]) && k < |p.parts[i].data|
    requires PartFits(p.parts[i], t0, m.mmu.kernel, dst)
    requires Elf.MappedBelow(Encode(p), t0, m.mmu.tables, Spaces(m.mmu.role), dst, |p.parts|)
    requires Elf.BytesBelow(Encode(p), m.mmu.tables, m.ram, dst, |p.parts|)
    ensures Holds(m, dst, p.parts[i].addr + k, p.parts[i].data[k])
  {
    hide Encode, Storable, Lookup, HardwareWalk.Walk, Sound, FreeMatches, PagePool.LiveMatches, ReadByte, Holds, Elf.SectionAt, Elf.Filled, Elf.TouchedBelow, Elf.UserWritable;
    var img, s, x := Encode(p), p.parts[i], p.parts[i].addr + k;
    PartData(p, i, k);
    SectionKind(p, i);
    assert LiesOn(s, x / 4096) && Lies(p.parts, x / 4096);
    TouchedIs(p, x / 4096);
    assert Lookup(m.mmu.tables, dst, x / 4096).Small?;
    HoldsIs(m, dst, x);
  }

  /** After a load: what the walk comes to. */
  lemma PageThere(m: Machine, dst: int, p: Program, t0: Tables, q: int)
    requires m.Ready() && IsSpace(m.mmu.role, dst) && Storable(p) && 0 <= q < ALL_PAGES
    requires Elf.MappedBelow(Encode(p), t0, m.mmu.tables, Spaces(m.mmu.role), dst, |p.parts|)
    ensures var w := Walked(m, dst, q);
      if !Lies(p.parts, q) then w == Lookup(t0, dst, q)
      else if Lookup(t0, dst, q) != Unmapped then w == Lookup(t0, dst, q) && w.Small?
      else w.Small? && w.word % 2 == 1 && w.word / 2 % 2 == 1 && w.word / 4 % 2 == 1
  {
    hide Encode, Storable, Lookup, HardwareWalk.Walk, Sound, FreeMatches, PagePool.LiveMatches, Lies, Walked, Elf.TouchedBelow;
    TouchedIs(p, q);
    WalkedIs(m, dst, q);
  }

  /** elf_load of the file that a program encodes to: every byte of the sections from the file
      is in its place, every page of a section that takes up memory is mapped, where it was not
      before for reading and writing by the user, every other page is as it was, and the entry
      point comes back. */
  method LoadProgram(m: Machine, dst: int, p: Program) returns (r: Outcome)
    requires m.Ready() && IsSpace(m.mmu.role, dst) && dst != m.mmu.kernel
    requires Storable(p) && Fits(p.parts, m.mmu.tables, m.mmu.phys.free, m.mmu.kernel, dst)
    modifies m`ram, m.mmu, m.mmu.pool, m.mmu.phys
    ensures m.Ready() && IsSpace(m.mmu.role, dst)
    ensures r == Returned(p.entry) || (r == Panicked && m.mmu.Exhausted())
    ensures r.Returned? ==> forall i, k ::
      0 <= i < |p.parts| && p.parts[i].kind == 1 && p.parts[i].flags / 2 % 2 == 1 && 0 <= k < |p.parts[i].data| ==>
        Holds(m, dst, p.parts[i].addr + k, p.parts[i].data[k])
    ensures r.Returned? ==> forall q :: 0 <= q < ALL_PAGES ==>
      var was, w := old(Walked(m, dst, q)), Walked(m, dst, q);
      if !Lies(p.parts, q) then w == was
      else if was != Unmapped then w == was && w.Small?
      else w.Small? && w.word % 2 == 1 && w.word / 2 % 2 == 1 && w.word / 4 % 2 == 1
  {
    hide Encode, Storable, Lies, Lookup, HardwareWalk.Walk, Walked, Holds, Sound, FreeMatches, PagePool.LiveMatches, PagePool.InPool;
    hide Elf.HasIdent, Elf.SectionCount, Elf.EntryPoint, Elf.Loadable, Elf.MappedBelow, Elf.BytesBelow, Elf.MemoryKept, Elf.Fresh, Elf.Apart, Elf.PagesNeeded;
    ghost var t0, kernel := m.mmu.tables, m.mmu.kernel;
    forall q | 0 <= q < ALL_PAGES
      ensures Walked(m, dst, q) == Lookup(t0, dst, q)
    {
      WalkedIs(m, dst, q);
    }
    HeaderReads(p);
    FitsLoadable(p, t0, m.mmu.phys.free, kernel, dst);
    assert dst in Spaces(m.mmu.role);
    r := Elf.ElfLoad(m, dst, Encode(p));
    if r.Returned? {
      forall i, k | 0 <= i < |p.parts| && p.parts[i].kind == 1 && p.parts[i].flags / 2 % 2 == 1 && 0 <= k < |p.parts[i].data|
        ensures Holds(m, dst, p.parts[i].addr + k, p.parts[i].data[k])
      {
        ByteThere(m, dst, p, t0, i, k);
      }
      forall q | 0 <= q < ALL_PAGES
        ensures var was, w := old(Walked(m, dst, q)), Walked(m, dst, q);
          if !Lies(p.parts, q) then w == was
          else if was != Unmapped then w == was && w.Small?
          else w.Small? && w.word % 2 == 1 && w.word / 2 % 2 == 1 && w.word / 4 % 2 == 1
      {
        PageThere(m, dst, p, t0, q);
      }
    }
  }
}

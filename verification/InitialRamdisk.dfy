/** The initial ramdisk, src/dev/initrd.c: finding and reading files in a tar archive in
    memory, against what the archive holds (module Ustar). */
module InitialRamdisk {
  import opened CStrings
  import opened Ustar

  // ---- octal fields

  predicate IsOctal(c: char) { '0' <= c <= '7' }

  /** res |= c - '0', where the last three bits of r are clear: a digit goes there. A space
      lies 16 below '0', and sets every bit but the last four. */
  function OrDigit(r: nat, c: char): nat
    requires IsOctal(c) || c == ' '
  {
    if c == ' ' then 0xFFFF_FFF0 + r % 16 else r + (c as int - '0' as int)
  }

  predicate OctalField(field: string) {
    forall i :: 0 <= i < |field| ==> field[i] == NUL || IsOctal(field[i]) || field[i] == ' '
  }

  /** tar_oct2u32: NULs are passed over. */
  function OctValue(field: string, res: nat): nat
    requires OctalField(field)
  {
    if field == "" then res
    else if field[0] == NUL then OctValue(field[1..], res)
    else OctValue(field[1..], OrDigit(res * 8 % TWO_32, field[0]))
  }

  lemma OctalDigit(d: nat)
    requires d < 8
    ensures IsOctal("01234567"[d]) && "01234567"[d] as int == '0' as int + d
  {
  }

  lemma {:induction false} OctIs(n: nat, k: nat)
    ensures |Oct(n, k)| == k && OctalField(Oct(n, k)) && forall i :: 0 <= i < k ==> Oct(n, k)[i] != NUL
    decreases k
  {
    if k == 0 {
    } else {
      OctIs(n / 8, k - 1);
      OctalDigit(n % 8);
    }
  }

  /** The digits before n's last one, then that one. */
  lemma ReadDigit(n: nat, tail: string)
    requires n < TWO_32 && OctalField(tail)
    ensures var more := ["01234567"[n % 8]] + tail; OctalField(more) && OctValue(more, n / 8) == OctValue(tail, n)
  {
    var more := ["01234567"[n % 8]] + tail;
    OctalDigit(n % 8);
    assert more[1..] == tail;
    assert n / 8 * 8 % TWO_32 == n / 8 * 8;
  }

  /** Eleven digits hold every 32-bit size, and reading gives it back, whatever NULs follow. */
  lemma {:induction false} OctRoundTrip(n: nat, k: nat, tail: string)
    requires n < Pow8(k) && n < TWO_32 && OctalField(tail)
    ensures OctalField(Oct(n, k) + tail) && OctValue(Oct(n, k) + tail, 0) == OctValue(tail, n)
    decreases k
  {
    hide OctValue, OctalField;
    if k == 0 {
      assert Oct(n, 0) + tail == tail;
    } else {
      var more := ["01234567"[n % 8]] + tail;
      assert Oct(n, k) + tail == Oct(n / 8, k - 1) + more;
      ReadDigit(n, tail);
      OctRoundTrip(n / 8, k - 1, more);
    }
  }

  /** What is left of a number read so far behind an ending: the number, or with a space in
      it 0xFFFFFFF0 or 0xFFFFFFF8. */
  lemma {:induction false} EndingRead(s: string, n: nat)
    requires n < TWO_32 && forall i :: 0 <= i < |s| ==> s[i] == ' ' || s[i] == NUL
    ensures OctalField(s)
    ensures ' ' !in s ==> OctValue(s, n) == n
    ensures ' ' in s ==> OctValue(s, n) == 0xFFFF_FFF0 || OctValue(s, n) == 0xFFFF_FFF8
    ensures ' ' in s && n % 2 == 0 ==> OctValue(s, n) == 0xFFFF_FFF0
  {
    if s == "" {
    } else if s[0] == NUL {
      EndingRead(s[1..], n);
    } else {
      assert n * 8 % TWO_32 % 16 == n % 2 * 8;
      EndingRead(s[1..], OrDigit(n * 8 % TWO_32, ' '));
    }
  }

  /** What is read from a size field: the size when NULs end it, and 0xFFFFFFF0 or 0xFFFFFFF8
      when there is a space. */
  lemma SizeRead(n: nat, ending: string)
    requires IsEnding(ending) && n < TWO_32 && n < Pow8(SIZE_LEN - |ending|)
    ensures OctalField(SizeField(n, ending)) && |SizeField(n, ending)| == SIZE_LEN
    ensures ' ' !in ending ==> OctValue(SizeField(n, ending), 0) == n
    ensures ' ' in ending ==> OctValue(SizeField(n, ending), 0) == 0xFFFF_FFF0 || OctValue(SizeField(n, ending), 0) == 0xFFFF_FFF8
    ensures ' ' in ending && n % 2 == 0 ==> OctValue(SizeField(n, ending), 0) == 0xFFFF_FFF0
  {
    hide Oct, Pow8, OctValue, OctalField;
    EndingRead(ending, n);
    OctLength(n, SIZE_LEN - |ending|);
    OctRoundTrip(n, SIZE_LEN - |ending|, ending);
  }

  /** Every size the format can hold in 32 bits reads back from a field that NULs end, and one
      alone from a field with a space at its end, as POSIX.1 allows as well. */
  lemma SizeRoundTrip(n: nat, ending: string)
    requires IsEnding(ending) && n < TWO_32 && n < Pow8(SIZE_LEN - |ending|)
    ensures OctalField(SizeField(n, ending)) && |SizeField(n, ending)| == SIZE_LEN
    ensures OctValue(SizeField(n, ending), 0) == n <==> ' ' !in ending || n == 0xFFFF_FFF0
  {
    hide SizeField, OctValue, Pow8;
    SizeRead(n, ending);
  }

  method Oct2u32(image: string, at: nat, len: nat) returns (res: nat)
    requires at + len <= |image| && OctalField(image[at..at + len])
    ensures res == OctValue(image[at..at + len], 0)
  {
    ghost var field := image[at..at + len];
    res := 0;
    var i := 0;
    while i < len
      invariant 0 <= i <= len && OctValue(field[i..], res) == OctValue(field, 0)
    {
      assert field[i..][1..] == field[i + 1..] && field[i] == image[at + i];
      if image[at + i] != NUL {
        res := OrDigit(res * 8 % TWO_32, image[at + i]);
      }
      i := i + 1;
    }
  }

  // ---- headers as the code reads them

  /** tar_type says that the entry is a regular file. Without the magic, an entry is a
      directory when a slash ends its name. */
  predicate IsFile(block: string)
    requires |block| == BLOCK
  {
    if IsUstar(block) then block[TYPE_AT] == NUL || block[TYPE_AT] == '0'
    else forall i :: 0 <= i < NAME_SIZE && block[i] == '/' ==> i + 1 < NAME_SIZE && block[i + 1] != NUL
  }

  /** The field as a string: what strncmp over the field's size sees. */
  function FieldText(field: string): string { field[..IndexOf(field, NUL)] }

  function SizeOf(block: string): string
    requires |block| == BLOCK
  {
    block[SIZE_AT..SIZE_AT + SIZE_LEN]
  }

  /** MM_ALIGN_UP(size, 512) / 512, in 32 bits. */
  function Jump(size: nat): nat { (size + BLOCK - 1) % TWO_32 / BLOCK }

  /** How far the walk goes from a header. */
  function StepOf(block: string): nat
    requires |block| == BLOCK && (IsFile(block) ==> OctalField(SizeOf(block)))
  {
    if IsFile(block) then BLOCK * (Jump(OctValue(SizeOf(block), 0)) + 1) else BLOCK
  }

  /** tar_type says file of an entry's header: of type 7 it does not. */
  predicate TarFile(e: Entry) {
    if e.ustar then e.typeflag == NUL || e.typeflag == '0' else !SlashAtEnd(e.name)
  }

  lemma NameRead(field: string, text: string)
    requires TextField(field, text)
    ensures FieldText(field) == text
  {
    hide IndexOf;
    IndexIs(field, NUL);
    assert forall i :: 0 <= i < |text| ==> field[i] == text[i] != NUL;
    assert IndexOf(field, NUL) == |text|;
  }

  /** What the code reads off an entry's header. */
  lemma HeaderRead(block: string, e: Entry)
    requires IsHeader(block, e)
    ensures block[0] != NUL && FieldText(block[..NAME_SIZE]) == e.name && (IsFile(block) <==> TarFile(e))
    ensures TarFile(e) ==> SizeOf(block) == SizeField(|e.data|, e.ending)
  {
    hide FieldText, SizeField, Pow8;
    NameRead(block[..NAME_SIZE], e.name);
    assert forall i :: 0 <= i < |e.name| ==> block[i] == block[..NAME_SIZE][..|e.name|][i] == e.name[i] != NUL;
    if !e.ustar && SlashAtEnd(e.name) {
      assert block[|e.name| - 1] == '/';
    }
  }

  /** An entry with data that tar_type does not call a file, or whose size field has a space
      at its end. */
  predicate Misread(e: Entry) { e.data != "" && (!TarFile(e) || ' ' in e.ending) }

  lemma HeaderStorable(block: string, e: Entry)
    requires IsHeader(block, e)
    ensures IsEnding(e.ending) && |e.data| < Pow8(SIZE_LEN - |e.ending|)
  {
  }

  /** The walk steps from a header to the next entry exactly unless the entry is misread, and
      then it steps into the data. */
  lemma StepExact(block: string, e: Entry)
    requires IsHeader(block, e) && Span(e) < TWO_32
    ensures IsFile(block) ==> OctalField(SizeOf(block))
    ensures StepOf(block) == Span(e) <==> !Misread(e)
    ensures Misread(e) ==> StepOf(block) == BLOCK
  {
    hide IsFile, SizeField, OctValue, OctalField, SizeOf, Pow8, FieldText, IsHeader;
    HeaderRead(block, e);
    HeaderStorable(block, e);
    if TarFile(e) {
      SizeRead(|e.data|, e.ending);
    }
  }

  // ---- finding a file

  /** The header found, or none; Lost when the walk leaves the image or comes to a size field
      that holds something else than digits, spaces and NULs. */
  datatype Answer = Found(at: nat) | NotFound | Lost

  /** initrd_find_file from address it on; zb says that the block before was an empty one. */
  function Walk(image: string, it: nat, zb: bool, name: string): Answer
    decreases |image| - it
  {
    if it + BLOCK > |image| then Lost
    else
      var block := image[it..it + BLOCK];
      if block[0] == NUL then if zb then NotFound else Walk(image, it + BLOCK, true, name)
      else if IsFile(block) && !OctalField(SizeOf(block)) then Lost
      else if IsFile(block) && FieldText(block[..NAME_SIZE]) == Cut(name, NAME_SIZE) then Found(it)
      else Walk(image, it + StepOf(block), false, name)
  }

  const MM_NADDR := -1

  /** strncmp(field, name, 100) == 0. */
  method SameName(image: string, at: nat, name: string) returns (same: bool)
    requires at + NAME_SIZE <= |image| && NoNul(name)
    ensures same <==> FieldText(image[at..at + NAME_SIZE]) == Cut(name, NAME_SIZE)
  {
    hide IndexOf;
    ghost var field := image[at..at + NAME_SIZE];
    ghost var text := FieldText(field);
    IndexIs(field, NUL);
    assert forall i :: 0 <= i < NAME_SIZE ==> image[at + i] == field[i];
    assert forall i :: 0 <= i < |text| ==> field[i] == text[i] != NUL;
    var p := 0;
    while p < NAME_SIZE && image[at + p] != NUL && CharAt(name, p) != NUL
      invariant 0 <= p <= NAME_SIZE && p <= |name| && p <= |text| && name[..p] == text[..p]
    {
      if image[at + p] != name[p] {
        return false;
      }
      p := p + 1;
    }
    same := p == NAME_SIZE || image[at + p] == CharAt(name, p);
  }

  /** tar_type, so far as it tells files from the rest. */
  method TypeIsFile(image: string, at: nat) returns (file: bool)
    requires at + BLOCK <= |image|
    ensures file == IsFile(image[at..at + BLOCK])
  {
    ghost var block := image[at..at + BLOCK];
    assert forall i :: 0 <= i < BLOCK ==> image[at + i] == block[i];
    assert image[at + MAGIC_AT..at + MAGIC_AT + 5] == block[MAGIC_AT..MAGIC_AT + 5];
    if image[at + MAGIC_AT..at + MAGIC_AT + 5] == "ustar" {
      return image[at + TYPE_AT] == NUL || image[at + TYPE_AT] == '0';
    }
    var i := 0;
    while i < NAME_SIZE
      invariant 0 <= i <= NAME_SIZE
      invariant forall j :: 0 <= j < i && block[j] == '/' ==> j + 1 < NAME_SIZE && block[j + 1] != NUL
    {
      if image[at + i] == '/' && (i == NAME_SIZE - 1 || image[at + i + 1] == NUL) {
        assert block[i] == '/';
        return false;
      }
      i := i + 1;
    }
    file := true;
  }

  /** initrd_find_file. */
  method FindFile(image: string, name: string) returns (pos: int)
    requires NoNul(name) && Walk(image, 0, false, name) != Lost
    ensures match Walk(image, 0, false, name) case Found(at) => pos == at case _ => pos == MM_NADDR
  {
    hide IsFile, OctValue, OctalField, FieldText;
    var it: nat, zb := 0, 0;
    while true
      invariant 0 <= zb <= 1 && Walk(image, it, zb == 1, name) == Walk(image, 0, false, name)
      decreases |image| - it
    {
      ghost var block := image[it..it + BLOCK];
      if image[it] == NUL {
        if zb != 0 {
          break;
        }
        zb := zb + 1;
        it := it + BLOCK;
        continue;
      }
      zb := 0;
      var file := TypeIsFile(image, it);
      Within(image, it, it + BLOCK, 0, NAME_SIZE);
      Within(image, it, it + BLOCK, SIZE_AT, SIZE_AT + SIZE_LEN);
      if file {
        var filesz := Oct2u32(image, it + SIZE_AT, SIZE_LEN);
        var jmp := Jump(filesz);
        var same := SameName(image, it, name);
        if same {
          return it;
        }
        it := it + BLOCK * (jmp + 1);
      } else {
        it := it + BLOCK;
      }
    }
    pos := MM_NADDR;
  }

  // ---- what the walk finds in an archive

  /** What the code looks for: a file by tar_type, by its name field alone, of which a longer
      name matches the first 100 characters. */
  predicate Matches(e: Entry, name: string) { TarFile(e) && e.name == Cut(name, NAME_SIZE) }

  function FirstMatch(entries: seq<Entry>, name: string): (k: nat)
    ensures k <= |entries| && (forall j :: 0 <= j < k ==> !Matches(entries[j], name))
    ensures k < |entries| ==> Matches(entries[k], name)
  {
    if entries == [] || Matches(entries[0], name) then 0 else 1 + FirstMatch(entries[1..], name)
  }

  /** What is asked for: a regular file with this pathname. */
  predicate Wanted(e: Entry, name: string) { Regular(e) && Path(e) == name }

  function FirstWanted(entries: seq<Entry>, name: string): (k: nat)
    ensures k <= |entries| && (forall j :: 0 <= j < k ==> !Wanted(entries[j], name))
    ensures k < |entries| ==> Wanted(entries[k], name)
  {
    if entries == [] || Wanted(entries[0], name) then 0 else 1 + FirstWanted(entries[1..], name)
  }

  function AnswerAt(entries: seq<Entry>, k: nat): Answer
    requires k <= |entries|
  {
    if k < |entries| then Found(Offset(entries, k)) else NotFound
  }

  lemma AtEntry(image: string, entries: seq<Entry>, k: nat)
    requires Archive(image, entries) && k < |entries|
    ensures var at, e := Offset(entries, k), entries[k];
      && at + Span(e) <= |image| && Offset(entries, k + 1) == at + Span(e) && IsHeader(image[at..at + BLOCK], e)
      && image[at + BLOCK..at + BLOCK + |e.data|] == e.data && Span(e) < TWO_32
  {
    assert EntryAt(image, entries, k);
  }

  lemma AtEnd(image: string, entries: seq<Entry>, name: string)
    requires Archive(image, entries)
    ensures Walk(image, Offset(entries, |entries|), false, name) == NotFound
  {
  }

  lemma SpanCovers(e: Entry)
    ensures Span(e) >= BLOCK
  {
  }

  /** One turn at an entry's header. */
  lemma WalkEntry(image: string, entries: seq<Entry>, k: nat, name: string)
    requires Archive(image, entries) && k < |entries|
    ensures Matches(entries[k], name) ==> Walk(image, Offset(entries, k), false, name) == Found(Offset(entries, k))
    ensures !Matches(entries[k], name) && !Misread(entries[k]) ==>
      Walk(image, Offset(entries, k), false, name) == Walk(image, Offset(entries, k + 1), false, name)
    ensures !Matches(entries[k], name) && Misread(entries[k]) ==>
      Walk(image, Offset(entries, k), false, name) == Walk(image, Offset(entries, k) + BLOCK, false, name)
  {
    hide Archive, IsHeader, IsFile, FieldText, OctalField, SizeOf, StepOf, Misread, TarFile, Span, Offset;
    AtEntry(image, entries, k);
    var at, e := Offset(entries, k), entries[k];
    SpanCovers(e);
    HeaderRead(image[at..at + BLOCK], e);
    StepExact(image[at..at + BLOCK], e);
  }

  /** Until it has found what it looks for, the walk goes from entry to entry, as long as none
      of them is misread. */
  lemma {:induction false} WalkFinds(image: string, entries: seq<Entry>, name: string, k: nat)
    requires Archive(image, entries) && k <= FirstMatch(entries, name)
    requires forall j :: k <= j < FirstMatch(entries, name) ==> !Misread(entries[j])
    ensures Walk(image, Offset(entries, k), false, name) == AnswerAt(entries, FirstMatch(entries, name))
    decreases |entries| - k
  {
    hide Archive, Walk, Matches, Misread, FirstMatch, Offset;
    if k == |entries| {
      AtEnd(image, entries, name);
    } else {
      WalkEntry(image, entries, k, name);
      if k < FirstMatch(entries, name) {
        WalkFinds(image, entries, name, k + 1);
      }
    }
  }

  lemma OffsetStart(entries: seq<Entry>)
    ensures Offset(entries, 0) == 0
  {
  }

  lemma {:induction false} OffsetsDiffer(entries: seq<Entry>, j: nat, k: nat)
    requires j < k <= |entries|
    ensures Offset(entries, j) < Offset(entries, k)
    decreases k
  {
    if j == k - 1 {
    } else {
      OffsetsDiffer(entries, j, k - 1);
    }
  }

  /** The file asked for is the first the code takes for it. */
  predicate Reachable(entries: seq<Entry>, name: string) {
    var w := FirstWanted(entries, name);
    (w < |entries| ==> Matches(entries[w], name)) && forall j :: 0 <= j < w ==> !Matches(entries[j], name)
  }

  lemma ReachableIs(entries: seq<Entry>, name: string)
    ensures Reachable(entries, name) <==> FirstMatch(entries, name) == FirstWanted(entries, name)
  {
  }

  /** In every archive in which no entry before it is misread, the search gives the first
      regular file with the pathname asked for, or nothing when there is none, if and only if
      that file is reachable. */
  lemma FindExact(image: string, entries: seq<Entry>, name: string)
    requires Archive(image, entries) && forall j :: 0 <= j < FirstMatch(entries, name) ==> !Misread(entries[j])
    ensures Walk(image, 0, false, name) == AnswerAt(entries, FirstMatch(entries, name))
    ensures Walk(image, 0, false, name) == AnswerAt(entries, FirstWanted(entries, name)) <==> Reachable(entries, name)
  {
    hide Walk, Archive, Reachable, FirstMatch, FirstWanted, Offset;
    OffsetStart(entries);
    WalkFinds(image, entries, name, 0);
    ReachableIs(entries, name);
    var f, w := FirstMatch(entries, name), FirstWanted(entries, name);
    if f < w {
      OffsetsDiffer(entries, f, w);
    } else if w < f {
      OffsetsDiffer(entries, w, f);
    }
  }

  /** A name of at most 100 characters reaches its file exactly when the file is not of type 7
      and has no prefix, and no file before it with a prefix has it for a name field. */
  lemma ShortReachable(entries: seq<Entry>, name: string)
    requires |name| <= NAME_SIZE
    ensures var w := FirstWanted(entries, name);
      Reachable(entries, name) <==>
        && (w < |entries| ==> TarFile(entries[w]) && entries[w].prefix == "")
        && forall j :: 0 <= j < w && TarFile(entries[j]) && entries[j].prefix != "" ==> entries[j].name != name
  {
    hide FirstWanted;
    var w := FirstWanted(entries, name);
    forall j | 0 <= j < w
      ensures Matches(entries[j], name) <==> TarFile(entries[j]) && entries[j].prefix != "" && entries[j].name == name
    {
      assert !Wanted(entries[j], name);
    }
    if w < |entries| && entries[w].prefix != "" {
      assert |Path(entries[w])| > |entries[w].name|;
    }
  }

  // ---- three archives that fail

  /** An empty file "a", as its header alone. */
  function InnerFile(): Entry { Entry(true, '0', "", "a", "", [NUL]) }

  lemma InnerStorable()
    ensures Storable(InnerFile())
  {
  }

  /** A file "c" of type 7, or one whose size field ends in a space, with the header of "a" for
      its data. */
  function OuterFile(typeflag: char, ending: char): Entry
  {
    InnerStorable();
    Entry(true, typeflag, "", "c", Header(InnerFile()), [ending])
  }

  lemma OuterStorable(typeflag: char, ending: char)
    requires !('2' <= typeflag <= '6') && (ending == ' ' || ending == NUL)
    ensures Storable(OuterFile(typeflag, ending)) && |OuterFile(typeflag, ending).data| == BLOCK
    ensures IsHeader(OuterFile(typeflag, ending).data, InnerFile())
  {
    InnerStorable();
    HeaderIs(InnerFile());
    hide Header;
    assert Pow8(3) == 512;
    assert Pow8(4) == 4096;
    assert Pow8(11) == 0x2_0000_0000;
  }

  lemma OneBlock(e: Entry)
    ensures Span(e) == BLOCK * (1 + Blocks(|e.data|)) && Blocks(0) == 0 && Blocks(BLOCK) == 1 && (Misread(e) ==> e.data != "")
  {
  }

  /** The walk comes upon the header in the data, wherever it steps into it. */
  lemma WalkInData(image: string, e: Entry, f: Entry, name: string)
    requires Archive(image, [e]) && Misread(e) && !Matches(e, name) && |e.data| == BLOCK && IsHeader(e.data, f) && f.data == ""
    requires TarFile(f) && ' ' !in f.ending
    ensures Walk(image, 0, false, name) == if Matches(f, name) then Found(BLOCK) else NotFound
  {
    hide Archive, IsHeader, IsFile, FieldText, OctalField, SizeOf, StepOf, Misread, TarFile, Offset, Span;
    OffsetStart([e]);
    WalkEntry(image, [e], 0, name);
    AtEntry(image, [e], 0);
    AtEnd(image, [e], name);
    OneBlock(e);
    OneBlock(f);
    HeaderRead(e.data, f);
    StepExact(e.data, f);
  }

  lemma OneEntry(e: Entry)
    ensures Offset([e], 1) == Span(e)
  {
    assert Offset([e], 0) == 0;
  }

  lemma OuterArchive(typeflag: char, ending: char)
    requires (typeflag == '7' && ending == NUL) || (typeflag == '0' && ending == ' ')
    ensures var e := OuterFile(typeflag, ending);
      && Storable(e) && Archive(Encode([e]), [e])
      && Walk(Encode([e]), 0, false, "a") == Found(BLOCK)
      && (typeflag == '7' ==> Walk(Encode([e]), 0, false, "c") == NotFound)
  {
    hide Archive, Header, Encode, IsHeader, Storable, Walk;
    OuterStorable(typeflag, ending);
    var e := OuterFile(typeflag, ending);
    assert AllStorable([e]);
    OneEntry(e);
    EncodeIsArchive([e]);
    WalkInData(Encode([e]), e, InnerFile(), "a");
    if typeflag == '7' {
      WalkInData(Encode([e]), e, InnerFile(), "c");
    }
  }

  /** A file of type 7: the search for it finds nothing, and one for "a", which is not in the
      archive, finds the header in its data. */
  lemma TypeSevenMissed()
    ensures var e := OuterFile('7', NUL);
      && Storable(e) && Archive(Encode([e]), [e])
      && FirstWanted([e], "c") == 0 && Walk(Encode([e]), 0, false, "c") == NotFound
      && FirstWanted([e], "a") == 1 && Walk(Encode([e]), 0, false, "a") == Found(BLOCK)
  {
    OuterArchive('7', NUL);
  }

  /** A size field with a space at its end: the file "a" in the data is found. */
  lemma SpaceMisread()
    ensures var e := OuterFile('0', ' ');
      && Storable(e) && Archive(Encode([e]), [e])
      && FirstWanted([e], "a") == 1 && Walk(Encode([e]), 0, false, "a") == Found(BLOCK)
  {
    OuterArchive('0', ' ');
  }

  /** A pathname in two parts: "d/a" is not found, and "a" is. */
  lemma PrefixIgnored()
    ensures var e := Entry(true, '0', "d", "a", "", [NUL]);
      && Storable(e) && Archive(Encode([e]), [e])
      && FirstWanted([e], "d/a") == 0 && Walk(Encode([e]), 0, false, "d/a") == NotFound
      && FirstWanted([e], "a") == 1 && Walk(Encode([e]), 0, false, "a") == Found(0)
  {
    var e := Entry(true, '0', "d", "a", "", [NUL]);
    hide Archive, Encode, Walk;
    assert AllStorable([e]);
    OneEntry(e);
    EncodeIsArchive([e]);
    OffsetStart([e]);
    FindExact(Encode([e]), [e], "d/a");
    FindExact(Encode([e]), [e], "a");
  }

  // ---- reading it

  lemma SmallData(e: Entry)
    requires Span(e) < TWO_32
    ensures |e.data| < 0xFFFF_FFF0
  {
  }

  lemma SizeAt(image: string, entries: seq<Entry>, k: nat)
    requires Archive(image, entries) && k < |entries| && TarFile(entries[k])
    ensures var at, e := Offset(entries, k) + SIZE_AT, entries[k];
      && at + SIZE_LEN <= |image| && OctalField(image[at..at + SIZE_LEN])
      && (OctValue(image[at..at + SIZE_LEN], 0) == |e.data| <==> ' ' !in e.ending)
  {
    hide Archive, IsHeader, OctValue, OctalField, SizeField, Offset, Pow8, Blocks;
    AtEntry(image, entries, k);
    var at, e := Offset(entries, k), entries[k];
    SpanCovers(e);
    HeaderRead(image[at..at + BLOCK], e);
    HeaderStorable(image[at..at + BLOCK], e);
    SmallData(e);
    SizeRoundTrip(|e.data|, e.ending);
    Within(image, at, at + BLOCK, SIZE_AT, SIZE_AT + SIZE_LEN);
  }

  /** An open file: where its bytes go on, and how many are left. */
  class OpenFile {
    var pos0: nat
    var pos1: nat

    ghost function Left(image: string): string
      requires pos0 + pos1 <= |image|
      reads this
    {
      image[pos0..pos0 + pos1]
    }

    /** initramfs_open, on what the search found: the data is what is left to read exactly
        when there is no space at the end of the size field. */
    constructor (image: string, file: nat, ghost entries: seq<Entry>, ghost k: nat)
      requires Archive(image, entries) && k < |entries| && TarFile(entries[k]) && file == Offset(entries, k)
      ensures pos1 == |entries[k].data| <==> ' ' !in entries[k].ending
      ensures ' ' !in entries[k].ending ==> pos0 + pos1 <= |image| && Left(image) == entries[k].data
    {
      AtEntry(image, entries, k);
      SizeAt(image, entries, k);
      hide Archive, IsHeader, OctValue, OctalField, Offset;
      pos0 := file + BLOCK;
      var n := Oct2u32(image, file + SIZE_AT, SIZE_LEN);
      pos1 := n;
    }

    /** initramfs_read. */
    method Read(image: string, len: nat) returns (data: string)
      requires pos0 + pos1 <= |image|
      modifies this
      ensures pos0 + pos1 == old(pos0 + pos1) && old(Left(image)) == data + Left(image)
      ensures |data| == if len > old(pos1) then old(pos1) else len
    {
      var l := if len > pos1 then pos1 else len;
      data := image[pos0..pos0 + l];
      assert image[pos0..pos0 + pos1] == image[pos0..pos0 + l] + image[pos0 + l..pos0 + pos1];
      pos1 := pos1 - l;
      pos0 := pos0 + l;
    }
  }

  /** What reads of these lengths give, one after the other. */
  function Chunks(left: string, lens: seq<nat>): string
    decreases |lens|
  {
    if lens == [] then ""
    else
      var l := if lens[0] > |left| then |left| else lens[0];
      left[..l] + Chunks(left[l..], lens[1..])
  }

  function Sum(lens: seq<nat>): nat { if lens == [] then 0 else lens[0] + Sum(lens[1..]) }

  /** Reads of any lengths put together are the file from its start, as far as they go. */
  lemma {:induction false} ChunksAreData(left: string, lens: seq<nat>)
    ensures Chunks(left, lens) == left[..if Sum(lens) > |left| then |left| else Sum(lens)]
    decreases |lens|
  {
    if lens == [] {
    } else {
      var l := if lens[0] > |left| then |left| else lens[0];
      ChunksAreData(left[l..], lens[1..]);
    }
  }

  lemma ChunksStep(left: string, piece: string, left': string, lens: seq<nat>, i: nat)
    requires i < |lens| && left == piece + left' && |piece| == if lens[i] > |left| then |left| else lens[i]
    ensures Chunks(left, lens[i..]) == piece + Chunks(left', lens[i + 1..])
  {
    assert lens[i..][1..] == lens[i + 1..] && left[..|piece|] == piece && left[|piece|..] == left';
  }

  method ReadPieces(f: OpenFile, image: string, lens: seq<nat>) returns (data: string)
    requires f.pos0 + f.pos1 <= |image|
    modifies f
    ensures data == Chunks(old(f.Left(image)), lens)
  {
    hide Chunks;
    data := "";
    assert lens[0..] == lens;
    ghost var all := f.Left(image);
    var i := 0;
    while i < |lens|
      invariant 0 <= i <= |lens| && f.pos0 + f.pos1 <= |image|
      invariant Chunks(all, lens) == data + Chunks(f.Left(image), lens[i..])
    {
      ghost var left := f.Left(image);
      var piece := f.Read(image, lens[i]);
      ChunksStep(left, piece, f.Left(image), lens, i);
      data := data + piece;
      i := i + 1;
    }
    assert lens[i..] == [] && data + "" == data;
    ChunksAreData(f.Left(image), []);
  }

  /** Open and read in pieces: the data of the file, whole. Where the file asked for is
      reachable, it is that one. */
  method ReadAll(image: string, name: string, lens: seq<nat>, ghost entries: seq<Entry>) returns (found: bool, data: string)
    requires Archive(image, entries) && NoNul(name)
    requires forall j :: 0 <= j < FirstMatch(entries, name) ==> !Misread(entries[j])
    requires FirstMatch(entries, name) < |entries| ==> ' ' !in entries[FirstMatch(entries, name)].ending
    ensures var k := FirstMatch(entries, name);
      && (found <==> k < |entries|) && (Reachable(entries, name) <==> k == FirstWanted(entries, name))
      && (found ==> data == Chunks(entries[k].data, lens))
      && (found && Sum(lens) >= |entries[k].data| ==> data == entries[k].data)
  {
    hide Archive, Chunks, Sum, FirstMatch, FirstWanted, Reachable, NoNul, Offset, Walk;
    found, data := false, "";
    FindExact(image, entries, name);
    ReachableIs(entries, name);
    var pos := FindFile(image, name);
    if pos != MM_NADDR {
      ghost var k := FirstMatch(entries, name);
      found := true;
      var f := new OpenFile(image, pos, entries, k);
      ChunksAreData(entries[k].data, lens);
      data := ReadPieces(f, image, lens);
    }
  }

  // ---- ordinary archives

  /** A regular file that goes by this name, of a type the code knows. */
  predicate FileNamed(e: Entry, name: string) {
    e.name == name && if e.ustar then e.typeflag == '\0' || e.typeflag == '0' else e.name == "" || e.name[|e.name| - 1] != '/'
  }

  /** No prefix and no space behind the size; only files of the types the code knows have
      data. */
  predicate Plain(e: Entry) {
    e.prefix == "" && ' ' !in e.ending && (e.ustar && e.typeflag != '\0' && e.typeflag != '0' ==> e.data == "")
  }

  lemma PlainIs(e: Entry, name: string)
    requires Storable(e) && Plain(e) && |name| <= 100
    ensures !Misread(e) && (Matches(e, name) <==> FileNamed(e, name))
  {
  }

  lemma PlainEnding(e: Entry)
    requires Plain(e)
    ensures ' ' !in e.ending
  {
  }

  lemma PlainFirst(entries: seq<Entry>, name: string)
    requires AllStorable(entries) && |name| <= 100 && forall j :: 0 <= j < |entries| ==> Plain(entries[j])
    ensures var k := FirstMatch(entries, name);
      && (forall j :: 0 <= j < k ==> !FileNamed(entries[j], name))
      && (k < |entries| ==> FileNamed(entries[k], name) && ' ' !in entries[k].ending)
      && forall j :: 0 <= j < |entries| ==> !Misread(entries[j])
  {
    hide Storable, Plain, Matches, FileNamed, Misread, FirstMatch;
    forall j | 0 <= j < |entries|
      ensures !Misread(entries[j]) && (Matches(entries[j], name) <==> FileNamed(entries[j], name)) && ' ' !in entries[j].ending
    {
      PlainIs(entries[j], name);
      PlainEnding(entries[j]);
    }
  }

  /** The archive of ordinary entries, written, searched and read: the data of the first
      regular file with the name, whole, and nothing exactly when there is none. */
  method ReadPlain(entries: seq<Entry>, name: string, lens: seq<nat>) returns (found: bool, data: string, ghost k: nat)
    requires AllStorable(entries) && Offset(entries, |entries|) + 1024 < 0x1_0000_0000
    requires |name| <= 100 && NoNul(name) && forall j :: 0 <= j < |entries| ==> Plain(entries[j])
    ensures k <= |entries| && forall j :: 0 <= j < k ==> !FileNamed(entries[j], name)
    ensures found <==> k < |entries|
    ensures found ==> FileNamed(entries[k], name)
    ensures found ==> data == entries[k].data[..if Sum(lens) > |entries[k].data| then |entries[k].data| else Sum(lens)]
  {
    hide Archive, Chunks, Sum, FirstMatch, FirstWanted, Reachable, NoNul, Encode, Storable, Plain, Misread, FileNamed;
    EncodeIsArchive(entries);
    PlainFirst(entries, name);
    k := FirstMatch(entries, name);
    found, data := ReadAll(Encode(entries), name, lens, entries);
    if found {
      ChunksAreData(entries[k].data, lens);
    }
  }
}

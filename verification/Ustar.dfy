/** Archives in the ustar interchange format of POSIX.1 (pax): what an entry is, how its
    header spells it, and where its data lies. */
module Ustar {
  import opened CStrings

  const BLOCK := 512
  const NAME_SIZE := 100
  const SIZE_AT := 124
  const SIZE_LEN := 12
  const TYPE_AT := 156
  const MAGIC_AT := 257
  const PREFIX_AT := 345
  const PREFIX_SIZE := 155
  const TWO_32 := 0x1_0000_0000

  /** An entry: ustar says that its header has the magic, which older archivers do not write;
      ending is what follows the digits of its size field. */
  datatype Entry = Entry(ustar: bool, typeflag: char, prefix: string, name: string, data: string, ending: string)

  /** The pathname. */
  function Path(e: Entry): string { if e.prefix == "" then e.name else e.prefix + "/" + e.name }

  predicate SlashAtEnd(name: string) { name != "" && name[|name| - 1] == '/' }

  /** A regular file: type 0, written as NUL by older archivers, and type 7, which is to be
      treated as one. Without the magic, anything but a directory. */
  predicate Regular(e: Entry) {
    if e.ustar then e.typeflag == NUL || e.typeflag == '0' || e.typeflag == '7' else !SlashAtEnd(e.name)
  }

  /** Symbolic links, devices, directories and FIFOs have no data in the archive. Entries of
      every other type can: pax stores it behind hard links and in extended headers as well. */
  predicate NoData(e: Entry) {
    if e.ustar then '2' <= e.typeflag <= '6' else SlashAtEnd(e.name)
  }

  // ---- fields

  function Oct(n: nat, k: nat): string {
    if k == 0 then "" else Oct(n / 8, k - 1) + ["01234567"[n % 8]]
  }

  function Pow8(k: nat): (p: nat)
    ensures p > 0
  {
    if k == 0 then 1 else 8 * Pow8(k - 1)
  }

  /** A size field ends in one or more spaces or NULs. */
  predicate IsEnding(s: string) {
    1 <= |s| < SIZE_LEN && forall i :: 0 <= i < |s| ==> s[i] == ' ' || s[i] == NUL
  }

  function SizeField(n: nat, ending: string): string
    requires |ending| <= SIZE_LEN
  {
    Oct(n, SIZE_LEN - |ending|) + ending
  }

  /** A text in its field, with a NUL behind it where there is room for one. */
  predicate TextField(field: string, text: string) {
    |text| <= |field| && field[..|text|] == text && NoNul(text) && (|text| < |field| ==> field[|text|] == NUL)
  }

  /** What the format can hold. */
  predicate Storable(e: Entry) {
    && 0 < |e.name| <= NAME_SIZE && NoNul(e.name)
    && |e.prefix| <= PREFIX_SIZE && NoNul(e.prefix) && (!e.ustar ==> e.prefix == "")
    && IsEnding(e.ending) && |e.data| < Pow8(SIZE_LEN - |e.ending|)
    && (NoData(e) ==> e.data == "")
  }

  predicate IsUstar(block: string)
    requires |block| == BLOCK
  {
    block[MAGIC_AT..MAGIC_AT + 5] == "ustar"
  }

  /** A header of the entry; fields not named may hold anything, and the size field of an
      entry that has no data as well. */
  ghost predicate IsHeader(block: string, e: Entry) {
    && |block| == BLOCK && Storable(e)
    && TextField(block[..NAME_SIZE], e.name)
    && (IsUstar(block) <==> e.ustar) && block[TYPE_AT] == e.typeflag
    && (if e.ustar then TextField(block[PREFIX_AT..PREFIX_AT + PREFIX_SIZE], e.prefix)
        else forall i :: |e.name| <= i < NAME_SIZE ==> block[i] == NUL)
    && (!NoData(e) ==> block[SIZE_AT..SIZE_AT + SIZE_LEN] == SizeField(|e.data|, e.ending))
  }

  // ---- archives

  function Blocks(n: nat): nat { (n + BLOCK - 1) / BLOCK }

  /** Bytes an entry takes up: its header and the blocks of its data. */
  function Span(e: Entry): nat { BLOCK * (1 + Blocks(|e.data|)) }

  /** Where entry k begins. */
  function Offset(entries: seq<Entry>, k: nat): nat
    requires k <= |entries|
    decreases k
  {
    if k == 0 then 0 else Offset(entries, k - 1) + Span(entries[k - 1])
  }

  ghost predicate EntryAt(image: string, entries: seq<Entry>, k: int)
    requires 0 <= k < |entries|
  {
    var at, e := Offset(entries, k), entries[k];
    at + Span(e) <= |image| && IsHeader(image[at..at + BLOCK], e) && image[at + BLOCK..at + BLOCK + |e.data|] == e.data
  }

  /** The archive of the entries: headers with the data behind them, and two blocks of NULs
      at the end, in a 32-bit address space. */
  ghost predicate Archive(image: string, entries: seq<Entry>) {
    var end := Offset(entries, |entries|);
    && |image| < TWO_32 && end + 2 * BLOCK <= |image|
    && (forall k :: 0 <= k < |entries| ==> EntryAt(image, entries, k))
    && forall i :: end <= i < end + 2 * BLOCK ==> image[i] == NUL
  }

  // ---- writing one

  function Fill(n: nat): (s: string)
    ensures |s| == n && forall i :: 0 <= i < n ==> s[i] == NUL
  {
    seq(n, _ => NUL)
  }

  function Padded(text: string, n: nat): string
    requires |text| <= n
  {
    text + Fill(n - |text|)
  }

  lemma {:induction false} OctLength(n: nat, k: nat)
    ensures |Oct(n, k)| == k
    decreases k
  {
    if k == 0 {
    } else {
      OctLength(n / 8, k - 1);
    }
  }

  lemma PaddedIs(text: string, n: nat)
    requires |text| <= n && NoNul(text)
    ensures |Padded(text, n)| == n && TextField(Padded(text, n), text)
    ensures forall i :: |text| <= i < n ==> Padded(text, n)[i] == NUL
  {
  }

  function Header(e: Entry): string
    requires Storable(e)
  {
    Padded(e.name, NAME_SIZE) + Fill(24) + SizeField(|e.data|, e.ending) + Fill(20) + [e.typeflag] + Fill(100)
    + (if e.ustar then "ustar" else Fill(5)) + Fill(83) + Padded(e.prefix, PREFIX_SIZE) + Fill(12)
  }

  /** The fields are where the format puts them. */
  lemma HeaderIs(e: Entry)
    requires Storable(e)
    ensures IsHeader(Header(e), e)
  {
    hide Oct, Pow8, NoData;
    OctLength(|e.data|, SIZE_LEN - |e.ending|);
    PaddedIs(e.name, NAME_SIZE);
    PaddedIs(e.prefix, PREFIX_SIZE);
    hide Padded, NoNul;
    var h := Header(e);
    assert |h| == BLOCK && h[TYPE_AT] == e.typeflag;
    assert h[MAGIC_AT] == if e.ustar then 'u' else NUL;
    assert h[..NAME_SIZE] == Padded(e.name, NAME_SIZE);
    assert h[SIZE_AT..SIZE_AT + SIZE_LEN] == SizeField(|e.data|, e.ending);
    assert h[MAGIC_AT..MAGIC_AT + 5] == if e.ustar then "ustar" else Fill(5);
    assert h[PREFIX_AT..PREFIX_AT + PREFIX_SIZE] == Padded(e.prefix, PREFIX_SIZE);
  }

  /** An entry's header, its data, and what fills the last block of it. */
  function Records(e: Entry): string
    requires Storable(e)
  {
    Header(e) + Padded(e.data, BLOCK * Blocks(|e.data|))
  }

  predicate AllStorable(entries: seq<Entry>) {
    forall k :: 0 <= k < |entries| ==> Storable(entries[k])
  }

  function Written(entries: seq<Entry>, n: nat): string
    requires AllStorable(entries) && n <= |entries|
    decreases n
  {
    if n == 0 then "" else Written(entries, n - 1) + Records(entries[n - 1])
  }

  lemma RecordsSpan(e: Entry)
    requires Storable(e)
    ensures |Records(e)| == Span(e) >= BLOCK + |e.data| && Records(e)[..BLOCK] == Header(e) && Records(e)[BLOCK..BLOCK + |e.data|] == e.data
  {
    HeaderIs(e);
    hide Header;
  }

  lemma {:induction false} WrittenLength(entries: seq<Entry>, n: nat)
    requires AllStorable(entries) && n <= |entries|
    ensures |Written(entries, n)| == Offset(entries, n)
    decreases n
  {
    hide Records, Span, Storable;
    if n == 0 {
    } else {
      WrittenLength(entries, n - 1);
      RecordsSpan(entries[n - 1]);
    }
  }

  /** Entry k is at its offset in what n entries leave. */
  lemma {:induction false} WrittenAt(entries: seq<Entry>, n: nat, k: nat)
    requires AllStorable(entries) && k < n <= |entries|
    ensures var at, w := Offset(entries, k), Written(entries, n);
      at + Span(entries[k]) <= |w| && w[at..at + Span(entries[k])] == Records(entries[k])
    decreases n
  {
    hide Records, Span, Storable;
    WrittenLength(entries, n - 1);
    RecordsSpan(entries[n - 1]);
    if k < n - 1 {
      WrittenAt(entries, n - 1, k);
      hide Offset;
    }
  }

  function Encode(entries: seq<Entry>): string
    requires AllStorable(entries)
  {
    Written(entries, |entries|) + Fill(2 * BLOCK)
  }

  lemma Within(s: string, a: nat, b: nat, c: nat, d: nat)
    requires a <= b <= |s| && c <= d <= b - a
    ensures s[a..b][c..d] == s[a + c..a + d]
  {
    forall i | 0 <= i < d - c
      ensures s[a..b][c..d][i] == s[a + c..a + d][i]
    {
      assert s[a..b][c..d][i] == s[a..b][c + i] == s[a + (c + i)];
    }
  }

  lemma InPrefix(s: string, tail: string, a: nat, b: nat)
    requires a <= b <= |s|
    ensures (s + tail)[a..b] == s[a..b]
  {
  }

  lemma EncodedEntry(entries: seq<Entry>, k: nat)
    requires AllStorable(entries) && k < |entries|
    ensures EntryAt(Encode(entries), entries, k)
  {
    hide Records, Header, Written, IsHeader, Storable, Offset, Span;
    var at, e, image := Offset(entries, k), entries[k], Encode(entries);
    WrittenAt(entries, |entries|, k);
    RecordsSpan(e);
    HeaderIs(e);
    InPrefix(Written(entries, |entries|), Fill(2 * BLOCK), at, at + Span(e));
    Within(image, at, at + Span(e), 0, BLOCK);
    Within(image, at, at + Span(e), BLOCK, BLOCK + |e.data|);
  }

  /** Every list of entries has an archive, if that is not too long for the address space. */
  lemma EncodeIsArchive(entries: seq<Entry>)
    requires AllStorable(entries)
    ensures |Encode(entries)| == Offset(entries, |entries|) + 2 * BLOCK
    ensures |Encode(entries)| < TWO_32 ==> Archive(Encode(entries), entries)
  {
    WrittenLength(entries, |entries|);
    hide Written, EntryAt;
    forall k | 0 <= k < |entries|
      ensures EntryAt(Encode(entries), entries, k)
    {
      EncodedEntry(entries, k);
    }
  }
}

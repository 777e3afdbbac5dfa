/** Allocation bitmaps: 32 pages to a machine word, scanned word by word.
    Both page allocators keep one (src/arch/x86/mm/phys.c, src/arch/x86/mm/space.c).
    A 32-bit word is the set of the numbers of its one bits: `w | (1 << j)` is
    `w + {j}`, `w & ~(1 << j)` is `w - {j}`, and 0xFFFFFFFF is FULL. */
module Bitmaps {

  type Word = set<int>

  const FULL: Word := set j: int | 0 <= j < 32

  /** Page number k of a bitmap is bit k % 32 of word k / 32. */
  predicate Taken(words: seq<Word>, k: int)
    requires 0 <= k < 32 * |words|
  {
    k % 32 in words[k / 32]
  }

  ghost predicate WordsOk(words: seq<Word>) {
    forall i :: 0 <= i < |words| ==> words[i] <= FULL
  }

  /** One pass of the allocators' nested search loops over words lo..hi-1: the
      first free page there, or -1. */
  method Scan(words: seq<Word>, lo: nat, hi: nat) returns (page: int)
    requires lo <= hi <= |words| && WordsOk(words)
    ensures page == -1 || 32 * lo <= page < 32 * hi
    ensures page != -1 ==> !Taken(words, page)
    ensures forall q :: 32 * lo <= q < (if page == -1 then 32 * hi else page) ==> Taken(words, q)
  {
    var i := lo;
    while i < hi
      invariant lo <= i <= hi
      invariant forall q :: 32 * lo <= q < 32 * i ==> Taken(words, q)
    {
      if words[i] != FULL {
        var j := 0;
        while j < 32
          invariant 0 <= j <= 32
          invariant forall q :: 32 * lo <= q < 32 * i + j ==> Taken(words, q)
        {
          if j !in words[i] {
            return 32 * i + j;
          }
          j := j + 1;
        }
      }
      i := i + 1;
    }
    return -1;
  }
}

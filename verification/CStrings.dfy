/** Strings that end in a NUL, and the functions of src/sys/string.c that the parsers and
    the lookup use. */
module CStrings {

  const NUL := '\0'

  predicate NoNul(s: string) { NUL !in s }

  /** Character i of a string that ends in a NUL. */
  function CharAt(s: string, i: nat): char { if i < |s| then s[i] else NUL }

  /** Index of the first c in s, |s| when there is none. */
  function IndexOf(s: string, c: char): (i: nat)
    ensures i <= |s|
  {
    if s == "" || s[0] == c then 0 else 1 + IndexOf(s[1..], c)
  }

  lemma {:induction false} IndexIs(s: string, c: char)
    ensures var i := IndexOf(s, c); (forall j :: 0 <= j < i ==> s[j] != c) && (i < |s| ==> s[i] == c)
  {
    if s == "" || s[0] == c {
    } else {
      IndexIs(s[1..], c);
    }
  }

  /** The first c is at the first place behind which it may stand. */
  lemma {:induction false} IndexBehind(s: string, tail: string, c: char)
    requires c !in s && (tail != "" ==> tail[0] == c)
    ensures IndexOf(s + tail, c) == |s|
  {
    if s != "" {
      assert (s + tail)[1..] == s[1..] + tail && s[0] != c;
      IndexBehind(s[1..], tail, c);
    } else {
      assert s + tail == tail;
    }
  }

  /** strlen. */
  method Strlen(s: array<char>) returns (l: nat)
    requires exists k :: 0 <= k < s.Length && s[k] == NUL
    ensures l < s.Length && s[l] == NUL && forall k :: 0 <= k < l ==> s[k] != NUL
  {
    l := 0;
    while s[l] != NUL
      invariant l < s.Length && forall k :: 0 <= k < l ==> s[k] != NUL
      decreases s.Length - l
    {
      l := l + 1;
    }
  }

  /** strchr and strchrnul from p on: where they differ, at the end of the string, |s|. */
  method Strchr(s: string, p: nat, c: char) returns (i: nat)
    requires p <= |s| && c != NUL && NoNul(s)
    ensures i == p + IndexOf(s[p..], c) && i <= |s|
  {
    i := p;
    while CharAt(s, i) != NUL
      invariant p <= i <= |s| && i + IndexOf(s[i..], c) == p + IndexOf(s[p..], c)
      decreases |s| - i
    {
      if s[i] == c {
        return;
      }
      assert s[i..][1..] == s[i + 1..];
      i := i + 1;
    }
  }

  /** The first l characters, or all. */
  function Cut(s: string, l: nat): string { if |s| > l then s[..l] else s }

  lemma CutDiffers(x: string, y: string, l: nat, p: nat)
    requires p < l && p < |x| && p < |y| && x[p] != y[p]
    ensures Cut(x, l) != Cut(y, l)
  {
    assert Cut(x, l)[p] == x[p] && Cut(y, l)[p] == y[p];
  }

  lemma CutDecided(x: string, y: string, l: nat, p: nat)
    requires NoNul(x) && NoNul(y) && p <= l && p <= |x| && p <= |y| && x[..p] == y[..p]
    requires p == l || p == |x| || p == |y|
    ensures Cut(x, l) == Cut(y, l) <==> p == l || CharAt(x, p) == CharAt(y, p)
  {
    if p < l && |x| != |y| {
      assert |Cut(x, l)| != |Cut(y, l)|;
    }
  }

  /** strncmp(a + i, b + j, l) == 0: the first l characters agree, up to where both end. */
  method SamePrefix(a: string, i: nat, b: string, j: nat, l: nat) returns (same: bool)
    requires NoNul(a) && NoNul(b) && i <= |a| && j <= |b|
    ensures same <==> Cut(a[i..], l) == Cut(b[j..], l)
  {
    hide Cut;
    ghost var x, y := a[i..], b[j..];
    var p := 0;
    while p < l && CharAt(a, i + p) != NUL && CharAt(b, j + p) != NUL
      invariant 0 <= p <= l && p <= |x| && p <= |y| && x[..p] == y[..p]
    {
      if a[i + p] != b[j + p] {
        CutDiffers(x, y, l, p);
        return false;
      }
      assert x[..p + 1] == x[..p] + [a[i + p]] && y[..p + 1] == y[..p] + [b[j + p]];
      p := p + 1;
    }
    CutDecided(x, y, l, p);
    same := CharAt(a, i + p) == CharAt(b, j + p) || p == l;
  }
}

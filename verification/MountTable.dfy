/** The mount table and path lookup of src/sys/vfs.c. Absolute paths without empty
    components are taken as lists of components. */
module Mounts {
  import opened CStrings

  type Path = seq<string>

  predicate Component(s: string) { s != "" && '/' !in s && NoNul(s) }

  ghost predicate Proper(p: Path) { forall i :: 0 <= i < |p| ==> Component(p[i]) }

  /** The text of a path behind its leading slash. */
  function Rel(p: Path): string {
    if p == [] then "" else if |p| == 1 then p[0] else p[0] + ("/" + Rel(p[1..]))
  }

  function Text(p: Path): string { "/" + Rel(p) }

  lemma {:induction false} RelClean(p: Path)
    requires Proper(p)
    ensures NoNul(Rel(p)) && NoNul(Text(p)) && (p == [] <==> Rel(p) == "") && (p == [] <==> Text(p) == "/")
  {
    assert Text(p)[1..] == Rel(p);
    if |p| > 1 {
      assert Component(p[0]);
      RelClean(p[1..]);
    } else if |p| == 1 {
      assert Component(p[0]);
    }
  }

  /** The first component ends at the first slash or with the text. */
  lemma RelFirst(p: Path)
    requires Proper(p) && p != []
    ensures IndexOf(Rel(p), '/') == |p[0]| && Cut(Rel(p), |p[0]|) == p[0]
    ensures |p| == 1 ==> Rel(p) == p[0]
    ensures |p| > 1 ==> |p[0]| < |Rel(p)| && Rel(p)[|p[0]| + 1..] == Rel(p[1..])
  {
    assert Component(p[0]);
    if |p| == 1 {
      IndexBehind(p[0], "", '/');
      assert p[0] + "" == p[0];
    } else {
      IndexBehind(p[0], "/" + Rel(p[1..]), '/');
    }
  }

  /** Texts are equal only for equal paths, so strcmp compares paths. */
  lemma {:induction false} TextInjective(p: Path, q: Path)
    requires Proper(p) && Proper(q) && Rel(p) == Rel(q)
    ensures p == q
  {
    RelClean(p);
    RelClean(q);
    if p == [] {
    } else {
      RelFirst(p);
      RelFirst(q);
      assert p[0] == q[0];
      if |p| > 1 && |q| > 1 {
        TextInjective(p[1..], q[1..]);
        assert p == [p[0]] + p[1..] && q == [q[0]] + q[1..];
      }
    }
  }

  /** Components in common at the front. */
  function Common(p: Path, q: Path): (n: nat)
    ensures n <= |p| && n <= |q|
  {
    if p != [] && q != [] && p[0] == q[0] then 1 + Common(p[1..], q[1..]) else 0
  }

  lemma {:induction false} CommonIs(p: Path, q: Path, k: nat)
    requires k <= |p| && k <= |q| && p[..k] == q[..k] && (k < |p| && k < |q| ==> p[k] != q[k])
    ensures Common(p, q) == k
    decreases k
  {
    if k == 0 {
    } else {
      assert p[0] == p[..k][0] == q[0];
      assert p[1..][..k - 1] == p[..k][1..] && q[1..][..k - 1] == q[..k][1..];
      CommonIs(p[1..], q[1..], k - 1);
    }
  }

  lemma {:induction false} CommonPrefix(p: Path, q: Path)
    ensures Common(p, q) == |q| <==> q <= p
  {
    if p == [] || q == [] {
    } else {
      CommonPrefix(p[1..], q[1..]);
      assert p == [p[0]] + p[1..] && q == [q[0]] + q[1..];
    }
  }

  // ---- what the lookup chooses

  /** The path ends inside the mount point: the match would run off the path's end. */
  predicate EndsInside(p: Path, m: Path) { p != [] && p < m }

  /** What the two pointers of vfs_components_match see after n components. */
  lemma Sees(text: string, at: nat, p: Path, n: nat)
    requires Proper(p) && n < |p| && at <= |text| && text[at..] == Rel(p[n..])
    ensures var e := at + |p[n]|;
      && IndexOf(text[at..], '/') == |p[n]| > 0 && Cut(text[at..], |p[n]|) == p[n] && e <= |text|
      && (n + 1 < |p| ==> e + 1 <= |text| && text[e + 1..] == Rel(p[n + 1..]))
      && (n + 1 == |p| ==> e == |text|)
  {
    hide IndexOf, Cut;
    var q := p[n..];
    assert Component(p[n]);
    RelFirst(q);
    if n + 1 < |p| {
      assert q[1..] == p[n + 1..] && text[at + |p[n]| + 1..] == text[at..][|p[n]| + 1..];
    }
  }

  lemma RelEmpty(text: string, at: nat)
    requires at <= |text| && text[at..] == Rel([])
    ensures IndexOf(text[at..], '/') == 0
  {
  }

  /** vfs_components_match. A mount point shorter than the path is read past its end, where
      the table has zeros. */
  method ComponentsMatch(path: string, dst: string, ghost p: Path, ghost m: Path) returns (n: nat)
    requires Proper(p) && Proper(m) && path == Text(p) && dst == Text(m) && p != m && !EndsInside(p, m)
    ensures n == if m == [] then 1 else Common(p, m)
  {
    hide Rel, IndexOf, Cut, NoNul, Proper, Common;
    RelClean(p);
    RelClean(m);
    if dst == "/" {
      return 1;
    }
    var p0: nat, p1: nat := 1, 1;
    n := 0;
    assert p[0..] == p && m[0..] == m && m != [];
    while true
      invariant n <= |p| && n <= |m| && p[..n] == m[..n]
      invariant p0 <= |path| && path[p0..] == Rel(p[n..]) && (if p == [] then n == 0 else n < |p|)
      invariant if n < |m| then p1 <= |dst| && dst[p1..] == Rel(m[n..]) else p1 == |dst| + 1
      decreases |p| - n
    {
      if p == [] { RelEmpty(path, p0); } else { Sees(path, p0, p, n); }
      if n < |m| { Sees(dst, p1, m, n); }
      var e0 := Strchr(path, p0, '/');
      var e1 := p1;
      if p1 <= |dst| {
        e1 := Strchr(dst, p1, '/');
      }
      var same := false;
      if e1 - p1 == e0 - p0 {
        same := SamePrefix(path, p0, dst, p1, e0 - p0);
      }
      if !same {
        break;
      }
      assert p[n] == m[n];
      assert p[..n + 1] == p[..n] + [p[n]] && m[..n + 1] == m[..n] + [m[n]];
      assert p[..|p|] == p && m[..|m|] == m;
      n, p0, p1 := n + 1, e0 + 1, e1 + 1;
    }
    CommonIs(p, m, n);
  }

  /** What the lookup goes by: twice the components matched, and 1 for the root, which
      matches every path and gives way to every match that is not nothing. */
  function Rank(p: Path, m: Path): nat { if m == [] then 1 else 2 * Common(p, m) }

  /** The first mount point of highest rank among the first n; -1 when all rank 0. */
  function Best(p: Path, ms: seq<Path>, n: nat): (b: int)
    requires n <= |ms|
    ensures -1 <= b < n
    ensures b == -1 ==> forall j :: 0 <= j < n ==> Rank(p, ms[j]) == 0
    ensures b >= 0 ==>
      && Rank(p, ms[b]) > 0
      && (forall j :: 0 <= j < n ==> Rank(p, ms[j]) <= Rank(p, ms[b]))
      && (forall j :: 0 <= j < b ==> Rank(p, ms[j]) < Rank(p, ms[b]))
    decreases n
  {
    if n == 0 then -1
    else
      var b := Best(p, ms, n - 1);
      if Rank(p, ms[n - 1]) > (if b < 0 then 0 else Rank(p, ms[b])) then n - 1 else b
  }

  /** The answer of the lookup when no mount point is the path itself: the mount point, or
      -1, and the text of what is left of the path. Whatever the mount point, one component
      at most is taken off. */
  function Answer(p: Path, ms: seq<Path>): (int, string) {
    var b := Best(p, ms, |ms|);
    (b, if b < 0 then "" else if ms[b] == [] then Rel(p) else if p == [] then "" else Rel(p[1..]))
  }

  ghost predicate Longest(p: Path, ms: seq<Path>, b: int)
    requires 0 <= b < |ms|
  {
    ms[b] <= p && forall j :: 0 <= j < |ms| && ms[j] <= p ==> |ms[j]| <= |ms[b]|
  }

  /** What a lookup is for: the mount point with most components that the path begins with,
      and the rest of the path; -1 when there is none. */
  ghost predicate Right(p: Path, ms: seq<Path>, answer: (int, string)) {
    var (b, rel) := answer;
    if b == -1 then forall j :: 0 <= j < |ms| ==> !(ms[j] <= p)
    else 0 <= b < |ms| && Longest(p, ms, b) && rel == Rel(p[|ms[b]|..])
  }

  ghost predicate Distinct(ms: seq<Path>) { forall i, j :: 0 <= i < j < |ms| ==> ms[i] != ms[j] }

  /** Mount points that the path leaves: they match in part only. */
  ghost predicate Partial(p: Path, m: Path) { !(m <= p) }

  ghost predicate Wins(p: Path, ms: seq<Path>, l: int)
    requires 0 <= l < |ms|
  {
    forall j :: 0 <= j < |ms| && Partial(p, ms[j]) ==>
      Rank(p, ms[j]) < Rank(p, ms[l]) || (Rank(p, ms[j]) == Rank(p, ms[l]) && l < j)
  }

  /** The lookup is right exactly when no partly matching mount point gets as many
      components as the right one (and comes first, or has more), and the right one is the
      root or one component deep. */
  ghost predicate Favourable(p: Path, ms: seq<Path>) {
    if exists l :: 0 <= l < |ms| && ms[l] <= p then
      exists l :: 0 <= l < |ms| && Longest(p, ms, l) && |ms[l]| <= 1 && Wins(p, ms, l)
    else forall j :: 0 <= j < |ms| ==> Common(p, ms[j]) == 0
  }

  /** Two paths share at least their first, or their first two, components. */
  predicate ShareOne(p: Path, m: Path) { |p| >= 1 && |m| >= 1 && p[0] == m[0] }
  predicate ShareTwo(p: Path, m: Path) { |p| >= 2 && |m| >= 2 && p[0] == m[0] && p[1] == m[1] }

  lemma CommonSmall(p: Path, m: Path)
    ensures (Common(p, m) >= 1 <==> ShareOne(p, m)) && (Common(p, m) >= 2 <==> ShareTwo(p, m))
  {
    if ShareOne(p, m) {
      assert Common(p, m) == 1 + Common(p[1..], m[1..]);
    }
  }

  /** What the mount points that the path does not begin with have in common with it. */
  ghost predicate Undisputed(p: Path, ms: seq<Path>, l: int)
    requires 0 <= l < |ms|
  {
    forall j :: 0 <= j < |ms| && !(ms[j] <= p) ==>
      if ms[l] == [] then !ShareOne(p, ms[j]) else !ShareTwo(p, ms[j]) && (ShareOne(p, ms[j]) ==> l < j)
  }

  lemma WinsOver(p: Path, ms: seq<Path>, l: int)
    requires 0 <= l < |ms| && ms[l] <= p && |ms[l]| <= 1 && Common(p, ms[l]) == |ms[l]|
    requires forall j :: 0 <= j < |ms| ==> (Common(p, ms[j]) >= 1 <==> ShareOne(p, ms[j])) && (Common(p, ms[j]) >= 2 <==> ShareTwo(p, ms[j]))
    ensures Wins(p, ms, l) <==> Undisputed(p, ms, l)
  {
    hide Common, ShareOne, ShareTwo;
    forall j | 0 <= j < |ms| && !(ms[j] <= p)
      ensures (Rank(p, ms[j]) < Rank(p, ms[l]) || (Rank(p, ms[j]) == Rank(p, ms[l]) && l < j)) <==>
        if ms[l] == [] then !ShareOne(p, ms[j]) else !ShareTwo(p, ms[j]) && (ShareOne(p, ms[j]) ==> l < j)
    {
    }
  }

  /** The condition in words of the paths: with none to begin the path, no mount point shares
      its first component; with the root as the longest that does, likewise; and with one of
      one component, no other shares two, nor does one that comes before it share the first. */
  lemma FavourableIs(p: Path, ms: seq<Path>)
    ensures Favourable(p, ms) <==>
      if forall j :: 0 <= j < |ms| ==> !(ms[j] <= p) then forall j :: 0 <= j < |ms| ==> !ShareOne(p, ms[j])
      else exists l :: 0 <= l < |ms| && Longest(p, ms, l) && |ms[l]| <= 1 && Undisputed(p, ms, l)
  {
    forall j | 0 <= j < |ms|
      ensures (Common(p, ms[j]) >= 1 <==> ShareOne(p, ms[j])) && (Common(p, ms[j]) >= 2 <==> ShareTwo(p, ms[j]))
      ensures ms[j] <= p ==> Common(p, ms[j]) == |ms[j]|
    {
      CommonSmall(p, ms[j]);
      CommonPrefix(p, ms[j]);
    }
    hide Common, ShareOne, ShareTwo;
    forall l | 0 <= l < |ms| && Longest(p, ms, l) && |ms[l]| <= 1
      ensures Wins(p, ms, l) <==> Undisputed(p, ms, l)
    {
      WinsOver(p, ms, l);
    }
    hide Wins, Undisputed, Longest;
  }

  lemma {:induction false} RelExtends(p: Path, c: string)
    ensures Rel([]) == "" && Rel(p + [c]) == if p == [] then c else Rel(p) + ("/" + c)
    decreases |p|
  {
    if p == [] {
      assert p + [c] == [c];
    } else {
      RelExtends(p[1..], c);
      assert (p + [c])[1..] == p[1..] + [c] && (p + [c])[0] == p[0] && |p + [c]| > 1;
      assert Rel(p + [c]) == p[0] + ("/" + Rel(p[1..] + [c]));
      if |p| > 1 {
        assert Rel(p) == p[0] + ("/" + Rel(p[1..]));
      }
    }
  }

  /** The text of a path is its components with a slash in front of each; the root's is one
      slash. */
  lemma TextIs(p: Path, c: string)
    ensures Text([]) == "/" && Text(p + [c]) == (if p == [] then "" else Text(p)) + ("/" + c)
  {
    RelExtends(p, c);
    hide Rel;
  }

  lemma RankOfPrefix(p: Path, m: Path)
    requires m <= p
    ensures Rank(p, m) == if m == [] then 1 else 2 * |m|
  {
    CommonPrefix(p, m);
  }

  lemma SamePrefixes(p: Path, m: Path, k: Path)
    requires m <= p && k <= p && |m| == |k|
    ensures m == k
  {
    assert m == p[..|m|] == k;
  }

  lemma {:induction false} RelShorter(p: Path, k: nat)
    requires Proper(p) && 0 < k <= |p|
    ensures |Rel(p[k..])| < |Rel(p)|
    decreases |p|
  {
    assert Component(p[0]);
    if k <= 1 {
    } else {
      assert p[k..] == p[1..][k - 1..];
      RelShorter(p[1..], k - 1);
    }
    if |p| > 1 { assert |Rel(p)| == |p[0]| + 1 + |Rel(p[1..])|; }
  }

  lemma RestSame(p: Path, m: Path)
    requires Proper(p) && m <= p && m != p
    ensures (if m == [] then Rel(p) else Rel(p[1..])) == Rel(p[|m|..]) <==> |m| <= 1
  {
    assert p[0..] == p;
    if |m| > 1 {
      assert p[|m|..] == p[1..][|m| - 1..];
      RelShorter(p[1..], |m| - 1);
    }
  }

  lemma RightIsFavourable(p: Path, ms: seq<Path>)
    requires Proper(p) && Distinct(ms) && p !in ms && Right(p, ms, Answer(p, ms))
    requires forall j :: 0 <= j < |ms| && ms[j] <= p ==> Rank(p, ms[j]) == if ms[j] == [] then 1 else 2 * |ms[j]|
    ensures Favourable(p, ms)
  {
    hide Common, Rel;
    var b := Best(p, ms, |ms|);
    if b >= 0 {
      RestSame(p, ms[b]);
      assert Longest(p, ms, b) && |ms[b]| <= 1;
    }
  }

  lemma FavourableIsRight(p: Path, ms: seq<Path>)
    requires Proper(p) && Distinct(ms) && p !in ms && Favourable(p, ms)
    requires forall j :: 0 <= j < |ms| && ms[j] <= p ==> Rank(p, ms[j]) == if ms[j] == [] then 1 else 2 * |ms[j]|
    ensures Right(p, ms, Answer(p, ms))
  {
    hide Common, Rel;
    var b := Best(p, ms, |ms|);
    if l :| 0 <= l < |ms| && Longest(p, ms, l) && |ms[l]| <= 1 && Wins(p, ms, l) {
      assert b == l by {
        if ms[b] <= p && b != l { SamePrefixes(p, ms[b], ms[l]); }
      }
      RestSame(p, ms[b]);
    }
  }

  lemma LookupExact(p: Path, ms: seq<Path>)
    requires Proper(p) && Distinct(ms) && p !in ms
    ensures Right(p, ms, Answer(p, ms)) <==> Favourable(p, ms)
  {
    forall j | 0 <= j < |ms| && ms[j] <= p
      ensures Rank(p, ms[j]) == if ms[j] == [] then 1 else 2 * |ms[j]|
    {
      RankOfPrefix(p, ms[j]);
    }
    if Right(p, ms, Answer(p, ms)) {
      RightIsFavourable(p, ms);
    }
    if Favourable(p, ms) {
      FavourableIsRight(p, ms);
    }
  }

  /** The answer of the whole lookup: a mount point that is the path itself ends it. */
  ghost predicate LookedUp(p: Path, ms: seq<Path>, answer: (int, string)) {
    if p in ms then 0 <= answer.0 < |ms| && ms[answer.0] == p && answer.1 == ""
    else answer == Answer(p, ms)
  }

  ghost predicate OneComponent(ms: seq<Path>) { forall j :: 0 <= j < |ms| ==> |ms[j]| <= 1 }

  lemma NotMountedRight(p: Path, ms: seq<Path>)
    requires Proper(p) && Distinct(ms) && p !in ms && OneComponent(ms)
    ensures Right(p, ms, Answer(p, ms))
  {
    forall j | 0 <= j < |ms| && !(ms[j] <= p)
      ensures Common(p, ms[j]) == 0
    {
      assert Common([], ms[j][1..]) == 0;
      CommonPrefix(p, ms[j]);
    }
    forall j | 0 <= j < |ms| && ms[j] <= p
      ensures Rank(p, ms[j]) == if ms[j] == [] then 1 else 2
    {
      RankOfPrefix(p, ms[j]);
    }
    hide Common, Rel;
    if l :| 0 <= l < |ms| && ms[l] <= p {
      var k := if exists m :: 0 <= m < |ms| && ms[m] <= p && |ms[m]| == 1 then
          (var m :| 0 <= m < |ms| && ms[m] <= p && |ms[m]| == 1; m) else l;
      assert Longest(p, ms, k) && Wins(p, ms, k);
    }
    assert Favourable(p, ms);
    LookupExact(p, ms);
  }

  /** With the root and mount points of one component every lookup is right, wherever in the
      table they are. */
  lemma OneComponentRight(p: Path, ms: seq<Path>, answer: (int, string))
    requires Proper(p) && Distinct(ms) && OneComponent(ms) && LookedUp(p, ms, answer)
    ensures Right(p, ms, answer)
  {
    if p in ms {
      assert p[|p|..] == [];
    } else {
      NotMountedRight(p, ms);
    }
  }

  /** A right answer does not depend on the order of the table. */
  lemma OrderDoesNotMatter(p: Path, ms: seq<Path>, ns: seq<Path>, a: (int, string), b: (int, string))
    requires (forall m :: m in ms <==> m in ns) && Right(p, ms, a) && Right(p, ns, b)
    ensures a.0 == -1 <==> b.0 == -1
    ensures a.0 != -1 ==> ms[a.0] == ns[b.0] && a.1 == b.1
  {
    if a.0 != -1 {
      assert ms[a.0] in ns;
    }
    if b.0 != -1 {
      assert ns[b.0] in ms;
    }
    if a.0 != -1 && b.0 != -1 {
      SamePrefixes(p, ms[a.0], ns[b.0]);
    }
  }

  /** And so it finds the same mount point and the same rest of the path, for every path,
      in any two tables of the same mount points, whatever their order. */
  lemma SameInAnyOrder(p: Path, ms: seq<Path>, ns: seq<Path>, a: (int, string), b: (int, string))
    requires Proper(p) && Distinct(ms) && OneComponent(ms) && Distinct(ns) && forall m :: m in ms <==> m in ns
    requires LookedUp(p, ms, a) && LookedUp(p, ns, b)
    ensures a.0 == -1 <==> b.0 == -1
    ensures a.0 != -1 ==> 0 <= a.0 < |ms| && 0 <= b.0 < |ns| && ms[a.0] == ns[b.0] && a.1 == b.1
  {
    assert OneComponent(ns) by {
      forall j | 0 <= j < |ns|
        ensures |ns[j]| <= 1
      {
        assert ns[j] in ms;
      }
    }
    OneComponentRight(p, ms, a);
    OneComponentRight(p, ns, b);
    OrderDoesNotMatter(p, ms, ns, a, b);
  }

  lemma BestStep(p: Path, ms: seq<Path>, i: nat)
    requires i < |ms|
    ensures Best(p, ms, i + 1) == if Rank(p, ms[i]) > (if Best(p, ms, i) < 0 then 0 else Rank(p, ms[Best(p, ms, i)])) then i else Best(p, ms, i)
  {
  }

  /** A mount point two components deep takes over paths that share its first component
      only, ahead of the root. */
  lemma DeepMountTakesOver(p: Path, m: Path, ms: seq<Path>)
    requires p == ["a", "b", "x"] && m == ["a", "c"] && ms == [[], m]
    ensures Answer(p, ms) == (1, "b/x") && !Right(p, ms, Answer(p, ms))
  {
    CommonIs(p, m, 1);
    assert Best(p, ms, 1) == 0;
    BestStep(p, ms, 1);
    assert p[1..] == ["b", "x"] && p[1..][1..] == ["x"];
    assert Rel(p[1..]) == "b" + ("/" + "x") == "b/x";
    assert !(m <= p) by { assert m[1] == "c" && p[1] == "b"; }
  }

  // ---- the table

  const MOUNTS := 16
  const DST_SIZE := 256

  lemma Concluded(p: Path, ms: seq<Path>, answer: (int, string))
    requires Proper(p) && Distinct(ms) && LookedUp(p, ms, answer)
    ensures Right(p, ms, answer) <==> p in ms || Favourable(p, ms)
    ensures OneComponent(ms) ==> Right(p, ms, answer)
  {
    hide Best, Common, Rank, Favourable, Answer;
    if OneComponent(ms) {
      OneComponentRight(p, ms, answer);
    }
    if p in ms {
      assert p[|p|..] == [];
    } else {
      LookupExact(p, ms);
    }
  }

  lemma SameText(p: Path, q: Path)
    requires Proper(p) && Proper(q) && Text(p) == Text(q)
    ensures p == q
  {
    assert Text(p)[1..] == Rel(p) && Text(q)[1..] == Rel(q);
    TextInjective(p, q);
  }

  lemma IndexHere(path: string, e: nat)
    requires e < |path| && path[e] == '/'
    ensures IndexOf(path[e..], '/') == 0
  {
  }

  lemma TwoComponents(p: Path, m: Path)
    requires p != m && !EndsInside(p, m) && 0 < Common(p, m)
    ensures |p| > 1
  {
    assert p != [] && m != [] && p[0] == m[0];
    assert |p| == 1 ==> p <= m;
  }

  lemma RootText(m: Path)
    requires Proper(m)
    ensures Text(m) == "/" <==> m == []
  {
    RelClean(m);
  }

  /** The lookup has been through the first i entries. */
  ghost predicate Scanned(p: Path, ms: seq<Path>, i: int, mount: int, rel: string, lmatch: int, ismatchs: bool) {
    && 0 <= i <= |ms| && mount == Best(p, ms, i)
    && lmatch == (if mount < 0 then 0 else (Rank(p, ms[mount]) + 1) / 2)
    && ismatchs == (mount >= 0 && ms[mount] == [])
    && rel == if mount < 0 then "" else if ms[mount] == [] then Rel(p) else if p == [] then "" else Rel(p[1..])
  }

  lemma CommonEmpty(m: Path)
    ensures Common([], m) == 0
  {
  }

  lemma ScannedStart(p: Path, ms: seq<Path>)
    ensures Scanned(p, ms, 0, -1, "", 0, false)
  {
  }

  /** The test at line 323, in ranks. */
  lemma RankStep(p: Path, ms: seq<Path>, i: nat, b: int, lmatch: int, ismatchs: bool, count: int)
    requires i < |ms| && Distinct(ms) && b == Best(p, ms, i) && count == if ms[i] == [] then 1 else Common(p, ms[i])
    requires lmatch == (if b < 0 then 0 else (Rank(p, ms[b]) + 1) / 2) && ismatchs == (b >= 0 && ms[b] == [])
    ensures (count > lmatch || (count >= lmatch && ismatchs)) <==> Best(p, ms, i + 1) == i
    ensures Best(p, ms, i + 1) in {i, b} && (Best(p, ms, i + 1) == i ==> count > 0 && (Rank(p, ms[i]) + 1) / 2 == count)
  {
    BestStep(p, ms, i);
    hide Common, Best;
    assert b >= 0 && ms[b] == [] ==> ms[i] != [];
  }

  lemma ScannedStep(p: Path, ms: seq<Path>, i: int, mount: int, rel: string, lmatch: int, ismatchs: bool, count: int)
    requires Scanned(p, ms, i, mount, rel, lmatch, ismatchs) && i < |ms| && Distinct(ms)
    requires count == if ms[i] == [] then 1 else Common(p, ms[i])
    ensures if count > lmatch || (count >= lmatch && ismatchs)
      then count > 0 && (ms[i] != [] ==> p != [])
        && Scanned(p, ms, i + 1, i, if ms[i] == [] then Rel(p) else Rel(p[1..]), count, ms[i] == [])
      else Scanned(p, ms, i + 1, mount, rel, lmatch, ismatchs)
  {
    hide Best, Rank, Rel;
    CommonEmpty(ms[i]);
    hide Common;
    RankStep(p, ms, i, mount, lmatch, ismatchs, count);
  }

  lemma ScannedEnd(p: Path, ms: seq<Path>, mount: int, rel: string, lmatch: int, ismatchs: bool)
    requires Scanned(p, ms, |ms|, mount, rel, lmatch, ismatchs)
    ensures (mount, rel) == Answer(p, ms)
  {
  }

  class MountTable {
    /** The dst of each used entry, in order, and what it stands for. */
    var dsts: seq<string>
    ghost var points: seq<Path>

    ghost predicate Valid()
      reads this
    {
      && |dsts| == |points| <= MOUNTS && Distinct(points)
      && forall i :: 0 <= i < |points| ==> Proper(points[i]) && dsts[i] == Text(points[i])
    }

    constructor ()
      ensures Valid() && points == []
    {
      dsts, points := [], [];
    }

    /** vfs_mount, where the source device and the file system's own mount succeed: a mount
        point that is there already is refused, and so is any once the table is full. */
    method Mount(dst: string, ghost m: Path) returns (res: int)
      requires Valid() && Proper(m) && dst == Text(m) && |dst| < DST_SIZE
      modifies this
      ensures Valid()
      ensures res == if m in old(points) || |old(points)| == 16 then -1 else 0
      ensures points == if res == 0 then old(points) + [m] else old(points)
    {
      var i := 0;
      while i < MOUNTS
        invariant 0 <= i <= |dsts| && m !in points[..i]
      {
        if i < |dsts| {
          if dsts[i] == dst {
            SameText(points[i], m);
            return -1;
          }
        } else {
          dsts, points := dsts + [dst], points + [m];
          return 0;
        }
        i := i + 1;
      }
      assert points[..|points|] == points;
      res := -1;
    }

    /** Lines 324-328: strchr from where the last one stopped stays there, so that one
        component is skipped whatever the count. */
    method SkipComponents(path: string, count: nat, ghost p: Path, ghost m: Path) returns (e: nat)
      requires Proper(p) && Proper(m) && path == Text(p) && p != m && !EndsInside(p, m) && 0 < count == Common(p, m)
      ensures e + 1 <= |path| && |p| > 1 && path[e + 1..] == Rel(p[1..])
    {
      TwoComponents(p, m);
      RelClean(p);
      RelFirst(p);
      hide Rel, IndexOf, Common, NoNul, Proper;
      assert path[1..] == Rel(p) && path[1..][|p[0]| + 1..] == path[|p[0]| + 2..];
      e := 1;
      var t := 0;
      while t < count
        invariant 0 <= t <= count && e == if t == 0 then 1 else |p[0]| + 1
      {
        if t > 0 { IndexHere(path, e); }
        e := Strchr(path, e, '/');
        t := t + 1;
      }
    }

    /** Lines 324-334. */
    method TakeMount(path: string, dst: string, count: nat, ghost p: Path, ghost m: Path) returns (rel: string, ismatchs: bool)
      requires Proper(p) && Proper(m) && path == Text(p) && dst == Text(m) && p != m && !EndsInside(p, m)
      requires 0 < count && (m != [] ==> count == Common(p, m))
      ensures ismatchs == (m == []) && rel == (if m == [] then Rel(p) else Rel(p[1..])) && (m != [] ==> p != [])
    {
      RootText(m);
      if dst != "/" {
        var e := SkipComponents(path, count, p, m);
        rel := path[e + 1..];
        ismatchs := false;
      } else {
        ismatchs := true;
        rel := path[1..];
      }
    }

    /** vfs_lookup_file. */
    method Lookup(path: string, ghost p: Path) returns (mount: int, rel: string)
      requires Valid() && Proper(p) && path == Text(p)
      requires OneComponent(points) || forall i :: 0 <= i < |points| ==> !EndsInside(p, points[i])
      ensures LookedUp(p, points, (mount, rel))
      ensures Right(p, points, (mount, rel)) <==> p in points || Favourable(p, points)
      ensures OneComponent(points) ==> Right(p, points, (mount, rel))
    {
      hide Right, Favourable, Best, Common, Rel, NoNul, Rank, Text, Scanned, Answer;
      var lmatch, ismatchs := 0, false;
      mount, rel := -1, "";
      var i := 0;
      ScannedStart(p, points);
      while i < MOUNTS
        invariant 0 <= i <= |dsts| && p !in points[..i]
        invariant Scanned(p, points, i, mount, rel, lmatch, ismatchs)
      {
        if i == |dsts| {
          break;
        }
        if dsts[i] == path {
          SameText(points[i], p);
          Concluded(p, points, (i, ""));
          return i, "";
        }
        var count := ComponentsMatch(path, dsts[i], p, points[i]);
        ScannedStep(p, points, i, mount, rel, lmatch, ismatchs, count);
        if count > lmatch || (count >= lmatch && ismatchs) {
          rel, ismatchs := TakeMount(path, dsts[i], count, p, points[i]);
          mount, lmatch := i, count;
        }
        i := i + 1;
      }
      assert points[..|points|] == points;
      ScannedEnd(p, points, mount, rel, lmatch, ismatchs);
      Concluded(p, points, (mount, rel));
    }
  }
}

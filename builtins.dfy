/**
 * The parts of Python's built-in list and string behaviour, and of `posixpath`,
 * that the argument parser in argv.py relies on: `list.index`, `del s[i:j]`,
 * the substring test `pat in s`, `str.rfind`, `sorted` on strings and
 * `os.path.splitext`.
 */
module Py {

  datatype Option<+T> = None | Some(value: T)

  // ---------------------------------------------------------------------------
  // Lists
  // ---------------------------------------------------------------------------

  /** `s.index(x)`: the position of the FIRST element equal to `x`. */
  function IndexOf<T(==)>(s: seq<T>, x: T): (i: nat)
    requires x in s
    ensures i < |s| && s[i] == x
    ensures x !in s[..i]
  {
    if s[0] == x then 0
    else
      var j := IndexOf(s[1..], x);
      assert s[..j + 1] == [s[0]] + s[1..][..j];
      j + 1
  }

  /**
   * `del s[i:i+n]` on a slice that lies inside the list: the `n` elements
   * from position `i` on are gone, everything before keeps its position and
   * everything after moves down by `n`, in its original order.
   */
  function DeleteSlice<T>(s: seq<T>, i: nat, n: nat): (r: seq<T>)
    requires i + n <= |s|
    ensures |r| == |s| - n
    ensures forall k :: 0 <= k < i ==> r[k] == s[k]
    ensures forall k :: i <= k < |r| ==> r[k] == s[k + n]
    ensures multiset(r) + multiset(s[i..i + n]) == multiset(s)
  {
    assert s == s[..i] + s[i..i + n] + s[i + n..];
    s[..i] + s[i + n..]
  }

  /**
   * Deleting the first occurrence of `x` removes one copy of it: `x` is still
   * in the list afterwards exactly when it occurred at least twice before.
   */
  lemma {:induction false} DeleteFirstOccurrence<T>(s: seq<T>, x: T)
    requires x in s
    ensures multiset(DeleteSlice(s, IndexOf(s, x), 1))[x] == multiset(s)[x] - 1
    ensures x in DeleteSlice(s, IndexOf(s, x), 1) <==> multiset(s)[x] >= 2
  {
    var i := IndexOf(s, x);
    var r := DeleteSlice(s, i, 1);
    assert s[i..i + 1] == [x];
    assert multiset(r)[x] + 1 == multiset(s)[x];
    assert x in r <==> x in multiset(r);
  }

  /** `r` is `s` with some elements left out, the rest in their original order. */
  ghost predicate IsSubsequence<T>(r: seq<T>, s: seq<T>)
    decreases |s|
  {
    if r == [] then true
    else if s == [] then false
    else (r[0] == s[0] && IsSubsequence(r[1..], s[1..])) || IsSubsequence(r, s[1..])
  }

  lemma {:induction false} SubsequenceReflexive<T>(s: seq<T>)
    ensures IsSubsequence(s, s)
    decreases |s|
  {
    if s != [] {
      SubsequenceReflexive(s[1..]);
    }
  }

  // ---------------------------------------------------------------------------
  // Strings
  // ---------------------------------------------------------------------------

  /** `pat` occurs in `s` starting at position `k`. */
  predicate OccursAt(s: string, pat: string, k: int)
  {
    0 <= k && k + |pat| <= |s| && s[k..k + |pat|] == pat
  }

  lemma OccursAtShift(s: string, pat: string)
    requires |s| > 0
    ensures forall k :: 0 <= k ==> (OccursAt(s[1..], pat, k) <==> OccursAt(s, pat, k + 1))
  {
    forall k | 0 <= k
      ensures OccursAt(s[1..], pat, k) <==> OccursAt(s, pat, k + 1)
    {
      if 0 <= k && k + |pat| <= |s| - 1 {
        assert s[1..][k..k + |pat|] == s[k + 1..k + 1 + |pat|];
      }
    }
  }

  /** Python's `pat in s` on strings: a substring test (the empty string occurs everywhere). */
  function Contains(s: string, pat: string): (b: bool)
    ensures b <==> exists k :: OccursAt(s, pat, k)
    decreases |s|
  {
    if |pat| > |s| then false
    else if s[..|pat|] == pat then assert OccursAt(s, pat, 0); true
    else
      OccursAtShift(s, pat);
      assert forall k :: OccursAt(s, pat, k) ==> k == 0 || OccursAt(s[1..], pat, k - 1);
      Contains(s[1..], pat)
  }

  /** `s.rfind(c)` for one character: the LAST position holding `c`, or -1. */
  function RFind(s: string, c: char): (r: int)
    ensures -1 <= r < |s|
    ensures r == -1 ==> c !in s
    ensures r >= 0 ==> s[r] == c && c !in s[r + 1..]
  {
    if |s| == 0 then -1
    else if s[|s| - 1] == c then |s| - 1
    else
      var r := RFind(s[..|s| - 1], c);
      RFindStep(s, c, r);
      r
  }

  /** A last character other than `c` leaves the last position of `c` where it was. */
  lemma RFindStep(s: string, c: char, r: int)
    requires |s| > 0 && s[|s| - 1] != c && -1 <= r < |s| - 1
    requires r == -1 ==> c !in s[..|s| - 1]
    requires r >= 0 ==> s[..|s| - 1][r] == c && c !in s[..|s| - 1][r + 1..]
    ensures r == -1 ==> c !in s
    ensures r >= 0 ==> s[r] == c && c !in s[r + 1..]
  {
    assert s == s[..|s| - 1] + [s[|s| - 1]];
    if r >= 0 {
      assert s[r + 1..] == s[..|s| - 1][r + 1..] + [s[|s| - 1]];
    }
  }

  /** Where the final component of the path `p` begins: just after its last `/`. */
  function BaseStart(p: string): (b: nat)
    ensures b <= |p| && '/' !in p[b..]
    ensures b > 0 ==> p[b - 1] == '/'
  {
    assert p[0..] == p;
    RFind(p, '/') + 1
  }

  /**
   * `posixpath.splitext(p)`: the extension runs from the last `.` of the final
   * path component to the end, provided some character other than `.` comes
   * before that dot in the component (so `.bashrc` has no extension);
   * otherwise the extension is empty.
   */
  function SplitExt(p: string): (r: (string, string))
    ensures r.0 + r.1 == p
    ensures r.1 != [] ==> r.1[0] == '.' && '.' !in r.1[1..] && '/' !in r.1
    ensures r.1 != [] <==> exists k, d :: BaseStart(p) <= k < d < |p| && p[k] != '.' && p[d] == '.'
  {
    var base := BaseStart(p);
    var dot := RFind(p, '.');
    if dot >= base && exists k | base <= k < dot :: p[k] != '.' then
      ExtensionAtLastDot(p, base, dot);
      (p[..dot], p[dot..])
    else
      NoExtension(p, base, dot);
      (p, "")
  }

  /** When a non-dot character of the final component precedes its last dot, the split is there. */
  lemma ExtensionAtLastDot(p: string, base: nat, dot: int)
    requires base <= dot < |p| && p[dot] == '.'
    requires '.' !in p[dot + 1..] && '/' !in p[base..]
    requires exists k :: base <= k < dot && p[k] != '.'
    ensures p[..dot] + p[dot..] == p
    ensures p[dot..] != [] && p[dot..][0] == '.' && '.' !in p[dot..][1..] && '/' !in p[dot..]
    ensures exists k, d :: base <= k < d < |p| && p[k] != '.' && p[d] == '.'
  {
    assert p[dot + 1..] == p[dot..][1..];
    assert p[dot..] == p[base..][dot - base..];
    var k :| base <= k < dot && p[k] != '.';
    assert base <= k < dot < |p| && p[k] != '.' && p[dot] == '.';
  }

  /** Otherwise no dot of the final component follows a non-dot character of it. */
  lemma NoExtension(p: string, base: nat, dot: int)
    requires base <= |p| && -1 <= dot < |p|
    requires '.' !in p[dot + 1..]
    requires !(dot >= base && exists k :: base <= k < dot && p[k] != '.')
    ensures p + "" == p
    ensures forall k, d :: base <= k < d < |p| && p[k] != '.' ==> p[d] != '.'
  {
    forall d | dot < d < |p| ensures p[d] != '.' {
      assert p[d] == p[dot + 1..][d - dot - 1];
    }
    if dot >= base {
      assert forall k :: base <= k < dot ==> p[k] == '.';
    }
  }

  /** Only the last dot of a file name starts its extension. */
  lemma SplitExtLastDot()
    ensures SplitExt("a.b.raw") == ("a.b", ".raw")
  {
    var p := "a.b.raw";
    assert RFind(p, '/') == -1;
    assert RFind(p, '.') == 3 by {
      assert p[..6] == "a.b.ra" && p[..5] == "a.b.r" && p[..4] == "a.b.";
    }
    assert 0 <= 0 < 3 && p[0] != '.';
    assert p[..3] == "a.b" && p[3..] == ".raw";
  }

  /** A leading dot does not start an extension. */
  lemma SplitExtLeadingDot()
    ensures SplitExt(".raw") == (".raw", "")
  {
    var p := ".raw";
    assert RFind(p, '/') == -1;
    assert RFind(p, '.') == 0 by {
      assert p[..3] == ".ra" && p[..2] == ".r" && p[..1] == ".";
    }
  }

  /** A dot in a directory name is not an extension. */
  lemma SplitExtDirectoryDot()
    ensures SplitExt("d.x/f") == ("d.x/f", "")
  {
    var p := "d.x/f";
    assert RFind(p, '/') == 3 by {
      assert p[..4] == "d.x/";
    }
    assert RFind(p, '.') == 1 by {
      assert p[..4] == "d.x/" && p[..3] == "d.x" && p[..2] == "d.";
    }
  }

  /** The extension part of `os.path.splitext(p)`. */
  function Extension(p: string): (e: string)
    ensures |e| <= |p| && p[|p| - |e|..] == e
    ensures e != [] ==> e[0] == '.' && '.' !in e[1..] && '/' !in e
  {
    var r := SplitExt(p);
    assert p[|r.0|..] == r.1;
    r.1
  }

  // ---------------------------------------------------------------------------
  // Ordering of strings, and `sorted`
  // ---------------------------------------------------------------------------

  /** Python's `a <= b` on strings: lexicographic by code point, a prefix first. */
  predicate LexLe(a: string, b: string)
    ensures a <= b ==> LexLe(a, b)  // a prefix comes first
    decreases |a|
  {
    |a| == 0 || (|b| > 0 && (a[0] < b[0] || (a[0] == b[0] && LexLe(a[1..], b[1..]))))
  }

  lemma {:induction false} LexLeTotal(a: string, b: string)
    ensures LexLe(a, b) || LexLe(b, a)
    decreases |a|
  {
    if |a| > 0 && |b| > 0 && a[0] == b[0] {
      LexLeTotal(a[1..], b[1..]);
    }
  }

  lemma {:induction false} LexLeTransitive(a: string, b: string, c: string)
    requires LexLe(a, b) && LexLe(b, c)
    ensures LexLe(a, c)
    decreases |a|
  {
    if |a| > 0 && a[0] == b[0] && b[0] == c[0] {
      LexLeTransitive(a[1..], b[1..], c[1..]);
    }
  }

  lemma {:induction false} LexLeAntisymmetric(a: string, b: string)
    requires LexLe(a, b) && LexLe(b, a)
    ensures a == b
    decreases |a|
  {
    if |a| > 0 {
      LexLeAntisymmetric(a[1..], b[1..]);
      assert a == [a[0]] + a[1..] && b == [b[0]] + b[1..];
    }
  }

  ghost predicate Sorted(s: seq<string>)
  {
    forall i, j :: 0 <= i < j < |s| ==> LexLe(s[i], s[j])
  }

  lemma BelowAll(x: string, s: seq<string>)
    requires Sorted(s) && |s| > 0 && LexLe(x, s[0])
    ensures Sorted([x] + s)
  {
    forall j | 0 <= j < |s| ensures LexLe(x, s[j]) {
      if j > 0 {
        LexLeTransitive(x, s[0], s[j]);
      }
    }
  }

  lemma HeadBelowAll(h: string, x: string, s: seq<string>, t: seq<string>)
    requires Sorted([h] + s) && Sorted(t) && !LexLe(x, h)
    requires multiset(t) == multiset(s) + multiset{x}
    ensures Sorted([h] + t)
  {
    LexLeTotal(x, h);
    assert ([h] + s)[0] == h;
    forall j | 0 <= j < |t| ensures LexLe(h, t[j]) {
      assert t[j] in multiset(t);
      if t[j] != x {
        assert t[j] in multiset(s);
        var k :| 0 <= k < |s| && s[k] == t[j];
        assert ([h] + s)[k + 1] == t[j];
      }
    }
  }

  /** Inserts `x` into a sorted list at its place. */
  function Insert(x: string, s: seq<string>): (r: seq<string>)
    requires Sorted(s)
    ensures Sorted(r)
    ensures multiset(r) == multiset(s) + multiset{x}
  {
    if s == [] then [x]
    else if LexLe(x, s[0]) then BelowAll(x, s); [x] + s
    else
      assert s == [s[0]] + s[1..];
      var t := Insert(x, s[1..]);
      HeadBelowAll(s[0], x, s[1..], t);
      [s[0]] + t
  }

  /** `sorted(s)` on a list of strings: an ascending rearrangement of `s`. */
  function Sort(s: seq<string>): (r: seq<string>)
    ensures Sorted(r)
    ensures multiset(r) == multiset(s)
  {
    if s == [] then []
    else
      assert s == [s[0]] + s[1..];
      Insert(s[0], Sort(s[1..]))
  }

  lemma HeadIsLeast(a: seq<string>, x: string)
    requires Sorted(a) && x in multiset(a)
    ensures LexLe(a[0], x)
  {
    var i :| 0 <= i < |a| && a[i] == x;
    if i == 0 {
      LexLeTotal(x, x);
    }
  }

  lemma SortedTail(a: seq<string>)
    requires Sorted(a) && a != []
    ensures Sorted(a[1..])
  {
    forall i, j | 0 <= i < j < |a| - 1 ensures LexLe(a[1..][i], a[1..][j]) {
      assert a[1..][i] == a[i + 1] && a[1..][j] == a[j + 1];
    }
  }

  lemma MultisetTail<T>(a: seq<T>, b: seq<T>)
    requires a != [] && b != [] && a[0] == b[0] && multiset(a) == multiset(b)
    ensures multiset(a[1..]) == multiset(b[1..])
  {
    assert a == [a[0]] + a[1..] && b == [b[0]] + b[1..];
    assert multiset(a) == multiset{a[0]} + multiset(a[1..]);
    assert multiset(b) == multiset{b[0]} + multiset(b[1..]);
    assert multiset(a[1..]) == multiset(a) - multiset{a[0]};
    assert multiset(b[1..]) == multiset(b) - multiset{b[0]};
  }

  /**
   * There is only one ascending arrangement of a list of strings, so any
   * sorting procedure (Python's stable Timsort included) yields `Sort(s)`.
   */
  lemma {:induction false} SortedUnique(a: seq<string>, b: seq<string>)
    requires Sorted(a) && Sorted(b) && multiset(a) == multiset(b)
    ensures a == b
    decreases |a|
  {
    if a != [] {
      assert |b| == |multiset(b)| == |a|;
      assert b[0] in multiset(b) && a[0] in multiset(a);
      HeadIsLeast(a, b[0]);
      HeadIsLeast(b, a[0]);
      LexLeAntisymmetric(a[0], b[0]);
      MultisetTail(a, b);
      SortedTail(a);
      SortedTail(b);
      SortedUnique(a[1..], b[1..]);
    }
  }
}

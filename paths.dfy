/**
 The few POSIX path and string operations the downloader applies to the
 paths it builds: joining, taking the last component, and substring
 replacement.
 */
module Paths {

  /** Index of the first `c` in `s` at or after `from`, or `|s|` when there is none. */
  function IndexFrom(s: string, c: char, from: nat): (i: nat)
    requires from <= |s|
    ensures from <= i <= |s|
    ensures i < |s| ==> s[i] == c
    ensures forall k :: from <= k < i ==> s[k] != c
    decreases |s| - from
  {
    if from == |s| || s[from] == c then from else IndexFrom(s, c, from + 1)
  }

  /** The three properties of `IndexFrom` determine it. */
  lemma IndexFromUnique(s: string, c: char, from: nat, i: nat)
    requires from <= i <= |s| && (i < |s| ==> s[i] == c)
    requires forall k :: from <= k < i ==> s[k] != c
    ensures IndexFrom(s, c, from) == i
  {
  }

  /** Index of the first `c` in `s`, or `|s|` when there is none. */
  function IndexOf(s: string, c: char): (i: nat)
    ensures i <= |s|
    ensures i < |s| ==> s[i] == c
    ensures forall k :: 0 <= k < i ==> s[k] != c
  {
    IndexFrom(s, c, 0)
  }

  /** The three properties of `IndexOf` determine it. */
  lemma IndexOfUnique(s: string, c: char, i: nat)
    requires i <= |s| && (i < |s| ==> s[i] == c)
    requires forall k :: 0 <= k < i ==> s[k] != c
    ensures IndexOf(s, c) == i
  {
  }

  /** One plus the index of the last `c` before `end`, or 0 when there is none. */
  function AfterLastBefore(s: string, c: char, end: nat): (i: nat)
    requires end <= |s|
    ensures i <= end
    ensures 0 < i ==> s[i - 1] == c
    ensures forall k :: i <= k < end ==> s[k] != c
  {
    if end == 0 then 0
    else if s[end - 1] == c then end
    else AfterLastBefore(s, c, end - 1)
  }

  /** The three properties of `AfterLastBefore` determine it. */
  lemma AfterLastBeforeUnique(s: string, c: char, end: nat, i: nat)
    requires i <= end <= |s| && (0 < i ==> s[i - 1] == c)
    requires forall k :: i <= k < end ==> s[k] != c
    ensures AfterLastBefore(s, c, end) == i
  {
  }

  /** Number of characters before the last `c` plus one, or 0 when `s` has no `c`. */
  function AfterLast(s: string, c: char): (i: nat)
    ensures i <= |s|
    ensures 0 < i ==> s[i - 1] == c
    ensures forall k :: i <= k < |s| ==> s[k] != c
  {
    AfterLastBefore(s, c, |s|)
  }

  /** The three properties of `AfterLast` determine it. */
  lemma AfterLastUnique(s: string, c: char, i: nat)
    requires i <= |s| && (0 < i ==> s[i - 1] == c)
    requires forall k :: i <= k < |s| ==> s[k] != c
    ensures AfterLast(s, c) == i
  {
  }

  /** Two-argument join: an absolute second part replaces the first. */
  function Join(a: string, b: string): (j: string)
    ensures |b| <= |j| && j[|j| - |b|..] == b
    ensures (b == [] || b[0] != '/') ==> |a| <= |j| && j[..|a|] == a
  {
    if |b| > 0 && b[0] == '/' then b
    else if a == [] || a[|a| - 1] == '/' then a + b
    else a + "/" + b
  }

  /** The last component of a path: everything after its last `/`. */
  function Basename(p: string): (name: string)
    ensures '/' !in name
    ensures |name| <= |p| && name == p[|p| - |name|..]
  {
    p[AfterLast(p, '/')..]
  }

  /** The basename of a slice is the part after the slice's last `/`. */
  lemma BasenameOfSlice(s: string, start: nat, seg: nat, end: nat)
    requires start <= seg <= end <= |s|
    requires start < seg ==> s[seg - 1] == '/'
    requires forall k :: seg <= k < end ==> s[k] != '/'
    ensures Basename(s[start..end]) == s[seg..end]
  {
    var p := s[start..end];
    AfterLastUnique(p, '/', seg - start);
    assert p[seg - start..] == s[seg..end];
  }

  /** Joining a name that holds no `/` puts it last, where the basename finds it again. */
  lemma BasenameOfJoin(dir: string, name: string)
    requires '/' !in name && name != []
    ensures Basename(Join(dir, name)) == name
  {
    var j := Join(dir, name);
    assert j == (if dir == [] || dir[|dir| - 1] == '/' then dir else dir + "/") + name;
    var p := |j| - |name|;
    assert j[p..] == name;
    assert p == 0 || j[p - 1] == '/';
  }

  /** `s.replace(pat, rep)`: every non-overlapping occurrence of `pat`, left to right. */
  function ReplaceAll(s: string, pat: string, rep: string): (r: string)
    requires pat != []
    ensures |rep| <= |pat| ==> |r| <= |s|
    decreases |s|
  {
    if |s| < |pat| then s
    else if s[..|pat|] == pat then rep + ReplaceAll(s[|pat|..], pat, rep)
    else [s[0]] + ReplaceAll(s[1..], pat, rep)
  }

  /** `pat` stands in `s` at index `k`. */
  predicate OccursAt(s: string, pat: string, k: int) {
    0 <= k && k + |pat| <= |s| && s[k..k + |pat|] == pat
  }

  /** Without an occurrence of `pat`, replacement leaves the string as it is. */
  lemma {:induction false} ReplaceAllAbsent(s: string, pat: string, rep: string)
    requires pat != []
    requires forall k :: !OccursAt(s, pat, k)
    ensures ReplaceAll(s, pat, rep) == s
    decreases |s|
  {
    if |s| >= |pat| {
      assert !OccursAt(s, pat, 0);
      forall k
        ensures !OccursAt(s[1..], pat, k)
      {
        if OccursAt(s[1..], pat, k) {
          assert s[1..][k..k + |pat|] == s[k + 1..k + 1 + |pat|];
          assert OccursAt(s, pat, k + 1);
        }
      }
      ReplaceAllAbsent(s[1..], pat, rep);
    }
  }
}

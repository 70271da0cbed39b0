/**
 * Clip file names: `{stem}_{k}{suffix}` for a video file name and an ordinal k
 * (video_clipper.py:80-92). The stem and suffix follow pathlib's `PurePath.stem`
 * and `PurePath.suffix` on the last path component.
 */
module Naming {

  /** The decimal digit for `d`, as Python's `str` writes it. */
  function DigitChar(d: nat): (c: char)
    requires d < 10
    ensures '0' <= c <= '9'
  {
    ('0' as int + d) as char
  }

  /** `str(n)` for a natural number: decimal, without leading zeros. */
  function NatToString(n: nat): (s: string)
    ensures 1 <= |s|
    ensures n < 10 <==> |s| == 1
  {
    if n < 10 then [DigitChar(n)] else NatToString(n / 10) + [DigitChar(n % 10)]
  }

  /** Different ordinals are written differently. */
  lemma {:induction false} NatToStringInjective(a: nat, b: nat)
    requires NatToString(a) == NatToString(b)
    ensures a == b
  {
    if a >= 10 && b >= 10 {
      var sa, sb := NatToString(a), NatToString(b);
      assert sa[|sa| - 1] == sb[|sb| - 1];
      assert a % 10 == b % 10;
      assert sa[..|sa| - 1] == NatToString(a / 10);
      assert sb[..|sb| - 1] == NatToString(b / 10);
      NatToStringInjective(a / 10, b / 10);
    }
  }

  /** Index of the last occurrence of `c` in `s`, or -1: Python's `str.rfind`. */
  function RFind(s: string, c: char): (i: int)
    ensures -1 <= i < |s|
    ensures 0 <= i ==> s[i] == c
    ensures forall j :: i < j < |s| ==> s[j] != c
  {
    if |s| == 0 then -1 else if s[|s| - 1] == c then |s| - 1 else RFind(s[..|s| - 1], c)
  }

  /** The last path component: everything after the last '/'. */
  function BaseName(path: string): (name: string)
    ensures '/' !in name
    ensures |name| <= |path| && name == path[|path| - |name|..]
  {
    var i := RFind(path, '/');
    path[i + 1..]
  }

  /** Whether the last component has an extension: a dot that is neither its first nor its last character. */
  predicate HasExtension(name: string)
  {
    var i := RFind(name, '.');
    0 < i < |name| - 1
  }

  /** `PurePath(path).suffix`. */
  function Suffix(path: string): string
  {
    var name := BaseName(path);
    if HasExtension(name) then name[RFind(name, '.')..] else ""
  }

  /** `PurePath(path).stem`. */
  function Stem(path: string): string
  {
    var name := BaseName(path);
    if HasExtension(name) then name[..RFind(name, '.')] else name
  }

  /** Stem and suffix split the last path component; the suffix, when present, is a dot and at least one character. */
  lemma StemSuffixSplitName(path: string)
    ensures Stem(path) + Suffix(path) == BaseName(path)
    ensures Suffix(path) == "" || (2 <= |Suffix(path)| && Suffix(path)[0] == '.' && '.' !in Suffix(path)[1..])
  {
    var name := BaseName(path);
    if HasExtension(name) {
      var i := RFind(name, '.');
      assert name[..i] + name[i..] == name;
      assert forall j :: 0 <= j < |name[i..][1..]| ==> name[i..][1..][j] == name[i + 1 + j];
    }
  }

  /** The candidate name for ordinal k: `f"{stem}_{k}{suffix}"`. */
  function ClipName(videoFilename: string, k: nat): string
  {
    Stem(videoFilename) + "_" + NatToString(k) + Suffix(videoFilename)
  }

  /** Different ordinals give different candidate names. */
  lemma ClipNameInjective(videoFilename: string, j: nat, k: nat)
    requires ClipName(videoFilename, j) == ClipName(videoFilename, k)
    ensures j == k
  {
    var stem, suffix := Stem(videoFilename), Suffix(videoFilename);
    var dj, dk := NatToString(j), NatToString(k);
    var nj, nk := ClipName(videoFilename, j), ClipName(videoFilename, k);
    assert |dj| == |dk|;
    assert nj[|stem| + 1..|stem| + 1 + |dj|] == dj;
    assert nk[|stem| + 1..|stem| + 1 + |dk|] == dk;
    NatToStringInjective(j, k);
  }

  /** Pigeonhole: if the names of ordinals 0..n-1 are all taken, at least n names are taken. */
  lemma {:induction false} TakenOrdinalsBound(taken: set<string>, videoFilename: string, n: nat)
    requires forall j :: 0 <= j < n ==> ClipName(videoFilename, j) in taken
    ensures n <= |taken|
  {
    if n > 0 {
      var last := ClipName(videoFilename, n - 1);
      var rest := taken - {last};
      assert |rest| == |taken| - 1;
      forall j | 0 <= j < n - 1
        ensures ClipName(videoFilename, j) in rest
      {
        var name := ClipName(videoFilename, j);
        assert name in taken;
        if name == last {
          ClipNameInjective(videoFilename, j, n - 1);
          assert false;
        }
      }
      TakenOrdinalsBound(rest, videoFilename, n - 1);
    }
  }

  /** k is the ordinal the naming loop stops at: its name is free and every smaller ordinal's name is taken. */
  ghost predicate IsLeastFree(taken: set<string>, videoFilename: string, k: nat)
  {
    ClipName(videoFilename, k) !in taken
    && forall j :: 0 <= j < k ==> ClipName(videoFilename, j) in taken
  }

  /** The search of the naming loop, from ordinal k on. */
  function FirstFreeFrom(taken: set<string>, videoFilename: string, k: nat): (r: nat)
    requires forall j :: 0 <= j < k ==> ClipName(videoFilename, j) in taken
    ensures k <= r <= |taken|
    ensures IsLeastFree(taken, videoFilename, r)
    decreases |taken| - k
  {
    TakenOrdinalsBound(taken, videoFilename, k);
    if ClipName(videoFilename, k) !in taken then k
    else
      TakenOrdinalsBound(taken, videoFilename, k + 1);
      FirstFreeFrom(taken, videoFilename, k + 1)
  }

  /** The ordinal the naming loop picks, starting from 0; it never exceeds the number of names already taken. */
  function LeastFreeOrdinal(taken: set<string>, videoFilename: string): (k: nat)
    ensures IsLeastFree(taken, videoFilename, k)
    ensures k <= |taken|
  {
    FirstFreeFrom(taken, videoFilename, 0)
  }

  /** The least free ordinal is the only ordinal the loop can stop at. */
  lemma LeastFreeUnique(taken: set<string>, videoFilename: string, k: nat)
    requires IsLeastFree(taken, videoFilename, k)
    ensures k == LeastFreeOrdinal(taken, videoFilename)
  {
  }
}

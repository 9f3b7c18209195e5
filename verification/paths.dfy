/** Windows path handling (`ntpath`) as the tools use it: joining a relative
    component, taking the last component, and the component list of a
    normalised relative folder. Both `/` and `\` separate components. */
module Paths {

  import opened Wrappers
  import opened Text

  const Seps: set<char> := {'/', '\\'}

  /** A single path component: non-empty and free of separators. */
  predicate IsComponent(s: string) {
    |s| > 0 && forall i :: 0 <= i < |s| ==> s[i] !in Seps
  }

  /** A component that normalisation keeps as it is. */
  predicate IsPlainComponent(s: string) {
    IsComponent(s) && s != "." && s != ".."
  }

  /** `os.path.join(a, b)` where `b` is a relative component without a drive:
      a separator is inserted unless `a` is empty, already ends in one, or is
      a bare drive such as `C:`. */
  function JoinPath(a: string, b: string): (r: string)
    ensures StartsWith(r, a) && EndsWith(r, b)
    ensures r == a + b <==> a == "" || a[|a| - 1] in Seps || (|a| == 2 && a[1] == ':')
    ensures r != a + b ==> r == a + "\\" + b
  {
    if a == "" || a[|a| - 1] in Seps || (|a| == 2 && a[1] == ':') then a + b
    else a + "\\" + b
  }

  function LastSep(s: string): (r: Option<nat>)
    ensures r.None? <==> forall i :: 0 <= i < |s| ==> s[i] !in Seps
    ensures r.Some? ==>
      && r.value < |s| && s[r.value] in Seps
      && forall i :: r.value < i < |s| ==> s[i] !in Seps
  {
    if |s| == 0 then None
    else if s[|s| - 1] in Seps then Some(|s| - 1)
    else
      var r := LastSep(s[..|s| - 1]);
      assert forall i :: 0 <= i < |s| - 1 ==> s[..|s| - 1][i] == s[i];
      r
  }

  /** `os.path.split(p)[1]`: what follows the last separator, after a drive. */
  function Tail(p: string): (r: string)
    ensures EndsWith(p, r)
    ensures forall i :: 0 <= i < |r| ==> r[i] !in Seps
    ensures var n := |p| - |r|;
      || (n > 0 && p[n - 1] in Seps)
      || (n == 2 && p[1] == ':')
      || (n == 0 && !(|p| >= 2 && p[1] == ':'))
  {
    var q := if |p| >= 2 && p[1] == ':' then p[2..] else p;
    match LastSep(q)
    case None => q
    case Some(k) => q[k + 1..]
  }

  /** After a separator, the last separator is that one. */
  lemma LastSepAfter(pre: string, name: string)
    requires |pre| > 0 && pre[|pre| - 1] in Seps
    requires forall i :: 0 <= i < |name| ==> name[i] !in Seps
    ensures LastSep(pre + name) == Some(|pre| - 1)
  {
    var s := pre + name;
    assert s[|pre| - 1] in Seps;
    var r := LastSep(s);
    assert r.Some?;
  }

  /** The last component of a joined path is the component that was joined
      (a component holds no drive colon). */
  lemma TailOfJoinPath(a: string, name: string)
    requires IsComponent(name) && ':' !in name
    ensures Tail(JoinPath(a, name)) == name
  {
    var j := JoinPath(a, name);
    if a == "" {
      assert j == name;
      TailOfComponent(name);
    } else if |a| == 2 && a[1] == ':' {
      assert j == a + name && j[1] == ':';
      assert j[2..] == name;
      TailOfComponent(name);
    } else {
      var pre := if a[|a| - 1] in Seps then a else a + "\\";
      assert j == pre + name;
      TailAfterSep(pre, name);
    }
  }

  lemma TailOfComponent(name: string)
    requires IsComponent(name) && ':' !in name
    ensures Tail(name) == name
  {
    if |name| >= 2 {
      assert name[1] in name;
    }
  }

  /** A component after a separator is the tail, drive or not. */
  lemma TailAfterSep(pre: string, name: string)
    requires |pre| > 0 && pre[|pre| - 1] in Seps
    requires IsComponent(name) && ':' !in name
    ensures Tail(pre + name) == name
  {
    var j := pre + name;
    if |pre| == 1 {
      assert j[1] == name[0] && name[0] in name;
    }
    if |j| >= 2 && j[1] == ':' {
      assert |pre| >= 3;
      assert j[2..] == pre[2..] + name;
      LastSepAfter(pre[2..], name);
      assert j[2..][|pre[2..]|..] == name;
    } else {
      LastSepAfter(pre, name);
      assert j[|pre|..] == name;
    }
  }

  /** The `..`/`.`/empty-component resolution of `ntpath.normpath`: `acc` is
      the list of components kept so far. */
  function Resolve(parts: seq<string>, rooted: bool, acc: seq<string>): seq<string>
    decreases |parts|
  {
    if parts == [] then acc
    else
      var c := parts[0];
      if c == "" || c == "." then Resolve(parts[1..], rooted, acc)
      else if c == ".." then
        if |acc| > 0 && acc[|acc| - 1] != ".." then Resolve(parts[1..], rooted, acc[..|acc| - 1])
        else if rooted then Resolve(parts[1..], rooted, acc)
        else Resolve(parts[1..], rooted, acc + [".."])
      else Resolve(parts[1..], rooted, acc + [c])
  }

  /** `os.path.normpath(p).split(os.sep)` on Windows. A rooted path yields a
      leading empty component; an empty relative result is `["."]`. */
  function NormSegments(p: string): (r: seq<string>)
    ensures |r| >= 1
  {
    var rooted := |p| > 0 && p[0] in Seps;
    var comps := Resolve(Split(p, Seps), rooted, []);
    if rooted then [""] + (if comps == [] then [""] else comps)
    else if comps == [] then ["."] else comps
  }

  /** Plain components survive resolution unchanged. */
  lemma {:induction false} ResolvePlain(parts: seq<string>, acc: seq<string>)
    requires forall k :: 0 <= k < |parts| ==> IsPlainComponent(parts[k])
    ensures Resolve(parts, false, acc) == acc + parts
    decreases |parts|
  {
    if parts != [] {
      ResolvePlain(parts[1..], acc + [parts[0]]);
      assert acc + [parts[0]] + parts[1..] == acc + parts;
    }
  }

  /** Normalising a relative folder written as plain components separated by
      `/` or `\` yields exactly those components. */
  lemma NormSegmentsOfPlain(segs: seq<string>, c: char)
    requires |segs| >= 1 && c in Seps
    requires forall k :: 0 <= k < |segs| ==> IsPlainComponent(segs[k])
    ensures NormSegments(Join(segs, [c])) == segs
  {
    var p := Join(segs, [c]);
    SplitOfJoin(segs, c, Seps);
    ResolvePlain(segs, []);
    assert [] + segs == segs;
    JoinStartsWithFirst(segs, [c]);
    assert p[0] == segs[0][0];
  }

  lemma {:induction false} JoinStartsWithFirst(parts: seq<string>, sep: string)
    requires |parts| >= 1
    ensures StartsWith(Join(parts, sep), parts[0])
  {
  }
}

/** Source locations (`LocationInfo`): a function name, a file path and a line
    number, with the tool's deliberately tolerant notion of equality. */
module Locations {
  import opened Wrappers

  datatype LocationInfo = LocationInfo(functionName: string, file: string, line: int)

  /** `needle` occurs in `hay` starting at position `i`. */
  predicate OccursAt(hay: string, needle: string, i: nat) {
    i + |needle| <= |hay| && hay[i..i + |needle|] == needle
  }

  /** `needle` is a contiguous part of `hay`. */
  ghost predicate IsSubstring(needle: string, hay: string) {
    exists i: nat :: OccursAt(hay, needle, i)
  }

  /** `std::string::find` starting at `from`: the first position at or after
      `from` where `needle` occurs, or `None` (npos). */
  function FindFrom(hay: string, needle: string, from: nat): (r: Option<nat>)
    requires from <= |hay|
    ensures r.Some? ==> from <= r.value && OccursAt(hay, needle, r.value)
    ensures r.Some? ==> forall j: nat :: from <= j < r.value ==> !OccursAt(hay, needle, j)
    ensures r.None? ==> forall j: nat :: from <= j ==> !OccursAt(hay, needle, j)
    decreases |hay| - from
  {
    if from + |needle| > |hay| then None
    else if hay[from..from + |needle|] == needle then Some(from)
    else FindFrom(hay, needle, from + 1)
  }

  /** `std::string::find` from the beginning. */
  function Find(hay: string, needle: string): (r: Option<nat>)
    ensures r.Some? ==> OccursAt(hay, needle, r.value)
    ensures r.Some? ==> forall j: nat :: j < r.value ==> !OccursAt(hay, needle, j)
    ensures r.None? <==> !IsSubstring(needle, hay)
  {
    FindFrom(hay, needle, 0)
  }

  /** A substring is never longer than the string that holds it, and one of
      the same length is the string itself. */
  lemma SubstringLength(needle: string, hay: string)
    requires IsSubstring(needle, hay)
    ensures |needle| <= |hay|
    ensures |needle| == |hay| ==> needle == hay
  {
    var i: nat :| OccursAt(hay, needle, i);
    if |needle| == |hay| {
      assert i == 0;
      assert hay[0..|hay|] == hay;
    }
  }

  /** Every string holds itself. */
  lemma SubstringReflexive(s: string)
    ensures IsSubstring(s, s)
  {
    assert s[0..|s|] == s;
    assert OccursAt(s, s, 0);
  }

  /** `LocationInfo::getFilename`: the text after the last '/', or the whole
      path when it contains no '/'. */
  function GetFilename(path: string): (r: string)
    ensures |r| <= |path| && path[|path| - |r|..] == r
    ensures forall k :: 0 <= k < |r| ==> r[k] != '/'
    ensures |r| < |path| ==> path[|path| - |r| - 1] == '/'
  {
    match LastSlash(path)
    case None => path
    case Some(pos) => path[pos + 1..]
  }

  /** `find_last_of("/")`: the position of the last '/', if any. */
  function LastSlash(s: string): (r: Option<nat>)
    ensures r.Some? ==> r.value < |s| && s[r.value] == '/'
    ensures r.Some? ==> forall k :: r.value < k < |s| ==> s[k] != '/'
    ensures r.None? ==> forall k :: 0 <= k < |s| ==> s[k] != '/'
  {
    if |s| == 0 then None
    else if s[|s| - 1] == '/' then Some(|s| - 1)
    else LastSlash(s[..|s| - 1])
  }

  /** `LocationInfo::operator==`: same function, same line, and the shorter
      file path found inside the longer one; when both paths have the same
      length, the second is searched for inside the first. */
  function LocationEq(a: LocationInfo, b: LocationInfo): (r: bool)
    ensures r <==> a.functionName == b.functionName && a.line == b.line
                   && (IsSubstring(a.file, b.file) || IsSubstring(b.file, a.file))
  {
    if a.functionName != b.functionName then false
    else if a.line != b.line then false
    else
      FileMatchEitherWay(a.file, b.file);
      if |a.file| < |b.file| then Find(b.file, a.file).Some? else Find(a.file, b.file).Some?
  }

  /** Searching for the shorter path inside the longer one (the second inside
      the first when the lengths agree) finds it exactly when either path is
      a substring of the other. */
  lemma FileMatchEitherWay(x: string, y: string)
    ensures (if |x| < |y| then Find(y, x).Some? else Find(x, y).Some?)
            <==> IsSubstring(x, y) || IsSubstring(y, x)
  {
    if IsSubstring(x, y) {
      SubstringLength(x, y);
      if |x| == |y| {
        SubstringReflexive(x);
      }
    }
    if IsSubstring(y, x) {
      SubstringLength(y, x);
    }
  }

  /** Location equality is reflexive. */
  lemma LocationEqReflexive(a: LocationInfo)
    ensures LocationEq(a, a)
  {
    SubstringReflexive(a.file);
  }

  /** Location equality is symmetric. */
  lemma LocationEqSymmetric(a: LocationInfo, b: LocationInfo)
    ensures LocationEq(a, b) == LocationEq(b, a)
  {
  }

  /** Location equality is not transitive: a bare file name matches two paths
      that differ in their directories, which do not match each other. */
  lemma LocationEqNotTransitive()
    ensures LocationEq(LocationInfo("f", "src/a.c", 7), LocationInfo("f", "a.c", 7))
    ensures LocationEq(LocationInfo("f", "a.c", 7), LocationInfo("f", "lib/a.c", 7))
    ensures !LocationEq(LocationInfo("f", "src/a.c", 7), LocationInfo("f", "lib/a.c", 7))
  {
    assert OccursAt("src/a.c", "a.c", 4);
    assert OccursAt("lib/a.c", "a.c", 4);
    if IsSubstring("src/a.c", "lib/a.c") {
      SubstringLength("src/a.c", "lib/a.c");
    }
    if IsSubstring("lib/a.c", "src/a.c") {
      SubstringLength("lib/a.c", "src/a.c");
    }
  }

  /** A file path matches any path it is a suffix of, so locations in files
      with the same name in different directories are equal when function
      and line agree. */
  lemma LocationEqAcceptsPathSuffix(f: string, dir: string, name: string, line: int)
    ensures LocationEq(LocationInfo(f, dir + name, line), LocationInfo(f, name, line))
  {
    var s := dir + name;
    assert s[|dir|..|dir| + |name|] == name;
    assert OccursAt(s, name, |dir|);
  }
}

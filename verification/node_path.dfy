/**
 The two functions of Node's `path.posix` that the conversion endpoint uses
 (server/src/convert-usdz.ts:36): `extname(p)` and `basename(p, ext)`.
 `LastSegment`, `ExtOf` and `StemOf` say declaratively what they compute
 for a path; `Extname` and `Basename` follow Node's right-to-left scans and
 are proved to agree with them.
 */
module NodePath {
  import opened JsStrings

  const Slash: CodeUnit := 0x2F
  const Dot: CodeUnit := 0x2E

  /** Where the last segment of `p[..n]` ends, once trailing slashes are ignored. */
  function SegmentEnd(p: JsString, n: nat): (e: nat)
    requires n <= |p|
    ensures e <= n
    ensures forall k | e <= k < n :: p[k] == Slash
    ensures e == 0 || p[e - 1] != Slash
  {
    if n == 0 then 0 else if p[n - 1] == Slash then SegmentEnd(p, n - 1) else n
  }

  /** Where the segment ending at `n` starts: just after the closest slash before `n`. */
  function SegmentStart(p: JsString, n: nat): (s: nat)
    requires n <= |p|
    ensures s <= n
    ensures forall k | s <= k < n :: p[k] != Slash
    ensures s == 0 || p[s - 1] == Slash
  {
    if n == 0 then 0 else if p[n - 1] == Slash then n else SegmentStart(p, n - 1)
  }

  /** The last non-empty segment of a path; trailing slashes are ignored. */
  function LastSegment(p: JsString): (seg: JsString)
    ensures Slash !in seg
    ensures seg == [] <==> forall k | 0 <= k < |p| :: p[k] == Slash
  {
    var e := SegmentEnd(p, |p|);
    assert e > 0 ==> p[e - 1] != Slash;
    p[SegmentStart(p, e)..e]
  }

  /** The index of the last occurrence of `x` in `s`, or -1. */
  function LastIndexOf<T(==)>(s: seq<T>, x: T): (r: int)
    ensures -1 <= r < |s|
    ensures r == -1 ==> x !in s
    ensures r >= 0 ==> s[r] == x && forall k | r < k < |s| :: s[k] != x
  {
    if s == [] then -1
    else if s[|s| - 1] == x then |s| - 1
    else LastIndexOf(s[..|s| - 1], x)
  }

  /**
   What `extname` returns: the last segment from its last dot on, except
   that a segment without a dot, one whose only dot is its first
   character, and the segment `..` have no extension.
   */
  function ExtOf(p: JsString): (ext: JsString)
    ensures ext == [] || (ext[0] == Dot && Dot !in ext[1..] && |ext| < |LastSegment(p)|)
    ensures |ext| <= |LastSegment(p)| && ext == LastSegment(p)[|LastSegment(p)| - |ext|..]
  {
    var seg := LastSegment(p);
    var d := LastIndexOf(seg, Dot);
    if d <= 0 || seg == [Dot, Dot] then []
    else
      assert forall k | 1 <= k < |seg[d..]| :: seg[d..][k] == seg[d + k];
      seg[d..]
  }

  /** What `basename(p, extname(p))` returns: the last segment without its extension. */
  function StemOf(p: JsString): (stem: JsString)
    ensures stem + ExtOf(p) == LastSegment(p)
    ensures Slash !in stem
    ensures LastSegment(p) != [] ==> stem != []
  {
    var seg := LastSegment(p);
    seg[..|seg| - |ExtOf(p)|]
  }

  lemma SegmentOfNamed(dir: JsString, name: JsString)
    requires name != [] && Slash !in name
    ensures LastSegment(name) == name
    ensures LastSegment(dir + [Slash] + name) == name
  {
    var p := dir + [Slash] + name;
    assert p[|p| - 1] == name[|name| - 1];
    var s := SegmentStart(p, |p|);
    assert p[|dir|] == Slash;
    assert forall k | |dir| < k < |p| :: p[k] != Slash;
    assert p[s..] == name;
    assert name[|name| - 1] != Slash;
    var t := SegmentStart(name, |name|);
    assert forall k | 0 <= k < |name| :: name[k] != Slash;
  }

  lemma {:induction false} LastIndexOfNamed(name: JsString, t: JsString)
    requires Dot !in t
    ensures LastIndexOf(name + [Dot] + t, Dot) == |name|
  {
    var s := name + [Dot] + t;
    var r := LastIndexOf(s, Dot);
    assert s[|name|] == Dot;
    assert forall k | |name| < k < |s| :: s[k] != Dot;
  }

  /** A path whose last segment is `name + "." + t` has extension `"." + t` and stem `name`. */
  lemma ExtOfSegmentNamed(p: JsString, name: JsString, t: JsString)
    requires name != [] && t != [] && Dot !in t
    requires LastSegment(p) == name + [Dot] + t
    ensures ExtOf(p) == [Dot] + t && StemOf(p) == name
  {
    var file := name + [Dot] + t;
    LastIndexOfNamed(name, t);
    assert file[|name|..] == [Dot] + t;
    assert |file| > 2;
    assert file[..|file| - |[Dot] + t|] == name;
  }

  /**
   A file name `name + "." + t` (with a non-empty `name`, no slash
   anywhere in it and a non-empty `t` without a dot) has extension `"." + t` and stem
   `name`, whatever directory it sits in.
   */
  lemma StemOfNamedFile(dir: JsString, name: JsString, t: JsString)
    requires name != [] && Slash !in name
    requires t != [] && Dot !in t && Slash !in t
    ensures ExtOf(name + [Dot] + t) == [Dot] + t && StemOf(name + [Dot] + t) == name
    ensures ExtOf(dir + [Slash] + name + [Dot] + t) == [Dot] + t
    ensures StemOf(dir + [Slash] + name + [Dot] + t) == name
  {
    var file := name + [Dot] + t;
    assert Slash !in file by {
      assert forall k | 0 <= k < |file| :: file[k] == (if k < |name| then name[k] else if k == |name| then Dot else t[k - |name| - 1]);
    }
    SegmentOfNamed(dir, file);
    assert dir + [Slash] + name + [Dot] + t == dir + [Slash] + file;
    ExtOfSegmentNamed(file, name, t);
    ExtOfSegmentNamed(dir + [Slash] + file, name, t);
  }

  // ---------------------------------------------------------------------
  // Node's scans

  /** Node's `path.posix.extname`: one right-to-left scan over the path. */
  method Extname(path: JsString) returns (ext: JsString)
    ensures ext == ExtOf(path)
  {
    ghost var e: int := SegmentEnd(path, |path|);
    ghost var s: int := SegmentStart(path, e);
    var startDot := -1;
    var startPart := 0;
    var end := -1;
    var matchedSlash := true;
    var preDotState := 0;
    var i := |path| - 1;
    while i >= 0
      invariant s - 1 <= i < |path|
      invariant startPart == 0
      invariant i >= e - 1 ==> end == -1 && matchedSlash && startDot == -1 && preDotState == 0
      invariant i < e - 1 ==> end == e && !matchedSlash
      invariant startDot == -1 ==> forall k | i < k < e :: path[k] != Dot
      invariant startDot != -1 ==>
                  && i < startDot < e && path[startDot] == Dot
                  && forall k | startDot < k < e :: path[k] != Dot
      invariant preDotState == (if startDot == -1 || i + 1 == startDot then 0
                                else if path[i + 1] == Dot then 1 else -1)
    {
      var c := path[i];
      if c == Slash {
        if !matchedSlash {
          startPart := i + 1;
          break;
        }
      } else {
        if end == -1 {
          matchedSlash := false;
          end := i + 1;
        }
        if c == Dot {
          if startDot == -1 {
            startDot := i;
          } else if preDotState != 1 {
            preDotState := 1;
          }
        } else if startDot != -1 {
          preDotState := -1;
        }
      }
      i := i - 1;
    }
    ExtnameFinish(path, s, e, startDot, end, preDotState);
    if startDot == -1 || end == -1 || preDotState == 0
       || (preDotState == 1 && startDot == end - 1 && startDot == startPart + 1) {
      ext := [];
    } else {
      ext := path[startDot..end];
    }
  }

  /** The last step of `Extname`: what the scan found, read as the extension of the last segment. */
  lemma ExtnameFinish(path: JsString, s: nat, e: nat, startDot: int, end: int, preDotState: int)
    requires e == SegmentEnd(path, |path|) && s == SegmentStart(path, e)
    requires && end == (if e == 0 then -1 else e)
      && (startDot == -1 ==> forall k | s <= k < e :: path[k] != Dot)
      && (startDot != -1 ==>
            && s <= startDot < e && path[startDot] == Dot
            && forall k | startDot < k < e :: path[k] != Dot)
      && preDotState == (if startDot == -1 || s == startDot then 0 else if path[s] == Dot then 1 else -1)
    ensures if startDot == -1 || end == -1 || preDotState == 0
         || (preDotState == 1 && startDot == end - 1 && startDot == s + 1)
      then ExtOf(path) == []
      else 0 <= startDot <= end <= |path| && ExtOf(path) == path[startDot..end]
  {
    var seg := path[s..e];
    assert seg == LastSegment(path);
    var d := LastIndexOf(seg, Dot);
    if startDot == -1 {
      assert Dot !in seg by {
        assert forall k | 0 <= k < |seg| :: seg[k] == path[s + k];
      }
    } else {
      assert seg[startDot - s] == Dot;
      assert d == startDot - s by {
        assert forall k | startDot - s < k < |seg| :: seg[k] == path[s + k];
      }
      var twoDots := seg == [Dot, Dot];
      assert twoDots <==> |seg| == 2 && seg[0] == Dot && seg[1] == Dot;
      assert seg[0] == path[s];
      if d > 0 && !twoDots {
        assert seg[d..] == path[startDot..end];
      }
    }
  }

  /** Node's `path.posix.basename(path, suffix)`. */
  method Basename(path: JsString, suffix: JsString) returns (base: JsString)
    ensures suffix == ExtOf(path) ==> base == StemOf(path)
    ensures suffix == [] || |suffix| > |path| ==> base == LastSegment(path)
  {
    if |suffix| > 0 && |suffix| <= |path| {
      if suffix == path {
        base := [];
        assert suffix != ExtOf(path);
        return;
      }
      base := BasenameStrippingSuffix(path, suffix);
      if suffix == ExtOf(path) {
        ExtOfIsSegmentSuffix(path);
      }
    } else {
      base := BasenameOfSegment(path);
    }
  }

  /** The last segment is longer than `suffix` and ends with it. */
  predicate SegmentEndsWith(path: JsString, suffix: JsString) {
    var seg := LastSegment(path);
    |suffix| < |seg| && seg[|seg| - |suffix|..] == suffix
  }

  /** The scan of `basename` when a non-empty suffix no longer than the path is given. */
  method BasenameStrippingSuffix(path: JsString, suffix: JsString) returns (base: JsString)
    requires 0 < |suffix| <= |path|
    ensures SegmentEndsWith(path, suffix) ==> base == LastSegment(path)[..|LastSegment(path)| - |suffix|]
  {
    var start, end, firstNonSlashEnd := SuffixScan(path, suffix);
    if start == end {
      end := firstNonSlashEnd;
    } else if end == -1 {
      end := |path|;
    }
    base := Slice(path, start, end);
    if SegmentEndsWith(path, suffix) {
      ghost var e := SegmentEnd(path, |path|);
      ghost var s := SegmentStart(path, e);
      SegmentEndsWithAt(path, suffix, s, e);
      assert path[s..e - |suffix|] == LastSegment(path)[..|LastSegment(path)| - |suffix|];
    }
  }

  /**
   The loop of `basename` with a suffix: when the last segment ends with
   the suffix, it stops at the segment's start and marks where the suffix
   begins.
   */
  method SuffixScan(path: JsString, suffix: JsString) returns (start: int, end: int, firstNonSlashEnd: int)
    requires 0 < |suffix| <= |path|
    ensures 0 <= start <= |path| && -1 <= end <= |path| && -1 <= firstNonSlashEnd <= |path|
    ensures SegmentEndsWith(path, suffix) ==>
              && start == SegmentStart(path, SegmentEnd(path, |path|))
              && end == SegmentEnd(path, |path|) - |suffix|
  {
    ghost var e: int := SegmentEnd(path, |path|);
    ghost var s: int := SegmentStart(path, e);
    ghost var matching := SegmentEndsWith(path, suffix);
    ghost var dot := e - |suffix|;
    if matching {
      SegmentEndsWithAt(path, suffix, s, e);
    }
    start := 0;
    end := -1;
    var matchedSlash := true;
    var extIdx := |suffix| - 1;
    firstNonSlashEnd := -1;
    var i := |path| - 1;
    while i >= 0
      invariant -1 <= i < |path|
      invariant start == 0
      invariant -1 <= extIdx < |suffix|
      invariant -1 <= end <= |path| && -1 <= firstNonSlashEnd <= |path|
      invariant matching ==> s - 1 <= i
      invariant matching && i >= e - 1 ==>
                  firstNonSlashEnd == -1 && matchedSlash && extIdx == |suffix| - 1 && end == -1
      invariant matching && i < e - 1 ==> firstNonSlashEnd == e && !matchedSlash
      invariant matching && i < e ==> extIdx == (if i >= dot then i - dot else -1)
      invariant matching && i < e ==> end == (if i >= dot then -1 else dot)
    {
      var c := path[i];
      if c == Slash {
        if !matchedSlash {
          start := i + 1;
          break;
        }
      } else {
        if firstNonSlashEnd == -1 {
          matchedSlash := false;
          firstNonSlashEnd := i + 1;
        }
        if extIdx >= 0 {
          if c == suffix[extIdx] {
            extIdx := extIdx - 1;
            if extIdx == -1 {
              end := i;
            }
          } else {
            extIdx := -1;
            end := firstNonSlashEnd;
          }
        }
      }
      i := i - 1;
    }
  }

  /** The scan of `basename` without a suffix: the last segment. */
  method BasenameOfSegment(path: JsString) returns (base: JsString)
    ensures base == LastSegment(path)
  {
    ghost var e: int := SegmentEnd(path, |path|);
    ghost var s: int := SegmentStart(path, e);
    var start := 0;
    var end := -1;
    var matchedSlash := true;
    var i := |path| - 1;
    while i >= 0
      invariant s - 1 <= i < |path|
      invariant start == 0
      invariant end == (if i >= e - 1 then -1 else e)
      invariant matchedSlash == (i >= e - 1)
    {
      if path[i] == Slash {
        if !matchedSlash {
          start := i + 1;
          break;
        }
      } else if end == -1 {
        matchedSlash := false;
        end := i + 1;
      }
      i := i - 1;
    }
    if end == -1 {
      base := [];
    } else {
      base := Slice(path, start, end);
    }
    assert start == s;
  }

  /** A non-empty extension is a proper suffix of the last segment, and the stem is what precedes it. */
  lemma ExtOfIsSegmentSuffix(path: JsString)
    requires ExtOf(path) != []
    ensures SegmentEndsWith(path, ExtOf(path))
    ensures StemOf(path) == LastSegment(path)[..|LastSegment(path)| - |ExtOf(path)|]
  {
  }

  /** Where the suffix lies in the path when the last segment ends with it. */
  lemma SegmentEndsWithAt(path: JsString, suffix: JsString, s: nat, e: nat)
    requires e == SegmentEnd(path, |path|) && s == SegmentStart(path, e)
    requires SegmentEndsWith(path, suffix)
    ensures s < e - |suffix| <= e
    ensures forall k | 0 <= k < |suffix| :: suffix[k] == path[e - |suffix| + k]
    ensures LastSegment(path) == path[s..e]
  {
    var seg := path[s..e];
    assert seg == LastSegment(path);
    assert forall k | 0 <= k < |suffix| :: suffix[k] == seg[|seg| - |suffix| + k];
  }

  /** JavaScript's `slice(start, end)` for indices already within the string. */
  function Slice(s: JsString, start: int, end: int): (r: JsString)
    requires 0 <= start && end <= |s|
    ensures start <= end ==> r == s[start..end]
    ensures end < start ==> r == []
  {
    if start <= end then s[start..end] else []
  }
}

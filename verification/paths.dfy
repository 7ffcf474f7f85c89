/**
  A minimal model of the two .NET path operations the locator uses:
  `Path.GetFileName` (the last segment of a path) and `Path.Combine` (join
  two or three paths with a directory separator). Both depend on the path
  conventions of the host operating system, given here as a `PathStyle`.
 */
module Paths {

  /** The host's path conventions. */
  datatype PathStyle = Windows | Unix

  /** The separator `Path.Combine` inserts between two paths. */
  function DirectorySeparator(style: PathStyle): char {
    match style
    case Windows => '\\'
    case Unix => '/'
  }

  /**
    Characters that end a path segment: the directory separator, the
    alternative separator and the volume separator. On Unix all three are `/`.
   */
  predicate IsBoundary(style: PathStyle, c: char) {
    match style
    case Windows => c == '\\' || c == '/' || c == ':'
    case Unix => c == '/'
  }

  /** `Path.IsPathRooted`: a leading separator, or (Windows) a drive such as `C:`. */
  predicate IsRooted(style: PathStyle, p: string) {
    match style
    case Windows => (|p| >= 1 && (p[0] == '\\' || p[0] == '/')) || (|p| >= 2 && p[1] == ':')
    case Unix => |p| >= 1 && p[0] == '/'
  }

  /** True when no character of `p` ends a segment. */
  predicate IsSegment(style: PathStyle, p: string) {
    forall i :: 0 <= i < |p| ==> !IsBoundary(style, p[i])
  }

  /** `p` names a file: it is not empty and does not end in a segment boundary. */
  predicate EndsInFileName(style: PathStyle, p: string) {
    p != "" && !IsBoundary(style, p[|p| - 1])
  }

  /**
    `Path.GetFileName`: the longest suffix of `p` without a segment boundary.
    The suffix is either all of `p` or starts right after a boundary.
   */
  function FileName(style: PathStyle, p: string): (r: string)
    ensures |r| <= |p| && r == p[|p| - |r|..]
    ensures IsSegment(style, r)
    ensures |r| < |p| ==> IsBoundary(style, p[|p| - |r| - 1])
    decreases |p|
  {
    if |p| == 0 then ""
    else if IsBoundary(style, p[|p| - 1]) then ""
    else
      var init := p[..|p| - 1];
      var name := FileName(style, init);
      var r := name + [p[|p| - 1]];
      assert p[|p| - |r|..] == init[|init| - |name|..] + [p[|p| - 1]];
      assert |r| < |p| ==> p[|p| - |r| - 1] == init[|init| - |name| - 1];
      assert IsSegment(style, r) by {
        forall i | 0 <= i < |r| ensures !IsBoundary(style, r[i]) {
          if i < |name| {
            assert r[i] == name[i];
          }
        }
      }
      r
  }

  /**
    `Path.Combine(a, b)`: `b` alone when `a` is empty or `b` is rooted, `a` alone
    when `b` is empty, and otherwise `a` then `b` with exactly one boundary
    between them (a separator is added only when `a` does not already end in one).
   */
  function Combine(style: PathStyle, a: string, b: string): (r: string)
    ensures |b| == 0 ==> r == a
    ensures |b| > 0 && (|a| == 0 || IsRooted(style, b)) ==> r == b
    ensures |b| > 0 && |a| > 0 && !IsRooted(style, b) ==>
      && |a| + |b| <= |r| <= |a| + |b| + 1
      && r[..|a|] == a
      && r[|r| - |b|..] == b
      && IsBoundary(style, r[|r| - |b| - 1])
      && (IsBoundary(style, a[|a| - 1]) ==> |r| == |a| + |b|)
      && (!IsBoundary(style, a[|a| - 1]) ==> |r| == |a| + |b| + 1 && r[|a|] == DirectorySeparator(style))
  {
    if |b| == 0 then a
    else if |a| == 0 || IsRooted(style, b) then b
    else if IsBoundary(style, a[|a| - 1]) then a + b
    else a + [DirectorySeparator(style)] + b
  }

  /**
    `Path.Combine(a, b, c)`: combine left to right. A rooted last path
    replaces everything before it; otherwise the result starts with `a` (when
    `b` is not rooted) and ends in `c` right after one boundary.
   */
  function Combine3(style: PathStyle, a: string, b: string, c: string): (r: string)
    ensures |c| > 0 && IsRooted(style, c) ==> r == c
    ensures |c| == 0 ==> r == Combine(style, a, b)
    ensures !IsRooted(style, b) && !IsRooted(style, c) ==> |a| <= |r| && r[..|a|] == a
    ensures |c| > 0 && !IsRooted(style, c) && (|a| > 0 || |b| > 0) ==>
      && |c| < |r|
      && r[|r| - |c|..] == c
      && IsBoundary(style, r[|r| - |c| - 1])
    ensures |a| > 0 && |b| > 0 && |c| > 0 && !IsRooted(style, b) && !IsRooted(style, c) ==>
      |a| + |b| + |c| <= |r| <= |a| + |b| + |c| + 2
  {
    Combine(style, Combine(style, a, b), c)
  }

  /**
    A segment has no boundary, so its file name is the segment itself: a
    shorter file name would have to follow a boundary inside `p`.
   */
  lemma FileNameOfSegment(style: PathStyle, p: string)
    requires IsSegment(style, p)
    ensures FileName(style, p) == p
  {
    var r := FileName(style, p);
    assert |r| == |p|;
  }

  /** Whatever precedes a boundary does not affect the file name. */
  lemma {:induction false} FileNameAfterBoundary(style: PathStyle, x: string, y: string)
    requires |x| == 0 || IsBoundary(style, x[|x| - 1])
    ensures FileName(style, x + y) == FileName(style, y)
    decreases |y|
  {
    var xy := x + y;
    if |y| == 0 {
      assert xy == x;
    } else {
      var c := y[|y| - 1];
      assert xy[|xy| - 1] == c;
      if !IsBoundary(style, c) {
        var y' := y[..|y| - 1];
        assert xy[..|xy| - 1] == x + y';
        FileNameAfterBoundary(style, x, y');
        assert FileName(style, xy) == FileName(style, x + y') + [c];
        assert FileName(style, y) == FileName(style, y') + [c];
      }
    }
  }

  /**
    The contract of `FileName` pins its result down: any boundary-free suffix
    that is all of `p` or follows a boundary is the file name.
   */
  lemma FileNameUnique(style: PathStyle, p: string, r: string)
    requires |r| <= |p| && r == p[|p| - |r|..]
    requires IsSegment(style, r)
    requires |r| < |p| ==> IsBoundary(style, p[|p| - |r| - 1])
    ensures FileName(style, p) == r
  {
    var x := p[..|p| - |r|];
    assert p == x + r;
    FileNameAfterBoundary(style, x, r);
    FileNameOfSegment(style, r);
  }

  /** A path that names a file has a non-empty file name. */
  lemma FileNameOfFile(style: PathStyle, p: string)
    requires EndsInFileName(style, p)
    ensures FileName(style, p) != ""
  {
  }

  /** `GetFileName` is idempotent. */
  lemma FileNameIdempotent(style: PathStyle, p: string)
    ensures FileName(style, FileName(style, p)) == FileName(style, p)
  {
    FileNameOfSegment(style, FileName(style, p));
  }

  /** A file name is never rooted, so `Combine` always appends it. */
  lemma FileNameNotRooted(style: PathStyle, p: string)
    ensures !IsRooted(style, FileName(style, p))
  {
    var r := FileName(style, p);
    assert IsSegment(style, r);
    SegmentNotRooted(style, r);
  }

  /** A segment starts with neither a separator nor a drive prefix. */
  lemma SegmentNotRooted(style: PathStyle, r: string)
    requires IsSegment(style, r)
    ensures !IsRooted(style, r)
  {
    if |r| >= 1 {
      assert !IsBoundary(style, r[0]);
    }
    if |r| >= 2 {
      assert !IsBoundary(style, r[1]);
    }
  }

  /** `GetFileName` undoes `Combine` on a non-empty second path: it names its last segment. */
  lemma FileNameOfCombine(style: PathStyle, a: string, b: string)
    requires |b| > 0
    ensures FileName(style, Combine(style, a, b)) == FileName(style, b)
  {
    var r := Combine(style, a, b);
    if |a| > 0 && !IsRooted(style, b) {
      var x := r[..|r| - |b|];
      assert r == x + b;
      FileNameAfterBoundary(style, x, b);
    }
  }

  /** `Combine` inserts a separator when the first path does not end in one. */
  lemma CombineInsertsSeparator(style: PathStyle, a: string, b: string)
    requires a != "" && !IsBoundary(style, a[|a| - 1])
    requires b != "" && !IsRooted(style, b)
    ensures Combine(style, a, b) == a + [DirectorySeparator(style)] + b
  {
  }

  /** `Combine` adds nothing when the first path already ends in a boundary. */
  lemma CombineAfterBoundary(style: PathStyle, a: string, b: string)
    requires a != "" && IsBoundary(style, a[|a| - 1])
    requires b != "" && !IsRooted(style, b)
    ensures Combine(style, a, b) == a + b
  {
  }

  /** Combining with a path that is not rooted keeps the first path as a prefix. */
  lemma CombineExtends(style: PathStyle, a: string, b: string)
    requires !IsRooted(style, b)
    ensures a <= Combine(style, a, b)
  {
  }

  /** Appending a file name never leaves the directory it is appended to. */
  lemma CombineFileNameExtends(style: PathStyle, a: string, p: string)
    ensures a <= Combine(style, a, FileName(style, p))
  {
    FileNameNotRooted(style, p);
    CombineExtends(style, a, FileName(style, p));
  }

  /** The same for three paths, when neither of the last two is rooted. */
  lemma Combine3Extends(style: PathStyle, a: string, b: string, c: string)
    requires !IsRooted(style, b) && !IsRooted(style, c)
    ensures a <= Combine3(style, a, b, c)
  {
    CombineExtends(style, a, b);
    CombineExtends(style, Combine(style, a, b), c);
  }
}

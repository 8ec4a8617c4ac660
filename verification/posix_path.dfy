/**
  A model of the POSIX flavour of Node's `path` module, restricted to the three
  operations the asset helpers call: `dirname`, `basename` and `join` (with the
  `normalize` that `join` ends in). Paths are plain strings; `/` is the only
  separator, so a backslash is an ordinary character here.
 */
module PosixPath {

  type Path = seq<char>

  const Sep: char := '/'

  /** Index of the last occurrence of `c` in `s`, or -1 when there is none. */
  function LastIndexOf(s: seq<char>, c: char): (r: int)
    ensures -1 <= r < |s|
    ensures r >= 0 ==> s[r] == c
    ensures forall k :: r < k < |s| ==> s[k] != c
  {
    if |s| == 0 then -1
    else if s[|s| - 1] == c then |s| - 1
    else LastIndexOf(s[..|s| - 1], c)
  }

  lemma LastIndexOfAbsent(s: seq<char>, c: char)
    requires c !in s
    ensures LastIndexOf(s, c) == -1
  {
  }

  /** A separator-free text `x` placed after a separator: the separator is the last one. */
  lemma {:induction false} LastIndexOfAfterSep(a: Path, x: Path)
    requires Sep !in x
    ensures LastIndexOf(a + [Sep] + x, Sep) == |a|
    decreases |x|
  {
    var s := a + [Sep] + x;
    if |x| > 0 {
      var init := x[..|x| - 1];
      assert s[|s| - 1] == x[|x| - 1];
      assert x[|x| - 1] in x;
      assert s[..|s| - 1] == a + [Sep] + init;
      assert forall c :: c in init ==> c in x;
      LastIndexOfAfterSep(a, init);
    }
  }

  // ---------------------------------------------------------------------------
  // Segments

  /** No segment holds a separator. */
  predicate NoSepIn(segs: seq<Path>)
  {
    forall i :: 0 <= i < |segs| ==> Sep !in segs[i]
  }

  lemma NoSepInSnoc(segs: seq<Path>, x: Path)
    requires NoSepIn(segs) && Sep !in x
    ensures NoSepIn(segs + [x])
  {
    var t := segs + [x];
    forall i | 0 <= i < |t| ensures Sep !in t[i] {
      if i < |segs| { assert t[i] == segs[i]; } else { assert t[i] == x; }
    }
  }

  /** The segments between separators; `Split("")` is `[""]`, `Split("/a")` is `["", "a"]`. */
  function Split(p: Path): (segs: seq<Path>)
    ensures |segs| >= 1
    ensures NoSepIn(segs)
    decreases |p|
  {
    var i := LastIndexOf(p, Sep);
    if i < 0 then [p]
    else
      var front := Split(p[..i]);
      var last := p[i + 1..];
      assert Sep !in last by {
        assert forall k :: 0 <= k < |last| ==> last[k] == p[i + 1 + k];
      }
      NoSepInSnoc(front, last);
      front + [last]
  }

  /** The segments written back with a separator between each two. */
  function Unsplit(segs: seq<Path>): Path
  {
    if |segs| == 0 then []
    else if |segs| == 1 then segs[0]
    else Unsplit(segs[..|segs| - 1]) + [Sep] + segs[|segs| - 1]
  }

  lemma UnsplitSnoc(segs: seq<Path>, x: Path)
    requires |segs| >= 1
    ensures Unsplit(segs + [x]) == Unsplit(segs) + [Sep] + x
  {
    assert (segs + [x])[..|segs|] == segs;
  }

  /** Writing back the segments of a path gives the path again. */
  lemma {:induction false} UnsplitSplit(p: Path)
    ensures Unsplit(Split(p)) == p
    decreases |p|
  {
    var i := LastIndexOf(p, Sep);
    if i >= 0 {
      UnsplitSplit(p[..i]);
      UnsplitSnoc(Split(p[..i]), p[i + 1..]);
      assert p == p[..i] + [Sep] + p[i + 1..];
    }
  }

  /** Splitting separator-free segments after writing them back gives them again. */
  lemma {:induction false} SplitUnsplit(segs: seq<Path>)
    requires |segs| >= 1
    requires NoSepIn(segs)
    ensures Split(Unsplit(segs)) == segs
    decreases |segs|
  {
    if |segs| == 1 {
      LastIndexOfAbsent(segs[0], Sep);
    } else {
      var init := segs[..|segs| - 1];
      var last := segs[|segs| - 1];
      var u := Unsplit(init);
      assert Unsplit(segs) == u + [Sep] + last;
      LastIndexOfAfterSep(u, last);
      assert (u + [Sep] + last)[..|u|] == u;
      assert (u + [Sep] + last)[|u| + 1..] == last;
      SplitUnsplit(init);
      assert init + [last] == segs;
    }
  }

  lemma {:induction false} UnsplitConcat(a: seq<Path>, b: seq<Path>)
    requires |a| >= 1 && |b| >= 1
    ensures Unsplit(a + b) == Unsplit(a) + [Sep] + Unsplit(b)
    decreases |b|
  {
    if |b| == 1 {
      UnsplitSnoc(a, b[0]);
      assert a + b == a + [b[0]];
    } else {
      var init := b[..|b| - 1];
      var last := b[|b| - 1];
      assert a + b == (a + init) + [last];
      assert b == init + [last];
      UnsplitSnoc(a + init, last);
      UnsplitConcat(a, init);
      UnsplitSnoc(init, last);
    }
  }

  /** Splitting at a separator splits each side independently. */
  lemma SplitConcat(a: Path, b: Path)
    ensures Split(a + [Sep] + b) == Split(a) + Split(b)
  {
    var sa, sb := Split(a), Split(b);
    UnsplitSplit(a);
    UnsplitSplit(b);
    UnsplitConcat(sa, sb);
    assert NoSepIn(sa + sb) by {
      forall i | 0 <= i < |sa + sb|
        ensures Sep !in (sa + sb)[i]
      {
        if i < |sa| { assert (sa + sb)[i] == sa[i]; }
        else { assert (sa + sb)[i] == sb[i - |sa|]; }
      }
    }
    SplitUnsplit(sa + sb);
  }

  lemma SplitNoSep(x: Path)
    requires Sep !in x
    ensures Split(x) == [x]
  {
    LastIndexOfAbsent(x, Sep);
  }

  // ---------------------------------------------------------------------------
  // Normalisation (Node's normalizeString as a stack of segments)

  /** A segment that names a directory or file: not empty, not `.` or `..`, no separator. */
  predicate IsName(seg: Path)
  {
    seg != [] && seg != "." && seg != ".." && Sep !in seg
  }

  /**
    One segment folded into the resolved stack: empty and `.` segments vanish,
    `..` removes the last name, or is kept when there is none and the path is
    relative, and any other segment is pushed.
   */
  function Step(acc: seq<Path>, seg: Path, allowAboveRoot: bool): seq<Path>
  {
    if seg == [] || seg == "." then acc
    else if seg == ".." then
      if |acc| > 0 && acc[|acc| - 1] != ".." then acc[..|acc| - 1]
      else if allowAboveRoot then acc + [".."]
      else acc
    else acc + [seg]
  }

  /** The segments folded into `acc` from left to right. */
  function Resolve(acc: seq<Path>, segs: seq<Path>, allowAboveRoot: bool): seq<Path>
    decreases |segs|
  {
    if |segs| == 0 then acc
    else Step(Resolve(acc, segs[..|segs| - 1], allowAboveRoot), segs[|segs| - 1], allowAboveRoot)
  }

  /**
    The shape of a resolved stack: names, possibly preceded by `..` segments,
    and `..` segments only when the path is relative.
   */
  predicate Canonical(segs: seq<Path>, allowAboveRoot: bool)
  {
    && (forall i :: 0 <= i < |segs| ==> IsName(segs[i]) || segs[i] == "..")
    && (forall i, j :: 0 <= i < j < |segs| && segs[j] == ".." ==> segs[i] == "..")
    && (!allowAboveRoot ==> forall i :: 0 <= i < |segs| ==> segs[i] != "..")
  }

  lemma ResolveSnoc(acc: seq<Path>, segs: seq<Path>, x: Path, allowAboveRoot: bool)
    ensures Resolve(acc, segs + [x], allowAboveRoot)
         == Step(Resolve(acc, segs, allowAboveRoot), x, allowAboveRoot)
  {
    assert (segs + [x])[..|segs|] == segs;
  }

  /** Folding two runs of segments is folding the first and then the second. */
  lemma {:induction false} ResolveAppend(acc: seq<Path>, a: seq<Path>, b: seq<Path>, allowAboveRoot: bool)
    ensures Resolve(acc, a + b, allowAboveRoot)
         == Resolve(Resolve(acc, a, allowAboveRoot), b, allowAboveRoot)
    decreases |b|
  {
    if |b| == 0 {
      assert a + b == a;
    } else {
      var init := b[..|b| - 1];
      var last := b[|b| - 1];
      assert a + b == (a + init) + [last];
      assert b == init + [last];
      ResolveSnoc(acc, a + init, last, allowAboveRoot);
      ResolveAppend(acc, a, init, allowAboveRoot);
      ResolveSnoc(Resolve(acc, a, allowAboveRoot), init, last, allowAboveRoot);
    }
  }

  lemma StepKeepsCanonical(acc: seq<Path>, seg: Path, allowAboveRoot: bool)
    requires Canonical(acc, allowAboveRoot)
    requires Sep !in seg
    ensures Canonical(Step(acc, seg, allowAboveRoot), allowAboveRoot)
  {
  }

  /** The resolved stack of separator-free segments is always canonical. */
  lemma {:induction false} ResolveCanonical(acc: seq<Path>, segs: seq<Path>, allowAboveRoot: bool)
    requires Canonical(acc, allowAboveRoot)
    requires NoSepIn(segs)
    ensures Canonical(Resolve(acc, segs, allowAboveRoot), allowAboveRoot)
    decreases |segs|
  {
    if |segs| > 0 {
      var init := segs[..|segs| - 1];
      assert NoSepIn(init) by {
        forall i | 0 <= i < |init| ensures Sep !in init[i] { assert init[i] == segs[i]; }
      }
      ResolveCanonical(acc, init, allowAboveRoot);
      StepKeepsCanonical(Resolve(acc, init, allowAboveRoot), segs[|segs| - 1], allowAboveRoot);
    }
  }

  lemma CanonicalPrefix(segs: seq<Path>, x: Path, allowAboveRoot: bool)
    requires Canonical(segs + [x], allowAboveRoot)
    ensures Canonical(segs, allowAboveRoot)
  {
    var t := segs + [x];
    assert forall i :: 0 <= i < |segs| ==> segs[i] == t[i];
  }

  /** Pushing the segment that a canonical stack ends with is what a step does. */
  lemma StepCanonical(segs: seq<Path>, x: Path, allowAboveRoot: bool)
    requires Canonical(segs + [x], allowAboveRoot)
    ensures Step(segs, x, allowAboveRoot) == segs + [x]
  {
    var t := segs + [x];
    assert t[|segs|] == x;
    assert IsName(x) || x == "..";
    if x == ".." {
      assert allowAboveRoot;
      if |segs| > 0 {
        assert t[|segs| - 1] == segs[|segs| - 1];
        assert segs[|segs| - 1] == "..";
      }
    }
  }

  /** Folding segments that already form a canonical stack changes nothing. */
  lemma {:induction false} ResolveCanonicalIdentity(acc: seq<Path>, segs: seq<Path>, allowAboveRoot: bool)
    requires Canonical(acc + segs, allowAboveRoot)
    ensures Resolve(acc, segs, allowAboveRoot) == acc + segs
    decreases |segs|
  {
    if |segs| == 0 {
      assert acc + segs == acc;
    } else {
      var init := segs[..|segs| - 1];
      var last := segs[|segs| - 1];
      var pre := acc + init;
      assert acc + segs == pre + [last];
      CanonicalPrefix(pre, last, allowAboveRoot);
      ResolveCanonicalIdentity(acc, init, allowAboveRoot);
      ResolveSnoc(acc, init, last, allowAboveRoot);
      assert init + [last] == segs;
      StepCanonical(pre, last, allowAboveRoot);
    }
  }

  /** A path is absolute when it starts with the separator. */
  predicate IsAbsolute(p: Path)
  {
    |p| > 0 && p[0] == Sep
  }

  /** A resolved stack written out, with a leading separator when absolute. */
  function Render(absolute: bool, segs: seq<Path>): Path
  {
    (if absolute then [Sep] else []) + Unsplit(segs)
  }

  /** Node's `path.posix.normalize`. */
  function Normalize(p: Path): (r: Path)
    ensures |r| > 0
    ensures IsAbsolute(r) <==> IsAbsolute(p)
  {
    if |p| == 0 then "."
    else
      var absolute := p[0] == Sep;
      var trailing := p[|p| - 1] == Sep;
      var segs := Resolve([], Split(p), !absolute);
      var body := Unsplit(segs);
      if |body| == 0 then
        (if absolute then "/" else if trailing then "./" else ".")
      else
        ResolveCanonical([], Split(p), !absolute);
        CanonicalIsRelative(segs, !absolute);
        Render(absolute, segs) + (if trailing then [Sep] else [])
  }

  /** A resolved stack never writes out to text beginning with a separator. */
  lemma CanonicalIsRelative(segs: seq<Path>, allowAboveRoot: bool)
    requires Canonical(segs, allowAboveRoot)
    ensures !IsAbsolute(Unsplit(segs))
  {
    if |segs| > 0 {
      UnsplitStartsWithFirst(segs);
      assert segs[0][0] != Sep by { assert Sep !in segs[0]; }
    }
  }

  lemma {:induction false} UnsplitStartsWithFirst(segs: seq<Path>)
    requires |segs| >= 1
    ensures |Unsplit(segs)| >= |segs[0]|
    ensures Unsplit(segs)[..|segs[0]|] == segs[0]
    decreases |segs|
  {
    if |segs| > 1 {
      UnsplitStartsWithFirst(segs[..|segs| - 1]);
    }
  }

  /** Node's `path.posix.join` of two arguments: empty arguments are skipped. */
  function Join(a: Path, b: Path): (r: Path)
    ensures |r| > 0
  {
    if |a| == 0 && |b| == 0 then "."
    else if |a| == 0 then Normalize(b)
    else if |b| == 0 then Normalize(a)
    else Normalize(a + [Sep] + b)
  }

  // ---------------------------------------------------------------------------
  // dirname and basename

  /** `p` without its trailing separators. */
  function StripTrailingSeps(p: Path): (q: Path)
    ensures |q| <= |p| && q == p[..|q|]
    ensures |q| > 0 ==> q[|q| - 1] != Sep
    ensures forall k :: |q| <= k < |p| ==> p[k] == Sep
  {
    if |p| > 0 && p[|p| - 1] == Sep then StripTrailingSeps(p[..|p| - 1]) else p
  }

  /**
    Node's `path.posix.dirname`: everything before the last separator that is
    followed by a non-separator (the first character never counts), `.` or `/`
    when there is no such separator, and `//` for a path such as `//a`.
   */
  function Dirname(p: Path): (r: Path)
    ensures r == "." || r == "/" || r == "//"
         || (0 < |r| < |p| && r == p[..|r|] && p[|r|] == Sep)
  {
    if |p| == 0 then "."
    else
      var hasRoot := p[0] == Sep;
      var q := StripTrailingSeps(p);
      var i := LastIndexOf(q, Sep);
      var end := if i >= 1 then i else -1;
      if end < 0 then (if hasRoot then "/" else ".")
      else if hasRoot && end == 1 then "//"
      else p[..end]
  }

  /** Node's `path.posix.basename` without an extension: the last non-empty segment. */
  function Basename(p: Path): (r: Path)
    ensures Sep !in r
    ensures |r| <= |p|
    ensures r == [] <==> forall k :: 0 <= k < |p| ==> p[k] == Sep
    ensures var q := StripTrailingSeps(p);
            && |r| <= |q| && r == q[|q| - |r|..]
            && (|r| < |q| ==> q[|q| - |r| - 1] == Sep)
  {
    var q := StripTrailingSeps(p);
    var i := LastIndexOf(q, Sep);
    var r := q[i + 1..];
    assert forall k :: 0 <= k < |r| ==> r[k] == q[i + 1 + k];
    assert |q| > 0 ==> r[|r| - 1] == q[|q| - 1];
    r
  }

  /**
    `dirname` and `basename` split a path at the same separator: after
    trailing separators are dropped, the last separator not in first place
    divides the path into the directory and the base name. With no such
    separator the directory is the root or `.`, and a rooted path whose only
    such separator is its second character has the directory `//`.
   */
  lemma DirnameBasename(p: Path)
    ensures var q := StripTrailingSeps(p);
            var i := LastIndexOf(q, Sep);
            && (i >= 1 && !(p[0] == Sep && i == 1) ==> Dirname(p) + [Sep] + Basename(p) == q)
            && (i < 1 ==> Dirname(p) == (if |p| > 0 && p[0] == Sep then "/" else "."))
            && (|p| > 0 && p[0] == Sep && i == 1 ==> Dirname(p) == "//")
  {
    var q := StripTrailingSeps(p);
    var i := LastIndexOf(q, Sep);
    if |p| > 0 {
      if i < 1 {
        DirnameAtRoot(p);
      } else if p[0] == Sep && i == 1 {
        DirnameAtRoot(p);
      } else {
        DirnameAtSeparator(p);
      }
    }
  }

  /** A base name is its own base name. */
  lemma BasenameIdempotent(p: Path)
    ensures Basename(Basename(p)) == Basename(p)
  {
    var b := Basename(p);
    if |b| > 0 {
      assert b[|b| - 1] in b;
      assert StripTrailingSeps(b) == b;
      LastIndexOfAbsent(b, Sep);
    }
  }

  /** The cases of `DirnameBasename` without a separator to cut at. */
  lemma DirnameAtRoot(p: Path)
    requires |p| > 0
    ensures var i := LastIndexOf(StripTrailingSeps(p), Sep);
            && (i < 1 ==> Dirname(p) == (if p[0] == Sep then "/" else "."))
            && (p[0] == Sep && i == 1 ==> Dirname(p) == "//")
  {
  }

  /** The case of `DirnameBasename` with a separator to cut at. */
  lemma DirnameAtSeparator(p: Path)
    requires |p| > 0
    requires var i := LastIndexOf(StripTrailingSeps(p), Sep); i >= 1 && !(p[0] == Sep && i == 1)
    ensures Dirname(p) + [Sep] + Basename(p) == StripTrailingSeps(p)
  {
    var q := StripTrailingSeps(p);
    var i := LastIndexOf(q, Sep);
    assert Dirname(p) == p[..i];
    BasenameAt(p, q, i);
  }

  lemma CutAtSeparator(q: Path, i: int)
    requires 0 <= i < |q| && q[i] == Sep
    ensures q[..i] + [Sep] + q[i + 1..] == q
  {
    assert q == q[..i] + q[i..];
    assert q[i..] == [Sep] + q[i + 1..];
  }

  lemma BasenameAt(p: Path, q: Path, i: int)
    requires q == StripTrailingSeps(p) && i == LastIndexOf(q, Sep) && i >= 0
    ensures p[..i] + [Sep] + Basename(p) == q
  {
    var b := Basename(p);
    assert b == q[i + 1..];
    assert p[..i] == q[..i];
    CutAtSeparator(q, i);
  }

  /** The parent of `dir/name` is `dir`, for a directory without trailing separator. */
  lemma DirnameOfChild(dir: Path, name: Path)
    requires |dir| > 0 && dir[|dir| - 1] != Sep
    requires |name| > 0 && Sep !in name
    ensures Dirname(dir + [Sep] + name) == dir
  {
    var p := dir + [Sep] + name;
    var q := StripTrailingSeps(p);
    assert p[|p| - 1] == name[|name| - 1];
    assert q == p;
    LastIndexOfAfterSep(dir, name);
  }

  lemma DirnameOfTopLevel(name: Path)
    requires |name| > 0 && Sep !in name
    ensures Dirname(name) == "."
    ensures Dirname([Sep] + name) == "/"
  {
    assert StripTrailingSeps(name) == name by {
      assert name[|name| - 1] in name;
    }
    var p := [Sep] + name;
    assert p[|p| - 1] == name[|name| - 1];
    assert StripTrailingSeps(p) == p;
    assert p == [] + [Sep] + name;
    LastIndexOfAfterSep([], name);
    LastIndexOfAbsent(name, Sep);
  }

  /** The base name of `dir/name` is `name`, whatever `dir` is. */
  lemma BasenameOfChild(dir: Path, name: Path)
    requires |name| > 0 && Sep !in name
    ensures Basename(dir + [Sep] + name) == name
    ensures Basename(name) == name
  {
    var p := dir + [Sep] + name;
    assert p[|p| - 1] == name[|name| - 1];
    assert StripTrailingSeps(p) == p;
    LastIndexOfAfterSep(dir, name);
    assert p[|dir| + 1..] == name;
    assert name[|name| - 1] in name;
    assert StripTrailingSeps(name) == name;
    LastIndexOfAbsent(name, Sep);
  }

  // ---------------------------------------------------------------------------
  // join with a file name

  /** Joining a name onto any path: the path's resolved segments, then the name. */
  lemma JoinName(a: Path, x: Path)
    requires IsName(x)
    ensures Join(a, x) == Render(IsAbsolute(a), Resolve([], Split(a), !IsAbsolute(a)) + [x])
  {
    SplitNoSep(x);
    if |a| == 0 {
      assert Split(a) == [a];
      assert Resolve([], [a], true) == [];
      assert [] + [x] == [x];
    } else {
      JoinNameAfter(a, x);
    }
  }

  lemma JoinNameAfter(a: Path, x: Path)
    requires IsName(x) && |a| > 0
    ensures Join(a, x) == Render(IsAbsolute(a), Resolve([], Split(a), !IsAbsolute(a)) + [x])
  {
    var p := a + [Sep] + x;
    var segs := Resolve([], Split(a), !IsAbsolute(a)) + [x];
    assert Join(a, x) == Normalize(p);
    NormalizeAfterName(a, x, p, segs);
  }

  lemma NormalizeAfterName(a: Path, x: Path, p: Path, segs: seq<Path>)
    requires IsName(x) && |a| > 0
    requires p == a + [Sep] + x
    requires segs == Resolve([], Split(a), !IsAbsolute(a)) + [x]
    ensures Normalize(p) == Render(IsAbsolute(a), segs)
  {
    assert IsAbsolute(p) == IsAbsolute(a) by { assert p[0] == a[0]; }
    assert p[|p| - 1] == x[|x| - 1] by { assert x[|x| - 1] in x; }
    ResolveAfterName(a, x, !IsAbsolute(a));
    UnsplitEndsWithLast(segs);
    NormalizeUntrailed(p, segs);
  }

  /** A name after a separator is pushed onto the resolved stack. */
  lemma ResolveAfterName(a: Path, x: Path, allowAboveRoot: bool)
    requires IsName(x)
    ensures Resolve([], Split(a + [Sep] + x), allowAboveRoot) == Resolve([], Split(a), allowAboveRoot) + [x]
  {
    SplitNoSep(x);
    SplitConcat(a, x);
    ResolveSnoc([], Split(a), x, allowAboveRoot);
  }

  /** Normalising a path that does not end with a separator writes out its resolved stack with its root. */
  lemma NormalizeUntrailed(p: Path, stack: seq<Path>)
    requires |p| > 0 && p[|p| - 1] != Sep
    requires Resolve([], Split(p), !IsAbsolute(p)) == stack
    requires |Unsplit(stack)| > 0
    ensures Normalize(p) == Render(IsAbsolute(p), stack)
  {
    assert Normalize(p) == Render(IsAbsolute(p), stack) + [];
  }

  /** A clean relative path: names, possibly after leading `..` segments. */
  predicate IsCleanRelative(p: Path)
  {
    Canonical(Split(p), true)
  }

  /** A clean absolute path: the root followed by one or more names. */
  predicate IsCleanAbsolute(p: Path)
  {
    IsAbsolute(p) && |Split(p)| >= 2 && Canonical(Split(p)[1..], false)
  }

  /** Joining a name onto a clean path is plain concatenation with a separator. */
  lemma JoinCleanName(a: Path, x: Path)
    requires IsCleanRelative(a) || IsCleanAbsolute(a)
    requires IsName(x)
    ensures Join(a, x) == a + [Sep] + x
  {
    if IsCleanAbsolute(a) {
      JoinCleanAbsoluteName(a, x);
    } else {
      JoinCleanRelativeName(a, x);
    }
  }

  /** The first segment of an absolute path is the empty text before the root. */
  lemma AbsoluteFirstSegment(a: Path)
    requires IsAbsolute(a)
    ensures Split(a)[0] == []
  {
    var segs := Split(a);
    UnsplitSplit(a);
    UnsplitStartsWithFirst(segs);
  }

  lemma AbsoluteIsNotCleanRelative(a: Path)
    ensures IsAbsolute(a) ==> !IsCleanRelative(a)
  {
    if IsAbsolute(a) {
      AbsoluteFirstSegment(a);
      assert !IsName(Split(a)[0]);
    }
  }

  lemma JoinCleanRelativeName(a: Path, x: Path)
    requires IsCleanRelative(a)
    requires IsName(x)
    ensures Join(a, x) == a + [Sep] + x
  {
    var segs := Split(a);
    AbsoluteIsNotCleanRelative(a);
    assert !IsAbsolute(a);
    JoinName(a, x);
    assert Join(a, x) == Render(false, Resolve([], segs, true) + [x]);
    ResolveCanonicalIdentity([], segs, true);
    assert [] + segs == segs;
    assert Resolve([], segs, true) == segs;
    calc {
      Join(a, x);
      Render(false, segs + [x]);
      Unsplit(segs + [x]);
      { UnsplitSnoc(segs, x); }
      Unsplit(segs) + [Sep] + x;
      { UnsplitSplit(a); }
      a + [Sep] + x;
    }
  }

  lemma JoinCleanAbsoluteName(a: Path, x: Path)
    requires IsCleanAbsolute(a)
    requires IsName(x)
    ensures Join(a, x) == a + [Sep] + x
  {
    JoinName(a, x);
    ResolveCleanAbsolute(a);
    RenderCleanAbsolute(a, x);
  }

  lemma ResolveCleanAbsolute(a: Path)
    requires IsCleanAbsolute(a)
    ensures Resolve([], Split(a), false) == Split(a)[1..]
  {
    var segs := Split(a);
    var tail := segs[1..];
    assert segs == [segs[0]] + tail;
    AbsoluteFirstSegment(a);
    calc {
      Resolve([], segs, false);
      { ResolveAppend([], [segs[0]], tail, false); }
      Resolve(Resolve([], [segs[0]], false), tail, false);
      { assert Resolve([], [segs[0]], false) == []; }
      Resolve([], tail, false);
      { ResolveCanonicalIdentity([], tail, false); assert [] + tail == tail; }
      tail;
    }
  }

  lemma RenderCleanAbsolute(a: Path, x: Path)
    requires IsAbsolute(a) && |Split(a)| >= 2
    ensures Render(true, Split(a)[1..] + [x]) == a + [Sep] + x
  {
    AbsoluteFirstSegment(a);
    UnsplitSplit(a);
    RenderTail(a, Split(a), x);
  }

  /** Written out after the root, the segments behind an empty first one give the path back. */
  lemma RenderTail(a: Path, segs: seq<Path>, x: Path)
    requires |segs| >= 2 && segs[0] == [] && Unsplit(segs) == a
    ensures Render(true, segs[1..] + [x]) == a + [Sep] + x
  {
    var tail := segs[1..];
    var ut := Unsplit(tail);
    var head: seq<Path> := [segs[0]];
    assert head + tail == segs;
    UnsplitConcat(head, tail);
    assert Unsplit(head) == [];
    assert a == [] + [Sep] + ut;
    UnsplitSnoc(tail, x);
    assert [Sep] + (ut + [Sep] + x) == ([] + [Sep] + ut) + [Sep] + x;
  }

  lemma UnsplitEndsWithLast(segs: seq<Path>)
    requires |segs| >= 1
    ensures |Unsplit(segs)| >= |segs[|segs| - 1]|
    ensures Unsplit(segs)[|Unsplit(segs)| - |segs[|segs| - 1]|..] == segs[|segs| - 1]
  {
  }

  /** A clean path is not empty and does not end with a separator. */
  lemma CleanPathEnd(p: Path)
    requires IsCleanRelative(p) || IsCleanAbsolute(p)
    ensures |p| > 0 && p[|p| - 1] != Sep
  {
    var segs := Split(p);
    var last := segs[|segs| - 1];
    UnsplitSplit(p);
    UnsplitEndsWithLast(segs);
    if IsCleanAbsolute(p) {
      assert last == segs[1..][|segs| - 2];
    }
    assert |last| > 0;
    assert last[|last| - 1] in last;
    assert p[|p| - 1] == last[|last| - 1];
  }

  lemma CanonicalSnocName(segs: seq<Path>, x: Path, allowAboveRoot: bool)
    requires Canonical(segs, allowAboveRoot)
    requires IsName(x)
    ensures Canonical(segs + [x], allowAboveRoot)
  {
  }

  /** `../..` in front of a canonical stack is still canonical, for a relative path. */
  lemma CanonicalUpTwo(segs: seq<Path>, allowAboveRoot: bool)
    requires Canonical(segs, allowAboveRoot)
    ensures Canonical(["..", ".."] + segs, true)
  {
    var t := ["..", ".."] + segs;
    assert forall i :: 2 <= i < |t| ==> t[i] == segs[i - 2];
  }

  /** Normalising a relative path that does not end with a separator writes out its resolved stack. */
  lemma NormalizeRelative(p: Path, stack: seq<Path>)
    requires |p| > 0 && p[0] != Sep && p[|p| - 1] != Sep
    requires Resolve([], Split(p), true) == stack
    requires |Unsplit(stack)| > 0
    ensures Normalize(p) == Unsplit(stack)
  {
    assert Render(false, stack) == Unsplit(stack);
    assert Normalize(p) == Render(false, stack) + [];
  }

  lemma UnsplitUpTwo()
    ensures Unsplit(["..", ".."]) == "../.."
  {
    assert ["..", ".."][..1] == [".."];
  }

  /** Splitting `a/o` for a written-out stack `o`: an absolute `o` adds an empty segment. */
  lemma SplitBeforeRender(a: Path, absolute: bool, segs: seq<Path>)
    requires |segs| >= 1 && NoSepIn(segs)
    ensures Split(a + [Sep] + Render(absolute, segs))
         == Split(a) + (if absolute then [[]] + segs else segs)
  {
    var u := Unsplit(segs);
    SplitUnsplit(segs);
    if absolute {
      SplitBeforeRooted(a, u);
    } else {
      assert Render(absolute, segs) == u;
      SplitConcat(a, u);
    }
  }

  lemma SplitBeforeRooted(a: Path, u: Path)
    ensures Split(a + [Sep] + ([Sep] + u)) == Split(a) + [[]] + Split(u)
  {
    var e: Path := [];
    var o := [Sep] + u;
    assert o == e + [Sep] + u;
    SplitNoSep(e);
    SplitConcat(e, u);
    assert Split(o) == [e] + Split(u);
    SplitConcat(a, o);
  }

  lemma SplitUpTwo(absolute: bool, segs: seq<Path>)
    requires |segs| >= 1 && NoSepIn(segs)
    ensures Split("../.." + [Sep] + Render(absolute, segs))
         == ["..", ".."] + (if absolute then [[]] + segs else segs)
  {
    UnsplitUpTwo();
    SplitUnsplit(["..", ".."]);
    SplitBeforeRender("../..", absolute, segs);
  }

  lemma ResolveUpTwo(absolute: bool, segs: seq<Path>)
    requires Canonical(segs, !absolute)
    ensures Resolve([], ["..", ".."] + (if absolute then [[]] + segs else segs), true)
         == ["..", ".."] + segs
  {
    var up := ["..", ".."];
    var rest := if absolute then [[]] + segs else segs;
    CanonicalUpTwo(segs, !absolute);
    calc {
      Resolve([], up + rest, true);
      { ResolveAppend([], up, rest, true); }
      Resolve(Resolve([], up, true), rest, true);
      { ResolveCanonicalIdentity([], up, true); assert [] + up == up; }
      Resolve(up, rest, true);
      { if absolute { ResolveAppend(up, [[]], segs, true); } }
      Resolve(up, segs, true);
      { ResolveCanonicalIdentity(up, segs, true); }
      up + segs;
    }
  }

  /**
    `path.join("../..", o)` for an `o` written out from a resolved stack ending
    in a name: the two `..` segments come first and nothing is cancelled; an
    absolute `o` loses its leading separator.
   */
  lemma JoinUpTwo(absolute: bool, segs: seq<Path>)
    requires |segs| >= 1 && Canonical(segs, !absolute)
    ensures Join("../..", Render(absolute, segs)) == "../.." + [Sep] + Unsplit(segs)
  {
    var up := ["..", ".."];
    var o := Render(absolute, segs);
    var p := "../.." + [Sep] + o;
    RenderEnd(absolute, segs);
    assert p[|p| - 1] == o[|o| - 1];
    assert Join("../..", o) == Normalize(p);
    SplitUpTwo(absolute, segs);
    ResolveUpTwo(absolute, segs);
    UnsplitUpTwoConcat(segs);
    NormalizeRelative(p, up + segs);
  }

  /** A canonical stack ending in a segment is written out ending in a non-separator. */
  lemma RenderEnd(absolute: bool, segs: seq<Path>)
    requires |segs| >= 1 && Canonical(segs, !absolute)
    ensures var o := Render(absolute, segs); |o| > 0 && o[|o| - 1] != Sep
  {
    UnsplitEndsWithLast(segs);
    var last := segs[|segs| - 1];
    assert |last| > 0 && last[|last| - 1] in last;
  }

  lemma UnsplitUpTwoConcat(segs: seq<Path>)
    requires |segs| >= 1
    ensures Unsplit(["..", ".."] + segs) == "../.." + [Sep] + Unsplit(segs)
  {
    UnsplitConcat(["..", ".."], segs);
    UnsplitUpTwo();
  }

  /** `r` is `x`, or ends with a separator followed by `x`. */
  predicate EndsWithName(r: Path, x: Path)
  {
    r == x || (|r| > |x| && r[|r| - |x| - 1] == Sep && r[|r| - |x|..] == x)
  }

  lemma EndsAfterSep(pre: Path, x: Path)
    ensures EndsWithName(pre + [Sep] + x, x)
  {
    var r := pre + [Sep] + x;
    assert r[|pre|] == Sep;
    assert r[|pre| + 1..] == x;
  }

  /** A name pushed on a resolved stack is written out last, right after a separator. */
  lemma RenderEndsWithName(absolute: bool, stack: seq<Path>, x: Path)
    ensures EndsWithName(Render(absolute, stack + [x]), x)
  {
    var pre: Path := if absolute then [Sep] else [];
    var r := Render(absolute, stack + [x]);
    var w := Unsplit(stack + [x]);
    assert r == pre + w;
    if |stack| == 0 {
      assert stack + [x] == [x];
      assert w == x;
      if absolute {
        EndsAfterSep([], x);
        assert r == [] + [Sep] + x;
      }
    } else {
      var u := Unsplit(stack);
      UnsplitSnoc(stack, x);
      assert w == u + [Sep] + x;
      EndsAfterSep(pre + u, x);
      assert r == (pre + u) + [Sep] + x;
    }
  }

  /** Joining a name onto any path ends the result with that name, after a separator if anything precedes it. */
  lemma JoinEndsWithName(a: Path, x: Path)
    requires IsName(x)
    ensures EndsWithName(Join(a, x), x)
  {
    JoinName(a, x);
    RenderEndsWithName(IsAbsolute(a), Resolve([], Split(a), !IsAbsolute(a)), x);
  }

  /** A name on its own is a clean relative path, and after the root a clean absolute one. */
  lemma CleanTopLevel(x: Path)
    requires IsName(x)
    ensures IsCleanRelative(x)
    ensures IsCleanAbsolute([Sep] + x)
  {
    SplitNoSep(x);
    SplitNoSep([]);
    assert [Sep] + x == [] + [Sep] + x;
    SplitConcat([], x);
    assert Split([Sep] + x)[1..] == [x];
  }

  /** A name appended to a clean path keeps it clean. */
  lemma CleanChild(a: Path, x: Path)
    requires IsName(x)
    ensures IsCleanRelative(a) ==> IsCleanRelative(a + [Sep] + x)
    ensures IsCleanAbsolute(a) ==> IsCleanAbsolute(a + [Sep] + x)
  {
    var p := a + [Sep] + x;
    SplitConcat(a, x);
    SplitNoSep(x);
    if IsCleanRelative(a) {
      CanonicalSnocName(Split(a), x, true);
    }
    if IsCleanAbsolute(a) {
      assert p[0] == a[0];
      assert Split(p)[1..] == Split(a)[1..] + [x];
      CanonicalSnocName(Split(a)[1..], x, false);
    }
  }
}

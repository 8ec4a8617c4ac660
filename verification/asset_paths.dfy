/**
  The asset naming helpers of the build configuration: `getImgOutputPath`,
  which places an emitted image or font in the output tree, and the two
  `publicPath` closures that turn that place into a URL for assets referenced
  from style sheets and from HTML/JavaScript.
 */
module AssetPaths {
  import opened PosixPath
  import opened ResPrefix
  import opened PublicPath

  /**
    `getImgOutputPath(url, resourcePath)`: the source file's directory with
    everything up to the last `res` segment removed, joined with the base
    name of the hashed file name `url`.
   */
  function GetImgOutputPath(url: Path, resourcePath: Path): (r: Path)
    ensures |r| > 0
    ensures HasFileName(url) ==> EndsWithName(r, Basename(url))
  {
    var outputDir := StripResPrefix(Dirname(resourcePath));
    assert HasFileName(url) ==> EndsWithName(Join(outputDir, Basename(url)), Basename(url)) by {
      if HasFileName(url) {
        JoinEndsWithName(outputDir, Basename(url));
      }
    }
    Join(outputDir, Basename(url))
  }

  /** The `publicPath` closure for assets referenced from CSS: two levels up, then public. */
  function CssPublicPath(url: Path, resourcePath: Path): (r: Path)
    ensures '\\' !in r
  {
    var outputPath := GetImgOutputPath(url, resourcePath);
    ToPublicPathHasNoBackslash(Join("../..", outputPath));
    ToPublicPath(Join("../..", outputPath))
  }

  /** The `publicPath` closure for assets referenced from HTML and JavaScript. */
  function AssetPublicPath(url: Path, resourcePath: Path): (r: Path)
    ensures '\\' !in r
  {
    var outputPath := GetImgOutputPath(url, resourcePath);
    ToPublicPathHasNoBackslash(outputPath);
    ToPublicPath(outputPath)
  }

  /** The base name of `url` is an ordinary file name. */
  predicate HasFileName(url: Path)
  {
    IsName(Basename(url))
  }

  /** The output path as the resolved directory stack with the file name pushed on top. */
  lemma OutputPathStack(url: Path, resourcePath: Path)
    requires HasFileName(url)
    ensures var dir := StripResPrefix(Dirname(resourcePath));
            var segs := Resolve([], Split(dir), !IsAbsolute(dir)) + [Basename(url)];
            && Canonical(segs, !IsAbsolute(dir))
            && GetImgOutputPath(url, resourcePath) == Render(IsAbsolute(dir), segs)
  {
    var dir := StripResPrefix(Dirname(resourcePath));
    var allow := !IsAbsolute(dir);
    JoinName(dir, Basename(url));
    ResolveCanonical([], Split(dir), allow);
    CanonicalSnocName(Resolve([], Split(dir), allow), Basename(url), allow);
  }

  /** Only the base name of `url` matters: a directory part in it is dropped. */
  lemma OutputPathOnlyBasename(url: Path, resourcePath: Path)
    ensures GetImgOutputPath(url, resourcePath) == GetImgOutputPath(Basename(url), resourcePath)
  {
    BasenameIdempotent(url);
  }

  /**
    An asset under `res`: the output path keeps the sub-directory below the
    last `res` segment and puts the file name after it.
   */
  lemma OutputPathUnderRes(url: Path, prefix: Path, sub: Path, file: Path)
    requires forall k :: 0 <= k < |prefix| ==> !IsLineTerminator(prefix[k])
    requires IsCleanRelative(sub)
    requires forall k :: !MarkerAt("/" + sub, k)
    requires |file| > 0 && Sep !in file
    requires HasFileName(url)
    ensures GetImgOutputPath(url, prefix + "/res/" + sub + "/" + file) == sub + "/" + Basename(url)
  {
    var dir := prefix + "/res/" + sub;
    assert prefix + "/res/" + sub + "/" + file == dir + [Sep] + file;
    CleanPathEnd(sub);
    assert dir[|dir| - 1] == sub[|sub| - 1];
    DirnameOfChild(dir, file);
    StripAtLastMarker(prefix, sub);
    JoinCleanName(sub, Basename(url));
  }

  /**
    An asset whose directory has no `res` segment with a separator on both
    sides: the directory is kept as it is and the file name joined to it.
   */
  lemma OutputPathWithoutRes(url: Path, dir: Path, file: Path)
    requires IsCleanRelative(dir) || IsCleanAbsolute(dir)
    requires !HasResPrefix(dir)
    requires |file| > 0 && Sep !in file
    requires HasFileName(url)
    ensures GetImgOutputPath(url, dir + "/" + file) == dir + "/" + Basename(url)
  {
    CleanPathEnd(dir);
    DirnameOfChild(dir, file);
    JoinCleanName(dir, Basename(url));
  }

  /**
    The CSS public path is the HTML/JavaScript public path seen from two
    directories deeper: `../../` in front of a relative output path, and
    `../..` in front of an absolute one, whose leading separator `path.join`
    merges with the one it inserts.
   */
  lemma CssPublicPathIsTwoLevelsUp(url: Path, resourcePath: Path)
    requires HasFileName(url)
    ensures var h := AssetPublicPath(url, resourcePath);
            var c := CssPublicPath(url, resourcePath);
            && (IsAbsolute(GetImgOutputPath(url, resourcePath)) ==> c == "../.." + h)
            && (!IsAbsolute(GetImgOutputPath(url, resourcePath)) ==> c == "../../" + h)
  {
    var dir := StripResPrefix(Dirname(resourcePath));
    var absolute := IsAbsolute(dir);
    var segs := Resolve([], Split(dir), !absolute) + [Basename(url)];
    OutputPathStack(url, resourcePath);
    var o := GetImgOutputPath(url, resourcePath);
    var u := Unsplit(segs);
    JoinUpTwo(absolute, segs);
    CanonicalIsRelative(segs, !absolute);
    PublicPathUpTwo(o, u, Join("../..", o), absolute);
  }

  /** The public form of `"../.." + "/" + u`, for `o` either `u` or `/u`. */
  lemma PublicPathUpTwo(o: Path, u: Path, joined: Path, absolute: bool)
    requires o == (if absolute then [Sep] else []) + u
    requires !IsAbsolute(u)
    requires joined == "../.." + [Sep] + u
    ensures IsAbsolute(o) <==> absolute
    ensures ToPublicPath(joined) == (if absolute then "../.." else "../../") + ToPublicPath(o)
  {
    if absolute {
      assert joined == "../.." + o;
      ToPublicPathAfterPlainPrefix("../..", o);
    } else {
      assert o == u;
      assert "../.." + [Sep] == "../../";
      assert joined == "../../" + o;
      ToPublicPathAfterPlainPrefix("../../", o);
    }
  }

  /** The strings of the documented example, taken apart. */
  lemma DocumentedExampleText(project: Path)
    ensures project + "/res/img/warning.svg" == project + "/res/" + "img" + "/" + "warning.svg"
    ensures "img/warning.1234567.svg" == "img" + "/" + "warning.1234567.svg"
    ensures "../../img/warning.1234567.svg" == "../../" + "img/warning.1234567.svg"
    ensures IsName("warning.1234567.svg") && IsName("img") && Sep !in "warning.svg"
    ensures '\\' !in "img/warning.1234567.svg"
  {
  }

  /**
    The public paths of an asset under `res`: from HTML and JavaScript the
    relative output path itself, from CSS the same path two levels up.
   */
  lemma PublicPathsUnderRes(url: Path, prefix: Path, sub: Path, file: Path)
    requires forall k :: 0 <= k < |prefix| ==> !IsLineTerminator(prefix[k])
    requires IsCleanRelative(sub)
    requires forall k :: !MarkerAt("/" + sub, k)
    requires |file| > 0 && Sep !in file
    requires HasFileName(url)
    ensures var rp := prefix + "/res/" + sub + "/" + file;
            var o := ToPublicPath(sub + "/" + Basename(url));
            && AssetPublicPath(url, rp) == o
            && CssPublicPath(url, rp) == "../../" + o
  {
    var rp := prefix + "/res/" + sub + "/" + file;
    var o := sub + "/" + Basename(url);
    OutputPathUnderRes(url, prefix, sub, file);
    assert GetImgOutputPath(url, rp) == o;
    assert !IsAbsolute(o) by {
      AbsoluteIsNotCleanRelative(sub);
      CleanPathEnd(sub);
      assert o[0] == sub[0];
    }
    CssPublicPathIsTwoLevelsUp(url, rp);
  }

  /** A hashed file name directly in `res/sub`: the three paths, spelled out. */
  lemma PathsOfNameUnderRes(prefix: Path, sub: Path, file: Path, name: Path)
    requires forall k :: 0 <= k < |prefix| ==> !IsLineTerminator(prefix[k])
    requires IsCleanRelative(sub)
    requires forall k :: !MarkerAt("/" + sub, k)
    requires |file| > 0 && Sep !in file
    requires IsName(name)
    requires '\\' !in sub + "/" + name
    ensures var rp := prefix + "/res/" + sub + "/" + file;
            && GetImgOutputPath(name, rp) == sub + "/" + name
            && AssetPublicPath(name, rp) == sub + "/" + name
            && CssPublicPath(name, rp) == "../../" + (sub + "/" + name)
  {
    BasenameOfChild([], name);
    OutputPathUnderRes(name, prefix, sub, file);
    PublicPathsUnderRes(name, prefix, sub, file);
    ToPublicPathIdentity(sub + "/" + name);
  }

  /** The directory of the documented example is clean and holds no marker. */
  lemma DocumentedExampleDirectory()
    ensures IsCleanRelative("img")
    ensures forall k :: !MarkerAt("/img", k)
  {
    SplitNoSep("img");
  }

  /**
    The documented example: `warning.1234567.svg` for `<project>/res/img/warning.svg`
    is emitted as `img/warning.1234567.svg`, which is also its HTML public
    path; from CSS it is reached as `../../img/warning.1234567.svg`.
   */
  lemma DocumentedExample(project: Path)
    requires forall k :: 0 <= k < |project| ==> !IsLineTerminator(project[k])
    ensures GetImgOutputPath("warning.1234567.svg", project + "/res/img/warning.svg") == "img/warning.1234567.svg"
    ensures AssetPublicPath("warning.1234567.svg", project + "/res/img/warning.svg") == "img/warning.1234567.svg"
    ensures CssPublicPath("warning.1234567.svg", project + "/res/img/warning.svg") == "../../img/warning.1234567.svg"
  {
    DocumentedExampleText(project);
    DocumentedExampleDirectory();
    PathsOfNameUnderRes(project, "img", "warning.svg", "warning.1234567.svg");
  }

  /** The strings of the fallback examples, taken apart. */
  lemma FallbackExampleText()
    ensures "/p/res/warning.svg" == "/p/res" + "/" + "warning.svg"
    ensures "/p/res" == ([Sep] + "p") + [Sep] + "res"
    ensures "/p/res/warning.1234567.svg" == "/p/res" + "/" + "warning.1234567.svg"
  {
  }

  lemma FallbackExampleCss()
    ensures "../../p/res/warning.1234567.svg" == "../.." + "/p/res/warning.1234567.svg"
  {
  }

  lemma FallbackExampleNames()
    ensures IsName("warning.1234567.svg") && IsName("p") && IsName("res") && Sep !in "warning.svg"
    ensures '\\' !in "/p/res/warning.1234567.svg"
  {
  }

  /**
    A file sitting directly in `res` has no separator after `res` in its
    directory, so nothing is stripped: the output path stays absolute, and
    `path.join` turns the CSS public path into `../../p/res/...`.
   */
  lemma FileDirectlyInResExample()
    ensures GetImgOutputPath("warning.1234567.svg", "/p/res/warning.svg") == "/p/res/warning.1234567.svg"
    ensures AssetPublicPath("warning.1234567.svg", "/p/res/warning.svg") == "/p/res/warning.1234567.svg"
    ensures CssPublicPath("warning.1234567.svg", "/p/res/warning.svg") == "../../p/res/warning.1234567.svg"
  {
    FallbackExampleText();
    FallbackExampleNames();
    FallbackExampleCss();
    var url := "warning.1234567.svg";
    var rp := "/p/res/warning.svg";
    var o := "/p/res/warning.1234567.svg";
    BasenameOfChild([], url);
    CleanTopLevel("p");
    CleanChild([Sep] + "p", "res");
    var dir := "/p/res";
    assert IsCleanAbsolute(dir);
    UnmarkedExamples();
    assert !HasResPrefix(dir);
    OutputPathWithoutRes(url, dir, "warning.svg");
    ToPublicPathIdentity(o);
    CssPublicPathIsTwoLevelsUp(url, rp);
  }

  /** The strings of the example with a directory in `url`, taken apart. */
  lemma UrlDirectoryExampleText()
    ensures "static/media/warning.1234567.svg" == "static/media" + "/" + "warning.1234567.svg"
  {
  }

  /** A directory part in `url` is dropped: only its base name reaches the output path. */
  lemma UrlDirectoryExample(project: Path)
    requires forall k :: 0 <= k < |project| ==> !IsLineTerminator(project[k])
    ensures GetImgOutputPath("static/media/warning.1234567.svg", project + "/res/img/warning.svg")
         == "img/warning.1234567.svg"
  {
    UrlDirectoryExampleText();
    DocumentedExampleText(project);
    BasenameOfChild("static/media", "warning.1234567.svg");
    OutputPathOnlyBasename("static/media/warning.1234567.svg", project + "/res/img/warning.svg");
    DocumentedExample(project);
  }
}

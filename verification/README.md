# Asset path helpers of the webpack configuration

The build configuration in `webpack.config.js` is mostly declarative data.
Its only first-party logic places images and fonts in the output tree and
computes the URLs that generated CSS, HTML and JavaScript use to reach them:

- `getImgOutputPath(url, resourcePath)` takes the directory of the source
  file. It removes everything up to the last `res` segment, using the
  greedy regular expression `^.*[/\\]res[/\\]`, and joins the base name of
  the hashed file name `url` onto what remains.
- `toPublicPath(path)` turns every backslash into a forward slash.
- The `publicPath` closure for assets referenced from style sheets joins
  `../..` in front of the output path before making it public. The CSS
  bundles live two directories deeper.
- The `publicPath` closure for assets referenced from HTML and JavaScript
  makes the output path public as it is.

The project has four modules:

- `PublicPath` (`public_path.dfy`) is `toPublicPath` as a character-wise
  map.
- `ResPrefix` (`res_prefix.dfy`) is the regular expression's match. It is
  modelled with the greedy `.*` and with JavaScript's rule that `.` does not
  match a line terminator. The replacement that removes the match is modelled
  too.
- `PosixPath` (`posix_path.dfy`) models the three functions of Node's POSIX
  `path` module that the helpers call: `dirname`, `basename` and `join`.
  `join` ends in `normalize`, which is modelled as a stack of segments: `.`
  and empty segments are skipped, and `..` pops a name. `..` is kept above
  the start of a relative path and dropped at the root of an absolute one.
  A trailing separator is kept. The contracts of `Dirname` and `Basename`
  cover their trailing-separator and root cases.
- `AssetPaths` (`asset_paths.dfy`) holds `getImgOutputPath`, the two
  closures, and the properties that relate them.

The CSS public path relates to the HTML/JavaScript public path in two ways:

- When the output path is relative (an asset under `res` with a clean
  sub-directory), the CSS path is `../../` followed by the HTML path, as the
  comment at lines 75-77 intends.
- When the output path is absolute, `path.join("../..", "/p/res/x.svg")`
  merges the two separators, so the CSS path is `../..` followed by the HTML
  path: `../../p/res/x.svg`. The output path is absolute when no `res`
  marker is found and the directory is absolute. It is also absolute when a
  doubled separator follows the last marker: `/p/res//x/w.svg` gives
  `/x/w.svg`.

`AssetPaths.CssPublicPathIsTwoLevelsUp` states both cases, and
`AssetPaths.FileDirectlyInResExample` shows the second.

## Model

| member | source | states |
|---|---|---|
| `PublicPath.ToPublicPath` | webpack.config.js:163-165 | the result has the input's length; at every position a backslash becomes `/` and every other character is kept |
| `PublicPath.ToPublicPathHasNoBackslash` | webpack.config.js:157-164 | a public path never contains a backslash |
| `PublicPath.ToPublicPathIdentity` | webpack.config.js:164 | a path without backslashes is returned unchanged |
| `PublicPath.ToPublicPathIdempotent` | webpack.config.js:164 | making a path public twice is the same as making it public once |
| `PublicPath.ToPublicPathConcat` | webpack.config.js:164 | the replacement is character-wise, so it distributes over concatenation |
| `ResPrefix.LastMatch` | webpack.config.js:152-153 | the greedy match position: a real match of separator-`res`-separator with no line terminator before it, no match further right, and -1 exactly when the expression matches nowhere |
| `ResPrefix.StripResPrefix` | webpack.config.js:152-153 | the result is a suffix of the directory; it equals the directory exactly when the expression does not match; otherwise it starts right after a marker, with no match further right |
| `ResPrefix.StripResPrefixIdempotent` | webpack.config.js:152-153 | stripping twice removes nothing more than stripping once, because the greedy match leaves no marker in front of the remainder |
| `ResPrefix.StripAtLastMarker` | webpack.config.js:152-153 | `p/res/sub` with no marker inside `/sub` and no line terminator in `p` is stripped to exactly `sub` |
| `ResPrefix.NoMarkerKeepsDirectory` | webpack.config.js:152-153 | a directory without a marker is left unchanged |
| `ResPrefix.NestedResExample` | webpack.config.js:152-153 | nested `res` directories are stripped to the innermost: `/p/res/a/res/icons` becomes `icons` |
| `ResPrefix.UnmarkedExamples` | webpack.config.js:152-153 | `/p/fres/img`, `/p/res` (no separator after `res`) and `/p/res.d/img` are not stripped |
| `PosixPath.Dirname` | webpack.config.js:153 | the parent directory is `.`, `/`, `//`, or a proper non-empty prefix of the path that is followed by a separator |
| `PosixPath.DirnameBasename` | webpack.config.js:153-154 | with trailing separators dropped, the last separator after the first character splits the path into `dirname` and `basename`; without one, `dirname` is `/` for a rooted path and `.` otherwise, the empty path included; for a rooted path whose only such separator is the second character, it is `//` |
| `PosixPath.DirnameOfChild` | webpack.config.js:153 | the directory of `dir/name` is `dir`, for a directory without a trailing separator |
| `PosixPath.DirnameOfTopLevel` | webpack.config.js:153 | the directory of a bare name is `.`, and of `/name` it is `/` |
| `PosixPath.Basename` | webpack.config.js:154 | the base name is the separator-free tail of the path once trailing separators are dropped, preceded there by a separator unless it is the whole of it; it is empty exactly when the path is all separators |
| `PosixPath.BasenameIdempotent` | webpack.config.js:154 | the base name of a base name is itself |
| `PosixPath.BasenameOfChild` | webpack.config.js:154 | the base name of `dir/name` is `name`, whatever `dir` is, and a bare name is its own base name |
| `PosixPath.Normalize` | webpack.config.js:154 | normalising never yields an empty path and keeps whether the path is absolute |
| `PosixPath.Join` | webpack.config.js:154 | a join is never empty |
| `PosixPath.SplitUnsplit` | webpack.config.js:154 | splitting at separators and joining the segments back are inverse: a list of separator-free segments survives the round trip |
| `PosixPath.UnsplitSplit` | webpack.config.js:154 | joining the segments of a split path gives the path back |
| `PosixPath.ResolveCanonical` | webpack.config.js:154 | resolving `.`, `..` and empty segments leaves only names, with `..` only in front of them and none above an absolute root |
| `PosixPath.ResolveCanonicalIdentity` | webpack.config.js:154 | resolving an already resolved list of segments changes nothing |
| `PosixPath.JoinName` | webpack.config.js:154 | joining a file name onto any directory gives the directory's resolved segments with the name pushed last, written out with the directory's root |
| `PosixPath.JoinCleanName` | webpack.config.js:154 | joining a file name onto a clean relative or absolute directory is concatenation with one separator |
| `PosixPath.JoinEndsWithName` | webpack.config.js:154 | a joined file name ends the result, right after a separator when anything precedes it |
| `PosixPath.JoinUpTwo` | webpack.config.js:79 | `../..` joined in front of a written-out resolved stack cancels nothing: it is `../../` then the stack, and an absolute path loses its leading separator |
| `PosixPath.CleanChild` | webpack.config.js:154 | appending a name keeps a clean relative or absolute path clean |
| `AssetPaths.GetImgOutputPath` | webpack.config.js:151-155 | the output path is never empty; for a `url` with a file name it ends with `basename(url)`, right after a separator when anything precedes it |
| `AssetPaths.OutputPathOnlyBasename` | webpack.config.js:147-154 | the output path for `url` is the output path for `basename(url)`, so any directory part of `url` is dropped |
| `AssetPaths.OutputPathStack` | webpack.config.js:151-155 | for a `url` with a file name, the output path is the stripped directory's resolved segments with the file name pushed last |
| `AssetPaths.OutputPathUnderRes` | webpack.config.js:144-155 | for a `url` with a file name, a clean `sub` with no further `res` marker, and no line terminator in `prefix`, an asset at `prefix/res/sub/file` is emitted at `sub/basename(url)`: the sub-directory below the last `res` is kept |
| `AssetPaths.OutputPathWithoutRes` | webpack.config.js:152-154 | for a `url` with a file name, a clean directory without a `res` marker is kept unchanged and the file name is joined onto it |
| `AssetPaths.CssPublicPath` | webpack.config.js:74-80 | the public path for CSS never contains a backslash |
| `AssetPaths.AssetPublicPath` | webpack.config.js:89-92 | the public path for HTML and JavaScript never contains a backslash |
| `AssetPaths.CssPublicPathIsTwoLevelsUp` | webpack.config.js:74-92 | for a `url` with a file name, the CSS public path is `../../` then the HTML/JavaScript public path for a relative output path, and `../..` then it for an absolute one |
| `AssetPaths.PublicPathsUnderRes` | webpack.config.js:74-92 | for a `url` with a file name and an asset at `prefix/res/sub/file`, with a clean `sub` holding no further `res` marker and no line terminator in `prefix`, the HTML/JavaScript public path is the public form of `sub/basename(url)` and the CSS one is `../../` in front of it |
| `AssetPaths.PathsOfNameUnderRes` | webpack.config.js:74-92 | for a clean `sub` holding no further `res` marker, no line terminator in `prefix`, and no backslash in `sub` or `name`, a file name `name` emitted from `prefix/res/sub/file` is placed at `sub/name`, which is also its HTML/JavaScript public path; its CSS public path is `../../sub/name` |
| `AssetPaths.DocumentedExample` | webpack.config.js:147-149 | for a project directory without a line terminator, `warning.1234567.svg` for `<project>/res/img/warning.svg` is emitted at `img/warning.1234567.svg`, its HTML public path is the same, and its CSS public path is `../../img/warning.1234567.svg` |
| `AssetPaths.FileDirectlyInResExample` | webpack.config.js:151-155 | a file directly in `/p/res` keeps its absolute directory: `/p/res/warning.1234567.svg`, and `../../p/res/warning.1234567.svg` from CSS |
| `AssetPaths.UrlDirectoryExample` | webpack.config.js:147-154 | for a project directory without a line terminator, a `url` of `static/media/warning.1234567.svg` with `<project>/res/img/warning.svg` still yields `img/warning.1234567.svg` |

## Left out

- The configuration object (webpack.config.js:6-140): entry and output naming, loader chains, rule selection, aliases, externals, plugins and the dev server. It is data interpreted by webpack.
- How `file-loader`, `MiniCssExtractPlugin`, `HtmlWebPackPlugin` and `CleanWebpackPlugin` call the helpers, generate the hash in `url` and write files. These are external tools; the model takes `url` and `resourcePath` as given strings.
- Node's Windows `path` flavour: drive letters, `\` as a separator in `dirname`, `basename` and `join`, and UNC roots. Only the POSIX flavour is modelled. A backslash is therefore an ordinary character in `PosixPath`, but it is still a separator for the regular expression and for `toPublicPath`.
- Node's argument validation (a `TypeError` for a non-string), the extension argument of `basename`, and `join` with other than two arguments. The helpers never use them.
- Strings are modelled as sequences of Unicode scalar values, not as JavaScript's UTF-16 code units, so a lone surrogate cannot be represented. The helpers only test ASCII characters and the four line terminators, so their results are unaffected.
- `PosixPath.Normalize`: its contract states only that the result is non-empty and keeps absoluteness. What it computes is stated by `PosixPath.JoinName`, `PosixPath.JoinCleanName`, `PosixPath.JoinUpTwo` and `PosixPath.ResolveCanonicalIdentity`.
- `PosixPath.Join`: its contract states only that the result is non-empty. Its meaning for the joins the helpers perform is stated by the lemmas named above.
- `AssetPaths.CssPublicPath`: its contract states only that there is no backslash. Its relation to the output path is in `AssetPaths.CssPublicPathIsTwoLevelsUp`.
- `AssetPaths.AssetPublicPath`: its contract states only that there is no backslash. Its relation to the output path is in `AssetPaths.CssPublicPathIsTwoLevelsUp` and `AssetPaths.PublicPathsUnderRes`.
- `AssetPaths.CssPublicPathIsTwoLevelsUp` requires that `basename(url)` is an ordinary name (not empty, `.` or `..`). The hashed names `file-loader` produces always are.
- `AssetPaths.DocumentedExample` and `AssetPaths.UrlDirectoryExample` take any project directory without a line terminator, rather than one fixed path.

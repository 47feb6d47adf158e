# Chunk naming of the production build

This project models, in Dafny, how the production webpack configuration of
the Vue template names the output chunks its modules go into, and proves
properties of those names. The naming policy lives in `webpack.config.js`:

- `pkg(m)` finds the third-party package in a module's `context` path. It
  matches `[\\/]node_modules[\\/](.*?)([\\/]|$)`, takes group 1, removes its
  first `@`, and returns `pkg.vueCommons` for any name containing `vue`,
  otherwise `pkg.<name>`.
- The `name` callback of the `vue` cache group classifies a module:
  - a `CssModule` goes to `bundle`;
  - otherwise a context mentioning `node_modules` is named by `pkg`;
  - otherwise a module with a `rawRequest` gets a base name (last `/`
    segment, cut before the first `?`, then before the first `.`);
  - in `src\js\components` that gives `component.` + the base name with a
    lower-cased first letter;
  - in `src\js\views` it gives `view.` + the text after `views-` in the
    dashed context + `-` + the base name + `-vue`;
  - everything else goes to `bundle`.
- The `vendor` cache group's name is `pkg(m)`.
- The `styles` cache group's name is the constant `bundle`.

The model is pure, as the source is: functions and lemmas, no state.

- `JsStrings` models the JavaScript string operations the callbacks use:
  - `includes`, together with `IndexOf`, the leftmost-occurrence search
    that `includes` is defined by and that `split` performs (the code
    itself never calls `indexOf`);
  - `split` with a non-empty separator, and the pieces the code picks from
    it: element 0, the last element, and element 1 (which may be
    `undefined`);
  - `replace` of a one-character string, which removes only the first
    occurrence;
  - `replace` with the global pattern `/\\/gi`;
  - `charAt(0).toLowerCase() + slice(1)`.
  - The searching operations (`includes`, `IndexOf`, `split` and its pieces)
    are stated against a declarative description of occurrences
    (`OccursAt`, `FirstOccurrence`), and uniqueness lemmas show that the
    description determines the result for the separators the callback
    uses: any one-character separator, and `views-`, which cannot overlap
    itself. `split` is also tied to its inverse
    `Join`. The two replacements are stated character by character, and
    lower-casing against the alphabet.
- `PackageName` models the regular expression as a left-to-right scanner
  (`FindMatch`, `CaptureEnd`) beside a declarative statement of what a match
  is (`MarkerAt`, `LazyCapture`, `MatchesAt`, `LeftmostMatch`). The scanner
  returns the leftmost match; the lazy group ends at the first separator or
  at the end of the string. JavaScript's `.` does not match `\n`, `\r`,
  U+2028 or U+2029, so a line terminator makes that start position fail and
  the search goes on. `pkg` is stated over the leftmost match directly.
- When `.match(...)` returns `null`, reading `[1]` throws; that case is the
  `ConfigError` result.
- `ChunkNames` models the module descriptor, the `vue` and `vendor` name
  callbacks, and the `styles` name. The `vue` callback's contract gives its
  failure condition and the families its names fall in; one lemma per
  branch says which name each kind of module gets, in the order the code
  tests them.
- `ChunkNameExamples` instantiates the branches for contexts laid out as in
  the project: a component file, a view file, a file directly in the views
  directory, a scoped package, nested `node_modules`, a `vue-*` package on a
  Windows path, and a context ending in `node_modules`. These are stated
  for symbolic roots and names, under conditions on the root that are
  stronger than the callback needs (see "Left out"). Two literal instances
  follow: `MyWidget.vue` in `C:\p\src\js\components`, and `_home.vue` in
  `C:\p\src\js\views\_home`.

Points where the code's behaviour is easy to misread, which the model
follows as written:

- View names end in `-vue`: the `_home` view's `./_home.vue` is
  `view._home-_home-vue`.
- The first `@` anywhere in the captured segment is removed, not only a
  leading one.
- The base name is cut at the first `.`, not at the last extension, so
  `a.min.js` gives `a`.
- The view folder is everything after the first `views-` in the dashed
  context, up to a following `views-`, not one path segment. Deeper folders
  therefore keep their dashes: `views\_home\parts` gives `_home-parts`.
- The callback fails when the context mentions `node_modules` but the
  separator-delimited pattern does not match, for instance when the context
  ends in `node_modules`. A context without `node_modules` never fails.

## Model

| member | source | states |
|---|---|---|
| JsStrings.IndexOf | webpack.config.js:217-221 | the leftmost-occurrence search behind `includes` (line 217) and `split` (line 221): `Some(i)` exactly when `i` is the leftmost occurrence of the needle; `None` when it occurs nowhere |
| JsStrings.Includes | webpack.config.js:217 | true exactly when the needle occurs at some index |
| JsStrings.IncludesChar | webpack.config.js:221-226 | for a one-character needle (`@` at line 21, `/`, `?` and `.` in the base name), `includes` is membership |
| JsStrings.Join | webpack.config.js:221 | the inverse of `split`: the pieces glued with the separator start with the first piece and end with the last |
| JsStrings.Split | webpack.config.js:221 | `split` returns at least one piece and no piece contains the separator |
| JsStrings.SplitAtFirst | webpack.config.js:221 | `split` cuts at the leftmost occurrence and goes on splitting after it |
| JsStrings.JoinSplit | webpack.config.js:221 | gluing the pieces back with the separator gives the original string |
| JsStrings.SplitSingle | webpack.config.js:246 | `split` returns one piece exactly when the separator does not occur |
| JsStrings.SplitLast | webpack.config.js:221-224 | the last piece is a suffix, preceded by the separator unless it is the whole string |
| JsStrings.FirstPiece | webpack.config.js:225-226 | element 0 is a prefix without the separator that ends at the end or at an occurrence |
| JsStrings.FirstPieceIsPrefixBefore | webpack.config.js:225-226 | for a one-character separator, element 0 is the unique such prefix |
| JsStrings.LastPiece | webpack.config.js:221-224 | the last element is a suffix without the separator that starts at the start or after an occurrence |
| JsStrings.LastPieceIsSuffixAfter | webpack.config.js:221-224 | for a one-character separator, the last element is the unique such suffix |
| JsStrings.SecondPiece | webpack.config.js:246 | element 1 is `undefined` exactly when the separator is absent; otherwise it is element 0 of the text after the first occurrence |
| JsStrings.RemoveFirst | webpack.config.js:21 | removing `@` leaves a string without `@` unchanged; otherwise it deletes exactly the first `@` |
| JsStrings.ReplaceAll | webpack.config.js:241-244 | the global replacement keeps the length and turns every `\` into `-`, leaving every other character |
| JsStrings.ReplaceAllConcat | webpack.config.js:241-244 | the replacement distributes over concatenation |
| JsStrings.ToLowerAscii | webpack.config.js:234 | an upper-case ASCII letter becomes the letter at the same place of the lower-case alphabet; every other character is unchanged |
| JsStrings.ToLowerAsciiIdempotent | webpack.config.js:234 | lower-casing never yields an upper-case letter and changes nothing the second time |
| JsStrings.LowerFirst | webpack.config.js:233-235 | same length, first character lower-cased, the rest unchanged |
| JsStrings.LowerFirstIdempotent | webpack.config.js:233-235 | the result never starts with an upper-case letter, and applying it twice is the same as once |
| PackageName.CaptureEnd | webpack.config.js:20 | a returned end is where the lazy group closes: the first separator or the end, with no line terminator before it; no end means the group closes nowhere from that start |
| PackageName.FindMatch | webpack.config.js:19-20 | the scanner returns a match with no match at any earlier start, or none when no start matches |
| PackageName.Capture | webpack.config.js:19-20 | `null` exactly when the expression matches nowhere; otherwise group 1 of the leftmost match |
| PackageName.Pkg | webpack.config.js:16-28 | fails exactly when the expression matches nowhere; otherwise it takes group 1 of the leftmost match minus its first `@`, giving `pkg.vueCommons` if that contains `vue` and `pkg.` + it otherwise |
| PackageName.PackageOf | webpack.config.js:19-21 | none exactly when the expression matches nowhere; otherwise group 1 of the leftmost match with its first `@` removed |
| PackageName.LeftmostMatchUnique | webpack.config.js:19-20 | there is at most one leftmost match, so these contracts determine the results |
| PackageName.LazyCaptureUnique | webpack.config.js:20 | the lazy group's end is determined by its start |
| PackageName.CaptureEndSucceeds | webpack.config.js:20 | on text without line terminators the lazy group always closes |
| PackageName.PkgFailsIffNoMarker | webpack.config.js:19-20 | on a path without line terminators, `pkg` fails exactly when no `node_modules` has a separator on both sides |
| PackageName.CaptureAfterFirstMarker | webpack.config.js:17-20 | the capture is the text after the first separator-delimited `node_modules`, up to the next separator or the end |
| PackageName.CaptureOfSegment | webpack.config.js:17-20 | for a context prefix + sep + `node_modules` + sep + segment + (end or sep ...), with no marker starting in the prefix, the capture is the segment |
| PackageName.ScopedPackage | webpack.config.js:20-21 | a scoped package `@scope/name/...` is named after `scope` alone |
| PackageName.CaptureMentionsNodeModules | webpack.config.js:217-219 | whenever the expression matches, the context passes the `includes("node_modules")` test |
| PackageName.NoMarkerInPrefix | webpack.config.js:20 | a prefix without the letter `n` holds no start of a match |
| PackageName.PkgChunk | webpack.config.js:24-27 | the chunk is `pkg.vueCommons` exactly when the package name contains `vue`; it always starts with `pkg.`, and otherwise the name is what follows `pkg.` |
| PackageName.PkgNamespace | webpack.config.js:25-27 | every successful `pkg` name starts with `pkg.` |
| PackageName.PkgVueCommons | webpack.config.js:24-26 | `pkg` gives `pkg.vueCommons` exactly when the package name contains `vue` |
| PackageName.PkgInjective | webpack.config.js:24-27 | on names without `vue`, two contexts get the same chunk exactly when they have the same package name |
| ChunkNames.BaseName | webpack.config.js:221-226 | the base name holds no `/`, `?` or `.` |
| ChunkNames.LastPieceIsLastSegment | webpack.config.js:221-224 | the last `/`-piece of a request is its last path segment |
| ChunkNames.BaseNameShape | webpack.config.js:221-226 | the base name starts the request's last path segment and ends at its end or at its first `?` or `.` |
| ChunkNames.BaseNameEnd | webpack.config.js:225-226 | cutting at `?` and then at `.` stops at the end or at one of them |
| ChunkNames.BaseNameOfFile | webpack.config.js:221-226 | a request `dir/name.rest` has base name `name`, whatever query or extensions follow |
| ChunkNames.DashedViewsContext | webpack.config.js:241-244 | once backslashes become dashes, root + `src\js\views` + tail reads dashed root + `src-js-views` + dashed tail |
| ChunkNames.DashedViewFolder | webpack.config.js:241-244 | a context one folder below the views directory dashes to text + `views-` + the folder |
| ChunkNames.NoViewsMarkerBefore | webpack.config.js:245-246 | when the dashed root holds no `views-`, none starts before the `views` of `src-js-views` |
| ChunkNames.ViewFolder | webpack.config.js:241-246 | the folder is the text after the first `views-` in the dashed context up to the next one, or `undefined` |
| ChunkNames.NoSelfOverlap | webpack.config.js:246 | two occurrences of `views-` start at least six characters apart |
| ChunkNames.NoMarkerBeforeEnd | webpack.config.js:246 | a prefix without `views-` that ends at the end or at an occurrence has no occurrence starting inside it |
| ChunkNames.FirstPieceViewsUnique | webpack.config.js:246 | element 0 of `split("views-")` is the only prefix without `views-` that ends at the end or at an occurrence |
| ChunkNames.ViewFolderOf | webpack.config.js:241-246 | a module one folder below the views directory takes that folder's name, whenever the dashed root holds no `views-` and the folder holds none |
| ChunkNames.ViewFolderOfViewsRoot | webpack.config.js:241-246 | a module directly in the views directory gets the folder `undefined`, whenever the dashed root holds no `views-` |
| ChunkNames.ViewChunkName | webpack.config.js:245-247 | a view's name starts with `view.` and ends in `-vue`, so it is in the `view.` family |
| ChunkNames.VueChunkName | webpack.config.js:215-253 | the callback throws exactly on a non-style module that mentions `node_modules` but on which the expression matches nowhere; every name it gives is `bundle` or starts with `pkg.`, `component.` or `view.`, and view names end in `-vue` |
| ChunkNames.VendorChunkName | webpack.config.js:205-207 | the `vendor` group's name is a `pkg.` name whenever it succeeds |
| ChunkNames.CssModuleIsBundle | webpack.config.js:216 | a `CssModule` goes to `bundle`, the chunk the `styles` group is named after (`StylesName`, line 262), whatever its context and request |
| ChunkNames.NodeModulesUsePkg | webpack.config.js:217-219 | a non-style module mentioning `node_modules` is named by `pkg`, as the `vendor` group names it, even with a `rawRequest` |
| ChunkNames.ComponentChunk | webpack.config.js:227-236 | a local module in the components directory is `component.` + lower-first base name; this check wins over the views check |
| ChunkNames.ViewChunk | webpack.config.js:237-248 | a local module in the views directory only is `view.` + folder + `-` + base name + `-vue` |
| ChunkNames.DefaultChunk | webpack.config.js:250-252 | a local module without a `rawRequest`, or outside both directories, is `bundle` |
| ChunkNameExamples.LocalBaseName | webpack.config.js:221-226 | the request `./name.ext` has base name `name` |
| ChunkNameExamples.ComponentNaming | webpack.config.js:227-236 | under a root without `_`, `./name.ext` in the components directory is `component.` + lower-first `name` |
| ChunkNameExamples.ViewNaming | webpack.config.js:237-248 | under a root without `n` whose dashed form holds no `views-`, `./name.ext` in a views folder `f` without `n`, `\` or `views-` is `view.f-name-vue` |
| ChunkNameExamples.ViewsRootNaming | webpack.config.js:241-248 | under a root without `n` whose dashed form holds no `views-`, `./name.ext` directly in the views directory is `view.undefined-name-vue` |
| ChunkNameExamples.MyWidgetChunk | webpack.config.js:227-236 | `./MyWidget.vue` in `C:\p\src\js\components` is `component.myWidget` |
| ChunkNameExamples.HomeViewChunk | webpack.config.js:237-248 | `./_home.vue` in `C:\p\src\js\views\_home` is `view._home-_home-vue` |
| ChunkNameExamples.CaptureUnderRoot | webpack.config.js:19-20 | under a root without `n`, the package is the segment after the root's `node_modules` |
| ChunkNameExamples.ScopedPackageNaming | webpack.config.js:217-221 | under a root without `n`, any non-style module of a scoped package `@scope/...` whose scope does not contain `vue` is `pkg.scope`, whatever its request |
| ChunkNameExamples.NestedPackageNaming | webpack.config.js:19-27 | under a root without `n`, with nested `node_modules` the outer package names the chunk, when its name holds neither `@` nor `vue` |
| ChunkNameExamples.VuePackageNaming | webpack.config.js:24-25 | under a root without `n`, a package whose name starts with `vue` and holds no `@`, on a Windows path, joins `pkg.vueCommons` |
| ChunkNameExamples.PackageRootFails | webpack.config.js:217-220 | under a root without `n`, for a non-style module a context ending in `node_modules` makes the callback fail rather than return `bundle` |

## Left out

- Config assembly is not modelled: dotenv, the mode switch, the loader rules, the plugin constructions and the dev-server proxy. They are declarative data handed to webpack and its plugins, whose code is not part of this model.
- The cache-group options are not modelled: `test`, including the look-behind expression of the `vendor` group, `minSize`, `enforce`, `reuseExistingChunk` and `chunks`. Webpack's splitChunks algorithm interprets them, so which group claims a module is not modelled; only the names are.
- `src/js/views/index.js` and `src/js/app.js` are wiring around vue-router, dynamic `import`, the DOM and the console, and are not part of this model.
- `m.constructor.name !== "CssModule"` is modelled as a boolean `isCss` in the descriptor. `"rawRequest" in m` is an optional `rawRequest`; a `rawRequest` property that is present but not a string is not modelled. `m.context` is assumed to be a string.
- The `styles` group's name is the constant `ChunkNames.StylesName`; being a constant, it has no contract of its own, and `ChunkNames.CssModuleIsBundle` relates it to the `vue` callback.
- JsStrings.LowerFirst: lower-cases ASCII letters only; `toLowerCase` on other Unicode letters is not modelled.
- JsStrings.ToLowerAscii: covers ASCII letters only, for the same reason.
- JsStrings.Split: requires a non-empty separator; every call in the source passes a non-empty literal, and JavaScript's split into single characters on `""` is not modelled.
- ChunkNameExamples.ComponentNaming: stated only for roots without `_`, which rules out `node_modules` inside the root; ChunkNames.ComponentChunk holds for any context.
- ChunkNameExamples.ViewNaming, ChunkNameExamples.ViewsRootNaming: stated only for roots (and, for ViewNaming, folders) without `n`, which rules out `node_modules` and `src\js\components` inside them (not `src\js\views`, which the module's own context contains anyway), and for dashed roots without `views-`, so that the view folder is not split off inside the root; ChunkNames.ViewChunk and ChunkNames.ViewFolder hold for any context.
- ChunkNameExamples.CaptureUnderRoot, ChunkNameExamples.ScopedPackageNaming, ChunkNameExamples.NestedPackageNaming, ChunkNameExamples.VuePackageNaming, ChunkNameExamples.PackageRootFails: stated only for roots without `n`, so that no earlier `node_modules` can occur; PackageName.CaptureAfterFirstMarker covers any root.

/** The chunk names of the production `splitChunks` cache groups: the `name`
    callback of the `vue` group, the `vendor` group (which is `pkg` alone)
    and the constant name of the `styles` group. A module is classified as
    the merged stylesheet `bundle`, a third-party `pkg.*` chunk, a local
    `component.*` chunk, a per-view `view.*` chunk, or the default `bundle`. */
module ChunkNames {
  import opened JsStrings
  import opened PackageName

  /** What the callbacks read of a webpack module: whether its constructor is
      `CssModule`, its `context` directory, and its `rawRequest` when the
      module has that property. */
  datatype ModuleDesc = ModuleDesc(isCss: bool, context: string, rawRequest: Option<string>)

  /** The callback's default chunk. */
  const Bundle := "bundle"
  /** The name of the `styles` cache group, which merges all stylesheets. */
  const StylesName := "bundle"
  /** The Windows-style directory markers the callback looks for. */
  const ComponentsDir := "src\\js\\components"
  const ViewsDir := "src\\js\\views"
  const ViewsMarker := "views-"
  /** How JavaScript renders a missing array element in a string. */
  const Undefined := "undefined"

  /** `rawRequest.split("/")`, last element, `.split("?")[0].split(".")[0]`:
      the last path segment of the request, cut before its first `?` and
      then before its first `.`; none of the three marks is left in it. */
  function BaseName(request: string): (r: string)
    ensures '/' !in r && '?' !in r && '.' !in r
  {
    var file := LastPiece(request, "/");
    var noQuery := FirstPiece(file, "?");
    var base := FirstPiece(noQuery, ".");
    IncludesChar(file, '/');
    IncludesChar(noQuery, '?');
    IncludesChar(base, '.');
    assert forall k :: 0 <= k < |base| ==> base[k] == noQuery[k] == file[k];
    base
  }

  /** The last piece of a request on `/` is its last path segment. */
  lemma LastPieceIsLastSegment(request: string)
    ensures IsLastSegment(request, |request| - |LastPiece(request, "/")|)
  {
    var file := LastPiece(request, "/");
    var j := |request| - |file|;
    IncludesChar(file, '/');
    LastPieceAfterSep(request, '/');
    assert request[j..] == file;
    assert j == 0 || request[j - 1] == '/';
  }

  /** The base name starts the last segment of the request and ends where
      that segment ends or at its first `?` or `.`. */
  lemma BaseNameShape(request: string)
    ensures BaseNameAt(request, |request| - |LastPiece(request, "/")|, BaseName(request))
  {
    var file := LastPiece(request, "/");
    var base := BaseName(request);
    var j := |request| - |file|;
    LastPieceIsLastSegment(request);
    BaseNameEnd(file);
    assert request[j..] == file;
    if base != file {
      assert request[j + |base|] == file[|base|];
    }
  }

  /** `r` starts the last segment `request[j..]` and ends where that segment
      ends or at a `?` or `.`. */
  predicate BaseNameAt(request: string, j: nat, r: string) {
    IsLastSegment(request, j) && r <= request[j..] &&
    (r == request[j..] || request[j + |r|] == '?' || request[j + |r|] == '.')
  }

  /** Where the base name stops inside the last segment. */
  lemma BaseNameEnd(file: string)
    ensures var base := FirstPiece(FirstPiece(file, "?"), ".");
      base <= file && (base == file || file[|base|] == '?' || file[|base|] == '.')
  {
    var noQuery := FirstPiece(file, "?");
    var base := FirstPiece(noQuery, ".");
    if base != file {
      if noQuery == file || base != noQuery {
        OccursAtHead(noQuery, ".", |base|);
      } else {
        OccursAtHead(file, "?", |base|);
      }
    }
  }

  /** A request `dir/name.rest` has base name `name`, whatever query or
      further extensions `rest` carries. */
  lemma BaseNameOfFile(dir: string, name: string, rest: string)
    requires '/' !in name && '?' !in name && '.' !in name && '/' !in rest
    ensures BaseName(dir + "/" + name + "." + rest) == name
  {
    var file := name + "." + rest;
    assert dir + "/" + name + "." + rest == dir + ['/'] + file;
    LastPieceOfConcat(dir, '/', file);
    FirstPieceSkips(name + ".", rest, '?');
    FirstPieceOfConcat(name, '.', FirstPiece(rest, "?"));
  }

  /** `ReplaceAll` leaves alone a string with no `\` in it. */
  lemma ReplaceAllAbsent(s: string)
    requires '\\' !in s
    ensures ReplaceAll(s, '\\', '-') == s
  {
  }

  /** A one-character backslash becomes a dash. */
  lemma DashedBackslash()
    ensures ReplaceAll("\\", '\\', '-') == "-"
  {
  }

  /** Dashing a path joined with `\` joins the dashed halves with `-`. */
  lemma DashedJoin(a: string, b: string)
    ensures ReplaceAll(a + "\\" + b, '\\', '-') == ReplaceAll(a, '\\', '-') + "-" + ReplaceAll(b, '\\', '-')
  {
    ReplaceAllConcat(a + "\\", b, '\\', '-');
    ReplaceAllConcat(a, "\\", '\\', '-');
    DashedBackslash();
  }

  lemma DashedViewsReassoc(dr: string, dt: string)
    ensures dr + "src" + "-" + ("js" + "-" + ("views" + dt)) == (dr + "src-js-") + "views" + dt
  {
  }

  /** After the backslashes become dashes, a context `root` + views
      directory + `tail` reads `root'` + `src-js-views` + `tail'`. */
  lemma DashedViewsContext(root: string, tail: string)
    ensures ReplaceAll(root + ViewsDir + tail, '\\', '-') ==
      (ReplaceAll(root, '\\', '-') + "src-js-") + "views" + ReplaceAll(tail, '\\', '-')
  {
    var u := "views" + tail;
    var v := "js" + "\\" + u;
    assert root + ViewsDir + tail == (root + "src") + "\\" + v;
    DashedJoin(root + "src", v);
    DashedJoin("js", u);
    ReplaceAllConcat(root, "src", '\\', '-');
    ReplaceAllConcat("views", tail, '\\', '-');
    ReplaceAllAbsent("src");
    ReplaceAllAbsent("js");
    ReplaceAllAbsent("views");
    DashedViewsReassoc(ReplaceAll(root, '\\', '-'), ReplaceAll(tail, '\\', '-'));
  }

  /** The dashed form of a context one folder below the views directory. */
  lemma DashedViewFolder(root: string, folder: string)
    requires '\\' !in folder
    ensures ReplaceAll(root + ViewsDir + "\\" + folder, '\\', '-') ==
      (ReplaceAll(root, '\\', '-') + "src-js-") + ViewsMarker + folder
  {
    assert root + ViewsDir + "\\" + folder == root + ViewsDir + ("\\" + folder);
    DashedViewsContext(root, "\\" + folder);
    ReplaceAllConcat("\\", folder, '\\', '-');
    ReplaceAllAbsent(folder);
    DashedBackslash();
    MarkerReassoc(ReplaceAll(root, '\\', '-') + "src-js-", folder);
  }

  lemma MarkerReassoc(a: string, folder: string)
    ensures a + "views" + ("-" + folder) == a + ViewsMarker + folder
  {
  }

  /** No `views-` starts before the `views` of `src-js-views` when the dashed
      root holds none: one starting inside the root would lie in it, one
      straddling into `src-js-` would need its `s` (followed by `-`) on that
      `s` (followed by `r`), and `src-js-` holds no `v`. */
  lemma NoViewsMarkerBefore(dr: string, rest: string, j: nat)
    requires !Includes(dr, ViewsMarker) && j < |dr| + 7
    ensures !OccursAt(dr + "src-js-" + rest, ViewsMarker, j)
  {
    var d := dr + "src-js-" + rest;
    if j + 6 > |d| {
    } else if j + 6 <= |dr| {
      assert d[j..j + 6] == dr[j..j + 6];
      assert !OccursAt(dr, ViewsMarker, j);
    } else if j < |dr| {
      var o := |dr| - j;
      assert d[|dr|] == 's' && d[|dr| + 1] == 'r';
      if o == 4 {
        assert d[j..j + 6][o + 1] != ViewsMarker[o + 1];
      } else {
        assert d[j..j + 6][o] != ViewsMarker[o];
      }
    } else {
      assert d[j] == "src-js-"[j - |dr|];
      assert d[j..j + 6][0] != ViewsMarker[0];
    }
  }

  /** `views-` cannot overlap itself: no occurrence starts fewer than six
      characters before another one. */
  lemma NoSelfOverlap(s: string, a: nat, b: nat)
    requires OccursAt(s, ViewsMarker, b) && a < b < a + 6
    ensures !OccursAt(s, ViewsMarker, a)
  {
    assert s[b..b + 6][0] == s[b];
    if a + 6 <= |s| {
      assert s[a..a + 6][b - a] == s[b];
    }
  }

  /** A shorter prefix `p` of `s` cannot be followed by `views-` when a
      longer prefix `q` holds no `views-` and ends at the end of `s` or at
      an occurrence. */
  lemma NoMarkerBeforeEnd(s: string, p: string, q: string)
    requires p <= s && q <= s && |p| < |q| && !Includes(q, ViewsMarker)
    requires |q| == |s| || OccursAt(s, ViewsMarker, |q|)
    ensures !OccursAt(s, ViewsMarker, |p|)
  {
    if |p| + 6 <= |q| {
      assert q[|p|..|p| + 6] == s[|p|..|p| + 6];
      assert !OccursAt(q, ViewsMarker, |p|);
    } else if |q| < |s| {
      NoSelfOverlap(s, |p|, |q|);
    }
  }

  /** For the separator `views-`, the contract of `FirstPiece` determines
      it: a prefix without `views-` that ends at the end or at an occurrence
      is element 0 of the split. */
  lemma FirstPieceViewsUnique(s: string, t: string)
    requires t <= s && !Includes(t, ViewsMarker)
    requires |t| == |s| || OccursAt(s, ViewsMarker, |t|)
    ensures FirstPiece(s, ViewsMarker) == t
  {
    var r := FirstPiece(s, ViewsMarker);
    if |r| < |t| {
      NoMarkerBeforeEnd(s, r, t);
    } else if |t| < |r| {
      NoMarkerBeforeEnd(s, t, r);
    }
  }

  /** A module one directory below the views directory takes that directory
      as its view folder, provided the dashed root holds no `views-` and the
      folder itself holds none. */
  lemma ViewFolderOf(root: string, folder: string)
    requires !Includes(ReplaceAll(root, '\\', '-'), ViewsMarker)
    requires '\\' !in folder && !Includes(folder, ViewsMarker)
    ensures ViewFolder(root + ViewsDir + "\\" + folder) == folder
  {
    var dr := ReplaceAll(root, '\\', '-');
    var dashed := ReplaceAll(root + ViewsDir + "\\" + folder, '\\', '-');
    DashedViewFolder(root, folder);
    var p := |dr + "src-js-"|;
    assert dashed == dr + "src-js-" + (ViewsMarker + folder);
    OccursInConcat(dr + "src-js-", ViewsMarker, folder);
    forall j: nat | j < p ensures !OccursAt(dashed, ViewsMarker, j) {
      NoViewsMarkerBefore(dr, ViewsMarker + folder, j);
    }
    assert FirstOccurrence(dashed, ViewsMarker, p);
    assert dashed[p + |ViewsMarker|..] == folder;
    FirstPieceWhole(folder, ViewsMarker);
  }

  /** A module directly in the views directory gets the folder `undefined`,
      provided the dashed root holds no `views-`. */
  lemma ViewFolderOfViewsRoot(root: string)
    requires !Includes(ReplaceAll(root, '\\', '-'), ViewsMarker)
    ensures ViewFolder(root + ViewsDir) == Undefined
  {
    var dr := ReplaceAll(root, '\\', '-');
    var dashed := ReplaceAll(root + ViewsDir, '\\', '-');
    assert dashed == dr + "src-js-" + "views" by {
      assert root + ViewsDir == root + ViewsDir + "";
      DashedViewsContext(root, "");
    }
    forall j: nat | OccursAt(dashed, ViewsMarker, j) ensures false {
      NoViewsMarkerBefore(dr, "views", j);
    }
  }

  /** `request[j..]` is the text after the last `/` of `request` (all of it
      when there is no `/`). */
  predicate IsLastSegment(request: string, j: nat) {
    j <= |request| && (j == 0 || request[j - 1] == '/') && '/' !in request[j..]
  }

  /** The view folder the callback derives from a context inside the views
      directory: every `\` becomes `-`, the result is split on `views-` and
      element 1 is taken, which JavaScript renders as `undefined` when there
      is no such element. */
  function ViewFolder(context: string): (r: string)
    ensures var dashed := ReplaceAll(context, '\\', '-');
      if Includes(dashed, ViewsMarker) then
        exists i: nat :: FirstOccurrence(dashed, ViewsMarker, i) &&
          r == FirstPiece(dashed[i + |ViewsMarker|..], ViewsMarker)
      else r == Undefined
  {
    match SecondPiece(ReplaceAll(context, '\\', '-'), ViewsMarker)
    case None => Undefined
    case Some(folder) => folder
  }

  /** The four families of chunk names: the merged `bundle`, third-party
      `pkg.*`, local `component.*`, and per-view `view.*-vue`. */
  predicate InChunkNamespace(n: string) {
    n == Bundle || "pkg." <= n || "component." <= n || ("view." <= n && n[|n| - 4..] == "-vue")
  }

  /** The name of a view's chunk. */
  function ViewChunkName(folder: string, base: string): (n: string)
    ensures "view." <= n && n[|n| - 4..] == "-vue"
    ensures InChunkNamespace(n)
  {
    var n := "view." + folder + "-" + base + "-vue";
    assert n[..5] == "view." && n[|n| - 4..] == "-vue";
    n
  }

  /** The `name` callback of the `vue` cache group: it throws exactly when a
      non-style module mentions `node_modules` but the package expression
      matches nowhere in its context, and every name it gives lies in one of
      the four families. */
  function VueChunkName(m: ModuleDesc): (r: NameResult)
    ensures r.ConfigError? <==>
      !m.isCss && Includes(m.context, NodeModules) && forall i, k: nat :: !MatchesAt(m.context, i, k)
    ensures r.Ok? ==> InChunkNamespace(r.name)
  {
    if m.isCss then Ok(Bundle)
    else if Includes(m.context, NodeModules) then PkgNamespace(m.context); Pkg(m.context)
    else match m.rawRequest
      case None => Ok(Bundle)
      case Some(request) =>
        var base := BaseName(request);
        if Includes(m.context, ComponentsDir) then Ok("component." + LowerFirst(base))
        else if Includes(m.context, ViewsDir) then Ok(ViewChunkName(ViewFolder(m.context), base))
        else Ok(Bundle)
  }

  /** The `name` callback of the `vendor` cache group. */
  function VendorChunkName(m: ModuleDesc): (r: NameResult)
    ensures r.Ok? ==> "pkg." <= r.name
  {
    Pkg(m.context)
  }

  // ---------------------------------------------------------------------
  // The classification, case by case, in the order the callback checks it
  // ---------------------------------------------------------------------

  /** Style modules always go to the merged stylesheet, the `styles` group's
      chunk, which is also the default chunk. */
  lemma CssModuleIsBundle(m: ModuleDesc)
    requires m.isCss
    ensures VueChunkName(m) == Ok(StylesName) == Ok(Bundle)
  {
  }

  /** A non-style module whose context mentions `node_modules` is named by
      `pkg`, exactly as the `vendor` group names it, whatever its request. */
  lemma NodeModulesUsePkg(m: ModuleDesc)
    requires !m.isCss && Includes(m.context, NodeModules)
    ensures VueChunkName(m) == Pkg(m.context) == VendorChunkName(m)
  {
  }

  /** A local module in the components directory is named after its base
      name with the first letter lower-cased; this wins over the views case. */
  lemma ComponentChunk(m: ModuleDesc)
    requires !m.isCss && !Includes(m.context, NodeModules)
    requires m.rawRequest.Some? && Includes(m.context, ComponentsDir)
    ensures VueChunkName(m) == Ok("component." + LowerFirst(BaseName(m.rawRequest.value)))
  {
  }

  /** A local module in the views directory (but not the components one) is
      named after its view folder and its base name. */
  lemma ViewChunk(m: ModuleDesc)
    requires !m.isCss && !Includes(m.context, NodeModules)
    requires m.rawRequest.Some? && !Includes(m.context, ComponentsDir) && Includes(m.context, ViewsDir)
    ensures VueChunkName(m) == Ok("view." + ViewFolder(m.context) + "-" + BaseName(m.rawRequest.value) + "-vue")
  {
  }

  /** Every other module falls through to the default chunk. */
  lemma DefaultChunk(m: ModuleDesc)
    requires !m.isCss && !Includes(m.context, NodeModules)
    requires m.rawRequest.None? || (!Includes(m.context, ComponentsDir) && !Includes(m.context, ViewsDir))
    ensures VueChunkName(m) == Ok(Bundle)
  {
  }
}

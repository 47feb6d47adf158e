/** The chunk names of modules laid out as in the project itself, under a
    project root `root` (written with Windows separators where the callback
    looks for them) and for file, folder and package names of the right
    shape, and two literal instances. The conditions on `root` keep the
    markers of earlier branches out of it: no `_` keeps out `node_modules`;
    no `n` keeps out `node_modules` and `src\js\components` (but not
    `src\js\views`, which is harmless because the module is in that
    directory anyway); a dashed root without `views-` keeps the view folder
    from being split off inside the root. The branch lemmas of `ChunkNames`
    hold without them. */
module ChunkNameExamples {
  import opened JsStrings
  import opened PackageName
  import opened ChunkNames

  /** A request `./name.ext`, as the loader writes it for a local file, has
      base name `name`. */
  lemma LocalBaseName(name: string, ext: string)
    requires '/' !in name && '?' !in name && '.' !in name && '/' !in ext
    ensures BaseName("./" + name + "." + ext) == name
  {
    assert "./" + name + "." + ext == "." + "/" + name + "." + ext;
    BaseNameOfFile(".", name, ext);
  }

  /** A file `./name.ext` in the components directory: `component.` and the
      base name with its first letter lower-cased. */
  lemma ComponentNaming(root: string, name: string, ext: string)
    requires '_' !in root
    requires '/' !in name && '?' !in name && '.' !in name && '/' !in ext
    ensures VueChunkName(ModuleDesc(false, root + ComponentsDir, Some("./" + name + "." + ext)))
      == Ok("component." + LowerFirst(name))
  {
    var ctx := root + ComponentsDir;
    NotIncludesMissingChar(ctx, NodeModules, '_');
    assert ctx == root + ComponentsDir + "";
    OccursInConcat(root, ComponentsDir, "");
    LocalBaseName(name, ext);
    ComponentChunk(ModuleDesc(false, ctx, Some("./" + name + "." + ext)));
  }

  /** A file `./name.ext` in a folder of the views directory:
      `view.<folder>-<name>-vue`. */
  lemma ViewNaming(root: string, folder: string, name: string, ext: string)
    requires 'n' !in root && !Includes(ReplaceAll(root, '\\', '-'), ViewsMarker)
    requires 'n' !in folder && '\\' !in folder && !Includes(folder, ViewsMarker)
    requires '/' !in name && '?' !in name && '.' !in name && '/' !in ext
    ensures VueChunkName(ModuleDesc(false, root + ViewsDir + "\\" + folder, Some("./" + name + "." + ext)))
      == Ok("view." + folder + "-" + name + "-vue")
  {
    var ctx := root + ViewsDir + "\\" + folder;
    assert 'n' !in ctx;
    NotIncludesMissingChar(ctx, NodeModules, 'n');
    NotIncludesMissingChar(ctx, ComponentsDir, 'n');
    assert ctx == root + ViewsDir + ("\\" + folder);
    OccursInConcat(root, ViewsDir, "\\" + folder);
    ViewFolderOf(root, folder);
    LocalBaseName(name, ext);
    ViewChunk(ModuleDesc(false, ctx, Some("./" + name + "." + ext)));
  }

  /** A file directly in the views directory: no `views-` follows once the
      backslashes become dashes, and JavaScript writes `undefined`. */
  lemma ViewsRootNaming(root: string, name: string, ext: string)
    requires 'n' !in root && !Includes(ReplaceAll(root, '\\', '-'), ViewsMarker)
    requires '/' !in name && '?' !in name && '.' !in name && '/' !in ext
    ensures VueChunkName(ModuleDesc(false, root + ViewsDir, Some("./" + name + "." + ext)))
      == Ok("view." + Undefined + "-" + name + "-vue")
  {
    var ctx := root + ViewsDir;
    assert 'n' !in ctx;
    NotIncludesMissingChar(ctx, NodeModules, 'n');
    NotIncludesMissingChar(ctx, ComponentsDir, 'n');
    assert ctx == root + ViewsDir + "";
    OccursInConcat(root, ViewsDir, "");
    ViewFolderOfViewsRoot(root);
    LocalBaseName(name, ext);
    ViewChunk(ModuleDesc(false, ctx, Some("./" + name + "." + ext)));
  }

  /** Under a project root without the letter `n`, the first
      `node_modules` directory is the one after the root. */
  lemma CaptureUnderRoot(root: string, a: char, segment: string, tail: string)
    requires 'n' !in root && IsSep(a) && (tail == [] || IsSep(tail[0]))
    requires forall m :: 0 <= m < |segment| ==> !IsSep(segment[m]) && !IsLineTerminator(segment[m])
    ensures Capture(root + [a] + NodeModules + [a] + segment + tail) == Some(segment)
  {
    NoMarkerInPrefix(root, a, NodeModules + [a] + segment + tail);
    assert root + [a] + (NodeModules + [a] + segment + tail) == root + [a] + NodeModules + [a] + segment + tail;
    CaptureOfSegment(root, a, a, segment, tail);
  }

  lemma ScopedContextShape(root: string, scope: string, tail: string)
    ensures root + "/node_modules/@" + scope + "/" + tail
      == root + ['/'] + NodeModules + ['/'] + "@" + scope + ("/" + tail)
  {
  }

  /** A module of a scoped package `@scope/...`, whatever its request, is
      named after the scope alone. */
  lemma ScopedPackageNaming(root: string, scope: string, tail: string, request: Option<string>)
    requires 'n' !in root
    requires forall m :: 0 <= m < |scope| ==> !IsSep(scope[m]) && !IsLineTerminator(scope[m])
    requires !Includes(scope, "vue")
    ensures VueChunkName(ModuleDesc(false, root + "/node_modules/@" + scope + "/" + tail, request))
      == Ok("pkg." + scope)
  {
    var ctx := root + "/node_modules/@" + scope + "/" + tail;
    ScopedContextShape(root, scope, tail);
    ScopedUnderRoot(root, '/', scope, "/" + tail);
    CaptureMentionsNodeModules(ctx);
    NodeModulesUsePkg(ModuleDesc(false, ctx, request));
    PkgVueCommons(ctx);
  }

  lemma ScopedUnderRoot(root: string, a: char, scope: string, tail: string)
    requires 'n' !in root && IsSep(a) && (tail == [] || IsSep(tail[0]))
    requires forall m :: 0 <= m < |scope| ==> !IsSep(scope[m]) && !IsLineTerminator(scope[m])
    ensures PackageOf(root + [a] + NodeModules + [a] + "@" + scope + tail) == Some(scope)
  {
    NoMarkerInPrefix(root, a, NodeModules + [a] + "@" + scope + tail);
    assert root + [a] + (NodeModules + [a] + "@" + scope + tail) == root + [a] + NodeModules + [a] + "@" + scope + tail;
    ScopedPackage(root, a, a, scope, tail);
  }

  lemma NestedContextShape(root: string, outer: string, inner: string)
    ensures root + "/node_modules/" + outer + "/node_modules/" + inner
      == root + ['/'] + NodeModules + ['/'] + outer + ("/node_modules/" + inner)
  {
  }

  /** Nested `node_modules` directories: the outermost package names the chunk. */
  lemma NestedPackageNaming(root: string, outer: string, inner: string)
    requires 'n' !in root
    requires forall m :: 0 <= m < |outer| ==> !IsSep(outer[m]) && !IsLineTerminator(outer[m])
    requires '@' !in outer && !Includes(outer, "vue")
    ensures Pkg(root + "/node_modules/" + outer + "/node_modules/" + inner) == Ok("pkg." + outer)
  {
    NestedContextShape(root, outer, inner);
    CaptureUnderRoot(root, '/', outer, "/node_modules/" + inner);
    assert RemoveFirst(outer, '@') == outer;
  }

  lemma VueContextShape(root: string, rest: string)
    ensures root + "\\node_modules\\vue" + rest == root + ['\\'] + NodeModules + ['\\'] + ("vue" + rest) + ""
  {
  }

  /** A package whose name starts with `vue`, on a Windows path, joins the
      shared framework chunk. */
  lemma VuePackageNaming(root: string, rest: string)
    requires 'n' !in root
    requires forall m :: 0 <= m < |rest| ==> !IsSep(rest[m]) && !IsLineTerminator(rest[m])
    requires '@' !in rest
    ensures Pkg(root + "\\node_modules\\vue" + rest) == Ok(VueCommons)
  {
    var segment := "vue" + rest;
    VueContextShape(root, rest);
    CaptureUnderRoot(root, '\\', segment, "");
    VueSegment(rest);
  }

  lemma VueSegment(rest: string)
    requires '@' !in rest
    ensures RemoveFirst("vue" + rest, '@') == "vue" + rest && Includes("vue" + rest, "vue")
  {
    assert '@' !in "vue" + rest;
    assert OccursAt("vue" + rest, "vue", 0);
  }

  /** A context that ends in `node_modules` mentions it but has no separator
      after it: `.match` finds nothing and the callback throws. */
  lemma PackageRootFails(root: string, request: Option<string>)
    requires 'n' !in root
    ensures VueChunkName(ModuleDesc(false, root + "/node_modules", request)) == ConfigError
  {
    var ctx := root + "/node_modules";
    assert ctx == root + "/" + NodeModules + "";
    OccursInConcat(root + "/", NodeModules, "");
    forall i: nat | MarkerAt(ctx, i) ensures false {
      MarkerAtHead(ctx, i);
    }
  }

  /** `ComponentNaming` for a context and request given whole. */
  lemma ComponentNamingAt(context: string, request: string, root: string, name: string, ext: string, chunk: string)
    requires context == root + ComponentsDir && request == "./" + name + "." + ext
    requires '_' !in root
    requires '/' !in name && '?' !in name && '.' !in name && '/' !in ext
    requires chunk == "component." + LowerFirst(name)
    ensures VueChunkName(ModuleDesc(false, context, Some(request))) == Ok(chunk)
  {
    ComponentNaming(root, name, ext);
  }

  /** `ViewNaming` for a context and request given whole. */
  lemma ViewNamingAt(context: string, request: string, root: string, folder: string, name: string, ext: string, chunk: string)
    requires context == root + ViewsDir + "\\" + folder && request == "./" + name + "." + ext
    requires 'n' !in root && 'v' !in root
    requires 'n' !in folder && '\\' !in folder && 'v' !in folder
    requires '/' !in name && '?' !in name && '.' !in name && '/' !in ext
    requires chunk == "view." + folder + "-" + name + "-vue"
    ensures VueChunkName(ModuleDesc(false, context, Some(request))) == Ok(chunk)
  {
    var dr := ReplaceAll(root, '\\', '-');
    assert 'v' !in dr;
    NotIncludesMissingChar(dr, ViewsMarker, 'v');
    NotIncludesMissingChar(folder, ViewsMarker, 'v');
    ViewNaming(root, folder, name, ext);
  }

  /** How the component example's strings decompose. */
  lemma MyWidgetPaths()
    ensures "C:\\p\\src\\js\\components" == "C:\\p\\" + ComponentsDir
    ensures "./MyWidget.vue" == "./" + "MyWidget" + "." + "vue"
  {
  }

  /** The component example's chunk name. */
  lemma MyWidgetName()
    ensures "component.myWidget" == "component." + LowerFirst("MyWidget")
  {
    var l := LowerFirst("MyWidget");
    assert l[0] == 'm' && l[1..] == "yWidget";
    var a, b := "component." + l, "component.myWidget";
    forall i | 0 <= i < |a| ensures a[i] == b[i] {
      if i > 10 { assert a[i] == l[1..][i - 11]; }
    }
  }

  /** The component `C:\p\src\js\components\MyWidget.vue`, requested as
      `./MyWidget.vue`, goes to `component.myWidget`. */
  lemma MyWidgetChunk(context: string, request: string)
    requires context == "C:\\p\\src\\js\\components" && request == "./MyWidget.vue"
    ensures VueChunkName(ModuleDesc(false, context, Some(request))) == Ok("component.myWidget")
  {
    MyWidgetPaths();
    MyWidgetName();
    ComponentNamingAt(context, request, "C:\\p\\", "MyWidget", "vue", "component.myWidget");
  }

  /** How the view example's strings decompose. */
  lemma HomeViewPaths()
    ensures "C:\\p\\src\\js\\views\\_home" == "C:\\p\\" + ViewsDir + "\\" + "_home"
    ensures "./_home.vue" == "./" + "_home" + "." + "vue"
  {
  }

  /** The view example's chunk name. */
  lemma HomeViewName()
    ensures "view._home-_home-vue" == "view." + "_home" + "-" + "_home" + "-vue"
  {
  }

  /** The view `C:\p\src\js\views\_home\_home.vue`, requested as
      `./_home.vue`, goes to `view._home-_home-vue`. */
  lemma HomeViewChunk(context: string, request: string)
    requires context == "C:\\p\\src\\js\\views\\_home" && request == "./_home.vue"
    ensures VueChunkName(ModuleDesc(false, context, Some(request))) == Ok("view._home-_home-vue")
  {
    HomeViewPaths();
    HomeViewName();
    ViewNamingAt(context, request, "C:\\p\\", "_home", "_home", "vue", "view._home-_home-vue");
  }
}

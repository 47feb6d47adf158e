/** The third-party package naming of the production build: `pkg(m)`, which
    matches `m.context` against the regular expression
    `[\\/]node_modules[\\/](.*?)([\\/]|$)` (no flags), takes capture group 1,
    removes its first `@`, and names the chunk `pkg.vueCommons` or
    `pkg.<name>`. The regular expression is modelled by a left-to-right
    scanner beside a declarative statement of what a match is. */
module PackageName {
  import opened JsStrings

  /** A chunk name, or the exception JavaScript raises when `.match(...)`
      returns `null` and `[1]` is read from it. */
  datatype NameResult = Ok(name: string) | ConfigError

  const NodeModules := "node_modules"
  const VueCommons := "pkg.vueCommons"

  /** The character class `[\\/]`. */
  predicate IsSep(c: char) { c == '/' || c == '\\' }

  /** The characters JavaScript's `.` does not match (no `s` flag). */
  predicate IsLineTerminator(c: char) {
    c == '\n' || c == '\r' || c == '\U{2028}' || c == '\U{2029}'
  }

  /** `[\\/]node_modules[\\/]` matches `s` at position `i` (14 characters). */
  predicate MarkerAt(s: string, i: nat) {
    i + 14 <= |s| && IsSep(s[i]) && s[i + 1..i + 13] == NodeModules && IsSep(s[i + 13])
  }

  /** `(.*?)([\\/]|$)` matches from `j` with group 1 ending at `k`: `k` is the
      first separator at or after `j` (or the end of `s`) and nothing before it
      is a line terminator. Laziness makes `k` the first such position. */
  predicate LazyCapture(s: string, j: nat, k: nat) {
    j <= k <= |s| && (k == |s| || IsSep(s[k])) &&
    forall m :: j <= m < k ==> !IsSep(s[m]) && !IsLineTerminator(s[m])
  }

  /** The whole expression matches at `i` with group 1 equal to `s[i + 14..k]`. */
  predicate MatchesAt(s: string, i: nat, k: nat) {
    MarkerAt(s, i) && LazyCapture(s, i + 14, k)
  }

  /** The match `.match` reports: no match starts further left. */
  ghost predicate LeftmostMatch(s: string, i: nat, k: nat) {
    MatchesAt(s, i, k) && forall i': nat, k': nat :: i' < i ==> !MatchesAt(s, i', k')
  }

  /** The chunk a package name goes to: the shared `pkg.vueCommons` exactly
      for names containing `vue`, and otherwise a `pkg.` chunk from which the
      name can be read back. */
  function PkgChunk(name: string): (r: string)
    ensures r == VueCommons <==> Includes(name, "vue")
    ensures "pkg." <= r
    ensures !Includes(name, "vue") ==> r[4..] == name
  {
    if Includes(name, "vue") then
      VueCommons
    else
      var r := "pkg." + name;
      assert r[4..] == name;
      assert r == VueCommons ==> OccursAt(name, "vue", 0);
      r
  }

  /** Where a match starts and where its group 1 ends. */
  datatype Match = Match(start: nat, captureEnd: nat)

  /** Try `(.*?)([\\/]|$)` at `j`, extending the lazy group one character at a time. */
  function CaptureEnd(s: string, j: nat): (r: Option<nat>)
    requires j <= |s|
    ensures r.Some? ==> LazyCapture(s, j, r.value)
    ensures r.None? ==> forall k: nat :: !LazyCapture(s, j, k)
    decreases |s| - j
  {
    if j == |s| then Some(j)
    else if IsSep(s[j]) then Some(j)
    else if IsLineTerminator(s[j]) then None
    else
      var r := CaptureEnd(s, j + 1);
      assert forall k: nat :: LazyCapture(s, j, k) ==> k == j || LazyCapture(s, j + 1, k);
      r
  }

  /** The regular expression engine's search: try each start position from
      `i` on, and return the first one at which the whole expression matches. */
  function FindMatch(s: string, i: nat): (r: Option<Match>)
    requires i <= |s|
    ensures r.Some? ==> i <= r.value.start && MatchesAt(s, r.value.start, r.value.captureEnd)
    ensures r.Some? ==> forall i', k: nat :: i <= i' < r.value.start ==> !MatchesAt(s, i', k)
    ensures r.None? ==> forall i', k: nat :: i <= i' ==> !MatchesAt(s, i', k)
    decreases |s| - i
  {
    if i + 14 > |s| then None
    else if MarkerAt(s, i) then
      match CaptureEnd(s, i + 14)
      case Some(k) => Some(Match(i, k))
      case None => FindMatch(s, i + 1)
    else FindMatch(s, i + 1)
  }

  /** `context.match(/[\\/]node_modules[\\/](.*?)([\\/]|$)/)[1]`:
      group 1 of the leftmost match, if there is one. */
  function Capture(context: string): (r: Option<string>)
    ensures r.None? <==> forall i, k: nat :: !MatchesAt(context, i, k)
    ensures r.Some? ==> exists i, k: nat :: LeftmostMatch(context, i, k) && r.value == context[i + 14..k]
  {
    match FindMatch(context, 0)
    case None => None
    case Some(m) =>
      assert LeftmostMatch(context, m.start, m.captureEnd);
      Some(context[m.start + 14..m.captureEnd])
  }

  /** `pkg(m)` applied to `m.context`. */
  function Pkg(context: string): (r: NameResult)
    ensures r.ConfigError? <==> forall i, k: nat :: !MatchesAt(context, i, k)
    ensures r.Ok? ==>
      exists i, k: nat :: LeftmostMatch(context, i, k) &&
        r.name == PkgChunk(RemoveFirst(context[i + 14..k], '@'))
  {
    match Capture(context)
    case None => ConfigError
    case Some(captured) =>
      Ok(PkgChunk(RemoveFirst(captured, '@')))
  }

  /** The name `pkg` extracts from a context, if the expression matches. */
  function PackageOf(context: string): (r: Option<string>)
    ensures r.None? <==> forall i, k: nat :: !MatchesAt(context, i, k)
    ensures r.Some? ==>
      exists i, k: nat :: LeftmostMatch(context, i, k) &&
        r.value == RemoveFirst(context[i + 14..k], '@')
  {
    match Capture(context)
    case None => None
    case Some(captured) => Some(RemoveFirst(captured, '@'))
  }

  // ---------------------------------------------------------------------
  // Properties of the match and of `pkg`
  // ---------------------------------------------------------------------

  /** A marker begins with a separator followed by `n`. */
  lemma MarkerAtHead(s: string, i: nat)
    requires MarkerAt(s, i)
    ensures s[i + 1] == 'n'
  {
    assert s[i + 1..i + 13][0] == s[i + 1];
  }

  /** The lazy group is determined by where it starts. */
  lemma LazyCaptureUnique(s: string, j: nat, k1: nat, k2: nat)
    requires LazyCapture(s, j, k1) && LazyCapture(s, j, k2)
    ensures k1 == k2
  {
  }

  /** There is at most one leftmost match, so the contracts of `Capture`,
      `Pkg` and `PackageOf` determine their results. */
  lemma LeftmostMatchUnique(s: string, i1: nat, k1: nat, i2: nat, k2: nat)
    requires LeftmostMatch(s, i1, k1) && LeftmostMatch(s, i2, k2)
    ensures i1 == i2 && k1 == k2
  {
    LazyCaptureUnique(s, i1 + 14, k1, k2);
  }

  /** On a path without line terminators the lazy group always succeeds. */
  lemma {:induction false} CaptureEndSucceeds(s: string, j: nat)
    requires j <= |s|
    requires forall m :: j <= m < |s| ==> !IsLineTerminator(s[m])
    ensures CaptureEnd(s, j).Some?
    decreases |s| - j
  {
    if j < |s| && !IsSep(s[j]) {
      CaptureEndSucceeds(s, j + 1);
    }
  }

  /** On a path without line terminators, the match fails exactly when no
      `node_modules` segment has a separator on both sides. */
  lemma PkgFailsIffNoMarker(context: string)
    requires forall m :: 0 <= m < |context| ==> !IsLineTerminator(context[m])
    ensures Pkg(context).ConfigError? <==> forall i: nat :: !MarkerAt(context, i)
  {
    if i: nat :| MarkerAt(context, i) {
      CaptureEndSucceeds(context, i + 14);
      assert MatchesAt(context, i, CaptureEnd(context, i + 14).value);
    }
  }

  /** The captured text is what follows the FIRST separator-delimited
      `node_modules`, up to the next separator or the end: for nested
      `node_modules` directories, the outermost package. */
  lemma CaptureAfterFirstMarker(context: string, i: nat, k: nat)
    requires MarkerAt(context, i) && forall i': nat :: i' < i ==> !MarkerAt(context, i')
    requires LazyCapture(context, i + 14, k)
    ensures Capture(context) == Some(context[i + 14..k])
  {
    assert MatchesAt(context, i, k);
    var m := FindMatch(context, 0).value;
    assert m.start == i;
    LazyCaptureUnique(context, i + 14, k, m.captureEnd);
  }

  /** The canonical shape of a third-party context: some prefix, a
      separator, `node_modules`, a separator, a segment with no separator,
      and then the end or a separator. When no marker starts inside the
      prefix, the capture is exactly that segment. */
  lemma CaptureOfSegment(p: string, a: char, b: char, segment: string, tail: string)
    requires IsSep(a) && IsSep(b) && (tail == [] || IsSep(tail[0]))
    requires forall m :: 0 <= m < |segment| ==> !IsSep(segment[m]) && !IsLineTerminator(segment[m])
    requires forall i: nat :: i < |p| ==> !MarkerAt(p + [a] + NodeModules + [b] + segment + tail, i)
    ensures Capture(p + [a] + NodeModules + [b] + segment + tail) == Some(segment)
  {
    var context := p + [a] + NodeModules + [b] + segment + tail;
    var i, k := |p|, |p| + 14 + |segment|;
    assert context[i + 1..i + 13] == NodeModules;
    assert context[i + 14..k] == segment;
    assert MarkerAt(context, i);
    assert LazyCapture(context, i + 14, k);
    CaptureAfterFirstMarker(context, i, k);
  }

  /** A scoped package `@scope/name`: the capture stops at the `/` after the
      scope and only the `@` is removed, so the package is named after the
      scope alone. */
  lemma ScopedPackage(p: string, a: char, b: char, scope: string, tail: string)
    requires IsSep(a) && IsSep(b) && (tail == [] || IsSep(tail[0]))
    requires forall m :: 0 <= m < |scope| ==> !IsSep(scope[m]) && !IsLineTerminator(scope[m])
    requires forall i: nat :: i < |p| ==> !MarkerAt(p + [a] + NodeModules + [b] + "@" + scope + tail, i)
    ensures PackageOf(p + [a] + NodeModules + [b] + "@" + scope + tail) == Some(scope)
  {
    assert p + [a] + NodeModules + [b] + "@" + scope + tail == p + [a] + NodeModules + [b] + ("@" + scope) + tail;
    CaptureOfSegment(p, a, b, "@" + scope, tail);
    var s := "@" + scope;
    var i :| 0 <= i < |s| && s[i] == '@' && '@' !in s[..i] && RemoveFirst(s, '@') == s[..i] + s[i + 1..];
    assert s[0] == '@';
    assert i == 0;
    assert s[1..] == scope;
    assert RemoveFirst(s, '@') == scope;
    assert Capture(p + [a] + NodeModules + [b] + ("@" + scope) + tail) == Some(s);
    assert PackageOf(p + [a] + NodeModules + [b] + ("@" + scope) + tail) == Some(scope);
  }

  /** Whenever the expression matches, the context mentions `node_modules`,
      so the callback's `includes` test has already let it through. */
  lemma CaptureMentionsNodeModules(context: string)
    requires Capture(context).Some?
    ensures Includes(context, NodeModules)
  {
    var i: nat, k: nat :| MatchesAt(context, i, k);
    assert OccursAt(context, NodeModules, i + 1);
  }

  /** A prefix without the letter `n` cannot hold the start of a marker. */
  lemma NoMarkerInPrefix(p: string, a: char, rest: string)
    requires 'n' !in p && IsSep(a)
    ensures forall i: nat :: i < |p| ==> !MarkerAt(p + [a] + rest, i)
  {
    forall i: nat | i < |p| && MarkerAt(p + [a] + rest, i) ensures false {
      MarkerAtHead(p + [a] + rest, i);
    }
  }

  /** Every successful `pkg` name is in the `pkg.` namespace. */
  lemma PkgNamespace(context: string)
    ensures Pkg(context).Ok? ==> "pkg." <= Pkg(context).name
  {
  }

  /** Every package whose name mentions `vue` shares one chunk, and only those do. */
  lemma PkgVueCommons(context: string)
    requires PackageOf(context).Some?
    ensures Pkg(context) == Ok(VueCommons) <==> Includes(PackageOf(context).value, "vue")
  {
    var name := PackageOf(context).value;
    if "pkg." + name == VueCommons {
      assert name == ("pkg." + name)[4..];
      assert OccursAt(name, "vue", 0);
    }
  }

  /** Packages whose names do not mention `vue` get one chunk each:
      `pkg` separates any two of them. */
  lemma PkgInjective(c1: string, c2: string)
    requires PackageOf(c1).Some? && PackageOf(c2).Some?
    requires !Includes(PackageOf(c1).value, "vue") && !Includes(PackageOf(c2).value, "vue")
    ensures Pkg(c1) == Pkg(c2) <==> PackageOf(c1) == PackageOf(c2)
  {
    var n1, n2 := PackageOf(c1).value, PackageOf(c2).value;
    if Pkg(c1) == Pkg(c2) {
      assert ("pkg." + n1)[4..] == n1 && ("pkg." + n2)[4..] == n2;
    }
  }
}

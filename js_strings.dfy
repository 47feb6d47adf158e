/** The JavaScript `String.prototype` operations the chunk-naming policy uses:
    `includes` and the leftmost-occurrence search behind it, `split` (with a
    non-empty string separator), `replace` of the first occurrence of a
    one-character string, `replace` with a global one-character pattern,
    and `charAt(0).toLowerCase() + slice(1)`.
    Strings are sequences of characters. */
module JsStrings {

  datatype Option<T> = None | Some(value: T)

  /** `sub` occurs in `s` starting at index `i`. */
  predicate OccursAt(s: string, sub: string, i: nat) {
    i + |sub| <= |s| && s[i..i + |sub|] == sub
  }

  /** `i` is the position of the leftmost occurrence of `sub` in `s`. */
  predicate FirstOccurrence(s: string, sub: string, i: nat) {
    OccursAt(s, sub, i) && forall j: nat :: j < i ==> !OccursAt(s, sub, j)
  }

  lemma OccursAtTail(s: string, sub: string, j: nat)
    requires |s| > 0
    ensures OccursAt(s, sub, j + 1) <==> OccursAt(s[1..], sub, j)
  {
    if j + 1 + |sub| <= |s| {
      assert s[1..][j..j + |sub|] == s[j + 1..j + 1 + |sub|];
    }
  }

  /** The leftmost occurrence of `sub` in `s`, the search `includes` and
      `split` perform (JavaScript's `indexOf`, with `None` for -1). */
  function IndexOf(s: string, sub: string): (r: Option<nat>)
    ensures r.Some? ==> FirstOccurrence(s, sub, r.value)
    ensures r.None? ==> forall j: nat :: !OccursAt(s, sub, j)
    decreases |s|
  {
    if |s| < |sub| then None
    else if s[..|sub|] == sub then Some(0)
    else
      var rest := IndexOf(s[1..], sub);
      assert forall j: nat :: OccursAt(s, sub, j + 1) <==> OccursAt(s[1..], sub, j) by {
        forall j: nat ensures OccursAt(s, sub, j + 1) <==> OccursAt(s[1..], sub, j) {
          OccursAtTail(s, sub, j);
        }
      }
      assert forall j: nat :: OccursAt(s, sub, j) ==> j == 0 || OccursAt(s[1..], sub, j - 1);
      match rest
      case None => None
      case Some(i) => Some(i + 1)
  }

  /** `s.includes(sub)`. */
  function Includes(s: string, sub: string): (r: bool)
    ensures r <==> exists j: nat :: OccursAt(s, sub, j)
  {
    IndexOf(s, sub).Some?
  }

  /** For a one-character needle, `includes` is plain membership. */
  lemma IncludesChar(s: string, c: char)
    ensures Includes(s, [c]) <==> c in s
  {
    if c in s {
      var j :| 0 <= j < |s| && s[j] == c;
      assert OccursAt(s, [c], j);
    }
    if Includes(s, [c]) {
      var j: nat :| OccursAt(s, [c], j);
      assert s[j..j + 1][0] == s[j];
    }
  }

  /** The inverse of `Split`: pieces glued back together with `sep`. The
      result starts with the first piece and ends with the last. */
  function Join(parts: seq<string>, sep: string): (r: string)
    requires |parts| > 0
    ensures parts[0] <= r
    ensures var last := parts[|parts| - 1]; |last| <= |r| && r[|r| - |last|..] == last
    decreases |parts|
  {
    if |parts| == 1 then parts[0]
    else
      var rest := Join(parts[1..], sep);
      assert parts[1..][|parts| - 2] == parts[|parts| - 1];
      var r := parts[0] + sep + rest;
      assert r[|r| - |rest|..] == rest;
      r
  }

  /** Nothing before the leftmost occurrence of `sep` contains `sep`. */
  lemma BeforeFirstHasNoSep(s: string, sep: string, i: nat)
    requires |sep| > 0 && FirstOccurrence(s, sep, i)
    ensures !Includes(s[..i], sep)
  {
    forall j: nat | OccursAt(s[..i], sep, j) ensures false {
      assert s[..i][j..j + |sep|] == s[j..j + |sep|];
      assert OccursAt(s, sep, j);
    }
  }

  /** `s.split(sep)` for a non-empty separator: the pieces between the
      non-overlapping occurrences of `sep`, scanned left to right. */
  function Split(s: string, sep: string): (parts: seq<string>)
    requires |sep| > 0
    ensures |parts| > 0
    ensures forall k :: 0 <= k < |parts| ==> !Includes(parts[k], sep)
    decreases |s|
  {
    match IndexOf(s, sep)
    case None => [s]
    case Some(i) =>
      var rest := Split(s[i + |sep|..], sep);
      BeforeFirstHasNoSep(s, sep, i);
      [s[..i]] + rest
  }

  /** `Join` undoes `Split`: gluing the pieces back with `sep` gives `s`. */
  lemma {:induction false} JoinSplit(s: string, sep: string)
    requires |sep| > 0
    ensures Join(Split(s, sep), sep) == s
    decreases |s|
  {
    match IndexOf(s, sep)
    case None =>
    case Some(i) =>
      var rest := s[i + |sep|..];
      SplitAtFirst(s, sep, i);
      JoinSplit(rest, sep);
      JoinCons(s[..i], Split(rest, sep), sep);
      AroundOccurrence(s, sep, i);
  }

  /** `Split` cuts at the leftmost occurrence and goes on after it. */
  lemma SplitAtFirst(s: string, sep: string, i: nat)
    requires |sep| > 0 && IndexOf(s, sep) == Some(i)
    ensures Split(s, sep) == [s[..i]] + Split(s[i + |sep|..], sep)
  {
  }

  /** Joining a piece in front of further pieces puts `sep` between them. */
  lemma JoinCons(head: string, tail: seq<string>, sep: string)
    requires |tail| > 0
    ensures Join([head] + tail, sep) == head + sep + Join(tail, sep)
  {
    assert ([head] + tail)[1..] == tail;
  }

  /** A string is the text before an occurrence, the needle, and the text after. */
  lemma AroundOccurrence(s: string, sub: string, i: nat)
    requires OccursAt(s, sub, i)
    ensures s == s[..i] + sub + s[i + |sub|..]
  {
    assert s == s[..i] + s[i..i + |sub|] + s[i + |sub|..];
  }

  /** `Split` returns a single piece exactly when `sep` does not occur. */
  lemma SplitSingle(s: string, sep: string)
    requires |sep| > 0
    ensures |Split(s, sep)| == 1 <==> !Includes(s, sep)
  {
  }

  /** `last` is a suffix of `s`, preceded by `sep` unless it is all of `s`. */
  predicate EndsAfterSep(s: string, sep: string, last: string) {
    |last| <= |s| && s[|s| - |last|..] == last &&
    (|last| < |s| ==> |last| + |sep| <= |s| && OccursAt(s, sep, |s| - |last| - |sep|))
  }

  /** The last piece of a split is a suffix of `s`, preceded by `sep`
      unless it is all of `s`. */
  lemma {:induction false} SplitLast(s: string, sep: string)
    requires |sep| > 0
    ensures var parts := Split(s, sep); EndsAfterSep(s, sep, parts[|parts| - 1])
    decreases |s|
  {
    match IndexOf(s, sep)
    case None =>
    case Some(i) =>
      var rest := s[i + |sep|..];
      SplitLast(rest, sep);
      var parts, restParts := Split(s, sep), Split(rest, sep);
      assert parts == [s[..i]] + restParts;
      assert parts[|parts| - 1] == restParts[|restParts| - 1];
      LastAfterFirst(s, sep, i, restParts[|restParts| - 1]);
  }

  /** A suffix of the text after an occurrence of `sep` at `i` that is all
      of that text or follows a `sep` is a suffix of `s` with the same property. */
  lemma LastAfterFirst(s: string, sep: string, i: nat, last: string)
    requires OccursAt(s, sep, i) && EndsAfterSep(s[i + |sep|..], sep, last)
    ensures EndsAfterSep(s, sep, last)
  {
    var j := i + |sep|;
    var rest := s[j..];
    SuffixOfSuffix(s, j, |last|);
    assert |rest| == |s| - j;
    assert s[|s| - |last|..] == last;
    if |last| < |rest| {
      var k := |rest| - |last| - |sep|;
      OccursFromSuffix(s, j, sep, k);
      assert j + k == |s| - |last| - |sep|;
    } else {
      assert |s| - |last| - |sep| == i;
    }
  }

  /** A suffix of `s[j..]` is a suffix of `s`. */
  lemma SuffixOfSuffix(s: string, j: nat, n: nat)
    requires j <= |s| && n <= |s| - j
    ensures s[|s| - n..] == s[j..][|s| - j - n..]
  {
  }

  /** An occurrence in `s[j..]` is one in `s`, shifted by `j`. */
  lemma OccursFromSuffix(s: string, j: nat, sub: string, k: nat)
    requires j <= |s| && OccursAt(s[j..], sub, k)
    ensures OccursAt(s, sub, j + k)
  {
    assert s[j..][k..k + |sub|] == s[j + k..j + k + |sub|];
  }

  /** `s.split(sep)[0]`: the text before the first `sep`, or all of `s`. */
  function FirstPiece(s: string, sep: string): (r: string)
    requires |sep| > 0
    ensures r <= s && !Includes(r, sep)
    ensures |r| == |s| || OccursAt(s, sep, |r|)
  {
    var parts := Split(s, sep);
    if IndexOf(s, sep).Some? then
      assert parts[0] == s[..IndexOf(s, sep).value];
      parts[0]
    else
      parts[0]
  }

  /** `s.split(sep)[s.split(sep).length - 1]`: the text after the last `sep`, or all of `s`. */
  function LastPiece(s: string, sep: string): (r: string)
    requires |sep| > 0
    ensures |r| <= |s| && s[|s| - |r|..] == r && !Includes(r, sep)
    ensures |r| < |s| ==> |r| + |sep| <= |s| && OccursAt(s, sep, |s| - |r| - |sep|)
  {
    var parts := Split(s, sep);
    SplitLast(s, sep);
    parts[|parts| - 1]
  }

  /** `s.split(sep)[1]`, which is JavaScript's `undefined` (here `None`)
      when `sep` does not occur: otherwise the text between the first
      occurrence of `sep` and the next one (or the end). */
  function SecondPiece(s: string, sep: string): (r: Option<string>)
    requires |sep| > 0
    ensures r.None? <==> !Includes(s, sep)
    ensures r.Some? ==> exists i: nat :: FirstOccurrence(s, sep, i) && r.value == FirstPiece(s[i + |sep|..], sep)
  {
    var parts := Split(s, sep);
    if |parts| > 1 then
      var i := IndexOf(s, sep).value;
      assert parts[1] == Split(s[i + |sep|..], sep)[0];
      Some(parts[1])
    else
      None
  }

  // ---------------------------------------------------------------------
  // The pieces are determined by their declarative descriptions
  // ---------------------------------------------------------------------

  /** An occurrence starts with the needle's first character. */
  lemma OccursAtHead(s: string, sub: string, j: nat)
    requires |sub| > 0 && OccursAt(s, sub, j)
    ensures s[j] == sub[0]
  {
    assert s[j..j + |sub|][0] == s[j];
  }

  /** A needle cannot occur where one of its characters never appears. */
  lemma NotIncludesMissingChar(s: string, sub: string, c: char)
    requires c in sub && c !in s
    ensures !Includes(s, sub)
  {
  }

  /** Without any separator, the first piece is the whole string. */
  lemma FirstPieceWhole(s: string, sep: string)
    requires |sep| > 0 && !Includes(s, sep)
    ensures FirstPiece(s, sep) == s
  {
  }

  /** For a one-character separator `c`, the first piece is THE prefix that
      holds no `c` and ends where the string ends or at a `c`. */
  lemma FirstPieceIsPrefixBefore(s: string, c: char, t: string)
    requires t <= s && c !in t && (|t| == |s| || s[|t|] == c)
    ensures FirstPiece(s, [c]) == t
  {
    var r := FirstPiece(s, [c]);
    IncludesChar(r, c);
    if |r| < |s| {
      OccursAtHead(s, [c], |r|);
    }
    assert forall k :: 0 <= k < |t| ==> s[k] != c;
    assert forall k :: 0 <= k < |r| ==> s[k] != c;
  }

  /** For a one-character separator `c`, the last piece is THE suffix that
      holds no `c` and starts where the string starts or after a `c`. */
  lemma LastPieceIsSuffixAfter(s: string, c: char, j: nat)
    requires j <= |s| && (j == 0 || s[j - 1] == c) && c !in s[j..]
    ensures LastPiece(s, [c]) == s[j..]
  {
    var r := LastPiece(s, [c]);
    var q := |s| - |r|;
    IncludesChar(r, c);
    assert s[q..] == r;
    LastPieceAfterSep(s, c);
    NoCharFrom(s, c, j);
    NoCharFrom(s, c, q);
    assert q == j;
  }

  /** `c !in s[j..]`, index by index. */
  lemma NoCharFrom(s: string, c: char, j: nat)
    requires j <= |s| && c !in s[j..]
    ensures forall k :: j <= k < |s| ==> s[k] != c
  {
    forall k | j <= k < |s| ensures s[k] != c {
      assert s[j..][k - j] == s[k];
    }
  }

  /** The last piece for a one-character separator `c` is the whole string
      or follows a `c`. */
  lemma LastPieceAfterSep(s: string, c: char)
    ensures var r := LastPiece(s, [c]); |r| < |s| ==> s[|s| - |r| - 1] == c
  {
    var sep := [c];
    assert |sep| == 1 && sep[0] == c;
    var r := LastPiece(s, sep);
    if |r| < |s| {
      var i := |s| - |r| - 1;
      assert OccursAt(s, sep, i);
      OccursAtHead(s, sep, i);
    }
  }

  /** The same facts for strings given as concatenations. */
  lemma OccursInConcat(a: string, sub: string, b: string)
    ensures OccursAt(a + sub + b, sub, |a|)
  {
    assert (a + sub + b)[|a|..|a| + |sub|] == sub;
  }

  lemma FirstPieceOfConcat(t: string, c: char, rest: string)
    requires c !in t
    ensures FirstPiece(t + [c] + rest, [c]) == t
  {
    FirstPieceIsPrefixBefore(t + [c] + rest, c, t);
  }

  lemma LastPieceOfConcat(a: string, c: char, t: string)
    requires c !in t
    ensures LastPiece(a + [c] + t, [c]) == t
  {
    assert (a + [c] + t)[|a| + 1..] == t;
    LastPieceIsSuffixAfter(a + [c] + t, c, |a| + 1);
  }

  /** The first piece looks past a prefix that holds no separator. */
  lemma FirstPieceSkips(t: string, u: string, c: char)
    requires c !in t
    ensures FirstPiece(t + u, [c]) == t + FirstPiece(u, [c])
  {
    var f := FirstPiece(u, [c]);
    IncludesChar(f, c);
    if |f| < |u| {
      OccursAtHead(u, [c], |f|);
    }
    assert (t + u)[..|t + f|] == t + f;
    FirstPieceIsPrefixBefore(t + u, c, t + f);
  }

  /** `s.replace(c, "")` for a one-character string pattern: JavaScript
      replaces only the FIRST occurrence. */
  function RemoveFirst(s: string, c: char): (r: string)
    ensures c !in s ==> r == s
    ensures c in s ==> exists i :: 0 <= i < |s| && s[i] == c && c !in s[..i] && r == s[..i] + s[i + 1..]
  {
    IncludesChar(s, c);
    match IndexOf(s, [c])
    case None => s
    case Some(i) =>
      BeforeFirstHasNoSep(s, [c], i);
      IncludesChar(s[..i], c);
      assert s[i..i + 1] == [c];
      assert s[i] == c && i < |s|;
      var r := s[..i] + s[i + 1..];
      assert 0 <= i < |s| && s[i] == c && c !in s[..i] && r == s[..i] + s[i + 1..];
      r
  }

  /** `s.replace(/x/g, y)` for a one-character pattern `x`: every occurrence replaced. */
  function ReplaceAll(s: string, x: char, y: char): (r: string)
    ensures |r| == |s|
    ensures forall k :: 0 <= k < |s| ==> r[k] == if s[k] == x then y else s[k]
  {
    seq(|s|, k requires 0 <= k < |s| => if s[k] == x then y else s[k])
  }

  /** Replacing every `x` distributes over concatenation. */
  lemma ReplaceAllConcat(a: string, b: string, x: char, y: char)
    ensures ReplaceAll(a + b, x, y) == ReplaceAll(a, x, y) + ReplaceAll(b, x, y)
  {
    var l, r := ReplaceAll(a + b, x, y), ReplaceAll(a, x, y) + ReplaceAll(b, x, y);
    assert forall k :: 0 <= k < |l| ==> l[k] == r[k] by {
      forall k | 0 <= k < |l| ensures l[k] == r[k] {
        if k < |a| {
          assert (a + b)[k] == a[k];
        } else {
          assert (a + b)[k] == b[k - |a|];
        }
      }
    }
  }

  predicate IsAsciiUpper(c: char) { 'A' <= c <= 'Z' }

  const UpperAlphabet := "ABCDEFGHIJKLMNOPQRSTUVWXYZ"
  const LowerAlphabet := "abcdefghijklmnopqrstuvwxyz"

  /** `c.toLowerCase()` on ASCII letters: the letter at the same place of the
      lower-case alphabet. */
  function ToLowerAscii(c: char): (r: char)
    ensures IsAsciiUpper(c) ==> UpperAlphabet[c as int - 'A' as int] == c && r == LowerAlphabet[c as int - 'A' as int]
    ensures !IsAsciiUpper(c) ==> r == c
  {
    if IsAsciiUpper(c) then (c as int + 32) as char else c
  }

  /** Lower-casing never yields an upper-case letter, and leaves a
      lower-cased character alone. */
  lemma ToLowerAsciiIdempotent(c: char)
    ensures !IsAsciiUpper(ToLowerAscii(c))
    ensures ToLowerAscii(ToLowerAscii(c)) == ToLowerAscii(c)
  {
  }

  /** `s.charAt(0).toLowerCase() + s.slice(1)`. */
  function LowerFirst(s: string): (r: string)
    ensures |r| == |s|
    ensures |s| > 0 ==> r[0] == ToLowerAscii(s[0]) && r[1..] == s[1..]
  {
    if s == [] then [] else [ToLowerAscii(s[0])] + s[1..]
  }

  /** The result never starts with an upper-case letter, and applying it
      twice is the same as once. */
  lemma LowerFirstIdempotent(s: string)
    ensures |s| > 0 ==> !IsAsciiUpper(LowerFirst(s)[0])
    ensures LowerFirst(LowerFirst(s)) == LowerFirst(s)
  {
    if |s| > 0 {
      ToLowerAsciiIdempotent(s[0]);
      var r := LowerFirst(s);
      assert r == [r[0]] + r[1..];
    }
  }
}

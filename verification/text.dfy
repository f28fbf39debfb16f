/** The pieces of Go's `strings` package the service relies on: `Index`,
    `ReplaceAll` (for a non-empty pattern) and `HasPrefix`, with `Split` and
    `Join` as the reference that explains what a replace-all does. */
module Text {
  import opened Types

  /** `pat` occurs in `s` starting at offset `i`. */
  predicate OccursAt(s: string, pat: string, i: nat) {
    i + |pat| <= |s| && s[i..i + |pat|] == pat
  }

  ghost predicate Contains(s: string, pat: string) {
    exists i: nat :: OccursAt(s, pat, i)
  }

  lemma OccursAtTail(s: string, pat: string, j: nat)
    requires |s| > 0
    ensures OccursAt(s, pat, j + 1) <==> OccursAt(s[1..], pat, j)
  {
    if j + 1 + |pat| <= |s| {
      assert s[j + 1..j + 1 + |pat|] == s[1..][j..j + |pat|];
    }
  }

  /** `strings.Index`: the leftmost occurrence of `pat` in `s`. */
  function Index(s: string, pat: string): (r: Option<nat>)
    requires |pat| > 0
    ensures r.Some? ==> OccursAt(s, pat, r.value)
    ensures r.Some? ==> forall j: nat :: j < r.value ==> !OccursAt(s, pat, j)
    ensures r.None? <==> !Contains(s, pat)
    decreases |s|
  {
    if |s| < |pat| then
      assert forall j: nat :: !OccursAt(s, pat, j);
      None
    else if pat <= s then
      assert s[0..|pat|] == pat;
      assert OccursAt(s, pat, 0);
      Some(0)
    else
      assert !OccursAt(s, pat, 0) by { assert s[..|pat|] == s[0..|pat|]; }
      forall j: nat ensures OccursAt(s, pat, j + 1) <==> OccursAt(s[1..], pat, j) {
        OccursAtTail(s, pat, j);
      }
      match Index(s[1..], pat)
      case None =>
        assert forall j: nat :: !OccursAt(s, pat, j) by {
          forall j: nat ensures !OccursAt(s, pat, j) {
            if j > 0 { assert !OccursAt(s[1..], pat, j - 1); }
          }
        }
        assert !Contains(s, pat);
        None
      case Some(i) =>
        assert forall j: nat :: j < i + 1 ==> !OccursAt(s, pat, j) by {
          forall j: nat | j < i + 1 ensures !OccursAt(s, pat, j) {
            if j > 0 { assert !OccursAt(s[1..], pat, j - 1); }
          }
        }
        assert OccursAt(s, pat, i + 1);
        Some(i + 1)
  }

  /** `strings.ReplaceAll(s, target, repl)` for a non-empty `target`: find the leftmost
      occurrence, copy what precedes it, write `repl`, and carry on after the
      occurrence. */
  function ReplaceAll(s: string, target: string, repl: string): (r: string)
    requires |target| > 0
    ensures !Contains(s, target) ==> r == s
    decreases |s|
  {
    match Index(s, target)
    case None => s
    case Some(i) => s[..i] + repl + ReplaceAll(s[i + |target|..], target, repl)
  }

  /** `strings.Split(s, sep)` for a non-empty `sep`: the text between
      successive leftmost non-overlapping occurrences of `sep`. */
  function Split(s: string, sep: string): (parts: seq<string>)
    requires |sep| > 0
    ensures |parts| > 0
    decreases |s|
  {
    match Index(s, sep)
    case None => [s]
    case Some(i) => [s[..i]] + Split(s[i + |sep|..], sep)
  }

  /** `strings.Join`. */
  function Join(parts: seq<string>, sep: string): string
    decreases |parts|
  {
    if |parts| == 0 then ""
    else if |parts| == 1 then parts[0]
    else parts[0] + sep + Join(parts[1..], sep)
  }

  lemma JoinCons(head: string, parts: seq<string>, sep: string)
    requires |parts| > 0
    ensures Join([head] + parts, sep) == head + sep + Join(parts, sep)
  {
    assert ([head] + parts)[1..] == parts;
  }

  /** The text before the leftmost occurrence holds no occurrence. */
  lemma HeadFree(s: string, sep: string, i: nat)
    requires |sep| > 0 && Index(s, sep) == Some(i)
    ensures !Contains(s[..i], sep)
  {
    var head := s[..i];
    forall j: nat | OccursAt(head, sep, j) ensures false {
      assert head[j..j + |sep|] == s[j..j + |sep|];
      assert OccursAt(s, sep, j);
    }
  }

  /** The text is the part before the leftmost occurrence, the separator, and
      the rest. */
  lemma CutAt(s: string, sep: string, i: nat)
    requires |sep| > 0 && Index(s, sep) == Some(i)
    ensures s == s[..i] + sep + s[i + |sep|..]
    ensures Split(s, sep) == [s[..i]] + Split(s[i + |sep|..], sep)
  {
    assert s[i..i + |sep|] == sep;
    assert s == s[..i] + s[i..i + |sep|] + s[i + |sep|..];
  }

  /** Cutting at every occurrence and gluing back with the separator gives the
      original text. */
  lemma {:induction false} JoinSplit(s: string, sep: string)
    requires |sep| > 0
    ensures Join(Split(s, sep), sep) == s
    decreases |s|
  {
    match Index(s, sep)
    case None =>
    case Some(i) =>
      var rest := s[i + |sep|..];
      JoinSplit(rest, sep);
      CutAt(s, sep, i);
      JoinCons(s[..i], Split(rest, sep), sep);
  }

  /** No piece of a split contains the separator: every occurrence was cut. */
  lemma {:induction false} SplitPiecesFree(s: string, sep: string)
    requires |sep| > 0
    ensures forall k :: 0 <= k < |Split(s, sep)| ==> !Contains(Split(s, sep)[k], sep)
    decreases |s|
  {
    match Index(s, sep)
    case None =>
    case Some(i) =>
      var rest := s[i + |sep|..];
      SplitPiecesFree(rest, sep);
      HeadFree(s, sep, i);
      CutAt(s, sep, i);
      var parts := Split(s, sep);
      var tail := Split(rest, sep);
      forall k | 0 <= k < |parts| ensures !Contains(parts[k], sep) {
        if k > 0 {
          assert parts[k] == tail[k - 1];
        }
      }
  }

  /** Replace-all is a split on `target` joined with `repl`: every occurrence found
      by a left-to-right scan is replaced, and nothing else changes. */
  lemma {:induction false} ReplaceAllIsSplitJoin(s: string, target: string, repl: string)
    requires |target| > 0
    ensures ReplaceAll(s, target, repl) == Join(Split(s, target), repl)
    decreases |s|
  {
    match Index(s, target)
    case None =>
    case Some(i) =>
      var rest := s[i + |target|..];
      ReplaceAllIsSplitJoin(rest, target, repl);
      CutAt(s, target, i);
      JoinCons(s[..i], Split(rest, target), repl);
  }

  /** Replacing a pattern by itself changes nothing. */
  lemma {:induction false} ReplaceAllSelf(s: string, target: string)
    requires |target| > 0
    ensures ReplaceAll(s, target, target) == s
  {
    ReplaceAllIsSplitJoin(s, target, target);
    JoinSplit(s, target);
  }
}

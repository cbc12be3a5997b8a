/**
 * The parts of Python's `str` that app.py relies on, on `string = seq<char>`:
 * `str.split(sep)`, `sep.join(xs)` and `str.replace(old, new)`. Split and
 * replace are built on this model's own leftmost search `Find` and membership
 * test `Contains`; both scan from the left and take occurrences without
 * overlap, as CPython does. The separator or pattern
 * is never empty here: app.py only passes non-empty constants.
 */
module Strings {
  import opened Wrappers

  /** `pat` occurs in `s` starting at index `j`. */
  predicate OccursAt(s: string, pat: string, j: nat) {
    j + |pat| <= |s| && s[j..j + |pat|] == pat
  }

  /** `pat` occurs somewhere in `s` (Python's `pat in s`). */
  predicate Contains(s: string, pat: string) {
    exists j: nat | j <= |s| :: OccursAt(s, pat, j)
  }

  /** Moving the start of `s` by one moves every occurrence by one. */
  lemma OccursAtShift(s: string, pat: string, j: nat)
    requires |s| > 0
    ensures OccursAt(s, pat, j + 1) == OccursAt(s[1..], pat, j)
  {
    if j + 1 + |pat| <= |s| {
      assert s[1..][j..j + |pat|] == s[j + 1..j + 1 + |pat|];
    }
  }

  /** The index of the leftmost occurrence of `pat` in `s` (Python's `s.find(pat)`, None for -1). */
  function Find(s: string, pat: string): (r: Option<nat>)
    requires pat != []
    ensures r.Some? ==> r.value + |pat| <= |s|
    decreases |s|
  {
    if |s| < |pat| then None
    else if s[..|pat|] == pat then Some(0)
    else match Find(s[1..], pat)
      case Some(i) => Some(i + 1)
      case None => None
  }

  /** Find returns an occurrence, the leftmost one, and returns None exactly when there is none. */
  lemma {:induction false} FindLeftmostOccurrence(s: string, pat: string)
    requires pat != []
    ensures Find(s, pat).Some? ==> OccursAt(s, pat, Find(s, pat).value)
    ensures Find(s, pat).Some? ==> forall j: nat :: j < Find(s, pat).value ==> !OccursAt(s, pat, j)
    ensures Find(s, pat).None? <==> !Contains(s, pat)
    decreases |s|
  {
    if |s| < |pat| {
    } else if s[..|pat|] == pat {
      assert OccursAt(s, pat, 0);
    } else {
      FindLeftmostOccurrence(s[1..], pat);
      forall j: nat | 0 < j ensures OccursAt(s, pat, j) == OccursAt(s[1..], pat, j - 1) {
        OccursAtShift(s, pat, j - 1);
      }
      assert !OccursAt(s, pat, 0);
      match Find(s[1..], pat)
      case Some(i) =>
        assert OccursAt(s[1..], pat, i);
      case None =>
    }
  }

  /** Find is determined by its contract: the leftmost occurrence is unique. */
  lemma FindLeftmost(s: string, pat: string, i: nat)
    requires pat != []
    requires OccursAt(s, pat, i)
    requires forall j: nat :: j < i ==> !OccursAt(s, pat, j)
    ensures Find(s, pat) == Some(i)
  {
    FindLeftmostOccurrence(s, pat);
  }

  /** Python's `s.split(sep)`: the pieces between the occurrences of `sep`, found leftmost first. */
  function Split(s: string, sep: string): (r: seq<string>)
    requires sep != []
    ensures |r| >= 1
    decreases |s|
  {
    match Find(s, sep)
    case None => [s]
    case Some(i) => [s[..i]] + Split(s[i + |sep|..], sep)
  }

  /** Python's `sep.join(xs)`: the entries of `xs` with `sep` between neighbours. */
  function Join(xs: seq<string>, sep: string): (joined: string)
    decreases |xs|
  {
    if |xs| == 0 then ""
    else if |xs| == 1 then xs[0]
    else xs[0] + sep + Join(xs[1..], sep)
  }

  /**
   * Python's `s.replace(pat, repl)`: the leftmost occurrence of `pat` becomes
   * `repl` and the scan goes on right after it, so every occurrence is replaced.
   */
  function Replace(s: string, pat: string, repl: string): (replaced: string)
    requires pat != []
    decreases |s|
  {
    match Find(s, pat)
    case None => s
    case Some(i) => s[..i] + repl + Replace(s[i + |pat|..], pat, repl)
  }

  /** Total number of characters in the entries of `xs`. */
  function TotalLength(xs: seq<string>): (total: nat)
    decreases |xs|
  {
    if xs == [] then 0 else |xs[0]| + TotalLength(xs[1..])
  }

  /** Split has a second piece exactly when the separator occurs. */
  lemma SplitHasTwoPieces(s: string, sep: string)
    requires sep != []
    ensures |Split(s, sep)| >= 2 <==> Contains(s, sep)
  {
    FindLeftmostOccurrence(s, sep);
  }

  /** A string without `sep` splits into itself alone. */
  lemma SplitWithoutSeparator(s: string, sep: string)
    requires sep != [] && !Contains(s, sep)
    ensures Split(s, sep) == [s]
  {
    FindLeftmostOccurrence(s, sep);
  }

  /** A string without `pat` is left unchanged by Replace. */
  lemma ReplaceWithoutPattern(s: string, pat: string, repl: string)
    requires pat != [] && !Contains(s, pat)
    ensures Replace(s, pat, repl) == s
  {
    FindLeftmostOccurrence(s, pat);
  }

  /** Python's identity `s.replace(pat, repl) == repl.join(s.split(pat))`. */
  lemma {:induction false} ReplaceIsJoinOfSplit(s: string, pat: string, repl: string)
    requires pat != []
    ensures Replace(s, pat, repl) == Join(Split(s, pat), repl)
    decreases |s|
  {
    match Find(s, pat)
    case None =>
    case Some(i) =>
      var after := s[i + |pat|..];
      ReplaceIsJoinOfSplit(after, pat, repl);
      var pieces := Split(after, pat);
      assert Split(s, pat) == [s[..i]] + pieces;
      assert ([s[..i]] + pieces)[1..] == pieces;
  }

  /** The pieces of a split, joined by the separator again, give back the string. */
  lemma {:induction false} SplitJoinBack(s: string, sep: string)
    requires sep != []
    ensures Join(Split(s, sep), sep) == s
    decreases |s|
  {
    match Find(s, sep)
    case None =>
    case Some(i) =>
      var after := s[i + |sep|..];
      var pieces := Split(after, sep);
      assert s[i..i + |sep|] == sep by {
        FindLeftmostOccurrence(s, sep);
      }
      assert Join(Split(s, sep), sep) == s[..i] + sep + Join(pieces, sep) by {
        assert Split(s, sep) == [s[..i]] + pieces;
        assert ([s[..i]] + pieces)[1..] == pieces;
      }
      SplitJoinBack(after, sep);
      assert s == s[..i] + s[i..i + |sep|] + after;
  }

  /** The text before the leftmost occurrence holds no occurrence of its own. */
  lemma BeforeFirstHasNone(s: string, sep: string, i: nat)
    requires sep != [] && Find(s, sep) == Some(i)
    ensures !Contains(s[..i], sep)
  {
    FindLeftmostOccurrence(s, sep);
    forall j: nat | j + |sep| <= i ensures !OccursAt(s[..i], sep, j) {
      assert j < i;
      assert !OccursAt(s, sep, j);
      assert s[..i][j..j + |sep|] == s[j..j + |sep|];
    }
  }

  /**
   * No piece of a split holds the separator. When the separator cannot overlap
   * itself, this and SplitJoinBack say the pieces are `s` cut at every
   * occurrence; a self-overlapping separator (`"aa"` in `"aaaa"`) admits other
   * cuttings, and the leftmost `Find` picks the one CPython makes.
   */
  lemma {:induction false} SplitPiecesHoldNoSeparator(s: string, sep: string)
    requires sep != []
    ensures forall k :: 0 <= k < |Split(s, sep)| ==> !Contains(Split(s, sep)[k], sep)
    decreases |s|
  {
    FindLeftmostOccurrence(s, sep);
    match Find(s, sep)
    case None =>
    case Some(i) =>
      var pieces := Split(s[i + |sep|..], sep);
      SplitPiecesHoldNoSeparator(s[i + |sep|..], sep);
      BeforeFirstHasNone(s, sep, i);
      assert Split(s, sep) == [s[..i]] + pieces;
      forall k | 0 <= k < |Split(s, sep)| ensures !Contains(Split(s, sep)[k], sep) {
        if k > 0 {
          assert Split(s, sep)[k] == pieces[k - 1];
        }
      }
  }

  /**
   * Each of the n occurrences Replace finds (one per gap between split pieces)
   * trades |pat| characters for |repl| characters.
   */
  lemma {:induction false} ReplaceLength(s: string, pat: string, repl: string)
    requires pat != []
    ensures |Replace(s, pat, repl)| + (|Split(s, pat)| - 1) * |pat| ==
      |s| + (|Split(s, pat)| - 1) * |repl|
    decreases |s|
  {
    match Find(s, pat)
    case None =>
    case Some(i) =>
      var after := s[i + |pat|..];
      var n := |Split(after, pat)| - 1;
      assert |Split(s, pat)| - 1 == n + 1;
      assert |Replace(s, pat, repl)| == i + |repl| + |Replace(after, pat, repl)|;
      assert |s| == i + |pat| + |after|;
      ReplaceLength(after, pat, repl);
      MulSucc(n, |pat|);
      MulSucc(n, |repl|);
  }

  /** One more factor of m. */
  lemma MulSucc(n: int, m: int)
    ensures (n + 1) * m == n * m + m
  {
  }

  /** Appending one entry appends the separator and the entry. */
  lemma {:induction false} JoinAppend(xs: seq<string>, x: string, sep: string)
    requires |xs| >= 1
    ensures Join(xs + [x], sep) == Join(xs, sep) + sep + x
    decreases |xs|
  {
    if |xs| == 1 {
      assert (xs + [x])[1..] == [x];
    } else {
      JoinAppend(xs[1..], x, sep);
      assert (xs + [x])[1..] == xs[1..] + [x];
    }
  }

  /** A join of n entries holds their characters and exactly n - 1 separators. */
  lemma {:induction false} JoinLength(xs: seq<string>, sep: string)
    requires |xs| >= 1
    ensures |Join(xs, sep)| == TotalLength(xs) + (|xs| - 1) * |sep|
    decreases |xs|
  {
    if |xs| > 1 {
      JoinLength(xs[1..], sep);
    }
  }

  /** A string without the character `c` holds no occurrence of `[c]`. */
  lemma NoCharNoOccurrence(s: string, c: char)
    requires c !in s
    ensures !Contains(s, [c])
  {
    forall j: nat | j + 1 <= |s| ensures !OccursAt(s, [c], j) {
      assert s[j] in s;
      assert s[j..j + 1] == [s[j]];
    }
  }

  /** A string that lacks one of the characters of `pat` does not contain `pat`. */
  lemma MissingCharNotContained(s: string, pat: string, k: nat)
    requires k < |pat| && pat[k] !in s
    ensures !Contains(s, pat)
  {
    forall j: nat | j + |pat| <= |s| ensures !OccursAt(s, pat, j) {
      assert s[j..j + |pat|][k] == s[j + k];
      assert s[j + k] in s;
    }
  }

  /**
   * Splitting a join on a one-character separator gives the entries back,
   * when no entry holds that character.
   */
  lemma {:induction false} SplitJoinOneChar(xs: seq<string>, c: char)
    requires |xs| >= 1
    requires forall i :: 0 <= i < |xs| ==> c !in xs[i]
    ensures Split(Join(xs, [c]), [c]) == xs
    decreases |xs|
  {
    if |xs| == 1 {
      NoCharNoOccurrence(xs[0], c);
      SplitWithoutSeparator(xs[0], [c]);
    } else {
      var s := Join(xs, [c]);
      var tail := Join(xs[1..], [c]);
      var n := |xs[0]|;
      assert s == xs[0] + [c] + tail;
      assert OccursAt(s, [c], n) by {
        assert s[n..n + 1] == [c];
      }
      forall j: nat | j < n ensures !OccursAt(s, [c], j) {
        assert s[j] == xs[0][j];
      }
      FindLeftmost(s, [c], n);
      assert s[..n] == xs[0];
      assert s[n + 1..] == tail;
      SplitJoinOneChar(xs[1..], c);
    }
  }
}

/**
 * The JavaScript string operations the converter and the app rely on,
 * over strings as sequences of characters:
 * `includes`, `replace` with a string pattern (first occurrence only),
 * `replace` with a global literal pattern and an empty replacement,
 * `toLowerCase` and `trim`.
 */
module Strings {
  import opened Optional

  /** `p` occurs in `s` starting at index `i`. */
  predicate OccursAt(s: string, p: string, i: nat) {
    i + |p| <= |s| && s[i..i + |p|] == p
  }


  /**
   * The first index at or after `k` where `p` occurs in `s`
   * (`s.indexOf(p, k)`, with None for -1).
   */
  function IndexFrom(s: string, p: string, k: nat): (r: Option<nat>)
    decreases |s| - k
    ensures r.Some? ==> k <= r.value && OccursAt(s, p, r.value)
    ensures r.Some? ==> forall j: nat :: k <= j < r.value ==> !OccursAt(s, p, j)
    ensures r.None? ==> forall j: nat :: k <= j ==> !OccursAt(s, p, j)
  {
    if |s| < k + |p| then None
    else if OccursAt(s, p, k) then Some(k)
    else IndexFrom(s, p, k + 1)
  }

  /** `s.includes(p)`. */
  predicate Contains(s: string, p: string) {
    exists i :: 0 <= i <= |s| - |p| && OccursAt(s, p, i)
  }

  /** An occurrence of `p` inside a piece of `s` is an occurrence in `s`. */
  lemma ContainsTransitive(s: string, r: string, p: string)
    requires Contains(s, r) && Contains(r, p)
    ensures Contains(s, p)
  {
    var i :| 0 <= i <= |s| - |r| && OccursAt(s, r, i);
    var j :| 0 <= j <= |r| - |p| && OccursAt(r, p, j);
    forall k | 0 <= k < |p|
      ensures s[i + j..i + j + |p|][k] == p[k]
    {
      assert p[k] == r[j + k] == s[i..i + |r|][j + k];
    }
    assert OccursAt(s, p, i + j);
  }

  /** A string that contains a non-empty pattern contains the pattern's first character. */
  lemma ContainsHead(s: string, p: string)
    requires |p| > 0 && Contains(s, p)
    ensures p[0] in s
  {
    var i :| 0 <= i <= |s| - |p| && OccursAt(s, p, i);
    assert s[i] == s[i..i + |p|][0];
  }

  /**
   * `s.replace(p, rep)` with a string pattern: only the first occurrence
   * of `p` is replaced; without an occurrence `s` comes back unchanged.
   */
  function ReplaceFirst(s: string, p: string, rep: string): (r: string)
    ensures !Contains(s, p) ==> r == s
    ensures Contains(s, p) ==>
      exists i: nat :: OccursAt(s, p, i) && (forall j: nat :: j < i ==> !OccursAt(s, p, j))
        && r == s[..i] + rep + s[i + |p|..]
  {
    match IndexFrom(s, p, 0)
    case None =>
      s
    case Some(i) =>
      s[..i] + rep + s[i + |p|..]
  }

  /**
   * `s.replace(/p/g, '')` for a literal, non-empty pattern: occurrences are
   * found from left to right, do not overlap, and are deleted.
   */
  function RemoveAll(s: string, p: string): string
    requires |p| > 0
    decreases |s|
  {
    if |s| < |p| then s
    else if s[..|p|] == p then RemoveAll(s[|p|..], p)
    else [s[0]] + RemoveAll(s[1..], p)
  }

  /** Deleting a pattern that does not occur changes nothing. */
  lemma {:induction false} RemoveAllAbsent(s: string, p: string)
    requires |p| > 0 && !Contains(s, p)
    ensures RemoveAll(s, p) == s
    decreases |s|
  {
    if |s| >= |p| {
      assert !OccursAt(s, p, 0);
      if Contains(s[1..], p) {
        var i :| 0 <= i <= |s[1..]| - |p| && OccursAt(s[1..], p, i);
        assert s[i + 1..i + 1 + |p|] == s[1..][i..i + |p|];
        assert OccursAt(s, p, i + 1);
      }
      RemoveAllAbsent(s[1..], p);
    }
  }

  /** The markdown code fence. */
  const Fence: string := "```"

  /** Three backticks start at index `i` of `s`. */
  predicate FenceAt(s: string, i: nat) {
    i + 3 <= |s| && s[i] == '`' && s[i + 1] == '`' && s[i + 2] == '`'
  }

  /** No three consecutive backticks anywhere in `s`. */
  ghost predicate FenceFree(s: string) {
    forall i: nat :: !FenceAt(s, i)
  }

  lemma FenceAtIsOccurrence(s: string, i: nat)
    ensures FenceAt(s, i) <==> OccursAt(s, Fence, i)
  {
    if i + 3 <= |s| {
      assert s[i..i + 3] == [s[i], s[i + 1], s[i + 2]];
    }
  }

  lemma FenceFreeIsNoFence(s: string)
    ensures FenceFree(s) <==> !Contains(s, Fence)
  {
    if !FenceFree(s) {
      var i: nat :| FenceAt(s, i);
      FenceAtIsOccurrence(s, i);
    }
    if Contains(s, Fence) {
      var i :| 0 <= i <= |s| - 3 && OccursAt(s, Fence, i);
      FenceAtIsOccurrence(s, i);
    }
  }

  /** When `s` does not start with `p`, deleting `p` keeps the first character. */
  lemma RemoveAllKeepsHead(s: string, p: string)
    requires |p| > 0 && |s| > 0 && !OccursAt(s, p, 0)
    ensures |RemoveAll(s, p)| > 0 && RemoveAll(s, p)[0] == s[0]
  {
  }

  /**
   * After `RemoveAll(s, Fence)` the text is fence-free: a run of k backticks
   * is cut down to k mod 3, and the characters separating runs stay put.
   */
  lemma {:induction false} RemoveFencesLeavesNone(s: string)
    ensures FenceFree(RemoveAll(s, Fence))
    decreases |s|
  {
    if |s| < 3 {
    } else if s[..3] == Fence {
      RemoveFencesLeavesNone(s[3..]);
    } else {
      var rest := RemoveAll(s[1..], Fence);
      RemoveFencesLeavesNone(s[1..]);
      assert !(s[0] == '`' && s[1] == '`' && s[2] == '`') by {
        assert s[..3] == [s[0], s[1], s[2]];
      }
      // `rest` cannot start with two backticks when s[0] is one.
      if s[0] == '`' && |rest| >= 2 {
        FenceAtIsOccurrence(s[1..], 0);
        RemoveAllKeepsHead(s[1..], Fence);
        if s[1] == '`' {
          FenceAtIsOccurrence(s[2..], 0);
          RemoveAllKeepsHead(s[2..], Fence);
          assert rest == [s[1]] + RemoveAll(s[2..], Fence);
        }
      }
      var r := [s[0]] + rest;
      assert RemoveAll(s, Fence) == r;
      forall i: nat
        ensures !FenceAt(r, i)
      {
        if i > 0 && FenceAt(r, i) {
          assert FenceAt(rest, i - 1);
        }
      }
    }
  }

  /** ASCII letters are lowered; every other character stays as it is. */
  function LowerChar(c: char): char {
    if 'A' <= c <= 'Z' then (c as int + 32) as char else c
  }

  /**
   * `s.toLowerCase()` on the ASCII letters. For the patterns the classifier
   * looks for this agrees with full Unicode lowering: no non-ASCII character
   * lowers to one of their letters, digits or the space.
   */
  function Lower(s: string): (r: string)
    ensures |r| == |s|
    ensures forall i :: 0 <= i < |s| ==> r[i] == LowerChar(s[i])
  {
    seq(|s|, i requires 0 <= i < |s| => LowerChar(s[i]))
  }

  /** A string without upper-case ASCII letters is its own lower case. */
  lemma LowerNoUpper(s: string)
    requires forall i :: 0 <= i < |s| ==> !('A' <= s[i] <= 'Z')
    ensures Lower(s) == s
  {
  }

  /**
   * Lower-casing leaves no upper-case ASCII letter, and lower-casing a
   * lower-cased string changes nothing more.
   */
  lemma LowerLeavesNoCapital(s: string)
    ensures forall i :: 0 <= i < |Lower(s)| ==> !('A' <= Lower(s)[i] <= 'Z')
    ensures Lower(Lower(s)) == Lower(s)
  {
    LowerNoUpper(Lower(s));
  }

  /**
   * The characters `String.prototype.trim` removes: ECMAScript WhiteSpace
   * (tab, vertical tab, form feed, space, no-break space, the byte-order
   * mark and the other space separators) and LineTerminator.
   */
  predicate IsSpace(c: char) {
    || c == '\t' || c == '\U{000B}' || c == '\U{000C}' || c == ' ' || c == '\U{00A0}'
    || c == '\U{FEFF}' || c == '\U{1680}' || ('\U{2000}' <= c <= '\U{200A}')
    || c == '\U{202F}' || c == '\U{205F}' || c == '\U{3000}'
    || c == '\n' || c == '\r' || c == '\U{2028}' || c == '\U{2029}'
  }

  /** Neither end of `s` is a whitespace character. */
  predicate Trimmed(s: string) {
    s == [] || (!IsSpace(s[0]) && !IsSpace(s[|s| - 1]))
  }

  /** `s.trimStart()`: drops the leading whitespace. */
  function TrimStart(s: string): string
    decreases |s|
  {
    if |s| > 0 && IsSpace(s[0]) then TrimStart(s[1..]) else s
  }

  /** What `TrimStart` leaves is a suffix of `s`, everything before it is whitespace and it does not start with whitespace. */
  lemma {:induction false} TrimStartSpec(s: string)
    ensures var r := TrimStart(s);
      && |r| <= |s| && r == s[|s| - |r|..]
      && (forall i :: 0 <= i < |s| - |r| ==> IsSpace(s[i]))
      && (r == [] || !IsSpace(r[0]))
    decreases |s|
  {
    if |s| > 0 && IsSpace(s[0]) {
      TrimStartSpec(s[1..]);
    }
  }

  /** `s.trimEnd()`: drops the trailing whitespace. */
  function TrimEnd(s: string): string
    decreases |s|
  {
    if |s| > 0 && IsSpace(s[|s| - 1]) then TrimEnd(s[..|s| - 1]) else s
  }

  /** What `TrimEnd` leaves is a prefix of `s`, everything after it is whitespace and it does not end with whitespace. */
  lemma {:induction false} TrimEndSpec(s: string)
    ensures var r := TrimEnd(s);
      && |r| <= |s| && r == s[..|r|]
      && (forall i :: |r| <= i < |s| ==> IsSpace(s[i]))
      && (r == [] || !IsSpace(r[|r| - 1]))
    decreases |s|
  {
    if |s| > 0 && IsSpace(s[|s| - 1]) {
      TrimEndSpec(s[..|s| - 1]);
    }
  }

  /** `s.trim()`. */
  function Trim(s: string): string {
    TrimEnd(TrimStart(s))
  }

  /**
   * `Trim(s)` is a piece of `s` with no whitespace at either end, everything
   * around it in `s` being whitespace; an already trimmed string is kept.
   */
  lemma TrimSpec(s: string)
    ensures var r := Trim(s);
      && Trimmed(r)
      && Contains(s, r)
      && (Trimmed(s) ==> r == s)
  {
    var t := TrimStart(s);
    var r := TrimEnd(t);
    TrimStartSpec(s);
    TrimEndSpec(t);
    assert OccursAt(s, r, |s| - |t|) by {
      assert s[|s| - |t|..|s| - |t| + |r|] == t[..|r|];
    }
    assert r != [] ==> r[0] == t[0];
  }
}

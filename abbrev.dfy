/** The abbreviation test `is_abbrev(x, y)` of the aliased click group: `x`
    abbreviates `y` when both start with the same character and the characters
    of `x` occur in `y` in order (a subsequence, not a substring). */
module Abbreviation {

  /** In-order containment, read greedily: each character of `x` consumes the
      first unconsumed character of `y` equal to it. */
  predicate IsSubsequence(x: string, y: string)
  {
    if x == [] then true
    else if y == [] then false
    else if x[0] == y[0] then IsSubsequence(x[1..], y[1..])
    else IsSubsequence(x, y[1..])
  }

  /** An independent reading of "in order": `idx` picks, for every character of
      `x`, a position of `y` holding that character, positions strictly
      increasing. */
  ghost predicate IsEmbedding(idx: seq<nat>, x: string, y: string)
  {
    && |idx| == |x|
    && (forall k :: 0 <= k < |idx| ==> idx[k] < |y| && y[idx[k]] == x[k])
    && (forall j, k :: 0 <= j < k < |idx| ==> idx[j] < idx[k])
  }

  ghost predicate Embeds(x: string, y: string)
  {
    exists idx :: IsEmbedding(idx, x, y)
  }

  /** The abbreviation relation; both strings must be non-empty because the
      source reads their first characters. */
  predicate IsAbbrev(x: string, y: string)
  {
    x != [] && y != [] && x[0] == y[0] && IsSubsequence(x, y)
  }

  ghost function Shift(idx: seq<nat>): (r: seq<nat>)
    ensures |r| == |idx| && forall k :: 0 <= k < |idx| ==> r[k] == idx[k] + 1
  {
    seq(|idx|, k requires 0 <= k < |idx| => idx[k] + 1)
  }

  ghost function Unshift(idx: seq<nat>): (r: seq<nat>)
    ensures |r| == |idx| && forall k :: 0 <= k < |idx| && idx[k] > 0 ==> r[k] == idx[k] - 1
  {
    seq(|idx|, k requires 0 <= k < |idx| => if idx[k] > 0 then idx[k] - 1 else 0)
  }

  /** Greedy matching finds an embedding whenever it succeeds. */
  lemma {:induction false} SubsequenceEmbeds(x: string, y: string) returns (idx: seq<nat>)
    requires IsSubsequence(x, y)
    ensures IsEmbedding(idx, x, y)
  {
    if x == [] {
      idx := [];
    } else if x[0] == y[0] {
      var rest := SubsequenceEmbeds(x[1..], y[1..]);
      idx := [0] + Shift(rest);
    } else {
      var rest := SubsequenceEmbeds(x, y[1..]);
      idx := Shift(rest);
    }
  }

  /** Greedy matching never misses: if any embedding exists, it succeeds. */
  lemma {:induction false} EmbeddingIsSubsequence(x: string, y: string, idx: seq<nat>)
    requires IsEmbedding(idx, x, y)
    ensures IsSubsequence(x, y)
    decreases |y|
  {
    if x != [] {
      assert idx[0] < |y|;
      if x[0] == y[0] {
        var rest := Unshift(idx[1..]);
        forall k | 0 <= k < |rest|
          ensures rest[k] < |y[1..]| && y[1..][rest[k]] == x[1..][k]
        {
          assert idx[0] < idx[k + 1];
        }
        forall j, k | 0 <= j < k < |rest|
          ensures rest[j] < rest[k]
        {
          assert idx[0] < idx[j + 1] < idx[k + 1];
        }
        EmbeddingIsSubsequence(x[1..], y[1..], rest);
      } else {
        assert idx[0] != 0;
        var rest := Unshift(idx);
        forall k | 0 <= k < |rest|
          ensures idx[k] > 0 && rest[k] < |y[1..]| && y[1..][rest[k]] == x[k]
        {
          if k > 0 {
            assert idx[0] < idx[k];
          }
        }
        forall j, k | 0 <= j < k < |rest|
          ensures rest[j] < rest[k]
        {
          assert idx[j] > 0 by {
            if j > 0 {
              assert idx[0] < idx[j];
            }
          }
        }
        EmbeddingIsSubsequence(x, y[1..], rest);
      }
    }
  }

  /** `is_abbrev(x, y)` is false when the first characters differ, and otherwise
      holds exactly when `x` occurs in `y` in order. */
  lemma IsAbbrevCharacterization(x: string, y: string)
    requires x != [] && y != []
    ensures x[0] != y[0] ==> !IsAbbrev(x, y)
    ensures x[0] == y[0] ==> (IsAbbrev(x, y) <==> Embeds(x, y))
  {
    if IsSubsequence(x, y) {
      var idx := SubsequenceEmbeds(x, y);
    }
    if Embeds(x, y) {
      var idx :| IsEmbedding(idx, x, y);
      EmbeddingIsSubsequence(x, y, idx);
    }
  }

  /** `is_abbrev` as the source runs it: after the first-character test, one
      cursor `j` walks `y` once; for each character of `x` it advances past the
      first equal character (`any(c == ch for c in it)`), and the whole test
      fails as soon as the cursor runs off the end. */
  method IsAbbrevScan(x: string, y: string) returns (b: bool)
    requires x != [] && y != []
    ensures b == IsAbbrev(x, y)
  {
    if x[0] != y[0] {
      return false;
    }
    var i, j := 0, 0;
    while i < |x|
      invariant 0 <= i <= |x| && 0 <= j <= |y|
      invariant IsSubsequence(x, y) == IsSubsequence(x[i..], y[j..])
    {
      var found := false;
      while !found && j < |y|
        invariant 0 <= j <= |y|
        invariant !found ==> IsSubsequence(x, y) == IsSubsequence(x[i..], y[j..])
        invariant found ==> IsSubsequence(x, y) == IsSubsequence(x[i + 1..], y[j..])
        decreases |y| - j
      {
        assert x[i..][1..] == x[i + 1..] && y[j..][1..] == y[j + 1..];
        found := y[j] == x[i];
        j := j + 1;
      }
      if !found {
        return false;
      }
      i := i + 1;
    }
    return true;
  }

  /** `x` occurs contiguously in `y` starting at position `k`. */
  predicate OccursAt(x: string, y: string, k: int)
  {
    0 <= k && k + |x| <= |y| && y[k..k + |x|] == x
  }

  /** "dp" abbreviates "deploy" though it is not a substring of it. */
  lemma SubsequenceNotSubstring()
    ensures IsAbbrev("dp", "deploy")
    ensures forall k :: !OccursAt("dp", "deploy", k)
  {
    assert IsSubsequence("p", "eploy") by {
      assert IsSubsequence("p", "ploy");
    }
  }

  /** In-order containment alone is not enough: the first characters must agree. */
  lemma FirstCharacterRequired()
    ensures IsSubsequence("ab", "cab") && !IsAbbrev("ab", "cab")
  {
    assert IsSubsequence("ab", "ab") by {
      assert IsSubsequence("b", "b");
    }
  }
}

/** `str.find`, `str.count` and `str.replace(..., 1)` on a non-empty pattern. */
module Occurrences {
  import opened Options
  import opened Text

  /** Leftmost occurrence of `p` in `s` at or after `i`. */
  function Find(s: string, p: string, i: nat): (k: Option<nat>)
    ensures k.Some? ==> i <= k.value && OccursAt(s, p, k.value)
    decreases |s| - i
  {
    if i + |p| > |s| then None
    else if s[i..i + |p|] == p then Some(i)
    else Find(s, p, i + 1)
  }

  /** `s.count(p)` from index `i` on: occurrences are taken left to right and do not overlap. */
  function Count(s: string, p: string, i: nat): nat
    requires p != ""
    decreases |s| - i
  {
    match Find(s, p, i)
    case None => 0
    case Some(k) => 1 + Count(s, p, k + |p|)
  }

  function ReplaceFirst(s: string, p: string, r: string): string {
    match Find(s, p, 0)
    case None => s
    case Some(k) => s[..k] + r + s[k + |p|..]
  }

  lemma {:induction false} FindIsLeftmost(s: string, p: string, i: nat, j: nat)
    requires i <= j && OccursAt(s, p, j)
    ensures Find(s, p, i).Some? && Find(s, p, i).value <= j
    decreases |s| - i
  {
    if s[i..i + |p|] != p {
      FindIsLeftmost(s, p, i + 1, j);
    }
  }

  /** Occurrences at or after `i`, in order, no two of which overlap. */
  predicate DisjointOccurrences(s: string, p: string, i: nat, ks: seq<nat>) {
    && (forall j | 0 <= j < |ks| :: i <= ks[j] && OccursAt(s, p, ks[j]))
    && (forall j | 0 < j < |ks| :: ks[j - 1] + |p| <= ks[j])
  }

  lemma {:induction false} CountBounds(s: string, p: string, i: nat, ks: seq<nat>)
    requires p != "" && DisjointOccurrences(s, p, i, ks)
    ensures |ks| <= Count(s, p, i)
    decreases |ks|
  {
    if ks != [] {
      FindIsLeftmost(s, p, i, ks[0]);
      var rest, next := ks[1..], Find(s, p, i).value + |p|;
      forall j | 0 <= j < |rest| ensures next <= rest[j] {
        GapsAddUp(s, p, i, ks, j + 1);
      }
      CountBounds(s, p, next, rest);
    }
  }

  lemma {:induction false} GapsAddUp(s: string, p: string, i: nat, ks: seq<nat>, j: nat)
    requires DisjointOccurrences(s, p, i, ks) && 0 < j < |ks|
    ensures ks[0] + |p| <= ks[j]
  {
    if j > 1 {
      GapsAddUp(s, p, i, ks, j - 1);
    }
  }

  lemma {:induction false} CountIsReached(s: string, p: string, i: nat) returns (ks: seq<nat>)
    requires p != ""
    ensures DisjointOccurrences(s, p, i, ks) && |ks| == Count(s, p, i)
    decreases |s| - i
  {
    match Find(s, p, i)
    case None => ks := [];
    case Some(k) =>
      var rest := CountIsReached(s, p, k + |p|);
      ks := [k] + rest;
  }

  /** The non-overlapping count is the largest number of pairwise disjoint occurrences. */
  lemma CountIsMaximal(s: string, p: string, n: nat)
    requires p != ""
    ensures n <= Count(s, p, 0) <==> exists ks :: |ks| == n && DisjointOccurrences(s, p, 0, ks)
  {
    if n <= Count(s, p, 0) {
      var ks := CountIsReached(s, p, 0);
      assert DisjointOccurrences(s, p, 0, ks[..n]);
    }
    if ks :| |ks| == n && DisjointOccurrences(s, p, 0, ks) {
      CountBounds(s, p, 0, ks);
    }
  }

  lemma CountZero(s: string, p: string, i: nat)
    requires p != ""
    ensures Count(s, p, i) == 0 <==> forall j | i <= j :: !OccursAt(s, p, j)
  {
    if j :| i <= j && OccursAt(s, p, j) {
      FindIsLeftmost(s, p, i, j);
    }
  }

  /** `k` is an occurrence and every other one starts inside it. */
  ghost predicate LoneCluster(s: string, p: string, k: nat) {
    OccursAt(s, p, k) && forall j: nat | OccursAt(s, p, j) :: k <= j < k + |p|
  }

  /** The applier's "matches once" test: all occurrences overlap the leftmost one. */
  lemma CountOne(s: string, p: string)
    requires p != ""
    ensures Count(s, p, 0) == 1 <==> exists k: nat :: LoneCluster(s, p, k)
    ensures Count(s, p, 0) == 1 ==> Find(s, p, 0).Some? && LoneCluster(s, p, Find(s, p, 0).value)
  {
    if Count(s, p, 0) == 1 {
      var k := Find(s, p, 0).value;
      forall j: nat | OccursAt(s, p, j) ensures k <= j < k + |p| {
        FindIsLeftmost(s, p, 0, j);
        CountZero(s, p, k + |p|);
      }
      assert LoneCluster(s, p, k);
    }
    if k: nat :| LoneCluster(s, p, k) {
      FindIsLeftmost(s, p, 0, k);
      CountZero(s, p, k + |p|);
      assert Find(s, p, 0).value == k;
      assert Count(s, p, k + |p|) == 0;
    }
  }

  predicate HasBorder(p: string) {
    exists n | 0 < n < |p| :: p[..n] == p[|p| - n..]
  }

  ghost predicate OccursOnce(s: string, p: string) {
    exists k: nat | OccursAt(s, p, k) :: forall j: nat | OccursAt(s, p, j) :: j == k
  }

  lemma OverlapIsBorder(s: string, p: string, k: nat, j: nat)
    requires OccursAt(s, p, k) && OccursAt(s, p, j) && k < j < k + |p|
    ensures HasBorder(p)
  {
    var n := k + |p| - j;
    assert p[..n] == s[j..j + |p|][..n] == s[j..j + n];
    assert p[|p| - n..] == s[k..k + |p|][|p| - n..] == s[j..j + n];
  }

  lemma BorderWitness(p: string) returns (s: string)
    requires HasBorder(p)
    ensures Count(s, p, 0) == 1 && !OccursOnce(s, p)
  {
    var n :| 0 < n < |p| && p[..n] == p[|p| - n..];
    s := p + p[n..];
    assert s[0..|p|] == p;
    assert OccursAt(s, p, 0);
    assert Find(s, p, 0) == Some(0);
    assert Find(s, p, |p|).None?;
    var at := |p| - n;
    assert s[at..at + |p|] == p[at..] + p[n..] == p[..n] + p[n..] == p;
    assert OccursAt(s, p, at);
  }

  /** "Matches once" means "occurs exactly once" for exactly the patterns without a border. */
  lemma CountOneIsUniqueIffNoBorder(p: string)
    requires p != ""
    ensures !HasBorder(p) <==> forall s :: Count(s, p, 0) == 1 ==> OccursOnce(s, p)
  {
    if HasBorder(p) {
      var s := BorderWitness(p);
    } else {
      forall s | Count(s, p, 0) == 1 ensures OccursOnce(s, p) {
        CountOne(s, p);
        var k := Find(s, p, 0).value;
        forall j: nat | OccursAt(s, p, j) ensures j == k {
          if k < j {
            OverlapIsBorder(s, p, k, j);
          }
        }
      }
    }
  }
}

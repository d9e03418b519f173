/** `_fallback_plan_candidate_source_paths`: two greedy passes over discovered files. */
module FallbackTargets {
  import opened Options
  import opened Sizes

  /** A discovered file with its path normalised, its score read (0 if absent or unreadable)
      and its matched terms cleaned of low-signal words. */
  datatype Found = Found(isRecord: bool, path: string, score: real, terms: set<string>)

  type Eligible = string -> bool

  predicate Usable(eligible: Eligible, f: Found) {
    f.isRecord && f.path != "" && eligible(f.path)
  }

  predicate HasPath(cs: seq<Found>, path: string) {
    exists i | 0 <= i < |cs| :: cs[i].path == path
  }

  /** The usable files, each path once, the first one counting. */
  function Candidates(found: seq<Found>, eligible: Eligible): seq<Found> {
    if found == [] then []
    else
      var n := |found| - 1;
      var cs := Candidates(found[..n], eligible);
      if Usable(eligible, found[n]) && !HasPath(cs, found[n].path) then cs + [found[n]] else cs
  }

  predicate DistinctPaths(cs: seq<Found>) {
    forall i, j | 0 <= i < j < |cs| :: cs[i].path != cs[j].path
  }

  lemma {:induction false} CandidatesAre(found: seq<Found>, eligible: Eligible)
    ensures DistinctPaths(Candidates(found, eligible))
    ensures forall i | 0 <= i < |Candidates(found, eligible)| :: Usable(eligible, Candidates(found, eligible)[i])
    ensures forall k | 0 <= k < |found| :: Usable(eligible, found[k]) ==> HasPath(Candidates(found, eligible), found[k].path)
    decreases found
  {
    hide Usable;
    if found != [] {
      var n := |found| - 1;
      CandidatesAre(found[..n], eligible);
      var old_, cs := Candidates(found[..n], eligible), Candidates(found, eligible);
      forall k | 0 <= k < n && Usable(eligible, found[k]) ensures HasPath(cs, found[k].path) {
        assert Usable(eligible, found[..n][k]);
        var i :| 0 <= i < |old_| && old_[i].path == found[k].path;
        assert cs[i].path == found[k].path;
      }
      if Usable(eligible, found[n]) && !HasPath(old_, found[n].path) {
        assert cs[|old_|].path == found[n].path;
      }
    }
  }

  /** The candidate loop. */
  method Gather(found: seq<Found>, eligible: Eligible) returns (cs: seq<Found>)
    ensures cs == Candidates(found, eligible)
  {
    cs := [];
    var seen: set<string> := {};
    for k := 0 to |found|
      invariant cs == Candidates(found[..k], eligible)
      invariant forall p :: p in seen <==> HasPath(cs, p)
    {
      var f := found[k];
      assert found[..k + 1][..k] == found[..k];
      if !f.isRecord {
        continue;
      }
      if f.path == "" || f.path in seen {
        continue;
      }
      if !eligible(f.path) {
        continue;
      }
      SeenGrows(cs, f);
      cs := cs + [f];
      seen := seen + {f.path};
    }
    assert found[..|found|] == found;
  }

  lemma SeenGrows(cs: seq<Found>, f: Found)
    ensures forall p :: HasPath(cs + [f], p) <==> HasPath(cs, p) || p == f.path
  {
    forall p ensures HasPath(cs + [f], p) <==> HasPath(cs, p) || p == f.path {
      if HasPath(cs, p) {
        var i :| 0 <= i < |cs| && cs[i].path == p;
        assert (cs + [f])[i].path == p;
      }
      assert (cs + [f])[|cs|].path == f.path;
    }
  }

  // ----- selection -------------------------------------------------------------------------

  function Covered(cs: seq<Found>, picks: seq<nat>): set<string>
    requires forall i | 0 <= i < |picks| :: picks[i] < |cs|
  {
    if picks == [] then {} else Covered(cs, picks[..|picks| - 1]) + cs[picks[|picks| - 1]].terms
  }

  predicate InRange(cs: seq<Found>, picks: seq<nat>) {
    forall i | 0 <= i < |picks| :: picks[i] < |cs|
  }

  /** Three quarters of the best score, if that is positive. */
  ghost predicate IsFloor(cs: seq<Found>, floor: Option<real>) {
    exists b | 0 <= b < |cs| ::
      && (forall j | 0 <= j < |cs| :: cs[j].score <= cs[b].score)
      && floor == (if cs[b].score > 0.0 then Some(cs[b].score * 0.75) else None)
  }

  /** Good enough, or carrying a term not covered yet. */
  predicate Wanted(c: Found, floor: Option<real>, covered: set<string>) {
    floor.None? || c.score >= floor.value || !(c.terms <= covered)
  }

  lemma CoveredLast(cs: seq<Found>, picks: seq<nat>, k: nat)
    requires InRange(cs, picks) && k < |cs|
    ensures InRange(cs, picks + [k]) && Covered(cs, picks + [k]) == Covered(cs, picks) + cs[k].terms
  {
    assert (picks + [k])[..|picks|] == picks;
  }

  /** The candidates of `cs[..n]` picked by the first pass: each one wanted at its turn, until
      the limit is reached. */
  function FirstPicks(cs: seq<Found>, floor: Option<real>, limit: int, n: nat): (picks: seq<nat>)
    requires n <= |cs|
    ensures InRange(cs, picks) && DistinctNats(picks) && |picks| <= Max0(limit)
    ensures forall i | 0 <= i < |picks| :: picks[i] < n
  {
    if n == 0 then []
    else
      var picks := FirstPicks(cs, floor, limit, n - 1);
      if |picks| < limit && Wanted(cs[n - 1], floor, Covered(cs, picks)) then picks + [n - 1] else picks
  }

  /** The picks after the second pass over `cs[..n]`: whatever is left, in order, up to the
      limit. */
  function AllPicks(cs: seq<Found>, early: seq<nat>, limit: int, n: nat): (picks: seq<nat>)
    requires n <= |cs| && InRange(cs, early) && DistinctNats(early) && |early| <= Max0(limit)
    ensures InRange(cs, picks) && DistinctNats(picks) && |picks| <= Max0(limit) && early <= picks
    ensures |picks| < limit ==> forall k: nat | k < n :: k in picks
  {
    if n == 0 then early
    else
      var picks := AllPicks(cs, early, limit, n - 1);
      if |picks| < limit && (n - 1) !in picks then
        assert forall k :: k in picks + [n - 1] <==> k in picks || k == n - 1;
        picks + [n - 1]
      else picks
  }

  // ----- counting picks ----------------------------------------------------------------------

  predicate DistinctNats(xs: seq<nat>) {
    forall i, j | 0 <= i < j < |xs| :: xs[i] != xs[j]
  }

  function Cut(limit: int, n: nat): nat {
    if limit <= 0 then 0 else if limit < n then limit else n
  }

  function ToSet(picks: seq<nat>): (s: set<nat>)
    ensures forall k :: k in s <==> k in picks
  {
    if picks == [] then {}
    else
      assert picks == picks[..|picks| - 1] + [picks[|picks| - 1]];
      ToSet(picks[..|picks| - 1]) + {picks[|picks| - 1]}
  }

  function Range(n: nat): (s: set<nat>)
    ensures forall k: nat :: k in s <==> k < n
    ensures |s| == n
  {
    if n == 0 then {} else Range(n - 1) + {n - 1}
  }

  lemma {:induction false} DistinctSize(picks: seq<nat>)
    requires DistinctNats(picks)
    ensures |ToSet(picks)| == |picks|
  {
    if picks != [] {
      var n := |picks| - 1;
      DistinctSize(picks[..n]);
      assert picks[n] !in picks[..n];
    }
  }

  lemma PicksFit(picks: seq<nat>, n: nat)
    requires DistinctNats(picks) && forall i | 0 <= i < |picks| :: picks[i] < n
    ensures |picks| <= n
    ensures (forall k: nat | k < n :: k in picks) ==> |picks| == n
  {
    hide ToSet, Range;
    DistinctSize(picks);
    SubsetSize(ToSet(picks), Range(n));
    if forall k: nat | k < n :: k in picks {
      assert ToSet(picks) == Range(n);
    }
  }

  // ----- the passes ----------------------------------------------------------------------------

  predicate PathsOf(cs: seq<Found>, picks: seq<nat>, paths: seq<string>) {
    InRange(cs, picks) && |paths| == |picks| && forall i | 0 <= i < |picks| :: paths[i] == cs[picks[i]].path
  }

  method BestScore(cs: seq<Found>) returns (best: nat)
    requires cs != []
    ensures best < |cs| && forall j | 0 <= j < |cs| :: cs[j].score <= cs[best].score
  {
    best := 0;
    for k := 1 to |cs|
      invariant best < k && forall j | 0 <= j < k :: cs[j].score <= cs[best].score
    {
      if cs[k].score > cs[best].score {
        best := k;
      }
    }
  }

  lemma {:induction false} FullStaysFull(cs: seq<Found>, floor: Option<real>, limit: int, k: nat, n: nat)
    requires k <= n <= |cs| && |FirstPicks(cs, floor, limit, k)| >= limit
    ensures FirstPicks(cs, floor, limit, n) == FirstPicks(cs, floor, limit, k)
    decreases n
  {
    hide Covered, Wanted;
    if k < n {
      FullStaysFull(cs, floor, limit, k, n - 1);
    }
  }

  lemma {:induction false} AllFullStaysFull(cs: seq<Found>, early: seq<nat>, limit: int, k: nat, n: nat)
    requires InRange(cs, early) && DistinctNats(early) && |early| <= Max0(limit)
    requires k <= n <= |cs| && |AllPicks(cs, early, limit, k)| >= limit
    ensures AllPicks(cs, early, limit, n) == AllPicks(cs, early, limit, k)
    decreases n
  {
    if k < n {
      AllFullStaysFull(cs, early, limit, k, n - 1);
    }
  }

  lemma PathsLast(cs: seq<Found>, picks: seq<nat>, paths: seq<string>, k: nat)
    requires DistinctPaths(cs) && PathsOf(cs, picks, paths) && k < |cs|
    ensures PathsOf(cs, picks + [k], paths + [cs[k].path])
    ensures cs[k].path in paths <==> k in picks
  {
    if cs[k].path in paths {
      var i :| 0 <= i < |paths| && paths[i] == cs[k].path;
      assert picks[i] == k;
    }
    if k in picks {
      var i :| 0 <= i < |picks| && picks[i] == k;
      assert paths[i] == cs[k].path;
    }
  }

  lemma NothingNew(terms: set<string>, covered: set<string>)
    ensures terms - covered == {} <==> terms <= covered
  {
    if t :| t in terms && t !in covered {
      assert t in terms - covered;
    } else {
      assert forall t | t in terms :: t in covered;
    }
  }

  method PassOne(cs: seq<Found>, floor: Option<real>, limit: int)
    returns (paths: seq<string>, selected: set<string>, ghost picks: seq<nat>)
    requires DistinctPaths(cs)
    ensures picks == FirstPicks(cs, floor, limit, |cs|) && PathsOf(cs, picks, paths)
    ensures forall p :: p in selected <==> p in paths
  {
    hide Covered, PathsOf;
    var covered: set<string> := {};
    paths, selected, picks := [], {}, [];
    NothingPicked(cs);
    for k := 0 to |cs|
      invariant picks == FirstPicks(cs, floor, limit, k) && PathsOf(cs, picks, paths) && |paths| == |picks|
      invariant covered == Covered(cs, picks)
      invariant forall p :: p in selected <==> p in paths
    {
      if |paths| >= limit {
        FullStaysFull(cs, floor, limit, k, |cs|);
        return;
      }
      var c := cs[k];
      NothingNew(c.terms, covered);
      if floor.Some? && c.score < floor.value && c.terms - covered == {} {
        continue;
      }
      PathsLast(cs, picks, paths, k);
      if c.path in selected {
        continue;
      }
      CoveredLast(cs, picks, k);
      paths := paths + [c.path];
      picks := picks + [k];
      selected := selected + {c.path};
      covered := covered + c.terms;
    }
  }

  method PassTwo(cs: seq<Found>, limit: int, sofar: seq<string>, chosen: set<string>, ghost early: seq<nat>)
    returns (paths: seq<string>, ghost picks: seq<nat>)
    requires DistinctPaths(cs) && PathsOf(cs, early, sofar) && DistinctNats(early) && |early| <= Max0(limit)
    requires forall p :: p in chosen <==> p in sofar
    ensures picks == AllPicks(cs, early, limit, |cs|) && PathsOf(cs, picks, paths)
  {
    hide PathsOf, InRange, DistinctNats;
    paths, picks := sofar, early;
    var selected := chosen;
    assert InRange(cs, early) && |sofar| == |early| by { PathsInRange(cs, early, sofar); }
    for k := 0 to |cs|
      invariant picks == AllPicks(cs, early, limit, k) && PathsOf(cs, picks, paths) && |paths| == |picks|
      invariant forall p :: p in selected <==> p in paths
    {
      if |paths| >= limit {
        AllFullStaysFull(cs, early, limit, k, |cs|);
        return;
      }
      var c := cs[k];
      PathsLast(cs, picks, paths, k);
      if c.path in selected {
        continue;
      }
      paths := paths + [c.path];
      picks := picks + [k];
      selected := selected + {c.path};
    }
  }

  lemma PathsInRange(cs: seq<Found>, picks: seq<nat>, paths: seq<string>)
    requires PathsOf(cs, picks, paths)
    ensures InRange(cs, picks) && |paths| == |picks|
  {
  }

  lemma NothingPicked(cs: seq<Found>)
    ensures PathsOf(cs, [], []) && Covered(cs, []) == {}
  {
  }

  /** Both passes, after the score floor has been read off the best candidate. */
  method Select(cs: seq<Found>, limit: int) returns (paths: seq<string>, ghost floor: Option<real>)
    requires DistinctPaths(cs)
    ensures cs == [] ==> paths == []
    ensures cs != [] ==> IsFloor(cs, floor) && PathsOf(cs, AllPicks(cs, FirstPicks(cs, floor, limit, |cs|), limit, |cs|), paths)
    ensures forall c | c in cs :: if floor.None? then c.score <= 0.0 else 0.0 < floor.value && c.score * 0.75 <= floor.value
    ensures floor.Some? ==> exists c | c in cs :: c.score * 0.75 == floor.value
  {
    hide FirstPicks, AllPicks, PathsOf;
    paths, floor := [], None;
    if cs == [] {
      return;
    }
    var best := BestScore(cs);
    var bar := if cs[best].score > 0.0 then Some(cs[best].score * 0.75) else None;
    floor := bar;
    assert IsFloor(cs, floor);
    var selected;
    ghost var early, picks;
    paths, selected, early := PassOne(cs, bar, limit);
    paths, picks := PassTwo(cs, limit, paths, selected, early);
  }

  // ----- guarantees --------------------------------------------------------------------------

  /** Exactly `min(limit, number of candidates)` are picked. */
  lemma PickCount(cs: seq<Found>, early: seq<nat>, limit: int)
    requires InRange(cs, early) && DistinctNats(early) && |early| <= Max0(limit)
    ensures |AllPicks(cs, early, limit, |cs|)| == Cut(limit, |cs|)
  {
    hide AllPicks;
    PicksFit(AllPicks(cs, early, limit, |cs|), |cs|);
  }

  lemma {:induction false} FirstPicksCover(cs: seq<Found>, floor: Option<real>, limit: int, n: nat, k: nat)
    requires k < n <= |cs| && |FirstPicks(cs, floor, limit, n)| < limit
    ensures cs[k].terms <= Covered(cs, FirstPicks(cs, floor, limit, n))
    decreases n
  {
    hide Covered;
    var picks := FirstPicks(cs, floor, limit, n - 1);
    CoveredLast(cs, picks, n - 1);
    if k < n - 1 {
      FirstPicksCover(cs, floor, limit, n - 1, k);
    }
  }

  lemma {:induction false} CoveredFrom(cs: seq<Found>, picks: seq<nat>, t: string)
    requires InRange(cs, picks)
    ensures t in Covered(cs, picks) <==> exists i | 0 <= i < |picks| :: t in cs[picks[i]].terms
    decreases picks
  {
    if picks != [] {
      var n := |picks| - 1;
      CoveredFrom(cs, picks[..n], t);
      assert forall i | 0 <= i < n :: picks[..n][i] == picks[i];
    }
  }

  /** If the first pass stayed below the limit, every term of every candidate is carried by one
      it picked. */
  lemma EveryTermCarried(cs: seq<Found>, floor: Option<real>, limit: int, k: nat, t: string)
    requires |FirstPicks(cs, floor, limit, |cs|)| < limit && k < |cs| && t in cs[k].terms
    ensures var early := FirstPicks(cs, floor, limit, |cs|);
              exists i | 0 <= i < |early| :: t in cs[early[i]].terms
  {
    hide FirstPicks, Covered;
    FirstPicksCover(cs, floor, limit, |cs|, k);
    CoveredFrom(cs, FirstPicks(cs, floor, limit, |cs|), t);
  }

  /** The target list: distinct eligible paths, as many as the limit and the candidates allow. */
  method FallbackPaths(found: seq<Found>, eligible: Eligible, limit: int) returns (paths: seq<string>, ghost floor: Option<real>)
    ensures |paths| == Cut(limit, |Candidates(found, eligible)|)
    ensures forall i, j | 0 <= i < j < |paths| :: paths[i] != paths[j]
    ensures forall i | 0 <= i < |paths| :: paths[i] != "" && eligible(paths[i]) && HasPath(found, paths[i])
    ensures var cs := Candidates(found, eligible);
              cs != [] ==> IsFloor(cs, floor) && PathsOf(cs, AllPicks(cs, FirstPicks(cs, floor, limit, |cs|), limit, |cs|), paths)
  {
    hide Candidates, FirstPicks, AllPicks, IsFloor;
    CandidatesAre(found, eligible);
    CandidatesFound(found, eligible);
    var cs := Gather(found, eligible);
    paths, floor := Select(cs, limit);
    if cs != [] {
      ghost var picks := AllPicks(cs, FirstPicks(cs, floor, limit, |cs|), limit, |cs|);
      PickCount(cs, FirstPicks(cs, floor, limit, |cs|), limit);
      forall i | 0 <= i < |paths| ensures HasPath(found, paths[i]) {
        assert cs[picks[i]] in cs;
      }
    }
  }

  lemma {:induction false} CandidatesFound(found: seq<Found>, eligible: Eligible)
    ensures forall c | c in Candidates(found, eligible) :: HasPath(found, c.path)
    decreases found
  {
    if found != [] {
      var n := |found| - 1;
      CandidatesFound(found[..n], eligible);
      SeenGrows(found[..n], found[n]);
      assert found == found[..n] + [found[n]];
    }
  }

  // ----- which candidates, and in which order ---------------------------------------------------

  predicate Ascending(ks: seq<nat>) {
    forall i, j | 0 <= i < j < |ks| :: ks[i] < ks[j]
  }

  /** A record with an eligible path, and the first such one with that path. */
  predicate FirstUsable(found: seq<Found>, eligible: Eligible, k: nat) {
    && k < |found| && found[k].isRecord && found[k].path != "" && eligible(found[k].path)
    && forall j | 0 <= j < k :: !(found[j].isRecord && found[j].path == found[k].path)
  }

  lemma {:induction false} CandidatePaths(found: seq<Found>, eligible: Eligible, path: string)
    requires path != "" && eligible(path)
    ensures HasPath(Candidates(found, eligible), path) <==> exists j | 0 <= j < |found| :: found[j].isRecord && found[j].path == path
    decreases found
  {
    if found != [] {
      var n := |found| - 1;
      var cs := Candidates(found[..n], eligible);
      CandidatePaths(found[..n], eligible, path);
      SeenGrows(cs, found[n]);
      assert forall j | 0 <= j < n :: found[..n][j] == found[j];
    }
  }

  ghost predicate TakenFrom(found: seq<Found>, eligible: Eligible, cs: seq<Found>, ks: seq<nat>) {
    && |ks| == |cs| && Ascending(ks)
    && (forall i | 0 <= i < |ks| :: ks[i] < |found| && cs[i] == found[ks[i]])
    && forall k: nat :: k in ks <==> FirstUsable(found, eligible, k)
  }

  /** The candidates are the first usable file of each path, in the order found. */
  lemma {:induction false} CandidatesInOrder(found: seq<Found>, eligible: Eligible) returns (ks: seq<nat>)
    ensures TakenFrom(found, eligible, Candidates(found, eligible), ks)
    decreases found
  {
    ks := [];
    if found != [] {
      hide FirstUsable;
      var n := |found| - 1;
      ks := CandidatesInOrder(found[..n], eligible);
      UsableHere(found, eligible);
      TakeOneMore(found, found[..n], eligible, Candidates(found[..n], eligible), ks);
      if FirstUsable(found, eligible, n) {
        ks := ks + [n];
      }
    }
  }

  lemma TakeOneMore(found: seq<Found>, init: seq<Found>, eligible: Eligible, cs: seq<Found>, ks: seq<nat>)
    requires found != [] && init == found[..|found| - 1] && TakenFrom(init, eligible, cs, ks)
    requires forall k: nat | k < |init| :: FirstUsable(found, eligible, k) <==> FirstUsable(init, eligible, k)
    requires forall k: nat | k >= |init| :: !FirstUsable(init, eligible, k)
    requires forall k: nat | k > |found| - 1 :: !FirstUsable(found, eligible, k)
    ensures var n := |found| - 1;
              if FirstUsable(found, eligible, n) then TakenFrom(found, eligible, cs + [found[n]], ks + [n])
              else TakenFrom(found, eligible, cs, ks)
  {
    hide FirstUsable;
    var more := ks + [|found| - 1];
    forall k: nat ensures k in more <==> k in ks || k == |found| - 1 {
    }
  }

  lemma UsableHere(found: seq<Found>, eligible: Eligible)
    requires found != []
    ensures var n := |found| - 1;
              && (forall k: nat | k < n :: FirstUsable(found, eligible, k) <==> FirstUsable(found[..n], eligible, k))
              && (forall k: nat | k >= n :: !FirstUsable(found[..n], eligible, k))
              && (forall k: nat | k > n :: !FirstUsable(found, eligible, k))
              && (FirstUsable(found, eligible, n) <==>
                    Usable(eligible, found[n]) && !HasPath(Candidates(found[..n], eligible), found[n].path))
  {
    hide Candidates, HasPath;
    var n := |found| - 1;
    assert forall j | 0 <= j < n :: found[..n][j] == found[j];
    if Usable(eligible, found[n]) {
      CandidatePaths(found[..n], eligible, found[n].path);
    }
  }

  lemma {:induction false} PicksExtend(cs: seq<Found>, floor: Option<real>, limit: int, n: nat, k: nat)
    requires k < n <= |cs|
    ensures var before, picks := FirstPicks(cs, floor, limit, k), FirstPicks(cs, floor, limit, n);
              && before <= picks && (forall j | |before| <= j < |picks| :: picks[j] >= k)
              && (k in picks <==> |before| < limit && Wanted(cs[k], floor, Covered(cs, before)))
    decreases n
  {
    hide Covered, Wanted, InRange, DistinctNats;
    if k < n - 1 {
      PicksExtend(cs, floor, limit, n - 1, k);
    }
  }

  /** Candidate `k` is picked by the first pass exactly if there is room after the `i` picked before
      it, and it is good enough or carries a term that none of them carries. */
  lemma PickedExactly(cs: seq<Found>, floor: Option<real>, limit: int, k: nat) returns (i: nat)
    requires k < |cs|
    ensures var picks := FirstPicks(cs, floor, limit, |cs|);
              && i <= |picks| && (forall j | 0 <= j < i :: picks[j] < k) && (forall j | i <= j < |picks| :: picks[j] >= k)
              && (k in picks <==>
                    i < limit && (floor.None? || cs[k].score >= floor.value || NewTerm(cs, picks[..i], k)))
  {
    hide Covered, Wanted, NewTerm, FirstPicks;
    var before, picks := FirstPicks(cs, floor, limit, k), FirstPicks(cs, floor, limit, |cs|);
    i := |before|;
    PicksExtend(cs, floor, limit, |cs|, k);
    WantedIs(cs, before, floor, k);
    assert picks[..i] == before;
  }

  /** Candidate `k` carries a term that none of `picks` carries. */
  ghost predicate NewTerm(cs: seq<Found>, picks: seq<nat>, k: nat)
    requires InRange(cs, picks) && k < |cs|
  {
    exists t :: t in cs[k].terms && forall j | 0 <= j < |picks| :: t !in cs[picks[j]].terms
  }

  lemma WantedIs(cs: seq<Found>, picks: seq<nat>, floor: Option<real>, k: nat)
    requires InRange(cs, picks) && k < |cs|
    ensures Wanted(cs[k], floor, Covered(cs, picks)) <==>
            floor.None? || cs[k].score >= floor.value || NewTerm(cs, picks, k)
  {
    hide Covered;
    forall t ensures t in Covered(cs, picks) <==> exists i | 0 <= i < |picks| :: t in cs[picks[i]].terms {
      CoveredFrom(cs, picks, t);
    }
  }

  /** The second pass adds what is left from the front: its additions are new and ascending, and
      whatever it leaves out comes after all of them. */
  lemma {:induction false} RestFromTheFront(cs: seq<Found>, early: seq<nat>, limit: int, n: nat)
    requires n <= |cs| && InRange(cs, early) && DistinctNats(early) && |early| <= Max0(limit)
    ensures var picks := AllPicks(cs, early, limit, n);
              && early <= picks && Ascending(picks[|early|..])
              && (forall j | |early| <= j < |picks| :: picks[j] < n && picks[j] !in early)
              && (forall k: nat, j | k < n && k !in picks && |early| <= j < |picks| :: picks[j] < k)
    decreases n
  {
    hide InRange, DistinctNats;
    if n > 0 {
      RestFromTheFront(cs, early, limit, n - 1);
      FullOrAll(cs, early, limit, n - 1);
      var before, picks := AllPicks(cs, early, limit, n - 1), AllPicks(cs, early, limit, n);
      assert picks == before || picks == before + [n - 1];
    }
  }

  lemma FullOrAll(cs: seq<Found>, early: seq<nat>, limit: int, n: nat)
    requires n <= |cs| && InRange(cs, early) && DistinctNats(early) && |early| <= Max0(limit)
    ensures var picks := AllPicks(cs, early, limit, n);
              |picks| < limit ==> forall k: nat | k < n :: k in picks
  {
  }
}

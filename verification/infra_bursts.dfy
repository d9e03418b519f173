/** The burst, backoff and abort bookkeeping of the benchmark loop. */
module InfraBursts {
  import opened Options

  /** One benchmark record, as far as the bookkeeping looks at it: whether it is invalid for
      infrastructure reasons, whether retrieval itself was found broken, and whether a health
      probe at this point would find the backend reachable. */
  datatype Record = Record(infraInvalid: bool, filterBroken: bool, reachable: bool)

  datatype Abort = FilterBroken | BurstExceeded | BackendUnreachable

  datatype Config = Config(thresholdArg: int, backoffs: seq<real>, noPause: bool)

  function Threshold(cfg: Config): (t: nat)
    ensures t >= 1
  {
    if cfg.thresholdArg > 1 then cfg.thresholdArg else 1
  }

  // ----- reference: maximal runs of invalid records -------------------------------------------

  /** Length of the run of infra-invalid records at the end. */
  function Trailing(rs: seq<Record>): (n: nat)
    ensures n <= |rs|
  {
    if rs == [] || !rs[|rs| - 1].infraInvalid then 0 else 1 + Trailing(rs[..|rs| - 1])
  }

  /** How many whole thresholds fit into `n`, and what is left over. */
  function Whole(n: nat, t: nat): nat
    requires t >= 1
  {
    if n < t then 0 else 1 + Whole(n - t, t)
  }

  function Left(n: nat, t: nat): (r: nat)
    requires t >= 1
    ensures r < t
  {
    if n < t then n else Left(n - t, t)
  }

  lemma {:induction false} WholeStep(n: nat, t: nat)
    requires t >= 1
    ensures Whole(n + 1, t) == Whole(n, t) + (if Left(n + 1, t) == 0 then 1 else 0)
    ensures Left(n + 1, t) == if Left(n, t) + 1 == t then 0 else Left(n, t) + 1
  {
    if n >= t {
      WholeStep(n - t, t);
    }
  }

  /** Every maximal run of infra-invalid records counts once per whole threshold in it. */
  function Bursts(rs: seq<Record>, t: nat): nat
    requires t >= 1
    decreases |rs|
  {
    if rs == [] then 0
    else
      var n := Trailing(rs);
      if n == 0 then Bursts(rs[..|rs| - 1], t) else Bursts(rs[..|rs| - n], t) + Whole(n, t)
  }

  function Invalid(rs: seq<Record>): nat {
    if rs == [] then 0 else Invalid(rs[..|rs| - 1]) + if rs[|rs| - 1].infraInvalid then 1 else 0
  }

  /** The last record completes a burst. */
  predicate EndsBurst(rs: seq<Record>, t: nat)
    requires t >= 1
  {
    Trailing(rs) > 0 && Left(Trailing(rs), t) == 0
  }

  /** Why the loop stops after `rs`, if it does. */
  function AbortAfter(rs: seq<Record>, cfg: Config): Option<Abort> {
    if rs == [] then None
    else
      var r := rs[|rs| - 1];
      if !cfg.noPause && EndsBurst(rs, Threshold(cfg)) && Bursts(rs, Threshold(cfg)) > |cfg.backoffs| then Some(BurstExceeded)
      else if !cfg.noPause && EndsBurst(rs, Threshold(cfg)) && !r.reachable then Some(BackendUnreachable)
      else if r.filterBroken then Some(FilterBroken)
      else None
  }

  lemma BurstsStep(rs: seq<Record>, t: nat)
    requires t >= 1 && rs != []
    ensures var init := rs[..|rs| - 1];
              && (rs[|rs| - 1].infraInvalid ==> Trailing(rs) == Trailing(init) + 1)
              && (!rs[|rs| - 1].infraInvalid ==> Trailing(rs) == 0)
              && Bursts(rs, t) == Bursts(init, t) + if EndsBurst(rs, t) then 1 else 0
  {
    var init := rs[..|rs| - 1];
    if rs[|rs| - 1].infraInvalid {
      var n := Trailing(init);
      WholeStep(n, t);
      assert rs[..|rs| - (n + 1)] == init[..|init| - n];
      if n == 0 {
        assert init[..|init|] == init;
        BurstsBeforeRun(init, t);
      }
    }
  }

  lemma BurstsBeforeRun(rs: seq<Record>, t: nat)
    requires t >= 1 && Trailing(rs) == 0
    ensures Bursts(rs, t) == Bursts(rs[..|rs|], t)
  {
    assert rs[..|rs|] == rs;
  }

  // ----- the loop ---------------------------------------------------------------------------------

  /** The burst at record `w` is the run of `t` infra-invalid records ending there. */
  predicate IsWindow(rs: seq<Record>, t: nat, w: nat) {
    t <= w + 1 <= |rs| && forall k | w + 1 - t <= k <= w :: rs[k].infraInvalid
  }

  predicate Windows(rs: seq<Record>, t: nat, ws: seq<nat>) {
    && (forall i | 0 <= i < |ws| :: IsWindow(rs, t, ws[i]))
    && (forall i | 0 < i < |ws| :: ws[i - 1] + t <= ws[i])
  }

  /** Pauses taken with `bursts` bursts behind us. */
  function PauseCount(cfg: Config, bursts: nat): nat {
    if cfg.noPause then 0 else if bursts <= |cfg.backoffs| then bursts else |cfg.backoffs|
  }

  /** How the reference counts move with record `k`. */
  lemma RecordStep(rs: seq<Record>, t: nat, k: nat)
    requires t >= 1 && k < |rs|
    ensures Invalid(rs[..k + 1]) == Invalid(rs[..k]) + if rs[k].infraInvalid then 1 else 0
    ensures var was, now := Left(Trailing(rs[..k]), t), Left(Trailing(rs[..k + 1]), t);
              && now == (if rs[k].infraInvalid && was + 1 < t then was + 1 else 0)
              && (EndsBurst(rs[..k + 1], t) <==> rs[k].infraInvalid && was + 1 == t)
    ensures Bursts(rs[..k + 1], t) == Bursts(rs[..k], t) + if EndsBurst(rs[..k + 1], t) then 1 else 0
  {
    assert rs[..k + 1][..k] == rs[..k];
    BurstsStep(rs[..k + 1], t);
    WholeStep(Trailing(rs[..k]), t);
  }

  lemma NothingYet(rs: seq<Record>, cfg: Config)
    ensures Bursts(rs[..0], Threshold(cfg)) == 0 && Invalid(rs[..0]) == 0 && Trailing(rs[..0]) == 0
    ensures Left(0, Threshold(cfg)) == 0 && AbortAfter(rs[..0], cfg).None?
  {
  }

  lemma AddWindow(rs: seq<Record>, t: nat, ws: seq<nat>, k: nat, burst: bool)
    requires t >= 1 && k < |rs| && Windows(rs[..k], t, ws)
    requires burst ==> IsWindow(rs[..k + 1], t, k) && (ws != [] ==> ws[|ws| - 1] + t <= k)
    ensures Windows(rs[..k + 1], t, if burst then ws + [k] else ws)
  {
    forall i | 0 <= i < |ws| ensures IsWindow(rs[..k + 1], t, ws[i]) {
      assert IsWindow(rs[..k], t, ws[i]);
    }
  }

  lemma OneMore(b: nat, t: nat)
    ensures (b + 1) * t == b * t + t
  {
  }

  /** The record loop of `main`. Returns the burst count, the abort reason, the pauses slept, the
      number of records processed, and where each burst ended. */
  method RunRecords(records: seq<Record>, cfg: Config)
    returns (burstCount: nat, abort: Option<Abort>, pauses: seq<real>, processed: nat, ghost windows: seq<nat>)
    ensures processed <= |records|
    ensures var done, t := records[..processed], Threshold(cfg);
              && burstCount == Bursts(done, t) == |windows|
              && Windows(done, t, windows)
              && burstCount * t <= Invalid(done)
              && pauses == (if cfg.noPause then []
                            else cfg.backoffs[..if burstCount <= |cfg.backoffs| then burstCount else |cfg.backoffs|])
              && abort == AbortAfter(done, cfg)
              && (abort.None? ==> processed == |records|)
    ensures forall k | 0 <= k < processed :: AbortAfter(records[..k], cfg).None?
  {
    hide Bursts, Invalid, Trailing, Windows, Left, EndsBurst, IsWindow;
    var t := Threshold(cfg);
    var consecutive: nat := 0;
    burstCount, abort, pauses, processed, windows := 0, None, [], 0, [];
    NothingYet(records, cfg);
    NoWindows(records[..0], t);
    while processed < |records|
      invariant processed <= |records| && abort.None?
      invariant burstCount == Bursts(records[..processed], t) == |windows|
      invariant Windows(records[..processed], t, windows)
      invariant consecutive < t && consecutive == Left(Trailing(records[..processed]), t)
      invariant consecutive <= processed && forall k | processed - consecutive <= k < processed :: records[k].infraInvalid
      invariant windows != [] ==> windows[|windows| - 1] + consecutive < processed
      invariant burstCount * t + consecutive <= Invalid(records[..processed])
      invariant pauses == cfg.backoffs[..PauseCount(cfg, burstCount)]
      invariant !cfg.noPause ==> burstCount <= |cfg.backoffs|
      invariant forall k | 0 <= k <= processed :: AbortAfter(records[..k], cfg).None?
    {
      var record := records[processed];
      RecordStep(records, t, processed);
      OneMore(burstCount, t);
      ghost var k := processed;
      processed := processed + 1;
      if record.filterBroken {
        abort := Some(FilterBroken);
      }
      if record.infraInvalid {
        consecutive := consecutive + 1;
        if consecutive >= t {
          burstCount := burstCount + 1;
          assert IsWindow(records[..k + 1], t, k) by { WindowHere(records, t, k); }
          AddWindow(records, t, windows, k, true);
          windows := windows + [k];
          if cfg.noPause {
            consecutive := 0;
          } else if burstCount > |cfg.backoffs| {
            abort := Some(BurstExceeded);
          } else {
            pauses := pauses + [cfg.backoffs[burstCount - 1]];
            if !record.reachable {
              abort := Some(BackendUnreachable);
            }
            consecutive := 0;
          }
        } else {
          AddWindow(records, t, windows, k, false);
        }
      } else {
        consecutive := 0;
        AddWindow(records, t, windows, k, false);
      }
      if abort.Some? {
        break;
      }
    }
  }

  lemma WindowHere(rs: seq<Record>, t: nat, k: nat)
    requires t >= 1 && k < |rs| && t <= k + 1 && forall j | k + 1 - t <= j <= k :: rs[j].infraInvalid
    ensures IsWindow(rs[..k + 1], t, k)
  {
  }

  lemma NoWindows(rs: seq<Record>, t: nat)
    ensures Windows(rs, t, [])
  {
  }

  lemma {:induction false} BurstsWithinBackoffs(rs: seq<Record>, cfg: Config, n: nat)
    requires n <= |rs| && !cfg.noPause && forall k | 0 <= k <= n :: AbortAfter(rs[..k], cfg).None?
    ensures Bursts(rs[..n], Threshold(cfg)) <= |cfg.backoffs|
  {
    hide Bursts, Trailing, EndsBurst;
    if n == 0 {
      NothingYet(rs, cfg);
    } else {
      BurstsWithinBackoffs(rs, cfg, n - 1);
      RecordStep(rs, Threshold(cfg), n - 1);
      assert AbortAfter(rs[..n], cfg).None?;
    }
  }

  /** A run is cut short for bursts exactly at burst number `|backoffs| + 1`, and never with
      pausing disabled. */
  lemma BurstAbortExactly(rs: seq<Record>, cfg: Config)
    requires rs != [] && forall k | 0 <= k < |rs| :: AbortAfter(rs[..k], cfg).None?
    ensures AbortAfter(rs, cfg) == Some(BurstExceeded) <==>
            !cfg.noPause && Bursts(rs, Threshold(cfg)) == |cfg.backoffs| + 1
  {
    hide Bursts, Trailing, EndsBurst;
    var n := |rs| - 1;
    assert rs[..n + 1] == rs;
    RecordStep(rs, Threshold(cfg), n);
    if !cfg.noPause {
      BurstsWithinBackoffs(rs, cfg, n);
    }
  }

  /** Why the loop stops after the last record, if it does: that record completes a burst while
      pausing is on, and there is no backoff left for it or the backend is still gone after the
      pause; or, whatever the bursts, it finds retrieval broken. */
  lemma AbortExplained(rs: seq<Record>, cfg: Config)
    requires rs != []
    ensures var n, t := |rs| - 1, if cfg.thresholdArg > 1 then cfg.thresholdArg else 1;
              var pausing := !cfg.noPause && Bursts(rs, t) > Bursts(rs[..n], t);
              && (AbortAfter(rs, cfg) == Some(BurstExceeded) <==> pausing && Bursts(rs, t) > |cfg.backoffs|)
              && (AbortAfter(rs, cfg) == Some(BackendUnreachable) <==>
                    pausing && Bursts(rs, t) <= |cfg.backoffs| && !rs[n].reachable)
              && (AbortAfter(rs, cfg) == Some(FilterBroken) <==>
                    rs[n].filterBroken && !(pausing && (Bursts(rs, t) > |cfg.backoffs| || !rs[n].reachable)))
  {
    hide Bursts, Trailing, EndsBurst;
    BurstsStep(rs, Threshold(cfg));
  }

  // ----- bursts are as many as can be --------------------------------------------------------------

  lemma {:induction false} TrailingIsRun(rs: seq<Record>, n: nat)
    requires n <= |rs| && forall k | |rs| - n <= k < |rs| :: rs[k].infraInvalid
    ensures Trailing(rs) >= n
  {
    if n > 0 {
      TrailingIsRun(rs[..|rs| - 1], n - 1);
    }
  }

  lemma {:induction false} TrailingOfPrefix(rs: seq<Record>, n: nat)
    requires n <= Trailing(rs)
    ensures Trailing(rs[..|rs| - n]) == Trailing(rs) - n
    decreases n
  {
    if n == 0 {
      assert rs[..|rs|] == rs;
    } else {
      TrailingOfPrefix(rs[..|rs| - 1], n - 1);
      assert rs[..|rs| - 1][..|rs| - n] == rs[..|rs| - n];
    }
  }

  lemma BurstsOfRun(rs: seq<Record>, t: nat)
    requires t >= 1
    ensures Bursts(rs, t) == Bursts(rs[..|rs| - Trailing(rs)], t) + Whole(Trailing(rs), t)
  {
    if Trailing(rs) == 0 {
      assert rs[..|rs|] == rs;
    }
  }

  /** A run that ends with a whole window holds one burst more than without it. */
  lemma BurstsOfWindow(rs: seq<Record>, t: nat)
    requires 1 <= t <= Trailing(rs)
    ensures Bursts(rs, t) == Bursts(rs[..|rs| - t], t) + 1
  {
    hide Bursts, Trailing;
    var n := Trailing(rs);
    TrailingOfPrefix(rs, t);
    BurstsOfRun(rs, t);
    BurstsOfRun(rs[..|rs| - t], t);
    assert rs[..|rs| - t][..|rs| - n] == rs[..|rs| - n];
  }

  /** The burst count is the largest number of disjoint windows of consecutive invalid records. */
  lemma {:induction false} BurstsAreMost(rs: seq<Record>, t: nat, ws: seq<nat>)
    requires t >= 1 && Windows(rs, t, ws)
    ensures |ws| <= Bursts(rs, t)
    decreases |rs|
  {
    if ws != [] {
      hide Bursts, Trailing;
      var m, n := |ws| - 1, |rs| - 1;
      assert IsWindow(rs, t, ws[m]);
      if ws[m] < n {
        EarlierWindows(rs, t, ws, n);
        BurstsAreMost(rs[..n], t, ws);
        BurstsStep(rs, t);
      } else {
        TrailingIsRun(rs, t);
        BurstsOfWindow(rs, t);
        EarlierWindows(rs, t, ws[..m], |rs| - t);
        BurstsAreMost(rs[..|rs| - t], t, ws[..m]);
      }
    }
  }

  lemma EarlierWindows(rs: seq<Record>, t: nat, ws: seq<nat>, n: nat)
    requires t >= 1 && n <= |rs| && (forall i | 0 <= i < |ws| :: IsWindow(rs, t, ws[i]))
    requires (forall i | 0 < i < |ws| :: ws[i - 1] + t <= ws[i]) && (ws != [] ==> ws[|ws| - 1] < n)
    ensures Windows(rs[..n], t, ws)
  {
    forall i | 0 <= i < |ws| ensures IsWindow(rs[..n], t, ws[i]) {
      WindowOrder(ws, t, i);
      assert IsWindow(rs, t, ws[i]);
    }
  }

  lemma {:induction false} WindowOrder(ws: seq<nat>, t: nat, i: nat)
    requires i < |ws| && forall i | 0 < i < |ws| :: ws[i - 1] + t <= ws[i]
    ensures ws[i] <= ws[|ws| - 1]
    decreases |ws| - i
  {
    if i + 1 < |ws| {
      WindowOrder(ws, t, i + 1);
    }
  }
}

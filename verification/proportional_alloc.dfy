/** `proportional_alloc`: largest-remainder apportionment with at least one seat for each
    repository, and the slices `main` takes with it. Quotas are exact: every comparison of
    `raw` values is multiplied through by the pool size. */
module ProportionalAlloc {

  datatype AllocResult = Seats(seats: seq<nat>) | ZeroDivision | EmptyMax

  function Sum(xs: seq<nat>): nat {
    if xs == [] then 0 else Sum(xs[..|xs| - 1]) + xs[|xs| - 1]
  }

  /** `pool * (quota - seats)`, the quota being `target * c / pool`. */
  function Gap(c: nat, target: int, pool: nat, seats: nat): int {
    target * c - pool * seats
  }

  /** `pool * (seats - quota)`. */
  function Over(c: nat, target: int, pool: nat, seats: nat): int {
    -Gap(c, target, pool, seats)
  }

  /** `max(1, int(quota))`. */
  function FloorSeats(c: nat, target: int, pool: nat): (s: nat)
    requires pool > 0
    ensures s >= 1
  {
    if target <= 0 || target * c / pool < 1 then 1 else target * c / pool
  }

  function Floors(counts: seq<nat>, target: int, pool: nat): (fs: seq<nat>)
    requires pool > 0
    ensures |fs| == |counts|
  {
    if counts == [] then [] else Floors(counts[..|counts| - 1], target, pool) + [FloorSeats(counts[|counts| - 1], target, pool)]
  }

  lemma {:induction false} FloorsAt(counts: seq<nat>, target: int, pool: nat, i: nat)
    requires pool > 0 && i < |counts|
    ensures Floors(counts, target, pool)[i] == FloorSeats(counts[i], target, pool)
    decreases counts
  {
    hide FloorSeats;
    var n := |counts| - 1;
    if i < n {
      FloorsAt(counts[..n], target, pool, i);
    }
  }

  // ----- what the result must be -------------------------------------------------------------

  /** Seats were added: one each to the repositories with the largest remainders, the earlier
      one first among equals. */
  predicate GainsAreLargest(counts: seq<nat>, target: int, pool: nat, floors: seq<nat>, seats: seq<nat>)
    requires |counts| == |floors| == |seats|
  {
    && (forall i | 0 <= i < |seats| :: seats[i] == floors[i] || seats[i] == floors[i] + 1)
    && (forall i, j | 0 <= i < |seats| && 0 <= j < |seats| && seats[i] > floors[i] && seats[j] == floors[j] ::
          Beats(Gap(counts[i], target, pool, floors[i]), i, Gap(counts[j], target, pool, floors[j]), j))
    && (forall i | 0 <= i < |seats| && seats[i] > floors[i] :: Gap(counts[i], target, pool, floors[i]) > 0)
  }

  predicate Beats(x: int, i: int, y: int, j: int) {
    x > y || (x == y && i < j)
  }

  /** Seats were taken: no repository still above one seat overshoots its quota by more than one
      that lost a seat did when it lost its last one; the earlier one first among equals. */
  predicate LossesAreLargest(counts: seq<nat>, target: int, pool: nat, floors: seq<nat>, seats: seq<nat>)
    requires |counts| == |floors| == |seats|
  {
    && (forall i | 0 <= i < |seats| :: 1 <= seats[i] <= floors[i])
    && (forall i, j | 0 <= i < |seats| && 0 <= j < |seats| && i != j && seats[i] < floors[i] && seats[j] > 1 ::
          Beats(pool - Gap(counts[i], target, pool, seats[i]), i, -Gap(counts[j], target, pool, seats[j]), j))
  }

  predicate IsApportionment(counts: seq<nat>, target: int, pool: nat, seats: seq<nat>)
    requires pool > 0
  {
    && |seats| == |counts| && Sum(seats) == target
    && var floors := Floors(counts, target, pool);
    if Sum(floors) <= target then GainsAreLargest(counts, target, pool, floors, seats)
    else LossesAreLargest(counts, target, pool, floors, seats)
  }

  // ----- arithmetic ----------------------------------------------------------------------------

  lemma GapStep(c: nat, target: int, pool: nat, seats: nat)
    ensures Gap(c, target, pool, seats + 1) == Gap(c, target, pool, seats) - pool
  {
  }

  lemma {:induction false} GapDrops(c: nat, target: int, pool: nat, a: nat, b: nat)
    requires a <= b && pool > 0
    ensures Gap(c, target, pool, b) <= Gap(c, target, pool, a)
    ensures a < b ==> Gap(c, target, pool, b) <= Gap(c, target, pool, a) - pool
  {
    if a < b {
      hide Gap;
      GapStep(c, target, pool, b - 1);
      GapDrops(c, target, pool, a, b - 1);
    }
  }

  lemma FloorGap(c: nat, target: int, pool: nat)
    requires pool > 0
    ensures var f := FloorSeats(c, target, pool);
              Gap(c, target, pool, f) < pool && (f > 1 ==> Gap(c, target, pool, f) >= 0)
  {
    var q := target * c;
    var d := q / pool;
    DivMod(q, pool);
    if target <= 0 {
      assert target * c <= 0 by { NonPositiveProduct(target, c); }
    }
  }

  lemma NonPositiveProduct(x: int, y: nat)
    requires x <= 0
    ensures x * y <= 0
  {
  }

  lemma DivMod(q: int, pool: nat)
    requires pool > 0
    ensures 0 <= q - pool * (q / pool) < pool
  {
  }

  lemma {:induction false} SumUpdate(xs: seq<nat>, k: nat, x: nat)
    requires k < |xs|
    ensures Sum(xs[k := x]) == Sum(xs) - xs[k] + x
    decreases |xs|
  {
    var n := |xs| - 1;
    if k < n {
      SumUpdate(xs[..n], k, x);
      assert xs[k := x][..n] == xs[..n][k := x];
    } else {
      assert xs[k := x][..n] == xs[..n];
    }
  }

  lemma {:induction false} SumAtLeastLength(xs: seq<nat>)
    requires forall i | 0 <= i < |xs| :: xs[i] >= 1
    ensures Sum(xs) >= |xs|
    ensures (forall i | 0 <= i < |xs| :: xs[i] == 1) ==> Sum(xs) == |xs|
    decreases |xs|
  {
    if xs != [] {
      SumAtLeastLength(xs[..|xs| - 1]);
    }
  }

  function SumGaps(counts: seq<nat>, target: int, pool: nat, seats: seq<nat>): int
    requires |counts| == |seats|
    decreases |counts|
  {
    if counts == [] then 0
    else
      var n := |counts| - 1;
      SumGaps(counts[..n], target, pool, seats[..n]) + Gap(counts[n], target, pool, seats[n])
  }

  lemma {:induction false} SumGapsIs(counts: seq<nat>, target: int, pool: nat, seats: seq<nat>)
    requires |counts| == |seats|
    ensures SumGaps(counts, target, pool, seats) == target * Sum(counts) - pool * Sum(seats)
    decreases |counts|
  {
    if counts != [] {
      var n := |counts| - 1;
      SumGapsIs(counts[..n], target, pool, seats[..n]);
      Distribute(target, Sum(counts[..n]), counts[n]);
      Distribute(pool, Sum(seats[..n]), seats[n]);
    }
  }

  lemma Distribute(x: int, y: int, z: int)
    ensures x * (y + z) == x * y + x * z
  {
  }

  lemma {:induction false} SomeGapPositive(counts: seq<nat>, target: int, pool: nat, seats: seq<nat>) returns (k: nat)
    requires |counts| == |seats| && SumGaps(counts, target, pool, seats) > 0
    ensures k < |counts| && Gap(counts[k], target, pool, seats[k]) > 0
    decreases |counts|
  {
    hide Gap;
    var n := |counts| - 1;
    if Gap(counts[n], target, pool, seats[n]) > 0 {
      k := n;
    } else {
      k := SomeGapPositive(counts[..n], target, pool, seats[..n]);
    }
  }

  /** With seats still to give, some repository is short of its quota. */
  lemma SomeoneIsShort(counts: seq<nat>, target: int, pool: nat, seats: seq<nat>) returns (k: nat)
    requires |counts| == |seats| && pool == Sum(counts) > 0 && Sum(seats) < target
    ensures k < |counts| && Gap(counts[k], target, pool, seats[k]) > 0
  {
    SumGapsIs(counts, target, pool, seats);
    var d := target - Sum(seats);
    Distribute(pool, Sum(seats), d);
    assert pool * d > 0;
    assert target * pool == pool * target;
    k := SomeGapPositive(counts, target, pool, seats);
  }

  // ----- the two loops -----------------------------------------------------------------------------

  /** `max(..., key=floor - raw)` over the repositories above one seat; none if there is none. */
  method MostOver(counts: seq<nat>, target: int, pool: nat, seats: seq<nat>) returns (found: bool, k: nat)
    requires |counts| == |seats|
    ensures found <==> exists j | 0 <= j < |seats| :: seats[j] > 1
    ensures found ==> k < |seats| && seats[k] > 1
    ensures found ==> forall j | 0 <= j < |seats| && j != k && seats[j] > 1 ::
                        var x, y := Over(counts[k], target, pool, seats[k]), Over(counts[j], target, pool, seats[j]);
                        x > y || (x == y && k < j)
  {
    hide Gap;
    found, k := false, 0;
    for i := 0 to |seats|
      invariant found <==> exists j | 0 <= j < i :: seats[j] > 1
      invariant found ==> k < i && seats[k] > 1
      invariant found ==> forall j | 0 <= j < i && j != k && seats[j] > 1 ::
                            Beats(-Gap(counts[k], target, pool, seats[k]), k, -Gap(counts[j], target, pool, seats[j]), j)
    {
      if seats[i] > 1 && (!found || -Gap(counts[i], target, pool, seats[i]) > -Gap(counts[k], target, pool, seats[k])) {
        found, k := true, i;
      }
    }
  }

  /** `max(floor, key=raw - floor)`. */
  method MostShort(counts: seq<nat>, target: int, pool: nat, seats: seq<nat>) returns (k: nat)
    requires |counts| == |seats| > 0
    ensures k < |seats|
    ensures forall j | 0 <= j < |seats| && j != k ::
              var x, y := Gap(counts[k], target, pool, seats[k]), Gap(counts[j], target, pool, seats[j]);
              x > y || (x == y && k < j)
  {
    hide Gap;
    k := 0;
    for i := 1 to |seats|
      invariant k < i
      invariant forall j | 0 <= j < i && j != k ::
                  Beats(Gap(counts[k], target, pool, seats[k]), k, Gap(counts[j], target, pool, seats[j]), j)
    {
      if Gap(counts[i], target, pool, seats[i]) > Gap(counts[k], target, pool, seats[k]) {
        k := i;
      }
    }
  }

  lemma TakeOne(counts: seq<nat>, target: int, pool: nat, floors: seq<nat>, seats: seq<nat>, k: nat)
    requires pool > 0 && |counts| == |floors| == |seats| && k < |seats| && seats[k] > 1
    requires LossesAreLargest(counts, target, pool, floors, seats)
    requires forall j | 0 <= j < |seats| && j != k && seats[j] > 1 ::
               Beats(-Gap(counts[k], target, pool, seats[k]), k, -Gap(counts[j], target, pool, seats[j]), j)
    ensures LossesAreLargest(counts, target, pool, floors, seats[k := seats[k] - 1])
  {
    hide Gap;
    GapStep(counts[k], target, pool, seats[k] - 1);
  }

  lemma GiveOne(counts: seq<nat>, target: int, pool: nat, floors: seq<nat>, seats: seq<nat>, k: nat)
    requires pool == Sum(counts) > 0 && |counts| == |floors| == |seats| && k < |seats|
    requires floors == Floors(counts, target, pool) && Sum(seats) < target
    requires GainsAreLargest(counts, target, pool, floors, seats)
    requires forall j | 0 <= j < |seats| && j != k ::
               Beats(Gap(counts[k], target, pool, seats[k]), k, Gap(counts[j], target, pool, seats[j]), j)
    ensures GainsAreLargest(counts, target, pool, floors, seats[k := seats[k] + 1])
  {
    hide Gap, FloorSeats;
    var short := SomeoneIsShort(counts, target, pool, seats);
    assert Gap(counts[k], target, pool, seats[k]) > 0;
    if seats[k] > floors[k] {
      FloorsAt(counts, target, pool, k);
      FloorGap(counts[k], target, pool);
      GapStep(counts[k], target, pool, floors[k]);
      assert false;
    }
  }

  method Allocate(counts: seq<nat>, target: int) returns (r: AllocResult)
    ensures var pool := Sum(counts);
              && (pool == 0 && counts != [] ==> r == ZeroDivision)
              && (counts == [] ==> r == if target == 0 then Seats([]) else EmptyMax)
              && (pool > 0 ==> (r.Seats? <==> |counts| <= target) && (r.Seats? || r == EmptyMax)
                               && (r.Seats? ==> IsApportionment(counts, target, pool, r.seats)))
    ensures r.Seats? ==> |r.seats| == |counts| && Sum(r.seats) == target
  {
    hide Gap, Sum, FloorSeats, GainsAreLargest, LossesAreLargest;
    var pool := Sum(counts);
    assert Sum([]) == 0 by { SumNothing(); }
    if counts == [] {
      return if target == 0 then Seats([]) else EmptyMax;
    }
    if pool == 0 {
      return ZeroDivision;
    }
    var floors := Floors(counts, target, pool);
    var seats := floors;
    NoLossYet(counts, target, pool, floors);
    while Sum(seats) > target
      invariant |seats| == |counts| && LossesAreLargest(counts, target, pool, floors, seats)
      invariant seats != floors ==> Sum(seats) >= target && Sum(floors) > target
      decreases Sum(seats)
    {
      var found, k := MostOver(counts, target, pool, seats);
      SeatsPositive(counts, target, pool, floors, seats);
      SumAtLeastLength(seats);
      if !found {
        return EmptyMax;
      }
      TakeOne(counts, target, pool, floors, seats, k);
      SumUpdate(seats, k, seats[k] - 1);
      seats := seats[k := seats[k] - 1];
    }
    SeatsPositive(counts, target, pool, floors, seats);
    SumAtLeastLength(seats);
    if seats == floors && Sum(floors) <= target {
      NoGainYet(counts, target, pool, floors);
    }
    while Sum(seats) < target
      invariant |seats| == |counts| && Sum(seats) <= target
      invariant if Sum(floors) <= target then GainsAreLargest(counts, target, pool, floors, seats)
                else Sum(seats) == target && LossesAreLargest(counts, target, pool, floors, seats)
      decreases target - Sum(seats)
    {
      var k := MostShort(counts, target, pool, seats);
      GiveOne(counts, target, pool, floors, seats, k);
      SumUpdate(seats, k, seats[k] + 1);
      seats := seats[k := seats[k] + 1];
    }
    return Seats(seats);
  }

  lemma SumNothing()
    ensures Sum([]) == 0
  {
  }

  lemma NoLossYet(counts: seq<nat>, target: int, pool: nat, floors: seq<nat>)
    requires pool > 0 && floors == Floors(counts, target, pool)
    ensures LossesAreLargest(counts, target, pool, floors, floors)
  {
    hide Gap, FloorSeats;
    forall i | 0 <= i < |counts| ensures floors[i] >= 1 {
      FloorsAt(counts, target, pool, i);
    }
  }

  lemma NoGainYet(counts: seq<nat>, target: int, pool: nat, floors: seq<nat>)
    requires |floors| == |counts|
    ensures GainsAreLargest(counts, target, pool, floors, floors)
  {
    hide Gap;
  }

  lemma SeatsPositive(counts: seq<nat>, target: int, pool: nat, floors: seq<nat>, seats: seq<nat>)
    requires |counts| == |floors| == |seats| && LossesAreLargest(counts, target, pool, floors, seats)
    ensures forall i | 0 <= i < |seats| :: seats[i] >= 1
  {
    hide Gap;
  }

  // ----- what an apportionment guarantees -------------------------------------------------------------

  lemma WithinGap(counts: seq<nat>, target: int, pool: nat, seats: seq<nat>, i: nat)
    requires pool > 0 && i < |counts| == |seats| && IsApportionment(counts, target, pool, seats)
    ensures 1 <= seats[i]
    ensures seats[i] > 1 ==> Gap(counts[i], target, pool, seats[i]) + pool > 0
  {
    hide Gap, FloorSeats, Sum;
    var floors := Floors(counts, target, pool);
    FloorsAt(counts, target, pool, i);
    FloorGap(counts[i], target, pool);
    if seats[i] > floors[i] {
      GapStep(counts[i], target, pool, floors[i]);
    } else {
      GapDrops(counts[i], target, pool, seats[i], floors[i]);
    }
  }

  /** With `quota == target * counts[i] / pool`: at least one seat, and one, or less than one more
      than the quota; where seats were added, also more than one less. */
  lemma WithinQuota(counts: seq<nat>, target: int, pool: nat, seats: seq<nat>, i: nat)
    requires pool > 0 && i < |counts| == |seats| && IsApportionment(counts, target, pool, seats)
    ensures seats[i] >= 1
    ensures seats[i] == 1 || pool * seats[i] < target * counts[i] + pool
    ensures Sum(Floors(counts, target, pool)) <= target ==> target * counts[i] < pool * seats[i] + pool
  {
    hide FloorSeats, Sum;
    WithinGap(counts, target, pool, seats, i);
    FloorsAt(counts, target, pool, i);
    FloorGap(counts[i], target, pool);
    GapDrops(counts[i], target, pool, FloorSeats(counts[i], target, pool),
             if seats[i] > FloorSeats(counts[i], target, pool) then seats[i] else FloorSeats(counts[i], target, pool));
  }

  /** Repositories with equally many tasks end at most one seat apart: the earlier one ahead where
      seats were added, the later one where they were taken. */
  lemma EqualTasks(counts: seq<nat>, target: int, pool: nat, seats: seq<nat>, i: nat, j: nat)
    requires pool > 0 && i < j < |counts| == |seats| && IsApportionment(counts, target, pool, seats)
    requires counts[i] == counts[j]
    ensures if Sum(Floors(counts, target, pool)) <= target then seats[j] <= seats[i] <= seats[j] + 1
            else seats[i] <= seats[j] <= seats[i] + 1
  {
    hide Gap, FloorSeats, Sum;
    var c := counts[i];
    FloorsAt(counts, target, pool, i);
    FloorsAt(counts, target, pool, j);
    if Sum(Floors(counts, target, pool)) > target {
      if seats[i] > seats[j] {
        GapStep(c, target, pool, seats[j]);
        GapDrops(c, target, pool, seats[j] + 1, seats[i]);
      } else if seats[j] > seats[i] + 1 {
        GapStep(c, target, pool, seats[i]);
        GapDrops(c, target, pool, seats[i] + 1, seats[j]);
      }
    }
  }

  /** No repository is asked for more tasks than it has. */
  lemma WithinCounts(counts: seq<nat>, target: int, pool: nat, seats: seq<nat>, i: nat)
    requires pool > 0 && i < |counts| == |seats| && IsApportionment(counts, target, pool, seats)
    requires target <= pool && counts[i] > 0
    ensures seats[i] <= counts[i]
  {
    hide IsApportionment, Gap;
    WithinGap(counts, target, pool, seats, i);
    QuotaAtMostCount(counts[i], target, pool);
    if seats[i] > counts[i] {
      GapDrops(counts[i], target, pool, counts[i] + 1, seats[i]);
    }
  }

  lemma QuotaAtMostCount(c: nat, target: int, pool: nat)
    requires target <= pool
    ensures Gap(c, target, pool, c + 1) + pool <= 0
  {
    Distribute(pool, c, 1);
    Distribute(c, target, pool - target);
    assert c * (pool - target) >= 0;
  }

  /** A repository with more tasks never ends with fewer seats. */
  lemma MoreTasksMoreSeats(counts: seq<nat>, target: int, pool: nat, seats: seq<nat>, i: nat, j: nat)
    requires pool > 0 && i < |counts| == |seats| && j < |counts| && IsApportionment(counts, target, pool, seats)
    requires counts[i] > counts[j] && target > 0
    ensures seats[i] >= seats[j]
  {
    hide Gap, FloorSeats, Sum;
    var floors := Floors(counts, target, pool);
    FloorsAt(counts, target, pool, i);
    FloorsAt(counts, target, pool, j);
    FloorsMonotone(counts[i], counts[j], target, pool);
    if seats[i] < seats[j] {
      if Sum(floors) <= target {
        GapOrder(counts[i], counts[j], target, pool, floors[i]);
      } else {
        GapOrder(counts[i], counts[j], target, pool, seats[i] + 1);
        GapStep(counts[i], target, pool, seats[i]);
        GapDrops(counts[j], target, pool, seats[i] + 1, seats[j]);
      }
      assert false;
    }
  }

  lemma GapOrder(c: nat, d: nat, target: int, pool: nat, seats: nat)
    requires c > d && target > 0
    ensures Gap(c, target, pool, seats) > Gap(d, target, pool, seats)
  {
    Distribute(target, d, c - d);
    assert target * (c - d) > 0;
  }

  lemma FloorsMonotone(c: nat, d: nat, target: int, pool: nat)
    requires pool > 0 && c > d && target > 0
    ensures FloorSeats(c, target, pool) >= FloorSeats(d, target, pool)
  {
    Distribute(target, d, c - d);
    assert target * (c - d) > 0;
    DivMonotone(target * d, target * c, pool);
  }

  lemma ProductAtLeast(pool: nat, k: int)
    ensures k >= 1 ==> pool * k >= pool
  {
  }

  lemma DivMonotone(x: int, y: int, pool: nat)
    requires pool > 0 && x <= y
    ensures x / pool <= y / pool
  {
    var a, b := x / pool, y / pool;
    Distribute(pool, b, a - b);
    ProductAtLeast(pool, a - b);
    DivMod(x, pool);
    DivMod(y, pool);
  }

  lemma {:induction false} EqualSumsCross(xs: seq<nat>, ys: seq<nat>) returns (i: nat)
    requires |xs| == |ys| && Sum(xs) >= Sum(ys) && xs != ys
    ensures i < |xs| && xs[i] > ys[i]
    decreases |xs|
  {
    var n := |xs| - 1;
    if xs[n] > ys[n] {
      i := n;
    } else {
      assert xs == xs[..n] + [xs[n]] && ys == ys[..n] + [ys[n]];
      i := EqualSumsCross(xs[..n], ys[..n]);
    }
  }

  /** The conditions leave no choice: there is at most one apportionment. */
  lemma ApportionmentIsUnique(counts: seq<nat>, target: int, pool: nat, xs: seq<nat>, ys: seq<nat>)
    requires pool > 0 && IsApportionment(counts, target, pool, xs) && IsApportionment(counts, target, pool, ys)
    ensures xs == ys
  {
    hide Gap, FloorSeats, Sum;
    if xs != ys {
      var i := EqualSumsCross(xs, ys);
      var j := EqualSumsCross(ys, xs);
      var floors := Floors(counts, target, pool);
      if Sum(floors) > target {
        GapDrops(counts[i], target, pool, ys[i], xs[i]);
        GapDrops(counts[j], target, pool, xs[j], ys[j]);
      }
      assert false;
    }
  }

  // ----- the slices taken by main --------------------------------------------------------------------------

  function Picked(counts: seq<nat>, seats: seq<nat>): nat
    requires |counts| == |seats|
    decreases |counts|
  {
    if counts == [] then 0
    else
      var n := |counts| - 1;
      Picked(counts[..n], seats[..n]) + if seats[n] <= counts[n] then seats[n] else counts[n]
  }

  lemma {:induction false} PickedBounds(counts: seq<nat>, seats: seq<nat>)
    requires |counts| == |seats|
    ensures Picked(counts, seats) <= Sum(counts)
    ensures (forall i | 0 <= i < |seats| :: seats[i] <= counts[i]) ==> Picked(counts, seats) == Sum(seats)
    decreases |counts|
  {
    if counts != [] {
      PickedBounds(counts[..|counts| - 1], seats[..|counts| - 1]);
    }
  }

  /** Slicing each repository's tasks by its seats gives exactly the target number of tasks
      if and only if there are that many tasks. */
  lemma SlicesGiveTarget(counts: seq<nat>, target: int, seats: seq<nat>)
    requires var pool := Sum(counts); pool > 0 && IsApportionment(counts, target, pool, seats)
    requires forall i | 0 <= i < |counts| :: counts[i] > 0
    ensures Picked(counts, seats) == target <==> target <= Sum(counts)
  {
    hide Gap, FloorSeats, Sum, Picked, GainsAreLargest, LossesAreLargest;
    PickedBounds(counts, seats);
    if target <= Sum(counts) {
      forall i | 0 <= i < |seats| ensures seats[i] <= counts[i] {
        WithinCounts(counts, target, Sum(counts), seats, i);
      }
    }
  }
}

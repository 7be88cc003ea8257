/**
 * The stratified sampler (`stratified_selection`): split `n` draws evenly over
 * the distinct observation months, give the first `n mod k` months one extra
 * draw, then draw each month's share without replacement from that month's
 * granules and concatenate the draws in month order.
 */
module Sampler {
  import opened Wrappers
  import opened Records

  /** The ways a call fails; the script raises instead of returning any sample. */
  datatype SampleError =
    | EmptyResults                                                    // divmod(n, 0)
    | NegativeSampleSize(month: Month, size: int)                     // choice with size < 0
    | InsufficientPopulation(month: Month, size: int, available: nat) // size > population

  // ---------------------------------------------------------------- sequences

  predicate Distinct<T(==)>(s: seq<T>)
  {
    forall i, j :: 0 <= i < j < |s| ==> s[i] != s[j]
  }

  function Sum(s: seq<int>): int
  {
    if s == [] then 0 else Sum(s[..|s| - 1]) + s[|s| - 1]
  }

  /** `itertools.chain.from_iterable` over drawn positions: the blocks one after the other. */
  function Flatten(blocks: seq<seq<nat>>): seq<nat>
  {
    if blocks == [] then [] else Flatten(blocks[..|blocks| - 1]) + blocks[|blocks| - 1]
  }

  /** A position is in the concatenation exactly when it is in one of the blocks. */
  lemma {:induction false} FlattenMembers(blocks: seq<seq<nat>>)
    ensures forall x :: x in Flatten(blocks) <==> exists j :: 0 <= j < |blocks| && x in blocks[j]
  {
    if blocks != [] {
      var init := blocks[..|blocks| - 1];
      FlattenMembers(init);
      forall x | x in Flatten(blocks)
        ensures exists j :: 0 <= j < |blocks| && x in blocks[j]
      {
        if x !in blocks[|blocks| - 1] {
          assert x in Flatten(init);
          var j :| 0 <= j < |init| && x in init[j];
          assert blocks[j] == init[j];
        }
      }
      forall x, j | 0 <= j < |blocks| && x in blocks[j]
        ensures x in Flatten(blocks)
      {
        if j < |init| {
          assert init[j] == blocks[j];
        }
      }
    }
  }

  /** Every position in `idx` is below `bound`. */
  predicate AllBelow(idx: seq<nat>, bound: int)
  {
    forall k :: 0 <= k < |idx| ==> idx[k] < bound
  }

  lemma AllBelowMembers(idx: seq<nat>, bound: int)
    requires forall x :: x in idx ==> x < bound
    ensures AllBelow(idx, bound)
  {
    forall k | 0 <= k < |idx| ensures idx[k] < bound {
      assert idx[k] in idx;
    }
  }

  lemma AllBelowConcat(a: seq<nat>, b: seq<nat>, bound: int)
    requires forall x :: x in a ==> x < bound
    requires forall x :: x in b ==> x < bound
    ensures AllBelow(b, bound) && AllBelow(a + b, bound)
  {
    AllBelowMembers(b, bound);
    AllBelowMembers(a + b, bound);
  }

  /** Fancy indexing `a[idx]`. */
  function Gather<T>(s: seq<T>, idx: seq<nat>): (r: seq<T>)
    requires AllBelow(idx, |s|)
    ensures |r| == |idx|
    ensures forall k :: 0 <= k < |idx| ==> r[k] == s[idx[k]]
  {
    if idx == [] then [] else Gather(s, idx[..|idx| - 1]) + [s[idx[|idx| - 1]]]
  }

  lemma GatherConcat<T>(s: seq<T>, a: seq<nat>, b: seq<nat>)
    requires AllBelow(a, |s|) && AllBelow(b, |s|)
    ensures AllBelow(a + b, |s|)
    ensures Gather(s, a + b) == Gather(s, a) + Gather(s, b)
  {
  }

  /** A sequence is duplicate-free exactly when no element occurs twice in its multiset. */
  lemma {:induction false} DistinctIffSingleOccurrences<T>(s: seq<T>)
    ensures Distinct(s) <==> forall x :: multiset(s)[x] <= 1
  {
    if s == [] {
    } else {
      var init, last := s[..|s| - 1], s[|s| - 1];
      assert s == init + [last];
      assert multiset(s) == multiset(init) + multiset{last};
      DistinctIffSingleOccurrences(init);
      if Distinct(s) {
        assert Distinct(init);
        assert forall i :: 0 <= i < |init| ==> init[i] == s[i] != last;
        assert multiset(init)[last] == 0;
      } else {
        var i, j :| 0 <= i < j < |s| && s[i] == s[j];
        if j < |s| - 1 {
          assert init[i] == init[j];
          assert !Distinct(init);
          var x :| multiset(init)[x] > 1;
          assert multiset(s)[x] > 1;
        } else {
          assert init[i] == last;
          assert multiset(init)[last] >= 1;
          assert multiset(s)[last] == multiset(init)[last] + 1;
        }
      }
    }
  }

  /** Drawing without replacement from duplicate-free positions yields duplicate-free positions. */
  lemma SubMultisetDistinct<T>(drawn: seq<T>, population: seq<T>)
    requires Distinct(population)
    requires multiset(drawn) <= multiset(population)
    ensures Distinct(drawn)
  {
    DistinctIffSingleOccurrences(population);
    DistinctIffSingleOccurrences(drawn);
  }

  lemma DistinctConcat<T>(a: seq<T>, b: seq<T>)
    requires Distinct(a) && Distinct(b)
    requires forall i, j :: 0 <= i < |a| && 0 <= j < |b| ==> a[i] != b[j]
    ensures Distinct(a + b)
  {
    forall i, j | 0 <= i < j < |a + b| ensures (a + b)[i] != (a + b)[j] {
      if j < |a| {
      } else if i >= |a| {
        assert (a + b)[i] == b[i - |a|] && (a + b)[j] == b[j - |a|];
      } else {
        assert (a + b)[j] == b[j - |a|];
      }
    }
  }

  // ---------------------------------------------------------------- allotment

  /** `k` entries: `d + 1` for the first `m`, `d` for the rest. */
  function Steps(d: int, m: int, k: nat): seq<int>
  {
    seq(k, i => if i < m then d + 1 else d)
  }

  lemma {:induction false} StepsSum(d: int, m: int, k: nat)
    requires 0 <= m <= k
    ensures Sum(Steps(d, m, k)) == k * d + m
  {
    if k > 0 {
      var s := Steps(d, m, k);
      if m == k {
        assert s[..k - 1] == Steps(d, m - 1, k - 1);
        StepsSum(d, m - 1, k - 1);
      } else {
        assert s[..k - 1] == Steps(d, m, k - 1);
        StepsSum(d, m, k - 1);
      }
    }
  }

  /**
   * The per-month sample sizes `nsample` for `n` draws over `k` months, with
   * `d, m = divmod(n, k)`: every month gets `d` and the first `m` get `d + 1`.
   */
  function Allotment(n: int, k: nat): (r: seq<int>)
    requires k > 0
    ensures |r| == k
    ensures forall i, j :: 0 <= i <= j < k ==> r[j] <= r[i] <= r[j] + 1
  {
    Steps(n / k, n % k, k)
  }

  /** The allotments add up to exactly `n`: `d * k + m == n`. */
  lemma AllotmentSum(n: int, k: nat)
    requires k > 0
    ensures Sum(Allotment(n, k)) == n
  {
    StepsSum(n / k, n % k, k);
  }

  /** Every allotment is `d` or `d + 1`, and exactly the first `n mod k` are `d + 1`. */
  lemma AllotmentEntries(n: int, k: nat, i: nat)
    requires 0 < k && i < k
    ensures Allotment(n, k)[i] == n / k || Allotment(n, k)[i] == n / k + 1
    ensures Allotment(n, k)[i] == n / k + 1 <==> i < n % k
  {
  }

  lemma MulBounds(k: int, t: int)
    requires k > 0
    ensures t >= 1 ==> k * t >= k
    ensures t <= -1 ==> k * t <= -k
  {
  }

  /** No allotment is negative exactly when `n` is not. */
  lemma AllotmentNonNegative(n: int, k: nat)
    requires k > 0
    ensures (forall i :: 0 <= i < k ==> Allotment(n, k)[i] >= 0) <==> n >= 0
  {
    var a := Allotment(n, k);
    assert n == k * (n / k) + n % k;
    MulBounds(k, n / k);
    assert a[k - 1] == n / k;
  }

  lemma DivUnique(n: int, k: nat, d: int, m: int)
    requires k > 0 && 0 <= m < k && n == k * d + m
    ensures d == n / k && m == n % k
  {
    var q, rem := n / k, n % k;
    assert k * q + rem == n;
    var t := d - q;
    assert k * t == rem - m by {
      assert k * t == k * d - k * q;
    }
    MulBounds(k, t);
  }

  /**
   * The allotment is the only way to write `n` as `k` non-increasing sizes
   * whose largest and smallest differ by at most one.
   */
  lemma AllotmentUnique(n: int, k: nat, s: seq<int>)
    requires k > 0 && |s| == k && Sum(s) == n
    requires forall i, j :: 0 <= i <= j < k ==> s[j] <= s[i]
    requires s[0] <= s[k - 1] + 1
    ensures s == Allotment(n, k)
  {
    var b := s[k - 1];
    var c := 0;
    while c < k && s[c] == b + 1
      invariant 0 <= c <= k
      invariant forall i :: 0 <= i < c ==> s[i] == b + 1
    {
      c := c + 1;
    }
    assert c < k;
    assert s == Steps(b, c, k);
    StepsSum(b, c, k);
    DivUnique(n, k, b, c);
  }

  /** `nsample`: an array of `d`s whose first `m` entries are then incremented in place. */
  method Allot(n: int, nmonths: nat) returns (nsample: array<int>)
    requires nmonths > 0
    ensures fresh(nsample)
    ensures nsample[..] == Allotment(n, nmonths)
  {
    var d, m := n / nmonths, n % nmonths;
    nsample := new int[nmonths](_ => d);
    var i := 0;
    while i < m
      invariant 0 <= i <= m
      invariant nsample[..] == Steps(d, i, nmonths)
    {
      nsample[i] := nsample[i] + 1;
      i := i + 1;
    }
  }

  // ---------------------------------------------------------------- partitions

  /** The positions of the granules observed in `month`, in input order (`aresults[months == month]`). */
  function Partition(months: seq<Month>, month: Month): seq<nat>
  {
    if months == [] then []
    else
      var rest := Partition(months[..|months| - 1], month);
      if months[|months| - 1] == month then rest + [|months| - 1] else rest
  }

  /**
   * The partition holds the positions of all and only the granules of
   * `month`, in increasing order, so none twice.
   */
  lemma {:induction false} PartitionSpec(months: seq<Month>, month: Month)
    ensures forall k :: 0 <= k < |Partition(months, month)| ==>
      Partition(months, month)[k] < |months| && months[Partition(months, month)[k]] == month
    ensures forall i :: 0 <= i < |months| && months[i] == month ==> i in Partition(months, month)
    ensures forall k, l :: 0 <= k < l < |Partition(months, month)| ==>
      Partition(months, month)[k] < Partition(months, month)[l]
    ensures Distinct(Partition(months, month))
  {
    if months != [] {
      var init := months[..|months| - 1];
      PartitionSpec(init, month);
      forall i | 0 <= i < |init| ensures months[i] == init[i] {
      }
    }
  }

  // ---------------------------------------------------------------- random draw

  /** `size` items drawn without replacement from `population`. */
  predicate IsDraw<T(==)>(population: seq<T>, size: int, drawn: seq<T>)
  {
    |drawn| == size && multiset(drawn) <= multiset(population)
  }

  datatype ChoiceError = EmptyPopulation | SampleLargerThanPopulation | NegativeDimensions

  /**
   * `np.random.choice(population, size, replace=False)`: fails on an empty
   * population unless `size` is zero, then when `size` exceeds the population,
   * then when it is negative; otherwise returns some draw without
   * replacement, any of which the generator may produce.
   */
  method Choice<T(==)>(population: seq<T>, size: int) returns (r: Result<seq<T>, ChoiceError>)
    ensures r.Failure? <==> size > |population| || size < 0
    ensures r.Failure? ==>
              r.error == (if |population| == 0 then EmptyPopulation
                          else if size > |population| then SampleLargerThanPopulation
                          else NegativeDimensions)
    ensures r.Success? ==> IsDraw(population, size, r.value)
  {
    if |population| == 0 && size != 0 {
      return Failure(EmptyPopulation);
    } else if size > |population| {
      return Failure(SampleLargerThanPopulation);
    } else if size < 0 {
      return Failure(NegativeDimensions);
    }
    assert population == population[..size] + population[size..];
    assert IsDraw(population, size, population[..size]);
    var drawn :| IsDraw(population, size, drawn);
    r := Success(drawn);
  }

  // ---------------------------------------------------------------- the sampler

  /**
   * `order` is how the set of distinct months built for the draws iterates:
   * every month that occurs, each once. The set built earlier is only counted,
   * and it has as many elements as `order`.
   */
  ghost predicate EnumeratesMonths(order: seq<Month>, results: seq<Granule>)
  {
    && Distinct(order)
    && forall m: Month :: m in order <==> m in ObservationMonths(results)
  }

  lemma {:induction false} DistinctCard<T>(s: seq<T>)
    requires Distinct(s)
    ensures |set x | x in s| == |s|
  {
    if s != [] {
      var init := s[..|s| - 1];
      DistinctCard(init);
      assert (set x | x in s) == (set x | x in init) + {s[|s| - 1]};
      assert forall i :: 0 <= i < |init| ==> init[i] == s[i] != s[|s| - 1];
    }
  }

  /** Every month of the iteration order has a granule to draw from. */
  lemma MonthHasGranules(results: seq<Granule>, order: seq<Month>, j: nat)
    requires EnumeratesMonths(order, results)
    requires j < |order|
    ensures |Partition(ObservationMonths(results), order[j])| > 0
  {
    var months := ObservationMonths(results);
    assert order[j] in order;
    var i :| 0 <= i < |months| && months[i] == order[j];
    PartitionSpec(months, order[j]);
    assert i in Partition(months, order[j]);
  }

  /** `nmonths = len(set(months))`: one allotment per distinct month. */
  lemma OrderCountsMonths(order: seq<Month>, results: seq<Granule>)
    requires EnumeratesMonths(order, results)
    ensures |order| == |MonthSet(results)|
  {
    var months := ObservationMonths(results);
    assert (set x: Month | x in order) == MonthSet(results) by {
      forall x | x in order ensures x in MonthSet(results) {
        assert x in months;
        var i :| 0 <= i < |months| && months[i] == x;
        assert results[i].month == x;
      }
      forall x | x in MonthSet(results) ensures x in order {
        var i :| 0 <= i < |results| && results[i].month == x;
        assert months[i] == x;
      }
    }
    DistinctCard(order);
  }

  predicate Fits(size: int, available: nat)
  {
    0 <= size <= available
  }

  /** The draw for month `order[j]` can be made. */
  ghost predicate MonthFits(results: seq<Granule>, order: seq<Month>, n: int, j: nat)
    requires 0 < |order| && j < |order|
  {
    Fits(Allotment(n, |order|)[j], |Partition(ObservationMonths(results), order[j])|)
  }

  /** Every month's draw can be made. */
  ghost predicate Feasible(results: seq<Granule>, order: seq<Month>, n: int)
  {
    |order| > 0 && forall j :: 0 <= j < |order| ==> MonthFits(results, order, n, j)
  }

  /** The error the draw for month `order[j]` raises when it cannot be made. */
  function DrawError(month: Month, size: int, available: nat): SampleError
  {
    if size > available then InsufficientPopulation(month, size, available)
    else NegativeSampleSize(month, size)
  }

  /** There is a month to sample exactly when there is a granule. */
  lemma MonthsPresent(results: seq<Granule>, order: seq<Month>)
    requires EnumeratesMonths(order, results)
    ensures |order| > 0 <==> |results| > 0
  {
    var months := ObservationMonths(results);
    if |results| > 0 {
      assert months[0] in months;
    }
    if |order| > 0 {
      assert order[0] in order;
    }
  }

  /**
   * A call can succeed exactly when there is a month, `n` is not negative and
   * no month's allotment exceeds its granules.
   */
  lemma FeasibleIff(results: seq<Granule>, order: seq<Month>, n: int)
    ensures Feasible(results, order, n) <==>
      && |order| > 0 && n >= 0
      && forall j :: 0 <= j < |order| ==>
           Allotment(n, |order|)[j] <= |Partition(ObservationMonths(results), order[j])|
  {
    if |order| > 0 {
      AllotmentNonNegative(n, |order|);
      if Feasible(results, order, n) {
        forall i | 0 <= i < |order|
          ensures 0 <= Allotment(n, |order|)[i] <= |Partition(ObservationMonths(results), order[i])|
        {
          assert MonthFits(results, order, n, i);
        }
      }
    }
  }

  /** `order[j]` is the first month, in iteration order, whose draw cannot be made. */
  ghost predicate FirstMisfit(results: seq<Granule>, order: seq<Month>, n: int, j: nat)
  {
    && j < |order|
    && (forall j' :: 0 <= j' <= j ==> (MonthFits(results, order, n, j') <==> j' < j))
  }

  /** How many of `s` were observed in `m`. */
  function CountMonth(s: seq<Granule>, m: Month): nat
  {
    if s == [] then 0
    else CountMonth(s[..|s| - 1], m) + (if s[|s| - 1].month == m then 1 else 0)
  }

  lemma {:induction false} CountMonthConcat(a: seq<Granule>, b: seq<Granule>, m: Month)
    ensures CountMonth(a + b, m) == CountMonth(a, m) + CountMonth(b, m)
  {
    if b != [] {
      assert (a + b)[..|a + b| - 1] == a + b[..|b| - 1];
      CountMonthConcat(a, b[..|b| - 1], m);
    } else {
      assert a + b == a;
    }
  }

  lemma {:induction false} CountMonthUniform(s: seq<Granule>, m0: Month, m: Month)
    requires forall k :: 0 <= k < |s| ==> s[k].month == m0
    ensures CountMonth(s, m) == if m == m0 then |s| else 0
  {
    if s != [] {
      CountMonthUniform(s[..|s| - 1], m0, m);
    }
  }

  /**
   * `picks[j]` is a draw of `alloc[j]` positions from the granules of month
   * `order[j]`, for the months handled so far.
   */
  ghost predicate DrawsFor(results: seq<Granule>, order: seq<Month>, alloc: seq<int>, picks: seq<seq<nat>>)
  {
    && |picks| <= |order|
    && |picks| <= |alloc|
    && forall j {:trigger picks[j]} :: 0 <= j < |picks| ==>
         IsDraw(Partition(ObservationMonths(results), order[j]), alloc[j], picks[j])
  }

  /** The per-month draws of one run of the sampler, one for every month. */
  ghost predicate IsStratifiedDraw(results: seq<Granule>, order: seq<Month>, n: int, picks: seq<seq<nat>>)
  {
    |order| > 0 && |picks| == |order| && DrawsFor(results, order, Allotment(n, |order|), picks)
  }

  lemma DrawnFromPartition(population: seq<nat>, size: int, drawn: seq<nat>, x: nat)
    requires IsDraw(population, size, drawn)
    requires x in drawn
    ensures x in population
  {
    assert multiset(drawn)[x] > 0;
  }

  /** A draw for `month` holds only positions of granules observed in `month`. */
  lemma DrawMonth(results: seq<Granule>, month: Month, size: int, drawn: seq<nat>)
    requires IsDraw(Partition(ObservationMonths(results), month), size, drawn)
    ensures forall x :: x in drawn ==> x < |results| && results[x].month == month
  {
    PartitionSpec(ObservationMonths(results), month);
    forall x | x in drawn ensures x < |results| && results[x].month == month {
      DrawnFromPartition(Partition(ObservationMonths(results), month), size, drawn, x);
    }
  }

  /** Every drawn position is a granule of the input, of one of the months handled so far. */
  lemma {:induction false} DrawsInRange(results: seq<Granule>, order: seq<Month>, alloc: seq<int>, picks: seq<seq<nat>>)
    requires DrawsFor(results, order, alloc, picks)
    ensures forall x :: x in Flatten(picks) ==> x < |results| && results[x].month in order[..|picks|]
  {
    if picks != [] {
      var init, last, j := picks[..|picks| - 1], picks[|picks| - 1], |picks| - 1;
      assert DrawsFor(results, order, alloc, init);
      DrawsInRange(results, order, alloc, init);
      DrawMonth(results, order[j], alloc[j], last);
      assert order[..|picks|] == order[..j] + [order[j]];
    }
  }

  /** Blocks of the given lengths flatten to as many positions as those lengths add up to. */
  lemma {:induction false} FlattenLength(picks: seq<seq<nat>>, alloc: seq<int>)
    requires |picks| <= |alloc|
    requires forall j :: 0 <= j < |picks| ==> |picks[j]| == alloc[j]
    ensures |Flatten(picks)| == Sum(alloc[..|picks|])
  {
    if picks != [] {
      var init := picks[..|picks| - 1];
      assert Flatten(picks) == Flatten(init) + picks[|picks| - 1];
      FlattenLength(init, alloc);
      assert alloc[..|picks|][..|init|] == alloc[..|init|];
    }
  }

  /** The draws hold as many positions as their allotments add up to. */
  lemma DrawsSize(results: seq<Granule>, order: seq<Month>, alloc: seq<int>, picks: seq<seq<nat>>)
    requires DrawsFor(results, order, alloc, picks)
    ensures |Flatten(picks)| == Sum(alloc[..|picks|])
  {
    forall j | 0 <= j < |picks| ensures |picks[j]| == alloc[j] {
      assert IsDraw(Partition(ObservationMonths(results), order[j]), alloc[j], picks[j]);
    }
    FlattenLength(picks, alloc);
  }

  /** Draws without replacement from disjoint months never repeat a position. */
  lemma {:induction false} DrawsDistinct(results: seq<Granule>, order: seq<Month>, alloc: seq<int>, picks: seq<seq<nat>>)
    requires DrawsFor(results, order, alloc, picks)
    requires Distinct(order)
    ensures Distinct(Flatten(picks))
  {
    if picks != [] {
      var init, last, j := picks[..|picks| - 1], picks[|picks| - 1], |picks| - 1;
      assert DrawsFor(results, order, alloc, init);
      DrawsDistinct(results, order, alloc, init);
      DrawsInRange(results, order, alloc, init);
      PartitionSpec(ObservationMonths(results), order[j]);
      SubMultisetDistinct(last, Partition(ObservationMonths(results), order[j]));
      DrawMonth(results, order[j], alloc[j], last);
      assert order[j] !in order[..j];
      forall a, b | 0 <= a < |Flatten(init)| && 0 <= b < |last| ensures Flatten(init)[a] != last[b] {
        assert Flatten(init)[a] in Flatten(init);
        assert last[b] in last;
      }
      DistinctConcat(Flatten(init), last);
    }
  }

  /** Appending a block of granules all observed in `m0` adds its length to the count of `m0` only. */
  lemma CountMonthAppendUniform(head: seq<Granule>, block: seq<Granule>, m0: Month, m: Month)
    requires forall k :: 0 <= k < |block| ==> block[k].month == m0
    ensures CountMonth(head + block, m) == CountMonth(head, m) + if m == m0 then |block| else 0
  {
    CountMonthConcat(head, block, m);
    CountMonthUniform(block, m0, m);
  }

  /** Counting after one more month's block: only that month's count grows, by the block's length. */
  lemma CountAfterBlock(head: seq<Granule>, block: seq<Granule>, order: seq<Month>, alloc: seq<int>, i: nat)
    requires Distinct(order) && i < |order| && i < |alloc| && |block| == alloc[i]
    requires forall k :: 0 <= k < |block| ==> block[k].month == order[i]
    requires forall j :: 0 <= j < |order| ==> CountMonth(head, order[j]) == if j < i then alloc[j] else 0
    ensures forall j :: 0 <= j < |order| ==> CountMonth(head + block, order[j]) == if j < i + 1 then alloc[j] else 0
  {
    forall j | 0 <= j < |order|
      ensures CountMonth(head + block, order[j]) == if j < i + 1 then alloc[j] else 0
    {
      CountMonthAppendUniform(head, block, order[i], order[j]);
      if j != i {
        assert order[j] != order[i];
      }
    }
  }

  /** The sample holds exactly `alloc[j]` granules of month `order[j]` for every month handled so far, and none of the others. */
  lemma {:induction false} DrawsCount(results: seq<Granule>, order: seq<Month>, alloc: seq<int>, picks: seq<seq<nat>>)
    requires DrawsFor(results, order, alloc, picks)
    requires Distinct(order)
    ensures AllBelow(Flatten(picks), |results|)
    ensures forall j :: 0 <= j < |order| ==>
      CountMonth(Gather(results, Flatten(picks)), order[j]) == if j < |picks| then alloc[j] else 0
  {
    DrawsInRange(results, order, alloc, picks);
    AllBelowMembers(Flatten(picks), |results|);
    if picks != [] {
      var init, last, i := picks[..|picks| - 1], picks[|picks| - 1], |picks| - 1;
      assert DrawsFor(results, order, alloc, init);
      DrawsCount(results, order, alloc, init);
      DrawMonth(results, order[i], alloc[i], last);
      AllBelowMembers(last, |results|);
      assert Flatten(picks) == Flatten(init) + last;
      GatherConcat(results, Flatten(init), last);
      var head, block := Gather(results, Flatten(init)), Gather(results, last);
      CountAfterBlock(head, block, order, alloc, i);
    }
  }

  /** A further block is concatenated after the blocks so far. */
  lemma FlattenSnoc(picks: seq<seq<nat>>, drawn: seq<nat>)
    ensures Flatten(picks + [drawn]) == Flatten(picks) + drawn
  {
    assert (picks + [drawn])[..|picks|] == picks;
  }

  lemma DrawsForSnoc(results: seq<Granule>, order: seq<Month>, alloc: seq<int>, picks: seq<seq<nat>>, drawn: seq<nat>)
    requires DrawsFor(results, order, alloc, picks)
    requires |picks| < |order| && |picks| < |alloc|
    requires IsDraw(Partition(ObservationMonths(results), order[|picks|]), alloc[|picks|], drawn)
    ensures DrawsFor(results, order, alloc, picks + [drawn])
  {
    var ext := picks + [drawn];
    forall j | 0 <= j < |ext|
      ensures IsDraw(Partition(ObservationMonths(results), order[j]), alloc[j], ext[j])
    {
      if j < |picks| {
        assert ext[j] == picks[j];
      }
    }
  }

  /** One more month's draw extends the draws made so far. */
  lemma ExtendDraws(results: seq<Granule>, order: seq<Month>, alloc: seq<int>, picks: seq<seq<nat>>, drawn: seq<nat>)
    requires DrawsFor(results, order, alloc, picks)
    requires |picks| < |order| && |picks| < |alloc|
    requires IsDraw(Partition(ObservationMonths(results), order[|picks|]), alloc[|picks|], drawn)
    ensures DrawsFor(results, order, alloc, picks + [drawn])
    ensures Flatten(picks + [drawn]) == Flatten(picks) + drawn
    ensures AllBelow(drawn, |results|) && AllBelow(Flatten(picks + [drawn]), |results|)
  {
    DrawsForSnoc(results, order, alloc, picks, drawn);
    FlattenSnoc(picks, drawn);
    DrawsInRange(results, order, alloc, picks);
    DrawMonth(results, order[|picks|], alloc[|picks|], drawn);
    AllBelowConcat(Flatten(picks), drawn, |results|);
  }

  /**
   * What a successful run delivers: exactly `n` granules, none drawn twice,
   * and `Allotment(n, k)[j]` of them observed in month `order[j]`.
   */
  lemma StratifiedDrawProperties(results: seq<Granule>, order: seq<Month>, n: int, picks: seq<seq<nat>>)
    requires EnumeratesMonths(order, results)
    requires IsStratifiedDraw(results, order, n, picks)
    ensures AllBelow(Flatten(picks), |results|)
    ensures |Flatten(picks)| == n
    ensures Distinct(Flatten(picks))
    ensures forall j :: 0 <= j < |order| ==>
      CountMonth(Gather(results, Flatten(picks)), order[j]) == Allotment(n, |order|)[j]
  {
    var alloc := Allotment(n, |order|);
    DrawsSize(results, order, alloc, picks);
    assert alloc[..|picks|] == alloc;
    AllotmentSum(n, |order|);
    DrawsDistinct(results, order, alloc, picks);
    DrawsCount(results, order, alloc, picks);
  }

  /**
   * `stratified_selection(results, n)`. On success, `picks[j]` holds the
   * positions drawn for month `order[j]` and the sample is those granules in
   * that order: exactly `n` of them, no position twice, and
   * `Allotment(n, k)[j]` of month `order[j]`. The call fails with no sample
   * when there are no months or when some draw cannot be made, and the error
   * names the first such month.
   */
  method StratifiedSelection(results: seq<Granule>, order: seq<Month>, n: int)
    returns (r: Result<seq<Granule>, SampleError>, ghost picks: seq<seq<nat>>)
    requires EnumeratesMonths(order, results)
    ensures r.Success? <==> Feasible(results, order, n)
    ensures r.Failure? && |order| == 0 ==> r.error == EmptyResults
    ensures r.Failure? && |order| > 0 ==>
      exists j: nat :: FirstMisfit(results, order, n, j) &&
        r.error == DrawError(order[j], Allotment(n, |order|)[j],
                             |Partition(ObservationMonths(results), order[j])|)
    ensures r.Success? ==> IsStratifiedDraw(results, order, n, picks)
    ensures r.Success? ==> AllBelow(Flatten(picks), |results|)
    ensures r.Success? ==> r.value == Gather(results, Flatten(picks))
    ensures r.Success? ==> |r.value| == n && Distinct(Flatten(picks))
    ensures r.Success? ==>
      forall j :: 0 <= j < |order| ==> CountMonth(r.value, order[j]) == Allotment(n, |order|)[j]
  {
    var months := ObservationMonths(results);
    var nmonths := |order|;
    if nmonths == 0 {
      return Failure(EmptyResults), [];
    }
    var nsample := Allot(n, nmonths);
    ghost var alloc := Allotment(n, nmonths);

    var subset: seq<Granule> := [];
    picks := [];
    var j := 0;
    while j < nmonths
      invariant 0 <= j <= nmonths
      invariant nsample[..] == alloc
      invariant forall j' :: 0 <= j' < j ==> MonthFits(results, order, n, j')
      invariant |picks| == j && DrawsFor(results, order, alloc, picks)
      invariant AllBelow(Flatten(picks), |results|)
      invariant subset == Gather(results, Flatten(picks))
    {
      var population := Partition(months, order[j]);
      var draw := Choice(population, nsample[j]);
      if draw.Failure? {
        MonthHasGranules(results, order, j);
        assert draw.error == if nsample[j] > |population| then SampleLargerThanPopulation else NegativeDimensions;
        assert !MonthFits(results, order, n, j);
        assert FirstMisfit(results, order, n, j);
        return Failure(DrawError(order[j], nsample[j], |population|)), picks;
      }
      ExtendDraws(results, order, alloc, picks, draw.value);
      GatherConcat(results, Flatten(picks), draw.value);
      picks := picks + [draw.value];
      subset := subset + Gather(results, draw.value);
      j := j + 1;
    }
    StratifiedDrawProperties(results, order, n, picks);
    r := Success(subset);
  }
}

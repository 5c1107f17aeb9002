/** One sweep of the hot-tier promotion: a greedy pass over the candidates under
    a cap on files and a cap on bytes. */
module Promo {
  import opened Wrappers

  const U64_MAX: nat := 0xFFFF_FFFF_FFFF_FFFF
  const I64_MAX: int := 0x7FFF_FFFF_FFFF_FFFF
  const I64_MIN: int := -0x8000_0000_0000_0000

  // A u64 setting read as an i64.
  function AsI64(n: nat): int {
    var low := n % (U64_MAX + 1);
    if low > I64_MAX then low - (U64_MAX + 1) else low
  }

  function SaturatingAdd(a: nat, b: nat): nat {
    Min(a + b, U64_MAX)
  }

  function SaturatingSubI64(a: int, b: int): int {
    Max(Min(a - b, I64_MAX), I64_MIN)
  }

  datatype Config = Config(
    minViews: nat, maxPromoteBytes: nat, maxHotFiles: nat, maxBytes: nat, dryRun: bool)
  {
    predicate Valid() {
      minViews <= U64_MAX && maxPromoteBytes <= U64_MAX && maxHotFiles <= U64_MAX && maxBytes <= U64_MAX
    }
  }

  datatype Host = NoHost | Official(name: string) | Unofficial

  datatype Stats = Stats(views: int, downloads: int)

  // `stats` is absent for a file without statistics, `seen` is what the last
  // sweep saw, and `fastEnough` is the outcome of the views-per-minute test.
  datatype Candidate = Candidate(
    id: string, sizeBytes: int, host: Host, stats: Option<Stats>, seen: Stats, fastEnough: bool)

  // The candidate would be promoted if there were room.
  predicate Qualifies(c: Config, x: Candidate) {
    x.stats.Some?
    && SaturatingSubI64(x.stats.value.views + x.stats.value.downloads, x.seen.views + x.seen.downloads)
       >= AsI64(c.minViews)
    && x.fastEnough
    && 0 < x.sizeBytes <= AsI64(c.maxPromoteBytes)
    && !x.host.Unofficial?
  }

  // In true arithmetic, as long as the settings and the sums fit i64: the file has
  // statistics, enough new hits in all and by the minute, a size within the limit,
  // and no host of somebody else's.
  lemma QualifiesExactly(c: Config, x: Candidate)
    requires c.minViews <= I64_MAX && c.maxPromoteBytes <= I64_MAX
    requires x.stats.Some? ==> 0 <= x.stats.value.views + x.stats.value.downloads <= I64_MAX
    requires 0 <= x.seen.views + x.seen.downloads <= I64_MAX
    ensures Qualifies(c, x)
            <==> x.stats.Some?
                 && (x.stats.value.views + x.stats.value.downloads) - (x.seen.views + x.seen.downloads) >= c.minViews
                 && x.fastEnough && x.sizeBytes > 0 && x.sizeBytes <= c.maxPromoteBytes && x.host != Unofficial
  {
  }

  // More hits never unqualify a file, and fewer seen before do not, either.
  lemma MoreHitsQualify(c: Config, x: Candidate, stats: Stats, seen: Stats)
    requires Qualifies(c, x)
    requires stats.views + stats.downloads >= x.stats.value.views + x.stats.value.downloads
    requires seen.views + seen.downloads <= x.seen.views + x.seen.downloads
    ensures Qualifies(c, x.(stats := Some(stats), seen := seen))
  {
  }

  // A size limit beyond i64 reads as negative: nothing qualifies.
  lemma HugeSizeLimit(c: Config, x: Candidate)
    requires c.Valid() && c.maxPromoteBytes > I64_MAX
    ensures !Qualifies(c, x)
  {
  }

  // ---------- The code's arithmetic ----------

  // Reserved files and bytes after a sweep over xs, and which candidates were
  // promoted. Bytes are added up in u64 and saturate.
  datatype Swept = Swept(taken: seq<bool>, count: nat, bytes: nat)

  function Sweep(c: Config, xs: seq<Candidate>, hotCount: nat, hotBytes: nat): (r: Swept)
    ensures |r.taken| == |xs|
  {
    if xs == [] then Swept([], hotCount, hotBytes)
    else
      var x, before := xs[|xs| - 1], Sweep(c, xs[..|xs| - 1], hotCount, hotBytes);
      if Qualifies(c, x) && before.count < c.maxHotFiles && SaturatingAdd(before.bytes, x.sizeBytes) <= c.maxBytes
         && !c.dryRun then
        Swept(before.taken + [true], before.count + 1, SaturatingAdd(before.bytes, x.sizeBytes))
      else before.(taken := before.taken + [false])
  }

  // Ids of the candidates that have statistics.
  function Looked(xs: seq<Candidate>): seq<string> {
    if xs == [] then []
    else Looked(xs[..|xs| - 1]) + if xs[|xs| - 1].stats.Some? then [xs[|xs| - 1].id] else []
  }

  lemma LookedOne(x: Candidate)
    ensures Looked([x]) == if x.stats.Some? then [x.id] else []
  {
    assert [x][..0] == [];
  }

  // The ids of a list are those of its parts, in order.
  lemma {:induction false} LookedJoined(xs: seq<Candidate>, ys: seq<Candidate>)
    ensures Looked(xs + ys) == Looked(xs) + Looked(ys)
    decreases |ys|
  {
    if ys == [] {
      assert xs + ys == xs;
      assert Looked(xs) + [] == Looked(xs);
    } else {
      var n := |ys| - 1;
      var last := if ys[n].stats.Some? then [ys[n].id] else [];
      assert (xs + ys)[..|xs| + n] == xs + ys[..n] && (xs + ys)[|xs| + n] == ys[n];
      LookedJoined(xs, ys[..n]);
      Regroup(Looked(xs), Looked(ys[..n]), last);
    }
  }

  /** The candidate loop. The usage columns are i64 and never count below zero. */
  method PromoSweepOnce(c: Config, xs: seq<Candidate>, hotCount: int, hotBytes: int)
    returns (taken: seq<bool>, stateRows: seq<string>)
    requires c.Valid()
    ensures taken == Sweep(c, xs, Max(hotCount, 0), Max(hotBytes, 0)).taken
    ensures stateRows == Looked(xs)
  {
    var reservedBytes: nat := Max(hotBytes, 0);
    var reservedCount: nat := Max(hotCount, 0);
    taken, stateRows := [], [];
    for n := 0 to |xs|
      invariant Swept(taken, reservedCount, reservedBytes) == Sweep(c, xs[..n], Max(hotCount, 0), Max(hotBytes, 0))
      invariant stateRows == Looked(xs[..n])
    {
      var x := xs[n];
      assert xs[..n + 1][..n] == xs[..n];
      taken := taken + [false];
      if x.stats.None? {
        continue;
      }
      var hits := x.stats.value.views + x.stats.value.downloads;
      var seenHits := x.seen.views + x.seen.downloads;
      stateRows := stateRows + [x.id];
      var hitsDelta := SaturatingSubI64(hits, seenHits);
      if hitsDelta < AsI64(c.minViews) {
        continue;
      }
      if !x.fastEnough {
        continue;
      }
      if x.sizeBytes <= 0 || x.sizeBytes > AsI64(c.maxPromoteBytes) {
        continue;
      }
      if x.host.Unofficial? {
        continue;
      }
      if reservedCount >= c.maxHotFiles || SaturatingAdd(reservedBytes, x.sizeBytes) > c.maxBytes {
        continue;
      }
      if c.dryRun {
        continue;
      }
      reservedBytes := SaturatingAdd(reservedBytes, x.sizeBytes);
      reservedCount := reservedCount + 1;
      taken := taken[..n] + [true];
    }
    assert xs[..|xs|] == xs;
  }

  // ---------- The promise, in true sums ----------

  function CountOf(taken: seq<bool>): nat {
    if taken == [] then 0
    else CountOf(taken[..|taken| - 1]) + if taken[|taken| - 1] then 1 else 0
  }

  function BytesOf(xs: seq<Candidate>, taken: seq<bool>): int
    requires |xs| == |taken|
  {
    if xs == [] then 0
    else
      var n := |xs| - 1;
      BytesOf(xs[..n], taken[..n]) + if taken[n] then xs[n].sizeBytes else 0
  }

  // There is room for the n-th candidate on top of those taken before it.
  predicate Fits(c: Config, xs: seq<Candidate>, hotCount: nat, hotBytes: nat, taken: seq<bool>, n: nat)
    requires n < |xs| == |taken|
  {
    hotCount + CountOf(taken[..n]) < c.maxHotFiles
    && hotBytes + BytesOf(xs[..n], taken[..n]) + xs[n].sizeBytes <= c.maxBytes
  }

  // A candidate is taken exactly if it qualifies and fits.
  predicate IsGreedy(c: Config, xs: seq<Candidate>, hotCount: nat, hotBytes: nat, taken: seq<bool>) {
    |taken| == |xs|
    && forall n: nat :: n < |xs| ==> (taken[n] <==> Qualifies(c, xs[n]) && Fits(c, xs, hotCount, hotBytes, taken, n))
  }

  // Greediness of the first candidates, and of the last one on top of them.
  lemma GreedySplits(c: Config, xs: seq<Candidate>, hotCount: nat, hotBytes: nat, taken: seq<bool>)
    requires |xs| == |taken| && xs != []
    ensures var m := |xs| - 1;
            IsGreedy(c, xs, hotCount, hotBytes, taken)
            <==> IsGreedy(c, xs[..m], hotCount, hotBytes, taken[..m])
                 && (taken[m] <==> Qualifies(c, xs[m]) && Fits(c, xs, hotCount, hotBytes, taken, m))
  {
    var m := |xs| - 1;
    forall n: nat | n < m
      ensures Fits(c, xs[..m], hotCount, hotBytes, taken[..m], n) <==> Fits(c, xs, hotCount, hotBytes, taken, n) {
      assert xs[..m][..n] == xs[..n] && taken[..m][..n] == taken[..n];
    }
    if IsGreedy(c, xs, hotCount, hotBytes, taken) {
      forall n: nat | n < m
        ensures taken[..m][n] <==> Qualifies(c, xs[..m][n]) && Fits(c, xs[..m], hotCount, hotBytes, taken[..m], n) {
        assert taken[n] <==> Qualifies(c, xs[n]) && Fits(c, xs, hotCount, hotBytes, taken, n);
      }
    }
    if IsGreedy(c, xs[..m], hotCount, hotBytes, taken[..m]) {
      forall n: nat | n < m
        ensures taken[n] <==> Qualifies(c, xs[n]) && Fits(c, xs, hotCount, hotBytes, taken, n) {
        assert taken[..m][n] <==> Qualifies(c, xs[..m][n]) && Fits(c, xs[..m], hotCount, hotBytes, taken[..m], n);
      }
    }
  }

  // The caps hold after a greedy sweep that takes anything.
  lemma {:induction false} GreedyKeepsCaps(
      c: Config, xs: seq<Candidate>, hotCount: nat, hotBytes: nat, taken: seq<bool>)
    requires IsGreedy(c, xs, hotCount, hotBytes, taken)
    ensures BytesOf(xs, taken) >= 0
    ensures CountOf(taken) > 0 ==>
      hotCount + CountOf(taken) <= c.maxHotFiles && hotBytes + BytesOf(xs, taken) <= c.maxBytes
    ensures CountOf(taken) == 0 ==> BytesOf(xs, taken) == 0
    decreases |xs|
  {
    if xs != [] {
      var m := |xs| - 1;
      GreedySplits(c, xs, hotCount, hotBytes, taken);
      GreedyKeepsCaps(c, xs[..m], hotCount, hotBytes, taken[..m]);
    }
  }

  /** With a byte cap below the largest u64 the sweep is greedy in true sums, the
      caps hold, and nothing saturates: the sums the code keeps are true. */
  lemma {:induction false} SweepIsGreedy(c: Config, xs: seq<Candidate>, hotCount: nat, hotBytes: nat)
    requires c.Valid() && c.maxBytes < U64_MAX && !c.dryRun
    ensures var r := Sweep(c, xs, hotCount, hotBytes);
            IsGreedy(c, xs, hotCount, hotBytes, r.taken)
            && r.count == hotCount + CountOf(r.taken)
            && r.bytes == hotBytes + BytesOf(xs, r.taken)
    decreases |xs|
  {
    if xs != [] {
      var m := |xs| - 1;
      var r, before := Sweep(c, xs, hotCount, hotBytes), Sweep(c, xs[..m], hotCount, hotBytes);
      SweepIsGreedy(c, xs[..m], hotCount, hotBytes);
      assert r.taken[..m] == before.taken;
      GreedySplits(c, xs, hotCount, hotBytes, r.taken);
    }
  }

  lemma {:induction false} SaturatedSums(c: Config, xs: seq<Candidate>, hotCount: nat, hotBytes: nat)
    requires c.Valid() && hotBytes <= U64_MAX
    ensures var r := Sweep(c, xs, hotCount, hotBytes);
            r.count == hotCount + CountOf(r.taken) && BytesOf(xs, r.taken) >= 0
            && r.bytes == Min(hotBytes + BytesOf(xs, r.taken), U64_MAX)
    decreases |xs|
  {
    if xs != [] {
      var m := |xs| - 1;
      var r, before := Sweep(c, xs, hotCount, hotBytes), Sweep(c, xs[..m], hotCount, hotBytes);
      SaturatedSums(c, xs[..m], hotCount, hotBytes);
      assert r.taken[..m] == before.taken;
      SaturatesTwice(hotBytes, BytesOf(xs[..m], before.taken), xs[m].sizeBytes);
    }
  }

  lemma SaturatesTwice(a: nat, b: int, x: int)
    requires b >= 0
    ensures x >= 0 ==> SaturatingAdd(Min(a + b, U64_MAX), x) == Min(a + (b + x), U64_MAX)
  {
  }

  // The first qualifying candidates, as many as the count cap leaves room for;
  // no byte is counted.
  function Slots(c: Config, xs: seq<Candidate>, hotCount: nat): (taken: seq<bool>)
    ensures |taken| == |xs|
  {
    if xs == [] then []
    else
      var m := |xs| - 1;
      var before := Slots(c, xs[..m], hotCount);
      before + [Qualifies(c, xs[m]) && hotCount + CountOf(before) < c.maxHotFiles]
  }

  // With the cap at the largest u64 the byte check never fails.
  lemma {:induction false} SweepIsSlots(c: Config, xs: seq<Candidate>, hotCount: nat, hotBytes: nat)
    requires c.Valid() && c.maxBytes == U64_MAX && !c.dryRun && hotBytes <= U64_MAX
    ensures Sweep(c, xs, hotCount, hotBytes).taken == Slots(c, xs, hotCount)
    decreases |xs|
  {
    if xs != [] {
      SweepIsSlots(c, xs[..|xs| - 1], hotCount, hotBytes);
      SaturatedSums(c, xs[..|xs| - 1], hotCount, hotBytes);
    }
  }

  // That selection is greedy exactly if its true sum stays within the cap.
  lemma {:induction false} SlotsAreGreedy(c: Config, xs: seq<Candidate>, hotCount: nat, hotBytes: nat)
    requires c.Valid() && c.maxBytes == U64_MAX && hotBytes <= U64_MAX
    ensures var taken := Slots(c, xs, hotCount);
            BytesOf(xs, taken) >= 0
            && (IsGreedy(c, xs, hotCount, hotBytes, taken) <==> hotBytes + BytesOf(xs, taken) <= U64_MAX)
    decreases |xs|
  {
    if xs != [] {
      var m := |xs| - 1;
      var taken := Slots(c, xs, hotCount);
      SlotsAreGreedy(c, xs[..m], hotCount, hotBytes);
      assert taken[..m] == Slots(c, xs[..m], hotCount);
      GreedySplits(c, xs, hotCount, hotBytes, taken);
    }
  }

  /** The sweep is greedy exactly if the byte cap is below the largest u64, or the
      qualifying files that the count cap alone lets in fit u64. */
  lemma GreedyExactly(c: Config, xs: seq<Candidate>, hotCount: nat, hotBytes: nat)
    requires c.Valid() && !c.dryRun && hotBytes <= U64_MAX
    ensures IsGreedy(c, xs, hotCount, hotBytes, Sweep(c, xs, hotCount, hotBytes).taken)
            <==> c.maxBytes < U64_MAX || hotBytes + BytesOf(xs, Slots(c, xs, hotCount)) <= U64_MAX
  {
    if c.maxBytes < U64_MAX {
      SweepIsGreedy(c, xs, hotCount, hotBytes);
    } else {
      SweepIsSlots(c, xs, hotCount, hotBytes);
      SlotsAreGreedy(c, xs, hotCount, hotBytes);
    }
  }

  // Under a byte cap of the largest u64, two files of the largest i64 size on
  // top of as many bytes are promoted past the cap.
  lemma SaturationPassesTheCap(x: Candidate)
    requires x.sizeBytes == I64_MAX
    requires Qualifies(Config(0, U64_MAX / 2, 10, U64_MAX, false), x)
    ensures var c, xs := Config(0, U64_MAX / 2, 10, U64_MAX, false), [x, x];
            Sweep(c, xs, 0, I64_MAX).taken == [true, true]
            && I64_MAX + BytesOf(xs, [true, true]) > c.maxBytes
  {
    var c, xs := Config(0, U64_MAX / 2, 10, U64_MAX, false), [x, x];
    assert xs[..1] == [x] && [x][..0] == [] && [true, true][..1] == [true] && [true][..0] == [];
    assert Sweep(c, [x], 0, I64_MAX).taken == [true];
    assert BytesOf([x], [true]) == I64_MAX;
  }

  // A dry run takes nothing.
  lemma {:induction false} DryRunTakesNothing(c: Config, xs: seq<Candidate>, hotCount: nat, hotBytes: nat)
    requires c.dryRun
    ensures forall n :: 0 <= n < |xs| ==> !Sweep(c, xs, hotCount, hotBytes).taken[n]
    decreases |xs|
  {
    if xs != [] {
      DryRunTakesNothing(c, xs[..|xs| - 1], hotCount, hotBytes);
    }
  }
}

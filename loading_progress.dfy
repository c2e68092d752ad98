/** The loading screen's progress: the critical resources are checked in
    batches of five, a counter records the checks that succeeded, and after
    every success the counter is shown as a rounded percentage together with a
    status text picked from six bands. */
module LoadingProgress {

  /** The resources checked before the site is revealed, in checking order. */
  const CriticalResources: seq<string> := [
    "styles.css",
    "script.js",
    "resoures/icons/1.png",
    "resoures/icons/2.png",
    "resoures/icons/3.png",
    "resoures/hero/herobg.png",
    "resoures/img/restaurant.png",
    "resoures/img/terras.png",
    "resoures/img/welkometen.png",
    "resoures/img/wijnflessen.png",
    "resoures/img/oudelsloofoto.png",
    "resoures/icons/voorgerecht.png",
    "resoures/icons/hoofdgerecht.png",
    "resoures/icons/desert.png",
    "resoures/krantfoto's/manmetvoorgerecht.png",
    "resoures/krantfoto's/manmethoofdgerecht.png",
    "resoures/krantfoto's/vrouwmetdesert.png",
    "resoures/oudelsloo/aanrivierdemaas.png",
    "resoures/oudelsloo/oudelsloohoofdstraat.png",
    "resoures/oudelsloo/oudfransechefkok.png",
    "resoures/icons/locatie.png",
    "resoures/icons/telefoon.png",
    "resoures/icons/mailen.png",
    "resoures/icons/reserveren.png"
  ]

  const BatchSize: nat := 5

  // ---------------------------------------------------------------------------
  // Percentage

  /** Math.round(loaded / total * 100) in integers: the whole number nearest to
      100 * loaded / total, a half rounded up. */
  function Percent(loaded: nat, total: nat): (r: nat)
    requires total > 0
    ensures (2 * r - 1) * total <= 200 * loaded < (2 * r + 1) * total
  {
    var n, d := 200 * loaded + total, 2 * total;
    var q := n / d;
    assert d * q <= n < d * q + d;
    assert (2 * q - 1) * total == d * q - total;
    assert (2 * q + 1) * total == d * q + total;
    q
  }

  lemma MulMonotone(a: int, b: int, t: nat)
    requires a <= b
    ensures a * t <= b * t
  {
    assert b * t - a * t == (b - a) * t;
  }

  /** Two numbers that both round n / t to the nearest integer are equal. */
  lemma RoundingUnique(n: int, t: nat, r: int, p: int)
    requires t > 0
    requires (2 * r - 1) * t <= n < (2 * r + 1) * t
    requires (2 * p - 1) * t <= n < (2 * p + 1) * t
    ensures r == p
  {
    if r < p {
      MulMonotone(2 * r + 1, 2 * p - 1, t);
    } else if r > p {
      MulMonotone(2 * p + 1, 2 * r - 1, t);
    }
  }

  /** The rounding condition of Percent has exactly one solution. */
  lemma PercentIsNearest(loaded: nat, total: nat, r: int)
    requires total > 0
    requires (2 * r - 1) * total <= 200 * loaded < (2 * r + 1) * total
    ensures r == Percent(loaded, total)
  {
    RoundingUnique(200 * loaded, total, r, Percent(loaded, total));
  }

  /** With no more successes than resources the percentage stays within 0..100. */
  lemma PercentAtMost100(loaded: nat, total: nat)
    requires 0 < total && loaded <= total
    ensures Percent(loaded, total) <= 100
  {
    var r := Percent(loaded, total);
    if r > 100 {
      MulMonotone(201, 2 * r - 1, total);
    }
  }

  /** More successes never show a smaller percentage. */
  lemma PercentMonotone(a: nat, b: nat, total: nat)
    requires 0 < total && a <= b
    ensures Percent(a, total) <= Percent(b, total)
  {
    var ra, rb := Percent(a, total), Percent(b, total);
    if ra > rb {
      MulMonotone(2 * rb + 1, 2 * ra - 1, total);
    }
  }

  lemma PercentEnds(total: nat)
    requires total > 0
    ensures Percent(0, total) == 0 && Percent(total, total) == 100
  {
    PercentIsNearest(0, total, 0);
    PercentIsNearest(total, total, 100);
  }

  /** With fewer than 200 resources the bar shows 100 only when every
      resource has been counted. */
  lemma FullOnlyWhenAllLoaded(loaded: nat, total: nat)
    requires 0 < total < 200 && loaded <= total
    ensures Percent(loaded, total) == 100 <==> loaded == total
  {
    PercentEnds(total);
  }

  // ---------------------------------------------------------------------------
  // Status text

  /** The five band boundaries and the six texts between them. */
  const Thresholds: seq<int> := [20, 40, 60, 80, 95]
  const StatusTexts: seq<string> := [
    "Initialiseren...",
    "Afbeeldingen laden...",
    "Menu items laden...",
    "Krant foto's laden...",
    "Bijna klaar...",
    "Welkom bij Auwt Aelse!"
  ]

  /** The band of a percentage: how many boundaries it has reached. */
  function Band(progress: int): (b: nat)
    ensures b < |StatusTexts|
    ensures forall k :: 0 <= k < |Thresholds| ==> (k < b <==> Thresholds[k] <= progress)
  {
    if progress < 20 then 0
    else if progress < 40 then 1
    else if progress < 60 then 2
    else if progress < 80 then 3
    else if progress < 95 then 4
    else 5
  }

  /** The loading text shown for a percentage. */
  function StatusText(progress: int): (t: string)
    ensures t == StatusTexts[Band(progress)]
  {
    if progress < 20 then "Initialiseren..."
    else if progress < 40 then "Afbeeldingen laden..."
    else if progress < 60 then "Menu items laden..."
    else if progress < 80 then "Krant foto's laden..."
    else if progress < 95 then "Bijna klaar..."
    else "Welkom bij Auwt Aelse!"
  }

  /** A higher percentage never shows an earlier band. */
  lemma BandMonotone(p: int, q: int)
    requires p <= q
    ensures Band(p) <= Band(q)
  {
  }

  /** 11 of 22 resources: the bar shows 50 and the middle band's text. */
  lemma HalfwayExample()
    ensures Percent(11, 22) == 50 && StatusText(Percent(11, 22)) == "Menu items laden..."
  {
    PercentIsNearest(11, 22, 50);
  }

  // ---------------------------------------------------------------------------
  // Batches

  /** The batches joined back together, in order. */
  function Flatten(batches: seq<seq<string>>): seq<string> {
    if batches == [] then [] else Flatten(batches[..|batches| - 1]) + batches[|batches| - 1]
  }

  /** Cut the resources into consecutive slices of BatchSize; the last slice
      takes what is left. */
  method SplitBatches(resources: seq<string>) returns (batches: seq<seq<string>>)
    ensures Flatten(batches) == resources
    ensures |resources| <= |batches| * BatchSize < |resources| + BatchSize
    ensures forall b :: 0 <= b < |batches| ==> 0 < |batches[b]| <= BatchSize
    ensures forall b :: 0 <= b < |batches| - 1 ==> |batches[b]| == BatchSize
  {
    batches := [];
    var i := 0;
    while i < |resources|
      invariant i == |batches| * BatchSize
      invariant i <= |resources| || (0 < i < |resources| + BatchSize)
      invariant Flatten(batches) == resources[..if i <= |resources| then i else |resources|]
      invariant forall b :: 0 <= b < |batches| ==> 0 < |batches[b]| <= BatchSize
      invariant forall b :: 0 <= b < |batches| - 1 ==> |batches[b]| == BatchSize
      invariant i < |resources| ==> forall b :: 0 <= b < |batches| ==> |batches[b]| == BatchSize
    {
      var end := if i + BatchSize < |resources| then i + BatchSize else |resources|;
      var batch := resources[i..end];
      assert Flatten(batches + [batch]) == Flatten(batches) + batch by {
        assert (batches + [batch])[..|batches|] == batches;
      }
      assert resources[..i] + resources[i..end] == resources[..end];
      batches := batches + [batch];
      i := i + BatchSize;
    }
  }

  // ---------------------------------------------------------------------------
  // Counting successful checks

  /** How many of the resources a check reports as loaded. */
  function CountLoaded(resources: seq<string>, check: string -> bool): (n: nat)
    ensures n <= |resources|
  {
    if resources == [] then 0
    else CountLoaded(resources[..|resources| - 1], check) + (if check(resources[|resources| - 1]) then 1 else 0)
  }

  /** Every resource is counted exactly when every check succeeded. */
  lemma {:induction false} AllCountedIff(resources: seq<string>, check: string -> bool)
    ensures CountLoaded(resources, check) == |resources| <==> forall i :: 0 <= i < |resources| ==> check(resources[i])
    decreases |resources|
  {
    if resources != [] {
      var init := resources[..|resources| - 1];
      AllCountedIff(init, check);
      if forall i :: 0 <= i < |resources| ==> check(resources[i]) {
        assert forall i :: 0 <= i < |init| ==> check(init[i]) by {
          forall i | 0 <= i < |init| ensures check(init[i]) {
            assert init[i] == resources[i];
          }
        }
      }
      if CountLoaded(resources, check) == |resources| {
        forall i | 0 <= i < |resources| ensures check(resources[i]) {
          if i < |init| {
            assert init[i] == resources[i];
          }
        }
      }
    }
  }

  /** loadCriticalResources with each resource check's outcome given by check:
      the initial update shows Percent(0, total); each successful check
      increments the counter and shows the new percentage; a failed check
      changes nothing. The batches are processed in order, their members one
      after another. Returns the final counter and every percentage shown. */
  method LoadCriticalResources(resources: seq<string>, check: string -> bool)
    returns (loaded: nat, shown: seq<nat>)
    requires |resources| > 0
    ensures loaded == CountLoaded(resources, check) && loaded <= |resources|
    ensures |shown| == loaded + 1
    ensures forall k :: 0 <= k < |shown| ==> shown[k] == Percent(k, |resources|) && shown[k] <= 100
    ensures forall i, j :: 0 <= i <= j < |shown| ==> shown[i] <= shown[j]
  {
    var total := |resources|;
    loaded := 0;
    shown := [Percent(loaded, total)];
    var batches := SplitBatches(resources);
    var b := 0;
    while b < |batches|
      invariant 0 <= b <= |batches|
      invariant loaded == CountLoaded(Flatten(batches[..b]), check)
      invariant |shown| == loaded + 1
      invariant forall k :: 0 <= k < |shown| ==> shown[k] == Percent(k, total)
    {
      var batch := batches[b];
      assert Flatten(batches[..b + 1]) == Flatten(batches[..b]) + batch by {
        assert batches[..b + 1][..b] == batches[..b];
      }
      var j := 0;
      assert batch[..j] == [];
      assert Flatten(batches[..b]) + batch[..j] == Flatten(batches[..b]);
      while j < |batch|
        invariant 0 <= j <= |batch|
        invariant loaded == CountLoaded(Flatten(batches[..b]) + batch[..j], check)
        invariant |shown| == loaded + 1
        invariant forall k :: 0 <= k < |shown| ==> shown[k] == Percent(k, total)
      {
        var prefix := Flatten(batches[..b]) + batch[..j + 1];
        assert prefix[..|prefix| - 1] == Flatten(batches[..b]) + batch[..j];
        if check(batch[j]) {
          loaded := loaded + 1;
          shown := shown + [Percent(loaded, total)];
        }
        j := j + 1;
      }
      assert batch[..j] == batch;
      b := b + 1;
    }
    assert batches[..b] == batches;
    forall k | 0 <= k < |shown| ensures shown[k] <= 100 {
      PercentAtMost100(k, total);
    }
    forall i, j | 0 <= i <= j < |shown| ensures shown[i] <= shown[j] {
      PercentMonotone(i, j, total);
    }
  }

  /** For the site's own 24 resources, the last percentage shown is 100
      exactly when every check succeeded: a failed check is never counted. */
  lemma CriticalResourcesFull(check: string -> bool)
    ensures Percent(CountLoaded(CriticalResources, check), |CriticalResources|) == 100
        <==> forall i :: 0 <= i < |CriticalResources| ==> check(CriticalResources[i])
  {
    AllCountedIff(CriticalResources, check);
    FullOnlyWhenAllLoaded(CountLoaded(CriticalResources, check), |CriticalResources|);
  }
}

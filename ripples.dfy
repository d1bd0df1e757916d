/**
  The integer and file-name core of `ripples_flight.py`: the GFT output
  frequencies of each parameter combination, the mapping from a distance in
  kilometres to the number of the GFT step file that holds it, the
  zero-padded step-file names and how the latest one is found again, and the
  rule that decides, distance by distance, which animation frames are reused,
  which are rendered and which are skipped.
 */
module Ripples {
  import opened Wrappers
  import opened Text
  import opened Arith

  datatype Colour = Colour(r: real, g: real, b: real, a: real)

  /** One swept parameter combination: angle count, Natural Earth resolution, step precision (m). */
  datatype Comb = Comb(nAng: nat, neRes: string, prec: nat, colour: Colour)

  /** The combinations the script sweeps (ripples_flight.py:135-139). */
  const Combs: seq<Comb> := [
    Comb(9, "110m", 116000, Colour(1.0, 0.0, 0.0, 1.0)),
    Comb(17, "50m", 116000 / 2, Colour(0.0, 1.0, 0.0, 1.0)),
    Comb(33, "10m", 116000 / 4, Colour(0.0, 0.0, 1.0, 1.0))
  ]

  /** The distance flown in one hour at 500 knots, in metres (rounded as in the script). */
  const MetresPerHour: nat := 928000

  /** The largest distance, in kilometres, that gets a frame (ripples_flight.py:241). */
  const LastDist: nat := 30000

  // ---------------------------------------------------------------------
  // Frequencies (ripples_flight.py:166-170, 207-211, 262-265)
  // ---------------------------------------------------------------------

  datatype Freqs = Freqs(land: nat, plot: nat, simp: nat)

  /**
    The short-hands passed to GFT: `plot` and `simp` are the number of whole
    steps of `prec` metres in one hour, `land` the number in eight hours.
   */
  function ShortHands(prec: nat): (f: Freqs)
    requires prec > 0
    ensures f.plot == f.simp
    ensures f.plot * prec <= MetresPerHour < (f.plot + 1) * prec
    ensures f.land * prec <= 8 * MetresPerHour < (f.land + 1) * prec
  {
    var plot, land := FloorQuot(MetresPerHour, prec), FloorQuot(8 * MetresPerHour, prec);
    Freqs(land, plot, plot)
  }

  /** When a step divides an hour exactly, land re-evaluation happens every eighth plot. */
  lemma LandIsEightPlots(prec: nat)
    requires prec > 0 && MetresPerHour % prec == 0
    ensures ShortHands(prec).land == 8 * ShortHands(prec).plot
  {
    var q := MetresPerHour / prec;
    FloorDiv(MetresPerHour, prec);
    assert 8 * MetresPerHour == (8 * q) * prec;
    DivModUnique(8 * MetresPerHour, prec, 8 * q, 0);
  }

  /**
    For the swept combinations the hour is a whole number of steps, so `land`
    is `8 plot`: plots every 8, 16 and 32 steps, land every 64, 128 and 256.
   */
  lemma CombsShortHands()
    ensures forall k :: 0 <= k < |Combs| ==>
      Combs[k].prec > 0 &&
      ShortHands(Combs[k].prec).plot * Combs[k].prec == MetresPerHour &&
      ShortHands(Combs[k].prec).land == 8 * ShortHands(Combs[k].prec).plot
    ensures ShortHands(Combs[0].prec) == Freqs(64, 8, 8)
    ensures ShortHands(Combs[1].prec) == Freqs(128, 16, 16)
    ensures ShortHands(Combs[2].prec) == Freqs(256, 32, 32)
  {
    assert Combs[0].prec == 116000 && Combs[1].prec == 58000 && Combs[2].prec == 29000;
    DivModUnique(MetresPerHour, 116000, 8, 0);
    DivModUnique(8 * MetresPerHour, 116000, 64, 0);
    DivModUnique(MetresPerHour, 58000, 16, 0);
    DivModUnique(8 * MetresPerHour, 58000, 128, 0);
    DivModUnique(MetresPerHour, 29000, 32, 0);
    DivModUnique(8 * MetresPerHour, 29000, 256, 0);
  }

  // ---------------------------------------------------------------------
  // Steps and step-file names (ripples_flight.py:217-218, 257-259, 271)
  // ---------------------------------------------------------------------

  /**
    The number (`istep + 1`) of the step file that holds `dist` kilometres,
    or None when `1000 dist` metres is not a whole number of steps.
   */
  function StepNumber(prec: nat, dist: nat): (r: Option<nat>)
    requires prec > 0
    ensures r.Some? ==> r.value * prec == 1000 * dist && (dist >= 1 ==> r.value >= 1)
  {
    if (1000 * dist) % prec != 0 then None
    else
      FloorDiv(1000 * dist, prec);
      Some((1000 * dist) / prec)
  }

  /** Every whole number of steps that reaches `dist` is found. */
  lemma StepNumberComplete(prec: nat, dist: nat, n: nat)
    requires prec > 0 && n * prec == 1000 * dist
    ensures StepNumber(prec, dist) == Some(n)
  {
    DivModUnique(1000 * dist, prec, n, 0);
  }

  /** The base name of step file number `n`: `istep=%06d.wkb.gz`. */
  function StepName(n: nat): string
  {
    "istep=" + ZeroPad(n, 6) + ".wkb.gz"
  }

  function StepPath(dir: string, n: nat): string
  {
    dir + "/" + StepName(n)
  }

  /** `int(name.split("=")[1].split(".")[0])`, None where Python would raise. */
  function ParseStep(name: string): (r: Option<nat>)
    ensures '=' !in name ==> r.None?
  {
    var parts := Split(name, '=');
    assert '=' !in name ==> parts == [name] by {
      if '=' !in name { SplitNoSeparator(name, '='); }
    }
    if |parts| < 2 then None else ParseInt(Split(parts[1], '.')[0])
  }

  lemma StepNameRoundTrip(n: nat)
    ensures ParseStep(StepName(n)) == Some(n)
  {
    var d := ZeroPad(n, 6);
    var rest := d + ".wkb.gz";
    assert '=' !in rest by {
      forall k | 0 <= k < |rest| ensures rest[k] != '=' {
        if k < |d| { assert IsDigit(d[k]); }
      }
    }
    assert StepName(n) == "istep" + ['='] + rest;
    SplitAround("istep", rest, '=');
    SplitNoSeparator("istep", '=');
    SplitNoSeparator(rest, '=');
    assert '.' !in d by {
      forall k | 0 <= k < |d| ensures d[k] != '.' { assert IsDigit(d[k]); }
    }
    assert rest == d + ['.'] + "wkb.gz";
    SplitAround(d, "wkb.gz", '.');
    SplitNoSeparator(d, '.');
    ZeroPadValue(n, 6);
  }

  /** Parsing the base name of a written step file gives back its number, for every number. */
  lemma StepPathRoundTrip(dir: string, n: nat)
    ensures ParseStep(Basename(StepPath(dir, n))) == Some(n)
  {
    var d := ZeroPad(n, 6);
    var name := StepName(n);
    assert '/' !in name by {
      forall k | 0 <= k < |name| ensures name[k] != '/' {
        if 6 <= k < 6 + |d| { assert name[k] == d[k - 6] && IsDigit(d[k - 6]); }
      }
    }
    BasenameOfJoin(dir, name);
    StepNameRoundTrip(n);
  }

  /** The name pattern `istep=??????.wkb.gz`. */
  predicate Matches(name: string)
  {
    |name| == 19 && name[..6] == "istep=" && name[12..] == ".wkb.gz"
  }

  /** A step file is found by the pattern exactly when its number has at most six digits. */
  lemma StepNameMatches(n: nat)
    ensures Matches(StepName(n)) <==> n < 1000000
  {
    var name := StepName(n);
    if n < 1000000 {
      assert Pow10(6) == 1000000;
      assert name[..6] == "istep=" && name[12..] == ".wkb.gz";
    } else {
      assert Pow10(6) == 1000000;
      DecimalLength(n, 6);
    }
  }

  /** Names with numbers below 10^6 sort exactly like their numbers. */
  lemma StepNameOrder(m: nat, n: nat)
    requires m < 1000000 && n < 1000000
    ensures LexLess(StepName(m), StepName(n)) <==> m < n
  {
    assert Pow10(6) == 1000000;
    var a, b := Fixed(m, 6), Fixed(n, 6);
    assert StepName(m) == "istep=" + (a + ".wkb.gz");
    assert StepName(n) == "istep=" + (b + ".wkb.gz");
    FixedLexOrder(m, n, 6);
    if m < n {
      LexExtend(a, b, ".wkb.gz", ".wkb.gz");
      LexCommonPrefix("istep=", a + ".wkb.gz", b + ".wkb.gz");
    } else if m == n {
      LexIrreflexive(StepName(m));
    } else {
      FixedLexOrder(n, m, 6);
      LexExtend(b, a, ".wkb.gz", ".wkb.gz");
      LexCommonPrefix("istep=", b + ".wkb.gz", a + ".wkb.gz");
      LexAsymmetric(StepName(m), StepName(n));
    }
  }

  /**
    `sorted(glob(...))[-1]`: the last matching name in Python's string order,
    None where the script would raise on an empty match list.
   */
  function Latest(names: seq<string>): (r: Option<string>)
    ensures r.None? <==> forall k :: 0 <= k < |names| ==> !Matches(names[k])
    ensures r.Some? ==> r.value in names && Matches(r.value)
    ensures r.Some? ==> forall k :: 0 <= k < |names| && Matches(names[k]) ==> !LexLess(r.value, names[k])
  {
    if names == [] then None
    else
      var rest, x := Latest(names[..|names| - 1]), names[|names| - 1];
      assert forall k :: 0 <= k < |names| - 1 ==> names[..|names| - 1][k] == names[k];
      if !Matches(x) then rest
      else if rest.None? then
        LexIrreflexive(x);
        Some(x)
      else if LexLess(rest.value, x) then
        LatestStep(names[..|names| - 1], rest.value, x);
        LexIrreflexive(x);
        Some(x)
      else
        LexTotal(rest.value, x);
        LexAsymmetric(rest.value, x);
        rest
  }

  /** When the running maximum is overtaken, the newcomer beats every earlier match. */
  lemma LatestStep(earlier: seq<string>, best: string, x: string)
    requires LexLess(best, x)
    requires forall k :: 0 <= k < |earlier| && Matches(earlier[k]) ==> !LexLess(best, earlier[k])
    ensures forall k :: 0 <= k < |earlier| && Matches(earlier[k]) ==> !LexLess(x, earlier[k])
  {
    forall k | 0 <= k < |earlier| && Matches(earlier[k])
      ensures !LexLess(x, earlier[k])
    {
      LexTotal(best, earlier[k]);
      if earlier[k] != best {
        LexTransitive(earlier[k], best, x);
      }
      LexAsymmetric(x, earlier[k]);
    }
  }

  /** The number of the latest step file in a directory listing (ripples_flight.py:217-218). */
  function LatestStepNumber(listing: seq<string>): (r: Option<nat>)
    ensures (forall k :: 0 <= k < |listing| ==> !Matches(listing[k])) ==> r.None?
    ensures (exists k :: 0 <= k < |listing| && Matches(listing[k])) ==>
      exists k :: 0 <= k < |listing| && Matches(listing[k]) && ParseStep(listing[k]) == r &&
        (forall j :: 0 <= j < |listing| && Matches(listing[j]) ==> !LexLess(listing[k], listing[j]))
  {
    match Latest(listing)
    case None => None
    case Some(name) =>
      var k :| 0 <= k < |listing| && listing[k] == name;
      ParseStep(name)
  }

  /**
    The last name in string order carries the largest step number, whatever
    else the directory holds, as long as every name the pattern matches is a
    step file numbered below 10^6.
   */
  lemma LatestIsLargestStep(listing: seq<string>)
    requires exists k :: 0 <= k < |listing| && Matches(listing[k])
    requires forall k :: 0 <= k < |listing| && Matches(listing[k]) ==>
      exists n: nat :: n < 1000000 && listing[k] == StepName(n)
    ensures LatestStepNumber(listing).Some?
    ensures exists k :: 0 <= k < |listing| && listing[k] == StepName(LatestStepNumber(listing).value)
    ensures forall k, n: nat :: 0 <= k < |listing| && n < 1000000 && listing[k] == StepName(n) ==>
      n <= LatestStepNumber(listing).value
  {
    var latest := Latest(listing);
    var best := latest.value;
    var j :| 0 <= j < |listing| && listing[j] == best;
    var m: nat :| m < 1000000 && best == StepName(m);
    StepNameRoundTrip(m);
    assert LatestStepNumber(listing) == Some(m);
    forall k, n: nat | 0 <= k < |listing| && n < 1000000 && listing[k] == StepName(n)
      ensures n <= m
    {
      StepNameMatches(n);
      assert !LexLess(best, listing[k]);
      StepNameOrder(m, n);
    }
  }

  // ---------------------------------------------------------------------
  // Frame selection (ripples_flight.py:238-280, 428)
  // ---------------------------------------------------------------------

  /**
    What the frame loop sees: the combinations, the output directory of each
    (its name is made by float formatting and taken as given), the frame
    directory, and the names of the files that exist.
   */
  datatype Setup = Setup(combs: seq<Comb>, stepDirs: seq<string>, frameDir: string, existing: set<string>)

  predicate WellFormed(s: Setup)
  {
    |s.stepDirs| == |s.combs| && forall k :: 0 <= k < |s.combs| ==> s.combs[k].prec > 0
  }

  /** `dist={dist:05d}_Flight.png` in the frame directory. */
  function FrameName(frameDir: string, dist: nat): string
  {
    frameDir + "/dist=" + ZeroPad(dist, 5) + "_Flight.png"
  }

  /** Frame names of distances below 10^5 name different files. */
  lemma FrameNameInjective(frameDir: string, d1: nat, d2: nat)
    requires d1 < 100000 && d2 < 100000
    requires FrameName(frameDir, d1) == FrameName(frameDir, d2)
    ensures d1 == d2
  {
    assert Pow10(5) == 100000;
    var p := frameDir + "/dist=";
    var z1, z2 := ZeroPad(d1, 5), ZeroPad(d2, 5);
    var f1, f2 := FrameName(frameDir, d1), FrameName(frameDir, d2);
    assert f1 == p + z1 + "_Flight.png" && f2 == p + z2 + "_Flight.png";
    assert f1[|p|..|p| + 5] == z1;
    assert f2[|p|..|p| + 5] == z2;
    ZeroPadValue(d1, 5);
    ZeroPadValue(d2, 5);
  }

  /**
    A frame never shares its name with a step file, so saving frames while the
    loop runs cannot change which step files exist.
   */
  lemma FrameIsNotStepFile(frameDir: string, dist: nat, stepDir: string, n: nat)
    ensures FrameName(frameDir, dist) != StepPath(stepDir, n)
  {
    var f, p := FrameName(frameDir, dist), StepPath(stepDir, n);
    assert f[|f| - 1] == 'g';
    assert p[|p| - 1] == 'z';
  }

  /** Combination `k` has a step file that ends exactly at `dist`. */
  predicate Available(s: Setup, k: nat, dist: nat)
    requires WellFormed(s) && k < |s.combs|
  {
    var n := StepNumber(s.combs[k].prec, dist);
    n.Some? && StepPath(s.stepDirs[k], n.value) in s.existing
  }

  /** The step files found for `dist` among the first `k` combinations, in combination order. */
  function StepFiles(s: Setup, dist: nat, k: nat): seq<string>
    requires WellFormed(s) && k <= |s.combs|
  {
    if k == 0 then []
    else
      StepFiles(s, dist, k - 1) +
      (if Available(s, k - 1, dist)
       then [StepPath(s.stepDirs[k - 1], StepNumber(s.combs[k - 1].prec, dist).value)]
       else [])
  }

  /**
    At most one file per combination is found; all `k` are found exactly when
    every one of the first `k` combinations has its step file, and then the
    files stand in combination order.
   */
  lemma {:induction false} StepFilesComplete(s: Setup, dist: nat, k: nat)
    requires WellFormed(s) && k <= |s.combs|
    ensures |StepFiles(s, dist, k)| <= k
    ensures |StepFiles(s, dist, k)| == k <==> forall j :: 0 <= j < k ==> Available(s, j, dist)
    ensures |StepFiles(s, dist, k)| == k ==> forall j :: 0 <= j < k ==>
      Available(s, j, dist) &&
      StepFiles(s, dist, k)[j] == StepPath(s.stepDirs[j], StepNumber(s.combs[j].prec, dist).value)
  {
    if k > 0 {
      StepFilesComplete(s, dist, k - 1);
    }
  }

  /** The inner loop over combinations (ripples_flight.py:251-276). */
  method CollectStepFiles(s: Setup, dist: nat) returns (fnames: seq<string>)
    requires WellFormed(s) && dist >= 1
    ensures fnames == StepFiles(s, dist, |s.combs|)
  {
    fnames := [];
    for k := 0 to |s.combs|
      invariant fnames == StepFiles(s, dist, k)
    {
      var prec := s.combs[k].prec;
      if (1000 * dist) % prec != 0 {
        continue;
      }
      var istep := (1000 * dist) / prec - 1;
      var fname := s.stepDirs[k] + "/" + "istep=" + ZeroPad(istep + 1, 6) + ".wkb.gz";
      assert StepNumber(prec, dist) == Some(istep + 1);
      assert fname == StepPath(s.stepDirs[k], istep + 1);
      if fname !in s.existing {
        continue;
      }
      fnames := fnames + [fname];
    }
  }

  datatype Decision = Reuse | Build(inputs: seq<string>) | Skip

  /** What happens at one distance: reuse the frame, render it from these files, or skip it. */
  function Decide(s: Setup, dist: nat): (d: Decision)
    requires WellFormed(s)
    ensures d.Reuse? <==> FrameName(s.frameDir, dist) in s.existing
    ensures d.Skip? <==>
      FrameName(s.frameDir, dist) !in s.existing && exists k :: 0 <= k < |s.combs| && !Available(s, k, dist)
    ensures d.Build? ==> |d.inputs| == |s.combs|
  {
    StepFilesComplete(s, dist, |s.combs|);
    if FrameName(s.frameDir, dist) in s.existing then Reuse
    else
      var f := StepFiles(s, dist, |s.combs|);
      if |f| == |s.combs| then Build(f) else Skip
  }

  /** A frame is rendered exactly when it does not exist and every combination has its file. */
  lemma BuildExactly(s: Setup, dist: nat)
    requires WellFormed(s)
    ensures Decide(s, dist).Build? <==>
      FrameName(s.frameDir, dist) !in s.existing && forall k :: 0 <= k < |s.combs| ==> Available(s, k, dist)
    ensures Decide(s, dist).Build? ==>
      |Decide(s, dist).inputs| == |s.combs| &&
      forall k :: 0 <= k < |s.combs| ==>
        StepNumber(s.combs[k].prec, dist).Some? &&
        Decide(s, dist).inputs[k] == StepPath(s.stepDirs[k], StepNumber(s.combs[k].prec, dist).value) &&
        StepNumber(s.combs[k].prec, dist).value * s.combs[k].prec == 1000 * dist
  {
    StepFilesComplete(s, dist, |s.combs|);
  }

  /** Distances 1 .. n whose frame ends up in the list, in loop order. */
  function Chosen(s: Setup, n: nat): seq<nat>
    requires WellFormed(s)
  {
    if n == 0 then [] else Chosen(s, n - 1) + (if !Decide(s, n).Skip? then [n] else [])
  }

  /** The frame list after distances 1 .. n. */
  function Frames(s: Setup, n: nat): seq<string>
    requires WellFormed(s)
  {
    if n == 0 then []
    else Frames(s, n - 1) + (if !Decide(s, n).Skip? then [FrameName(s.frameDir, n)] else [])
  }

  datatype Render = Render(dist: nat, frame: string, inputs: seq<string>)

  /** The frames rendered during distances 1 .. n, with the step files each is drawn from. */
  function Renders(s: Setup, n: nat): seq<Render>
    requires WellFormed(s)
  {
    if n == 0 then []
    else
      Renders(s, n - 1) +
      (match Decide(s, n)
       case Build(f) => [Render(n, FrameName(s.frameDir, n), f)]
       case _ => [])
  }

  /**
    The frame loop (ripples_flight.py:238-280, 428). An existing frame is
    appended as it is; otherwise the frame is rendered and appended only when
    every combination has its step file.
   */
  method SelectFrames(s: Setup) returns (frames: seq<string>, renders: seq<Render>)
    requires WellFormed(s)
    ensures frames == Frames(s, LastDist)
    ensures renders == Renders(s, LastDist)
  {
    frames, renders := [], [];
    for dist := 1 to LastDist + 1
      invariant frames == Frames(s, dist - 1)
      invariant renders == Renders(s, dist - 1)
    {
      var frame := s.frameDir + "/dist=" + ZeroPad(dist, 5) + "_Flight.png";
      if frame in s.existing {
        frames := frames + [frame];
        continue;
      }
      var fnames := CollectStepFiles(s, dist);
      if |fnames| != |s.combs| {
        continue;
      }
      renders := renders + [Render(dist, frame, fnames)];
      frames := frames + [frame];
    }
  }

  /** The frame list holds the frames of the chosen distances, in order. */
  lemma {:induction false} FramesOfChosen(s: Setup, n: nat)
    requires WellFormed(s)
    ensures |Frames(s, n)| == |Chosen(s, n)|
    ensures forall k :: 0 <= k < |Chosen(s, n)| ==> Frames(s, n)[k] == FrameName(s.frameDir, Chosen(s, n)[k])
  {
    if n > 0 { FramesOfChosen(s, n - 1); }
  }

  /** The chosen distances lie in 1 .. n and strictly increase. */
  lemma {:induction false} ChosenOrdered(s: Setup, n: nat)
    requires WellFormed(s)
    ensures forall k :: 0 <= k < |Chosen(s, n)| ==> 1 <= Chosen(s, n)[k] <= n
    ensures forall i, j :: 0 <= i < j < |Chosen(s, n)| ==> Chosen(s, n)[i] < Chosen(s, n)[j]
  {
    if n > 0 {
      ChosenOrdered(s, n - 1);
      var prev := Chosen(s, n - 1);
      if !Decide(s, n).Skip? {
        var c := prev + [n];
        assert Chosen(s, n) == c;
        forall i, j | 0 <= i < j < |c| ensures c[i] < c[j] {
          if j < |prev| { assert c[i] == prev[i] && c[j] == prev[j]; }
          else { assert c[i] == prev[i] && c[j] == n; }
        }
      } else {
        assert Chosen(s, n) == prev;
      }
    }
  }

  /** A distance is chosen exactly when its frame is reused or rendered. */
  lemma {:induction false} ChosenExactly(s: Setup, n: nat, d: nat)
    requires WellFormed(s)
    ensures d in Chosen(s, n) <==> 1 <= d <= n && !Decide(s, d).Skip?
  {
    if n > 0 {
      ChosenExactly(s, n - 1, d);
      var prev := Chosen(s, n - 1);
      if !Decide(s, n).Skip? {
        assert Chosen(s, n) == prev + [n];
      } else {
        assert Chosen(s, n) == prev;
      }
    }
  }

  /** No frame appears twice in the list. */
  lemma FramesDistinct(s: Setup, n: nat)
    requires WellFormed(s) && n < 100000
    ensures forall i, j :: 0 <= i < j < |Frames(s, n)| ==> Frames(s, n)[i] != Frames(s, n)[j]
  {
    FramesOfChosen(s, n);
    ChosenOrdered(s, n);
    var c := Chosen(s, n);
    forall i, j | 0 <= i < j < |Frames(s, n)| ensures Frames(s, n)[i] != Frames(s, n)[j] {
      if Frames(s, n)[i] == Frames(s, n)[j] {
        FrameNameInjective(s.frameDir, c[i], c[j]);
      }
    }
  }

  /**
    Every rendered frame is one that did not exist, rendered at a distance
    in 1 .. n where `Decide` says to build it from exactly those inputs.
   */
  lemma {:induction false} RendersSound(s: Setup, n: nat)
    requires WellFormed(s)
    ensures forall k :: 0 <= k < |Renders(s, n)| ==>
      1 <= Renders(s, n)[k].dist <= n &&
      Decide(s, Renders(s, n)[k].dist) == Build(Renders(s, n)[k].inputs) &&
      Renders(s, n)[k].frame == FrameName(s.frameDir, Renders(s, n)[k].dist) &&
      Renders(s, n)[k].frame !in s.existing
  {
    if n > 0 {
      RendersSound(s, n - 1);
      var prev := Renders(s, n - 1);
      var dec := Decide(s, n);
      if dec.Build? {
        assert Renders(s, n) == prev + [Render(n, FrameName(s.frameDir, n), dec.inputs)];
      } else {
        assert Renders(s, n) == prev;
      }
    }
  }

  /** Every distance in 1 .. n where `Decide` says to build is rendered. */
  lemma {:induction false} RendersComplete(s: Setup, n: nat, d: nat)
    requires WellFormed(s) && 1 <= d <= n && Decide(s, d).Build?
    ensures exists k :: 0 <= k < |Renders(s, n)| && Renders(s, n)[k].dist == d
  {
    var prev := Renders(s, n - 1);
    var dec := Decide(s, n);
    if dec.Build? {
      var r := prev + [Render(n, FrameName(s.frameDir, n), dec.inputs)];
      assert Renders(s, n) == r;
      if d == n {
        assert r[|r| - 1].dist == n;
      } else {
        RendersComplete(s, n - 1, d);
        var k :| 0 <= k < |prev| && prev[k].dist == d;
        assert r[k] == prev[k];
      }
    } else {
      assert Renders(s, n) == prev;
      RendersComplete(s, n - 1, d);
    }
  }

  /** An existing frame is put in the list unchanged. */
  lemma ReusedFrame(s: Setup, n: nat, d: nat)
    requires WellFormed(s) && 1 <= d <= n
    requires FrameName(s.frameDir, d) in s.existing
    ensures d in Chosen(s, n)
    ensures forall k :: 0 <= k < |Renders(s, n)| ==> Renders(s, n)[k].dist != d
  {
    ChosenExactly(s, n, d);
    RendersSound(s, n);
  }

  /** With 116 km, 58 km and 29 km steps, every combination has a step at `dist` exactly when 116 divides it. */
  lemma CombsStepAt(dist: nat)
    ensures (forall k :: 0 <= k < |Combs| ==> StepNumber(Combs[k].prec, dist).Some?) <==> dist % 116 == 0
  {
    assert Combs[0].prec == 116000 && Combs[1].prec == 58000 && Combs[2].prec == 29000;
    var q, r := dist / 116, dist % 116;
    DivModUnique(1000 * dist, 116000, q, 1000 * r);
    if r == 0 {
      DivModUnique(1000 * dist, 58000, 2 * q, 0);
      DivModUnique(1000 * dist, 29000, 4 * q, 0);
    }
    assert (forall k :: 0 <= k < |Combs| ==> StepNumber(Combs[k].prec, dist).Some?) <==>
      StepNumber(116000, dist).Some? && StepNumber(58000, dist).Some? && StepNumber(29000, dist).Some?;
  }

  /** With the swept combinations, a new frame is only ever rendered at a multiple of 116 km. */
  lemma CombsRenderOnMultiplesOf116(s: Setup, dist: nat)
    requires WellFormed(s) && s.combs == Combs
    requires Decide(s, dist).Build?
    ensures dist % 116 == 0
  {
    BuildExactly(s, dist);
    CombsStepAt(dist);
  }
}

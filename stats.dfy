/** The statistics over a list of players, returning what the routines
    print: per-label counts with their total (the denominator of the printed
    percentages), the groups of players tied at the least and at the greatest
    age or rating, and the most and least frequent nationality. */
module Stats {
  import opened Wrappers
  import opened IntParse
  import opened OrderedMap
  import opened Sorting
  import opened Players

  /** The labels `f` gives the players, in player order; a player `f` gives
      no label to is skipped. */
  function Labels(ps: seq<Player>, f: Player -> Option<string>): (ls: seq<string>)
    ensures |ls| <= |ps|
  {
    if ps == [] then []
    else
      var init := Labels(ps[..|ps| - 1], f);
      match f(ps[|ps| - 1])
      case None => init
      case Some(l) => init + [l]
  }

  /** One more player adds its label, if it has one, to the tally. */
  lemma LabelsStep(ps: seq<Player>, i: nat, f: Player -> Option<string>)
    requires i < |ps|
    ensures Tally(Labels(ps[..i + 1], f)) ==
      match f(ps[i])
      case None => Tally(Labels(ps[..i], f))
      case Some(l) => Inc(Tally(Labels(ps[..i], f)), l)
  {
    assert ps[..i + 1][..i] == ps[..i];
    if f(ps[i]).Some? {
      TallyAppend(Labels(ps[..i], f), f(ps[i]).value);
    }
  }

  /** When every player has a label, there is one label per player. */
  lemma {:induction false} LabelsTotal(ps: seq<Player>, f: Player -> Option<string>)
    requires forall i :: 0 <= i < |ps| ==> f(ps[i]).Some?
    ensures |Labels(ps, f)| == |ps|
  {
    if ps != [] {
      var init := ps[..|ps| - 1];
      assert forall i :: 0 <= i < |init| ==> init[i] == ps[i];
      LabelsTotal(init, f);
    }
  }

  function PositionLabel(p: Player): Option<string>
  {
    Some(p.position)
  }

  function NationalityLabel(p: Player): Option<string>
  {
    Some(p.nationality)
  }

  /** A histogram bucket: the values from `low` up to, and not including,
      `high`, or without upper end when `high` is None. */
  datatype Band = Band(name: string, low: int, high: Option<int>)

  predicate InBand(v: int, b: Band)
  {
    b.low <= v && (b.high.None? || v < b.high.value)
  }

  /** Each band ends where or before the next begins. */
  predicate Ascending(bands: seq<Band>)
  {
    forall i, j :: 0 <= i < j < |bands| ==> bands[i].high.Some? && bands[i].high.value <= bands[j].low
  }

  /** The label of the first band, from index `from` on, holding `v`. */
  function BandFrom(bands: seq<Band>, v: int, from: nat): (r: Option<string>)
    requires from <= |bands|
    ensures r.None? <==> forall i :: from <= i < |bands| ==> !InBand(v, bands[i])
    ensures r.Some? ==> exists i :: from <= i < |bands| && InBand(v, bands[i]) && bands[i].name == r.value
    decreases |bands| - from
  {
    if from == |bands| then None
    else if InBand(v, bands[from]) then Some(bands[from].name)
    else BandFrom(bands, v, from + 1)
  }

  function BandOf(bands: seq<Band>, v: int): Option<string>
  {
    BandFrom(bands, v, 0)
  }

  /** In ascending bands a value lies in at most one band. */
  lemma AtMostOneBand(bands: seq<Band>, v: int, i: nat, j: nat)
    requires Ascending(bands) && i < |bands| && j < |bands|
    requires InBand(v, bands[i]) && InBand(v, bands[j])
    ensures i == j
  {
  }

  /** The age buckets of age_stats. */
  const AGE_BANDS: seq<Band> := [
    Band("16-20", 16, Some(20)),
    Band("21-24", 21, Some(24)),
    Band("25-28", 25, Some(29)),
    Band("29-32", 29, Some(33)),
    Band("33+", 33, None)
  ]

  /** The rating buckets of overall_stats. */
  const OVERALL_BANDS: seq<Band> := [
    Band("47-58", 47, Some(58)),
    Band("58-63", 58, Some(63)),
    Band("63-66", 63, Some(67)),
    Band("67-72", 67, Some(73)),
    Band("73-79", 73, Some(80)),
    Band("80-83", 80, Some(84)),
    Band("84-94", 84, Some(95)),
    Band("95+", 95, None)
  ]

  function AgeLabel(p: Player): Option<string>
  {
    BandOf(AGE_BANDS, p.age)
  }

  function OverallLabel(p: Player): Option<string>
  {
    BandOf(OVERALL_BANDS, p.overall)
  }

  lemma BandsAscending()
    ensures Ascending(AGE_BANDS) && Ascending(OVERALL_BANDS)
  {
  }

  /** The bucket of an age is the one the chain of tests in age_stats picks. */
  lemma AgeBandChain(age: int)
    ensures BandOf(AGE_BANDS, age) ==
      if 16 <= age < 20 then Some("16-20")
      else if 21 <= age < 24 then Some("21-24")
      else if 25 <= age < 29 then Some("25-28")
      else if 29 <= age < 33 then Some("29-32")
      else if 33 <= age then Some("33+")
      else None
  {
    assert BandFrom(AGE_BANDS, age, 5) == None;
    assert BandFrom(AGE_BANDS, age, 4) == if 33 <= age then Some("33+") else None;
    assert BandFrom(AGE_BANDS, age, 3) == if 29 <= age < 33 then Some("29-32") else BandFrom(AGE_BANDS, age, 4);
    assert BandFrom(AGE_BANDS, age, 2) == if 25 <= age < 29 then Some("25-28") else BandFrom(AGE_BANDS, age, 3);
    assert BandFrom(AGE_BANDS, age, 1) == if 21 <= age < 24 then Some("21-24") else BandFrom(AGE_BANDS, age, 2);
  }

  /** The bucket of a rating is the one the chain of tests in overall_stats picks. */
  lemma OverallBandChain(overall: int)
    ensures BandOf(OVERALL_BANDS, overall) ==
      if 47 <= overall < 58 then Some("47-58")
      else if 58 <= overall < 63 then Some("58-63")
      else if 63 <= overall < 67 then Some("63-66")
      else if 67 <= overall < 73 then Some("67-72")
      else if 73 <= overall < 80 then Some("73-79")
      else if 80 <= overall < 84 then Some("80-83")
      else if 84 <= overall < 95 then Some("84-94")
      else if 95 <= overall then Some("95+")
      else None
  {
    var o := overall;
    assert BandFrom(OVERALL_BANDS, o, 8) == None;
    assert BandFrom(OVERALL_BANDS, o, 7) == if 95 <= o then Some("95+") else None;
    assert BandFrom(OVERALL_BANDS, o, 6) == if 84 <= o < 95 then Some("84-94") else BandFrom(OVERALL_BANDS, o, 7);
    assert BandFrom(OVERALL_BANDS, o, 5) == if 80 <= o < 84 then Some("80-83") else BandFrom(OVERALL_BANDS, o, 6);
    assert BandFrom(OVERALL_BANDS, o, 4) == if 73 <= o < 80 then Some("73-79") else BandFrom(OVERALL_BANDS, o, 5);
    assert BandFrom(OVERALL_BANDS, o, 3) == if 67 <= o < 73 then Some("67-72") else BandFrom(OVERALL_BANDS, o, 4);
    assert BandFrom(OVERALL_BANDS, o, 2) == if 63 <= o < 67 then Some("63-66") else BandFrom(OVERALL_BANDS, o, 3);
    assert BandFrom(OVERALL_BANDS, o, 1) == if 58 <= o < 63 then Some("58-63") else BandFrom(OVERALL_BANDS, o, 2);
  }

  /** Ages below 16, and the ages 20 and 24, fall in no age bucket. */
  lemma AgeGaps(age: int)
    ensures AgeLabel(Player("", "", age, 0, "")).None? <==> age < 16 || age == 20 || age == 24
  {
    AgeBandChain(age);
  }

  /** Every rating from 47 up falls in a rating bucket; lower ones in none. */
  lemma OverallCoverage(overall: int)
    ensures OverallLabel(Player("", "", 0, overall, "")).None? <==> overall < 47
  {
    OverallBandChain(overall);
  }

  /** The loop that adds up the counts of a map, in iteration order. */
  method SumCounts(es: seq<Entry>) returns (sum: int)
    ensures sum == SumSeq(es)
  {
    sum := 0;
    for j := 0 to |es|
      invariant sum == SumSeq(es[..j])
    {
      assert es[..j + 1][..j] == es[..j];
      sum := sum + es[j].1;
    }
    assert es[..|es|] == es;
  }

  /** The entries of a tally, with their sum: the number of labels, which is
      positive whenever there is an entry to report. */
  lemma TallyReport(report: seq<Entry>, labels: seq<string>)
    requires Enumerates(report, Tally(labels))
    ensures SumSeq(report) == |labels|
    ensures report != [] ==> |labels| > 0
  {
    SumOfTally(report, labels);
    assert report != [] ==> report[0].0 in labels;
  }

  /** Counts descending: the key under which std::sort orders `a.second > b.second`. */
  function NegatedCount(e: Entry): int
  {
    -e.1
  }

  /** position_stats: the per-position counts, most frequent first, and their sum. */
  method PositionStats(players: seq<Player>) returns (sorted: seq<Entry>, sum: int)
    ensures multiset(sorted) == multiset(Tally(Labels(players, PositionLabel)).Items)
    ensures forall i :: 0 <= i < |sorted| ==> sorted[i].1 == Count(Labels(players, PositionLabel), sorted[i].0)
    ensures forall i, j :: 0 <= i < j < |sorted| ==> sorted[i].1 >= sorted[j].1
    ensures sum == |players|
  {
    var positions := Histogram(players, PositionLabel);
    ghost var labels := Labels(players, PositionLabel);
    var entries := Entries(positions);
    sum := SumCounts(entries);
    TallyReport(entries, labels);
    LabelsTotal(players, PositionLabel);
    sorted := Sort(entries, NegatedCount);
    EnumerationIsPermutation(entries, positions);
    forall i | 0 <= i < |sorted|
      ensures sorted[i].1 == Count(labels, sorted[i].0)
    {
      assert sorted[i] in multiset(positions.Items);
    }
    forall i, j | 0 <= i < j < |sorted|
      ensures sorted[i].1 >= sorted[j].1
    {
      assert NegatedCount(sorted[i]) <= NegatedCount(sorted[j]);
    }
  }

  /** age_stats: the count per age bucket, in key order, and their sum. */
  method AgeStats(players: seq<Player>) returns (report: seq<Entry>, sum: int)
    ensures Enumerates(report, Tally(Labels(players, AgeLabel)))
    ensures sum == |Labels(players, AgeLabel)| && sum <= |players|
    ensures report != [] ==> sum > 0
  {
    var ages: map<string, int> := map[];
    for i := 0 to |players|
      invariant ages == Tally(Labels(players[..i], AgeLabel))
    {
      var age := players[i].age;
      LabelsStep(players, i, AgeLabel);
      AgeBandChain(age);
      if age >= 16 && age < 20 {
        ages := Inc(ages, "16-20");
        continue;
      }
      if age >= 21 && age < 24 {
        ages := Inc(ages, "21-24");
        continue;
      }
      if age >= 25 && age < 29 {
        ages := Inc(ages, "25-28");
        continue;
      }
      if age >= 29 && age < 33 {
        ages := Inc(ages, "29-32");
      }
      if age >= 33 {
        ages := Inc(ages, "33+");
      }
    }
    assert players[..|players|] == players;
    report := Entries(ages);
    sum := SumCounts(report);
    TallyReport(report, Labels(players, AgeLabel));
  }

  /** overall_stats: the count per rating bucket, in key order, and their sum. */
  method OverallStats(players: seq<Player>) returns (report: seq<Entry>, sum: int)
    ensures Enumerates(report, Tally(Labels(players, OverallLabel)))
    ensures sum == |Labels(players, OverallLabel)| && sum <= |players|
    ensures report != [] ==> sum > 0
  {
    var overalls: map<string, int> := map[];
    for i := 0 to |players|
      invariant overalls == Tally(Labels(players[..i], OverallLabel))
    {
      var overall := players[i].overall;
      LabelsStep(players, i, OverallLabel);
      OverallBandChain(overall);
      if overall >= 47 && overall < 58 {
        overalls := Inc(overalls, "47-58");
        continue;
      }
      if overall >= 58 && overall < 63 {
        overalls := Inc(overalls, "58-63");
        continue;
      }
      if overall >= 63 && overall < 67 {
        overalls := Inc(overalls, "63-66");
        continue;
      }
      if overall >= 67 && overall < 73 {
        overalls := Inc(overalls, "67-72");
        continue;
      }
      if overall >= 73 && overall < 80 {
        overalls := Inc(overalls, "73-79");
        continue;
      }
      if overall >= 80 && overall < 84 {
        overalls := Inc(overalls, "80-83");
        continue;
      }
      if overall >= 84 && overall < 95 {
        overalls := Inc(overalls, "84-94");
        continue;
      }
      if overall >= 95 {
        overalls := Inc(overalls, "95+");
        continue;
      }
    }
    assert players[..|players|] == players;
    report := Entries(overalls);
    sum := SumCounts(report);
    TallyReport(report, Labels(players, OverallLabel));
  }

  /** The players whose key is `v`, in order. */
  function Having(ps: seq<Player>, key: Player -> int, v: int): (r: seq<Player>)
    ensures |r| <= |ps|
  {
    if ps == [] then []
    else
      var init := Having(ps[..|ps| - 1], key, v);
      if key(ps[|ps| - 1]) == v then init + [ps[|ps| - 1]] else init
  }

  /** Having keeps every copy of a player with key `v` and no other player. */
  lemma {:induction false} HavingCount(ps: seq<Player>, key: Player -> int, v: int, x: Player)
    ensures multiset(Having(ps, key, v))[x] == if key(x) == v then multiset(ps)[x] else 0
  {
    if ps != [] {
      var init := ps[..|ps| - 1];
      assert ps == init + [ps[|ps| - 1]];
      HavingCount(init, key, v, x);
    }
  }

  /** Permuted lists have permuted groups. */
  lemma HavingPermutation(a: seq<Player>, b: seq<Player>, key: Player -> int, v: int)
    requires multiset(a) == multiset(b)
    ensures multiset(Having(a, key, v)) == multiset(Having(b, key, v))
  {
    forall x
      ensures multiset(Having(a, key, v))[x] == multiset(Having(b, key, v))[x]
    {
      HavingCount(a, key, v, x);
      HavingCount(b, key, v, x);
    }
  }

  /** When the players with key `v` are exactly those at lo .. hi - 1, that
      run is the group. */
  lemma HavingRun(s: seq<Player>, key: Player -> int, v: int, lo: nat, hi: nat)
    requires lo <= hi <= |s|
    requires forall k :: 0 <= k < |s| ==> (key(s[k]) == v <==> lo <= k < hi)
    ensures multiset(Having(s, key, v)) == multiset(s[lo..hi])
  {
    ThreeParts(s, lo, hi);
    forall x
      ensures multiset(Having(s, key, v))[x] == multiset(s[lo..hi])[x]
    {
      HavingCount(s, key, v, x);
      OutsideRun(s, key, v, lo, hi, x);
    }
  }

  /** A list is its part before `lo`, its run lo .. hi - 1 and its part from `hi`. */
  lemma ThreeParts(s: seq<Player>, lo: nat, hi: nat)
    requires lo <= hi <= |s|
    ensures multiset(s) == multiset(s[..lo]) + multiset(s[lo..hi]) + multiset(s[hi..])
  {
    assert s == s[..lo] + s[lo..hi] + s[hi..];
  }

  /** A player with key `v` occurs only inside the run, any other only outside it. */
  lemma OutsideRun(s: seq<Player>, key: Player -> int, v: int, lo: nat, hi: nat, x: Player)
    requires lo <= hi <= |s|
    requires forall k :: 0 <= k < |s| ==> (key(s[k]) == v <==> lo <= k < hi)
    ensures key(x) == v ==> multiset(s[..lo])[x] == 0 && multiset(s[hi..])[x] == 0
    ensures key(x) != v ==> multiset(s[lo..hi])[x] == 0
  {
    if key(x) == v {
      forall k | 0 <= k < lo
        ensures s[..lo][k] != x
      {
        assert s[..lo][k] == s[k];
      }
      forall k | 0 <= k < |s| - hi
        ensures s[hi..][k] != x
      {
        assert s[hi..][k] == s[hi + k];
      }
    } else {
      forall k | 0 <= k < hi - lo
        ensures s[lo..hi][k] != x
      {
        assert s[lo..hi][k] == s[lo + k];
      }
    }
  }

  /** When the players with key `v` are exactly those from `lo` on, that
      tail is the group. */
  lemma HavingSuffix(s: seq<Player>, key: Player -> int, v: int, lo: nat)
    requires lo <= |s|
    requires forall k :: 0 <= k < |s| ==> (key(s[k]) == v <==> lo <= k)
    ensures multiset(Having(s, key, v)) == multiset(s[lo..])
  {
    HavingRun(s, key, v, lo, |s|);
    assert s[lo..|s|] == s[lo..];
  }

  /** Sorted by the key and not constant: the first and the last element
      hold the least and the greatest key of the list. */
  lemma SortedEnds(players: seq<Player>, sorted: seq<Player>, key: Player -> int)
    requires SortedBy(sorted, key) && multiset(sorted) == multiset(players)
    requires exists i, j :: 0 <= i < |players| && 0 <= j < |players| && key(players[i]) != key(players[j])
    ensures |sorted| == |players| > 0
    ensures sorted[0] in players && sorted[|sorted| - 1] in players
    ensures forall p :: p in players ==> key(sorted[0]) <= key(p) <= key(sorted[|sorted| - 1])
    ensures key(sorted[0]) != key(sorted[|sorted| - 1])
  {
    assert |sorted| == |multiset(sorted)| == |players|;
    var last := |sorted| - 1;
    forall p | p in players
      ensures key(sorted[0]) <= key(p) <= key(sorted[last])
    {
      assert p in multiset(sorted);
      var k :| 0 <= k < |sorted| && sorted[k] == p;
    }
    var a, b :| 0 <= a < |players| && 0 <= b < |players| && key(players[a]) != key(players[b]);
    assert players[a] in players && players[b] in players;
    assert sorted[0] in multiset(players) && sorted[last] in multiset(players);
  }

  /** The walk from the front of a sorted list while the key equals the
      first one, collecting the players it passes. */
  method FrontRun(sorted: seq<Player>, key: Player -> int) returns (lows: seq<Player>)
    requires SortedBy(sorted, key) && |sorted| > 0 && key(sorted[0]) != key(sorted[|sorted| - 1])
    ensures multiset(lows) == multiset(Having(sorted, key, key(sorted[0])))
  {
    var least := key(sorted[0]);
    var i := 0;
    lows := [];
    while key(sorted[i]) == least
      invariant 0 <= i < |sorted|
      invariant lows == sorted[..i]
      invariant forall k :: 0 <= k < i ==> key(sorted[k]) == least
      decreases |sorted| - i
    {
      lows := lows + [sorted[i]];
      i := i + 1;
    }
    forall k | 0 <= k < |sorted|
      ensures key(sorted[k]) == least <==> k < i
    {
      if i <= k {
        assert key(sorted[0]) <= key(sorted[i]) <= key(sorted[k]);
      }
    }
    HavingRun(sorted, key, least, 0, i);
  }

  lemma SuffixStep(s: seq<Player>, i: nat)
    requires i < |s|
    ensures multiset(s[i..]) == multiset(s[i + 1..]) + multiset{s[i]}
  {
    assert s[i..] == [s[i]] + s[i + 1..];
  }

  /** In a sorted list whose keys from `b` on equal the last key and whose
      key just before `b` does not, the last key occurs exactly from `b` on. */
  lemma BackBoundary(sorted: seq<Player>, key: Player -> int, b: nat)
    requires SortedBy(sorted, key) && 0 < b < |sorted|
    requires forall k :: b <= k < |sorted| ==> key(sorted[k]) == key(sorted[|sorted| - 1])
    requires key(sorted[b - 1]) != key(sorted[|sorted| - 1])
    ensures forall k :: 0 <= k < |sorted| ==> (key(sorted[k]) == key(sorted[|sorted| - 1]) <==> b <= k)
  {
    forall k | 0 <= k < b
      ensures key(sorted[k]) != key(sorted[|sorted| - 1])
    {
      assert key(sorted[k]) <= key(sorted[b - 1]) <= key(sorted[|sorted| - 1]);
    }
  }

  /** The walk from the back of a sorted list while the key equals the last
      one, collecting the players it passes. */
  method BackRun(sorted: seq<Player>, key: Player -> int) returns (highs: seq<Player>)
    requires SortedBy(sorted, key) && |sorted| > 0 && key(sorted[0]) != key(sorted[|sorted| - 1])
    ensures multiset(highs) == multiset(Having(sorted, key, key(sorted[|sorted| - 1])))
  {
    var most := key(sorted[|sorted| - 1]);
    var b := |sorted|;
    highs := [];
    while key(sorted[b - 1]) == most
      invariant 0 < b <= |sorted|
      invariant multiset(highs) == multiset(sorted[b..])
      invariant forall k :: b <= k < |sorted| ==> key(sorted[k]) == most
      decreases b
    {
      b := b - 1;
      SuffixStep(sorted, b);
      highs := highs + [sorted[b]];
    }
    BackGroup(sorted, key, b);
  }

  /** A run that covers the last key exactly, from `b` on, is its group. */
  lemma BackGroup(sorted: seq<Player>, key: Player -> int, b: nat)
    requires SortedBy(sorted, key) && 0 < b < |sorted|
    requires forall k :: b <= k < |sorted| ==> key(sorted[k]) == key(sorted[|sorted| - 1])
    requires key(sorted[b - 1]) != key(sorted[|sorted| - 1])
    ensures multiset(sorted[b..]) == multiset(Having(sorted, key, key(sorted[|sorted| - 1])))
  {
    BackBoundary(sorted, key, b);
    HavingSuffix(sorted, key, key(sorted[|sorted| - 1]), b);
  }

  /** first_last_age and first_last_overall on a key: sort a copy, take the
      key of the first and of the last element, and collect the run of equal
      keys from the front and from the back. The source calls the least key
      `highest` and the greatest `lowest`. */
  method TieGroups(players: seq<Player>, key: Player -> int) returns (least: int, lows: seq<Player>, most: int, highs: seq<Player>)
    requires exists i, j :: 0 <= i < |players| && 0 <= j < |players| && key(players[i]) != key(players[j])
    ensures forall p :: p in players ==> least <= key(p) <= most
    ensures exists p :: p in players && key(p) == least
    ensures exists p :: p in players && key(p) == most
    ensures multiset(lows) == multiset(Having(players, key, least))
    ensures multiset(highs) == multiset(Having(players, key, most))
  {
    var sorted := Sort(players, key);
    SortedEnds(players, sorted, key);
    least, most := key(sorted[0]), key(sorted[|sorted| - 1]);
    lows := FrontRun(sorted, key);
    highs := BackRun(sorted, key);
    HavingPermutation(sorted, players, key, least);
    HavingPermutation(sorted, players, key, most);
  }

  function AgeOf(p: Player): int
  {
    p.age
  }

  function OverallOf(p: Player): int
  {
    p.overall
  }

  /** first_last_age: the youngest players and the oldest players. */
  method FirstLastAge(players: seq<Player>) returns (youngest: int, lows: seq<Player>, oldest: int, highs: seq<Player>)
    requires exists i, j :: 0 <= i < |players| && 0 <= j < |players| && players[i].age != players[j].age
    ensures forall p :: p in players ==> youngest <= p.age <= oldest
    ensures exists p :: p in players && p.age == youngest
    ensures exists p :: p in players && p.age == oldest
    ensures multiset(lows) == multiset(Having(players, AgeOf, youngest))
    ensures multiset(highs) == multiset(Having(players, AgeOf, oldest))
  {
    youngest, lows, oldest, highs := TieGroups(players, AgeOf);
  }

  /** first_last_overall: the lowest rated players and the highest rated players. */
  method FirstLastOverall(players: seq<Player>) returns (worst: int, lows: seq<Player>, best: int, highs: seq<Player>)
    requires exists i, j :: 0 <= i < |players| && 0 <= j < |players| && players[i].overall != players[j].overall
    ensures forall p :: p in players ==> worst <= p.overall <= best
    ensures exists p :: p in players && p.overall == worst
    ensures exists p :: p in players && p.overall == best
    ensures multiset(lows) == multiset(Having(players, OverallOf, worst))
    ensures multiset(highs) == multiset(Having(players, OverallOf, best))
  {
    worst, lows, best, highs := TieGroups(players, OverallOf);
  }

  /** The entry at `h` has the greatest count, and no entry before it has that count. */
  predicate FirstGreatestAt(es: seq<Entry>, h: int)
  {
    && 0 <= h < |es|
    && (forall k :: 0 <= k < |es| ==> es[k].1 <= es[h].1)
    && (forall k :: 0 <= k < h ==> es[k].1 < es[h].1)
  }

  /** The entry at `h` has the least count, and no entry before it has that count. */
  predicate FirstLeastAt(es: seq<Entry>, h: int)
  {
    && 0 <= h < |es|
    && (forall k :: 0 <= k < |es| ==> es[k].1 >= es[h].1)
    && (forall k :: 0 <= k < h ==> es[k].1 > es[h].1)
  }

  /** The entry at `h` is the first with the greatest count: its key is the
      least of the keys with that count. */
  lemma FirstGreatest(es: seq<Entry>, m: map<string, int>, h: nat)
    requires Enumerates(es, m) && FirstGreatestAt(es, h)
    ensures es[h].0 in m && m[es[h].0] == es[h].1
    ensures forall c :: c in m ==> m[c] <= es[h].1
    ensures forall c :: c in m && m[c] == es[h].1 && c != es[h].0 ==> StrLess(es[h].0, c)
  {
    forall c | c in m
      ensures m[c] <= es[h].1
      ensures m[c] == es[h].1 && c != es[h].0 ==> StrLess(es[h].0, c)
    {
      var k :| 0 <= k < |es| && es[k].0 == c;
    }
  }

  /** The entry at `h` is the first with the least count: its key is the
      least of the keys with that count. */
  lemma FirstLeast(es: seq<Entry>, m: map<string, int>, h: nat)
    requires Enumerates(es, m) && FirstLeastAt(es, h)
    ensures es[h].0 in m && m[es[h].0] == es[h].1
    ensures forall c :: c in m ==> m[c] >= es[h].1
    ensures forall c :: c in m && m[c] == es[h].1 && c != es[h].0 ==> StrLess(es[h].0, c)
  {
    forall c | c in m
      ensures m[c] >= es[h].1
      ensures m[c] == es[h].1 && c != es[h].0 ==> StrLess(es[h].0, c)
    {
      var k :| 0 <= k < |es| && es[k].0 == c;
    }
  }

  /** The scan of country_stats over the entries of a map in key order:
      a strictly greater count replaces the highest, a strictly smaller one
      the lowest, starting from 0 and INT32_MAX. */
  method ScanExtremes(es: seq<Entry>) returns (highestKey: string, highest: int, lowestKey: string, lowest: int)
    requires forall k :: 0 <= k < |es| ==> 0 < es[k].1 < INT_MAX
    ensures es == [] ==> highestKey == "" && highest == 0 && lowestKey == "" && lowest == INT_MAX
    ensures es != [] ==> exists h :: FirstGreatestAt(es, h) && es[h] == (highestKey, highest)
    ensures es != [] ==> exists l :: FirstLeastAt(es, l) && es[l] == (lowestKey, lowest)
  {
    highest, highestKey := 0, "";
    lowest, lowestKey := INT_MAX, "";
    ghost var h, l := 0, 0;
    for j := 0 to |es|
      invariant h <= j && l <= j
      invariant j == 0 ==> highest == 0 && highestKey == "" && lowest == INT_MAX && lowestKey == ""
      invariant j > 0 ==> h < j && es[h] == (highestKey, highest) && l < j && es[l] == (lowestKey, lowest)
      invariant forall k :: 0 <= k < j ==> es[k].1 <= highest
      invariant forall k :: 0 <= k < j ==> lowest <= es[k].1
      invariant forall k :: 0 <= k < h ==> es[k].1 < highest
      invariant forall k :: 0 <= k < l ==> es[k].1 > lowest
    {
      if es[j].1 > highest {
        highest, highestKey := es[j].1, es[j].0;
        h := j;
      }
      if es[j].1 < lowest {
        lowest, lowestKey := es[j].1, es[j].0;
        l := j;
      }
    }
    if es != [] {
      assert FirstGreatestAt(es, h) && FirstLeastAt(es, l);
    }
  }

  /** The counting loop over the players: `m[label]++` for each player's label. */
  method Histogram(players: seq<Player>, f: Player -> Option<string>) returns (m: map<string, int>)
    ensures m == Tally(Labels(players, f))
  {
    m := map[];
    for i := 0 to |players|
      invariant m == Tally(Labels(players[..i], f))
    {
      LabelsStep(players, i, f);
      match f(players[i])
      case None =>
      case Some(l) => m := Inc(m, l);
    }
    assert players[..|players|] == players;
  }

  /** country_stats: the most frequent nationality and the least frequent
      one, each the first in key order among those tied; with no players the
      initial values ("", 0) and ("", INT32_MAX) remain. */
  method CountryStats(players: seq<Player>) returns (highestCountry: string, highest: int, lowestCountry: string, lowest: int)
    requires |players| < INT_MAX
    ensures players == [] ==> highestCountry == "" && highest == 0 && lowestCountry == "" && lowest == INT_MAX
    ensures var countries := Tally(Labels(players, NationalityLabel));
      players != [] ==>
        && highestCountry in countries && countries[highestCountry] == highest
        && (forall c :: c in countries ==> countries[c] <= highest)
        && (forall c :: c in countries && countries[c] == highest && c != highestCountry ==> StrLess(highestCountry, c))
        && lowestCountry in countries && countries[lowestCountry] == lowest
        && (forall c :: c in countries ==> countries[c] >= lowest)
        && (forall c :: c in countries && countries[c] == lowest && c != lowestCountry ==> StrLess(lowestCountry, c))
  {
    var countries := Histogram(players, NationalityLabel);
    ghost var labels := Labels(players, NationalityLabel);
    LabelsTotal(players, NationalityLabel);
    var es := Entries(countries);
    assert es != [] <==> players != [] by {
      assert es != [] ==> es[0].0 in countries;
      assert players != [] ==> labels[0] in countries;
    }
    forall k | 0 <= k < |es|
      ensures 0 < es[k].1 < INT_MAX
    {
      assert es[k].0 in labels;
    }
    highestCountry, highest, lowestCountry, lowest := ScanExtremes(es);
    if es != [] {
      ghost var h :| FirstGreatestAt(es, h) && es[h] == (highestCountry, highest);
      ghost var l :| FirstLeastAt(es, l) && es[l] == (lowestCountry, lowest);
      FirstGreatest(es, countries, h);
      FirstLeast(es, countries, l);
    }
  }
}

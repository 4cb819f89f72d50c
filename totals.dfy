/** The classification and the summary of compare_carfolders.py:
    `assign_badge` (lines 278-285) and the totals loop (lines 367-378).
    Folder sizes are whole bytes where the script adds up megabytes. */
module Totals {
  import opened Wrappers
  import opened Text
  import opened FolderNames
  import opened Discovery

  /** The CSS class and the label `assign_badge` returns. */
  datatype Badge = Badge(cssClass: string, text: string)

  const MANY: Badge := Badge("badge badge-danger", "Duplicated in > 2 games")
  const DUPLICATED: Badge := Badge("badge badge-warning", "Duplicated")
  const UNIQUE: Badge := Badge("badge badge-success", "Unique")

  /** More than two occurrences, exactly two, or at most one. */
  function AssignBadge(occurrences: seq<Occurrence>): (b: Badge)
    ensures b == MANY <==> |occurrences| > 2
    ensures b == DUPLICATED <==> |occurrences| == 2
    ensures b == UNIQUE <==> |occurrences| <= 1
  {
    var count := |occurrences|;
    if count > 2 then MANY
    else if count > 1 then DUPLICATED
    else UNIQUE
  }

  /** The four totals of lines 360-365. */
  datatype Summary = Summary(totalCars: nat, uniqueCars: nat, totalSizeAllCars: nat, totalSizeUniqueCars: nat)

  /** The sizes of `occurrences` added up; a path without a recorded size
      counts 0, as `folder_sizes.get(path, 0)` does. */
  function SumSizes(sizes: map<Occurrence, nat>, occurrences: seq<Occurrence>): nat
    decreases |occurrences|
  {
    if occurrences == [] then 0
    else SumSizes(sizes, occurrences[..|occurrences| - 1]) + Get(sizes, occurrences[|occurrences| - 1], 0)
  }

  /** Number of occurrences in the groups of `keys`. */
  function CarsIn(groups: map<Identity, seq<Occurrence>>, keys: seq<Identity>): nat
    decreases |keys|
  {
    if keys == [] then 0
    else CarsIn(groups, keys[..|keys| - 1]) + |Get(groups, keys[|keys| - 1], [])|
  }

  /** Number of groups of `keys` with a single occurrence. */
  function SingletonsIn(groups: map<Identity, seq<Occurrence>>, keys: seq<Identity>): nat
    decreases |keys|
  {
    if keys == [] then 0
    else SingletonsIn(groups, keys[..|keys| - 1]) + (if |Get(groups, keys[|keys| - 1], [])| == 1 then 1 else 0)
  }

  /** Size of all occurrences in the groups of `keys`. */
  function SizeIn(groups: map<Identity, seq<Occurrence>>, keys: seq<Identity>, sizes: map<Occurrence, nat>): nat
    decreases |keys|
  {
    if keys == [] then 0
    else SizeIn(groups, keys[..|keys| - 1], sizes) + SumSizes(sizes, Get(groups, keys[|keys| - 1], []))
  }

  /** Size of the occurrences in the single-occurrence groups of `keys`. */
  function UniqueSizeIn(groups: map<Identity, seq<Occurrence>>, keys: seq<Identity>, sizes: map<Occurrence, nat>): nat
    decreases |keys|
  {
    if keys == [] then 0
    else
      var g := Get(groups, keys[|keys| - 1], []);
      UniqueSizeIn(groups, keys[..|keys| - 1], sizes) + (if |g| == 1 then SumSizes(sizes, g) else 0)
  }

  /** The totals loop, over the groups in the dictionary's order. */
  method Tally(c: Catalogue, sizes: map<Occurrence, nat>) returns (summary: Summary)
    requires Indexed(c)
    ensures summary.totalCars == CarsIn(c.groups, c.order)
    ensures summary.uniqueCars == SingletonsIn(c.groups, c.order)
    ensures summary.totalSizeAllCars == SizeIn(c.groups, c.order, sizes)
    ensures summary.totalSizeUniqueCars == UniqueSizeIn(c.groups, c.order, sizes)
  {
    var totalSizeAllCars, totalSizeUniqueCars := 0, 0;
    var totalCars, uniqueCars := 0, 0;
    var i := 0;
    while i < |c.order|
      invariant 0 <= i <= |c.order|
      invariant totalCars == CarsIn(c.groups, c.order[..i])
      invariant uniqueCars == SingletonsIn(c.groups, c.order[..i])
      invariant totalSizeAllCars == SizeIn(c.groups, c.order[..i], sizes)
      invariant totalSizeUniqueCars == UniqueSizeIn(c.groups, c.order[..i], sizes)
    {
      var key := c.order[i];
      assert c.order[..i + 1][..i] == c.order[..i];
      var occurrences := c.groups[key];
      var isUnique := |occurrences| == 1;
      totalCars := totalCars + |occurrences|;
      var j := 0;
      while j < |occurrences|
        invariant 0 <= j <= |occurrences|
        invariant uniqueCars == SingletonsIn(c.groups, c.order[..i]) + (if isUnique then j else 0)
        invariant totalSizeAllCars == SizeIn(c.groups, c.order[..i], sizes) + SumSizes(sizes, occurrences[..j])
        invariant totalSizeUniqueCars ==
          UniqueSizeIn(c.groups, c.order[..i], sizes) + (if isUnique then SumSizes(sizes, occurrences[..j]) else 0)
      {
        assert occurrences[..j + 1][..j] == occurrences[..j];
        var size := Get(sizes, occurrences[j], 0);
        totalSizeAllCars := totalSizeAllCars + size;
        if isUnique {
          uniqueCars := uniqueCars + 1;
          totalSizeUniqueCars := totalSizeUniqueCars + size;
        }
        j := j + 1;
      }
      assert occurrences[..j] == occurrences;
      i := i + 1;
    }
    assert c.order[..i] == c.order;
    summary := Summary(totalCars, uniqueCars, totalSizeAllCars, totalSizeUniqueCars);
  }

  // ---------------------------------------------------------------------------
  // What the totals promise
  // ---------------------------------------------------------------------------

  /** `unique_cars` never exceeds `total_cars`. */
  lemma {:induction false} UniqueAtMostTotal(groups: map<Identity, seq<Occurrence>>, keys: seq<Identity>)
    ensures SingletonsIn(groups, keys) <= CarsIn(groups, keys)
  {
    if keys != [] {
      UniqueAtMostTotal(groups, keys[..|keys| - 1]);
    }
  }

  /** The size of the unique cars never exceeds the size of all cars. */
  lemma {:induction false} UniqueSizeAtMostAll(groups: map<Identity, seq<Occurrence>>, keys: seq<Identity>,
                                               sizes: map<Occurrence, nat>)
    ensures UniqueSizeIn(groups, keys, sizes) <= SizeIn(groups, keys, sizes)
  {
    if keys != [] {
      UniqueSizeAtMostAll(groups, keys[..|keys| - 1], sizes);
    }
  }

  /** Number of members of `s` under the keys of `keys`. */
  function GroupSizes(key: string -> Result<Identity, ParseError>, s: seq<Occurrence>, keys: seq<Identity>): nat
    decreases |keys|
  {
    if keys == [] then 0
    else GroupSizes(key, s, keys[..|keys| - 1]) + |GroupOf(key, s, keys[|keys| - 1])|
  }

  lemma {:induction false} CarsInGroupSizes(key: string -> Result<Identity, ParseError>, c: Catalogue,
                                            s: seq<Occurrence>, keys: seq<Identity>)
    requires Describes(key, c, s)
    requires forall i :: 0 <= i < |keys| ==> keys[i] in c.groups
    ensures CarsIn(c.groups, keys) == GroupSizes(key, s, keys)
  {
    if keys != [] {
      CarsInGroupSizes(key, c, s, keys[..|keys| - 1]);
    }
  }

  /** Adding `p` to `s` adds one member under `p`'s key and none under the others. */
  lemma {:induction false} GroupSizesAppend(key: string -> Result<Identity, ParseError>, s: seq<Occurrence>,
                                            p: Occurrence, k: Identity, keys: seq<Identity>)
    requires key(p.name) == Ok(k)
    requires Distinct(keys)
    ensures GroupSizes(key, s + [p], keys) == GroupSizes(key, s, keys) + (if k in keys then 1 else 0)
  {
    var s' := s + [p];
    assert s'[..|s'| - 1] == s;
    if keys != [] {
      var front := keys[..|keys| - 1];
      assert Distinct(front);
      GroupSizesAppend(key, s, p, k, front);
      assert k in keys <==> k in front || k == keys[|keys| - 1];
      assert k == keys[|keys| - 1] ==> k !in front;
    }
  }

  /** Summing the groups of the distinct keys of `s` counts `s`. */
  lemma {:induction false} GroupSizesCountAll(key: string -> Result<Identity, ParseError>, s: seq<Occurrence>)
    requires forall i :: 0 <= i < |s| ==> key(s[i].name).Ok?
    ensures Distinct(KeyOrder(key, s))
    ensures forall k :: k in KeyOrder(key, s) <==> GroupOf(key, s, k) != []
    ensures GroupSizes(key, s, KeyOrder(key, s)) == |s|
  {
    if s != [] {
      var front := s[..|s| - 1];
      var p := s[|s| - 1];
      var k := key(p.name).value;
      assert s == front + [p];
      GroupSizesCountAll(key, front);
      var keys := KeyOrder(key, front);
      GroupSizesAppend(key, front, p, k, keys);
      if k !in keys {
        assert GroupOf(key, front, k) == [];
        assert KeyOrder(key, s) == keys + [k];
        assert (keys + [k])[..|keys|] == keys;
        GroupSizesAppend(key, front, p, k, keys);
      }
    }
  }

  /** `total_cars` is the number of distinct accepted directories, which is
      the size of `unique_folder_paths`. */
  lemma ScanTotalCars(t: Tables, currentYY: nat, listing: seq<Entry>)
    requires currentYY < 100
    requires Scan(t, currentYY, listing).Ok?
    ensures var c := Scan(t, currentYY, listing).value;
            CarsIn(c.groups, c.order) == |c.paths| == |Seen(Accepted, listing)|
  {
    var key := KeyFn(t, currentYY);
    var c := Scan(t, currentYY, listing).value;
    var s := Seen(Accepted, listing);
    ScanMatchesSeen(Accepted, key, listing);
    CarsInGroupSizes(key, c, s, c.order);
    GroupSizesCountAll(key, s);
    SeenDistinct(Accepted, listing);
    DistinctCardinality(s, c.paths);
  }

  /** Size of the members of `s` under the keys of `keys`. */
  function GroupWeights(key: string -> Result<Identity, ParseError>, s: seq<Occurrence>, keys: seq<Identity>,
                        sizes: map<Occurrence, nat>): nat
    decreases |keys|
  {
    if keys == [] then 0
    else GroupWeights(key, s, keys[..|keys| - 1], sizes) + SumSizes(sizes, GroupOf(key, s, keys[|keys| - 1]))
  }

  lemma {:induction false} SizeInGroupWeights(key: string -> Result<Identity, ParseError>, c: Catalogue,
                                              s: seq<Occurrence>, keys: seq<Identity>, sizes: map<Occurrence, nat>)
    requires Describes(key, c, s)
    requires forall i :: 0 <= i < |keys| ==> keys[i] in c.groups
    ensures SizeIn(c.groups, keys, sizes) == GroupWeights(key, s, keys, sizes)
  {
    if keys != [] {
      SizeInGroupWeights(key, c, s, keys[..|keys| - 1], sizes);
    }
  }

  /** Adding `p` to `s` adds its size under `p`'s key and nothing under the others. */
  lemma {:induction false} GroupWeightsAppend(key: string -> Result<Identity, ParseError>, s: seq<Occurrence>,
                                              p: Occurrence, k: Identity, keys: seq<Identity>,
                                              sizes: map<Occurrence, nat>)
    requires key(p.name) == Ok(k)
    requires Distinct(keys)
    ensures GroupWeights(key, s + [p], keys, sizes) ==
            GroupWeights(key, s, keys, sizes) + (if k in keys then Get(sizes, p, 0) else 0)
  {
    var s' := s + [p];
    assert s'[..|s'| - 1] == s;
    if keys != [] {
      var front := keys[..|keys| - 1];
      var last := keys[|keys| - 1];
      assert Distinct(front);
      GroupWeightsAppend(key, s, p, k, front, sizes);
      if last == k {
        var g := GroupOf(key, s, k);
        assert (g + [p])[..|g|] == g;
      }
      assert k in keys <==> k in front || k == last;
      assert k == last ==> k !in front;
    }
  }

  /** Summing the groups of the distinct keys of `s` adds up the size of `s`. */
  lemma {:induction false} GroupWeightsAll(key: string -> Result<Identity, ParseError>, s: seq<Occurrence>,
                                           sizes: map<Occurrence, nat>)
    requires forall i :: 0 <= i < |s| ==> key(s[i].name).Ok?
    ensures GroupWeights(key, s, KeyOrder(key, s), sizes) == SumSizes(sizes, s)
  {
    if s != [] {
      var front := s[..|s| - 1];
      var p := s[|s| - 1];
      var k := key(p.name).value;
      assert s == front + [p];
      GroupWeightsAll(key, front, sizes);
      GroupSizesCountAll(key, front);
      var keys := KeyOrder(key, front);
      if k in keys {
        GroupWeightsAppend(key, front, p, k, keys, sizes);
      } else {
        assert GroupOf(key, front, k) == [];
        assert KeyOrder(key, s) == keys + [k];
        assert (keys + [k])[..|keys|] == keys;
        GroupWeightsAppend(key, front, p, k, keys, sizes);
        assert GroupOf(key, s, k) == [p];
        assert [p][..0] == [];
        assert SumSizes(sizes, [p]) == Get(sizes, p, 0);
      }
    }
  }

  /** `total_size_all_cars` is the size of every distinct accepted
      directory, each counted once. */
  lemma ScanTotalSize(t: Tables, currentYY: nat, listing: seq<Entry>, sizes: map<Occurrence, nat>)
    requires currentYY < 100
    requires Scan(t, currentYY, listing).Ok?
    ensures var c := Scan(t, currentYY, listing).value;
            SizeIn(c.groups, c.order, sizes) == SumSizes(sizes, Seen(Accepted, listing))
  {
    var key := KeyFn(t, currentYY);
    var c := Scan(t, currentYY, listing).value;
    var s := Seen(Accepted, listing);
    ScanMatchesSeen(Accepted, key, listing);
    SizeInGroupWeights(key, c, s, c.order, sizes);
    GroupWeightsAll(key, s, sizes);
  }

  lemma {:induction false} DistinctCardinality<T>(s: seq<T>, elements: set<T>)
    requires Distinct(s)
    requires forall x :: x in elements <==> x in s
    ensures |elements| == |s|
  {
    if s != [] {
      var front := s[..|s| - 1];
      var last := s[|s| - 1];
      assert Distinct(front);
      assert last !in front;
      DistinctCardinality(front, elements - {last});
    }
  }

  /** A group of the catalogue gets the "Unique" badge exactly when it is
      one of the groups `unique_cars` counts. */
  lemma ScanUniqueBadge(t: Tables, currentYY: nat, listing: seq<Entry>, k: Identity)
    requires currentYY < 100
    requires Scan(t, currentYY, listing).Ok?
    requires k in Scan(t, currentYY, listing).value.groups
    ensures var g := Scan(t, currentYY, listing).value.groups[k];
            AssignBadge(g) == UNIQUE <==> |g| == 1
  {
    ScanGroupsNonEmpty(t, currentYY, listing, k);
  }

  // ---------------------------------------------------------------------------
  // Worked case: the same car folder in two games
  // ---------------------------------------------------------------------------

  lemma GroupNameFilters(name: string)
    requires name == "ab_gt3_2020"
    ensures Normalize(name) == name && PassesFilter(name)
  {
    NoMarkerAtEnd(name);
    assert Lower(name) == name;
  }

  lemma GroupNameParses(t: Tables, currentYY: nat, name: string)
    requires currentYY < 100
    requires name == "ab_gt3_2020" && name !in t.carOverrides
    ensures var r := Key(t, currentYY, name);
            && r.Ok?
            && r.value.manufacturer == Get(t.manufacturerCodes, "ab", UNKNOWN)
            && r.value.model == "Gt3"
            && r.value.year == "2020"
            && r.value.raceNumber == ""
  {
    var segs := ["ab", "gt3", "2020"];
    GroupNameFilters(name);
    ThreeSegments("ab", "gt3", "2020");
    LiteralPositional(t, name, segs);
    GroupNameParts(t, currentYY, name, segs);
    TitleOfGt3();
  }

  lemma TitleOfGt3()
    ensures Title("gt3") == "Gt3"
  {
    forall i | 0 <= i < 3
      ensures Title("gt3")[i] == "Gt3"[i]
    {
      TitleAt("gt3", i);
    }
  }

  lemma GroupNameParts(t: Tables, currentYY: nat, name: string, segs: seq<string>)
    requires currentYY < 100
    requires segs == ["ab", "gt3", "2020"] && PositionalName(t, name, segs)
    ensures var r := Parse(t, currentYY, name);
            && r.Ok?
            && r.value.manufacturer == Get(t.manufacturerCodes, "ab", UNKNOWN)
            && r.value.model == Title("gt3")
            && r.value.year == "2020"
            && r.value.raceNumber == ""
  {
    assert Lower("ab") == "ab";
    assert !IsDigits(segs[1]) by { assert !IsDigit(segs[1][0]); }
    ParseFailsOnlyOnYear(t, currentYY, name, segs);
    ParseManufacturerAndModel(t, currentYY, name, segs);
    ParseYear(t, currentYY, name, segs);
  }

  /** Two game folders that each hold `ab_gt3_2020` give one group of two
      occurrences, in listing order, badged "Duplicated". */
  lemma SameFolderInTwoGames(t: Tables, currentYY: nat, name: string, first: string, second: string)
    requires currentYY < 100
    requires name == "ab_gt3_2020" && name !in t.carOverrides
    requires first != second
    ensures var r := Scan(t, currentYY, [Entry(first, name, true), Entry(second, name, true)]);
            && r.Ok?
            && |r.value.order| == 1
            && var k := r.value.order[0];
               && k in r.value.groups
               && r.value.groups[k] == [Occurrence(first, name), Occurrence(second, name)]
               && AssignBadge(r.value.groups[k]) == DUPLICATED
               && k.model == "Gt3" && k.year == "2020"
               && k.manufacturer == Get(t.manufacturerCodes, "ab", UNKNOWN)
  {
    GroupNameParses(t, currentYY, name);
    GroupNameFilters(name);
    var k := Key(t, currentYY, name).value;
    TwoEntriesOneGroup(Accepted, KeyFn(t, currentYY), Entry(first, name, true), Entry(second, name, true), k);
  }

  /** Two accepted entries with one key and different pairs form one group,
      in listing order. */
  lemma TwoEntriesOneGroup(accept: Entry -> bool, key: string -> Result<Identity, ParseError>,
                           e1: Entry, e2: Entry, k: Identity)
    requires accept(e1) && accept(e2)
    requires key(e1.name) == Ok(k) && key(e2.name) == Ok(k)
    requires OccurrenceOf(e1) != OccurrenceOf(e2)
    ensures ScanBy(accept, key, [e1, e2]) ==
            Ok(Catalogue(map[k := [OccurrenceOf(e1), OccurrenceOf(e2)]], [k], {OccurrenceOf(e1), OccurrenceOf(e2)}))
  {
    var p1, p2 := OccurrenceOf(e1), OccurrenceOf(e2);
    var c1 := Catalogue(map[k := [p1]], [k], {p1});
    var one := [e1];
    assert one[..|one| - 1] == [];
    assert ScanBy(accept, key, []) == Ok(Catalogue(map[], [], {}));
    assert Record(Catalogue(map[], [], {}), k, p1) == c1;
    assert ScanBy(accept, key, one) == Ok(c1);
    assert [e1, e2][..1] == one;
    assert p2 !in c1.groups[k];
    assert [p1] + [p2] == [p1, p2];
    assert c1.groups[k := [p1, p2]] == map[k := [p1, p2]];
    assert {p1} + {p2} == {p1, p2};
  }
}

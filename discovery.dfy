/** The discovery loop of compare_carfolders.py (lines 329-351): every name
    listed under every game folder is normalised, filtered, parsed, and its
    `(folder_path, original_name)` pair appended to the list of its key in
    `subfolders_dict`, while its path is added to `unique_folder_paths`.

    `os.listdir` and `os.path.isdir` are replaced by the input `listing`:
    the names of every game folder, in the order the script visits them,
    each with whether it is a directory. */
module Discovery {
  import opened Wrappers
  import opened Text
  import opened FolderNames

  /** One name returned by `os.listdir(root)` and whether it is a directory. */
  datatype Entry = Entry(root: string, name: string, isDir: bool)

  /** The pair `(folder_path, original_name)` stored in a group. */
  datatype Occurrence = Occurrence(root: string, name: string)

  /** `subfolders_dict`, with the insertion order of its keys, and
      `unique_folder_paths` (a path is the pair it joins). */
  datatype Catalogue = Catalogue(
    groups: map<Identity, seq<Occurrence>>,
    order: seq<Identity>,
    paths: set<Occurrence>)

  function OccurrenceOf(e: Entry): Occurrence { Occurrence(e.root, e.name) }

  /** The tests of lines 336 and 339: a car-like name of a directory. */
  predicate Accepted(e: Entry) { PassesFilter(e.name) && e.isDir }

  predicate Distinct<T(==)>(s: seq<T>) {
    forall i, j :: 0 <= i < j < |s| ==> s[i] != s[j]
  }

  /** The dictionary and its key order describe the same keys, once each. */
  ghost predicate Indexed(c: Catalogue) {
    && Distinct(c.order)
    && forall k :: k in c.groups <==> k in c.order
  }

  /** Lines 340-349 for one accepted directory `p` whose key is `key`. */
  function Record(c: Catalogue, key: Identity, p: Occurrence): Catalogue {
    var paths := c.paths + {p};
    if key !in c.groups then Catalogue(c.groups[key := [p]], c.order + [key], paths)
    else if p in c.groups[key] then Catalogue(c.groups, c.order, paths)
    else Catalogue(c.groups[key := c.groups[key] + [p]], c.order, paths)
  }

  /** The state after the loop has seen `listing`, for a filter `accept` and
      a key function `key`; Err when `key` raised, which ends the script
      since only FileNotFoundError is caught. */
  function ScanBy(accept: Entry -> bool, key: string -> Result<Identity, ParseError>,
                  listing: seq<Entry>): Result<Catalogue, ParseError>
    decreases |listing|
  {
    if listing == [] then Ok(Catalogue(map[], [], {}))
    else
      var e := listing[|listing| - 1];
      match ScanBy(accept, key, listing[..|listing| - 1])
      case Err(err) => Err(err)
      case Ok(c) =>
        if !accept(e) then Ok(c)
        else
          match key(e.name)
          case Err(err) => Err(err)
          case Ok(k) => Ok(Record(c, k, OccurrenceOf(e)))
  }

  /** `parse_folder_name` applied to the normalised name, as a value. */
  function KeyFn(t: Tables, currentYY: nat): string -> Result<Identity, ParseError>
    requires currentYY < 100
  {
    name => Key(t, currentYY, name)
  }

  /** The state of the script's loop after `listing`. */
  function Scan(t: Tables, currentYY: nat, listing: seq<Entry>): Result<Catalogue, ParseError>
    requires currentYY < 100
  {
    ScanBy(Accepted, KeyFn(t, currentYY), listing)
  }

  /** The loop itself. */
  method Discover(t: Tables, currentYY: nat, listing: seq<Entry>) returns (result: Result<Catalogue, ParseError>)
    requires currentYY < 100
    ensures result == Scan(t, currentYY, listing)
  {
    var groups: map<Identity, seq<Occurrence>> := map[];
    var order: seq<Identity> := [];
    var paths: set<Occurrence> := {};
    var i := 0;
    while i < |listing|
      invariant 0 <= i <= |listing|
      invariant ScanBy(Accepted, KeyFn(t, currentYY), listing[..i]) == Ok(Catalogue(groups, order, paths))
    {
      var entry := listing[i];
      ScanByStep(Accepted, KeyFn(t, currentYY), listing, i);
      var normalized := Normalize(entry.name);
      if normalized !in EXCLUDED_SUBFOLDERS && HasCarPrefix(normalized) && entry.isDir {
        var p := Occurrence(entry.root, entry.name);
        paths := paths + {p};
        var parsed := Parse(t, currentYY, normalized);
        assert KeyFn(t, currentYY)(entry.name) == parsed;
        if parsed.Err? {
          ScanErrPersists(Accepted, KeyFn(t, currentYY), listing, i + 1);
          return Err(parsed.error);
        }
        var key := parsed.value;
        if key !in groups {
          groups := groups[key := [p]];
          order := order + [key];
        } else if p !in groups[key] {
          groups := groups[key := groups[key] + [p]];
        }
      }
      i := i + 1;
    }
    assert listing[..i] == listing;
    return Ok(Catalogue(groups, order, paths));
  }

  /** One more entry of the listing. */
  lemma ScanByStep(accept: Entry -> bool, key: string -> Result<Identity, ParseError>, listing: seq<Entry>, i: nat)
    requires i < |listing|
    ensures var e := listing[i];
            ScanBy(accept, key, listing[..i + 1]) ==
              match ScanBy(accept, key, listing[..i])
              case Err(err) => Err(err)
              case Ok(c) =>
                if !accept(e) then Ok(c)
                else
                  match key(e.name)
                  case Err(err) => Err(err)
                  case Ok(k) => Ok(Record(c, k, OccurrenceOf(e)))
  {
    assert listing[..i + 1][..i] == listing[..i];
  }

  /** Once a parse has raised, the rest of the listing does not matter. */
  lemma {:induction false} ScanErrPersists(accept: Entry -> bool, key: string -> Result<Identity, ParseError>,
                                           listing: seq<Entry>, n: nat)
    requires n <= |listing|
    requires ScanBy(accept, key, listing[..n]).Err?
    ensures ScanBy(accept, key, listing) == ScanBy(accept, key, listing[..n])
  {
    if n < |listing| {
      var front := listing[..|listing| - 1];
      assert front[..n] == listing[..n];
      ScanErrPersists(accept, key, front, n);
    } else {
      assert listing[..n] == listing;
    }
  }

  // ---------------------------------------------------------------------------
  // A reference description of the result
  // ---------------------------------------------------------------------------

  /** The accepted directories in the order they are first listed, each once. */
  function Seen(accept: Entry -> bool, listing: seq<Entry>): seq<Occurrence>
    decreases |listing|
  {
    if listing == [] then []
    else
      var e := listing[|listing| - 1];
      var before := Seen(accept, listing[..|listing| - 1]);
      if accept(e) && OccurrenceOf(e) !in before then before + [OccurrenceOf(e)] else before
  }

  /** The occurrences in `s` whose key is `k`, in the order of `s`. */
  function GroupOf(key: string -> Result<Identity, ParseError>, s: seq<Occurrence>, k: Identity): seq<Occurrence>
    decreases |s|
  {
    if s == [] then []
    else
      var before := GroupOf(key, s[..|s| - 1], k);
      if key(s[|s| - 1].name) == Ok(k) then before + [s[|s| - 1]] else before
  }

  /** The keys of `s`, each once, in the order they first appear. */
  function KeyOrder(key: string -> Result<Identity, ParseError>, s: seq<Occurrence>): seq<Identity>
    decreases |s|
  {
    if s == [] then []
    else
      var before := KeyOrder(key, s[..|s| - 1]);
      match key(s[|s| - 1].name)
      case Err(_) => before
      case Ok(k) => if k in before then before else before + [k]
  }

  lemma {:induction false} SeenMembers(accept: Entry -> bool, listing: seq<Entry>, p: Occurrence)
    ensures p in Seen(accept, listing) <==>
      exists i :: 0 <= i < |listing| && accept(listing[i]) && OccurrenceOf(listing[i]) == p
  {
    if listing != [] {
      var front := listing[..|listing| - 1];
      SeenMembers(accept, front, p);
      if p in Seen(accept, front) {
        var i :| 0 <= i < |front| && accept(front[i]) && OccurrenceOf(front[i]) == p;
        assert listing[i] == front[i];
      }
      if exists i :: 0 <= i < |listing| && accept(listing[i]) && OccurrenceOf(listing[i]) == p {
        var i :| 0 <= i < |listing| && accept(listing[i]) && OccurrenceOf(listing[i]) == p;
        if i < |front| {
          assert front[i] == listing[i];
        }
      }
    }
  }

  lemma {:induction false} SeenDistinct(accept: Entry -> bool, listing: seq<Entry>)
    ensures Distinct(Seen(accept, listing))
  {
    if listing != [] {
      SeenDistinct(accept, listing[..|listing| - 1]);
    }
  }

  lemma {:induction false} GroupOfMembers(key: string -> Result<Identity, ParseError>, s: seq<Occurrence>,
                                          k: Identity, p: Occurrence)
    ensures p in GroupOf(key, s, k) <==> p in s && key(p.name) == Ok(k)
  {
    if s != [] {
      var front := s[..|s| - 1];
      GroupOfMembers(key, front, k, p);
      assert s == front + [s[|s| - 1]];
    }
  }

  /** `c` is the catalogue the reference sequence `s` describes: its paths
      are the members of `s`, each key's list holds the members of `s` with
      that key in the order of `s`, and the keys are ordered by their first
      member. */
  ghost predicate Describes(key: string -> Result<Identity, ParseError>, c: Catalogue, s: seq<Occurrence>) {
    && (forall p :: p in c.paths <==> p in s)
    && (forall i :: 0 <= i < |s| ==> key(s[i].name).Ok?)
    && c.order == KeyOrder(key, s)
    && Indexed(c)
    && (forall k :: k in c.groups <==> GroupOf(key, s, k) != [])
    && (forall k :: k in c.groups ==> c.groups[k] == GroupOf(key, s, k))
  }

  /** Recording a directory already seen changes nothing but the path set,
      which already holds it. */
  lemma RecordSeen(key: string -> Result<Identity, ParseError>, c: Catalogue, s: seq<Occurrence>,
                   k: Identity, p: Occurrence)
    requires Describes(key, c, s)
    requires key(p.name) == Ok(k) && p in s
    ensures Record(c, k, p) == Catalogue(c.groups, c.order, c.paths)
  {
    GroupOfMembers(key, s, k, p);
  }

  /** Recording a new directory extends the description by that directory. */
  lemma RecordNew(key: string -> Result<Identity, ParseError>, c: Catalogue, s: seq<Occurrence>,
                  k: Identity, p: Occurrence)
    requires Describes(key, c, s)
    requires key(p.name) == Ok(k) && p !in s
    ensures Describes(key, Record(c, k, p), s + [p])
  {
    var s' := s + [p];
    assert s'[..|s'| - 1] == s;
    GroupOfMembers(key, s, k, p);
    forall k'
      ensures GroupOf(key, s', k') == GroupOf(key, s, k') + (if k' == k then [p] else [])
    {
    }
    var r := Record(c, k, p);
    if k in c.groups {
      assert p !in c.groups[k];
      assert r == Catalogue(c.groups[k := c.groups[k] + [p]], c.order, c.paths + {p});
      assert KeyOrder(key, s') == c.order;
    } else {
      assert r == Catalogue(c.groups[k := [p]], c.order + [k], c.paths + {p});
      assert KeyOrder(key, s') == c.order + [k];
      assert Indexed(r);
    }
    assert forall i :: 0 <= i < |s'| ==> key(s'[i].name).Ok? by {
      forall i | 0 <= i < |s'| ensures key(s'[i].name).Ok? {
        if i < |s| { assert s'[i] == s[i]; }
      }
    }
  }

  /** The loop builds exactly the reference description of the listing. */
  lemma {:induction false} ScanMatchesSeen(accept: Entry -> bool, key: string -> Result<Identity, ParseError>,
                                           listing: seq<Entry>)
    requires ScanBy(accept, key, listing).Ok?
    ensures Describes(key, ScanBy(accept, key, listing).value, Seen(accept, listing))
  {
    if listing != [] {
      var front := listing[..|listing| - 1];
      var e := listing[|listing| - 1];
      ScanMatchesSeen(accept, key, front);
      var c := ScanBy(accept, key, front).value;
      var s := Seen(accept, front);
      if accept(e) {
        var k := key(e.name).value;
        var p := OccurrenceOf(e);
        if p in s {
          RecordSeen(key, c, s, k, p);
        } else {
          RecordNew(key, c, s, k, p);
        }
      }
    }
  }

  lemma {:induction false} ScanByFails(accept: Entry -> bool, key: string -> Result<Identity, ParseError>,
                                       listing: seq<Entry>)
    ensures ScanBy(accept, key, listing).Err? <==>
      exists i :: 0 <= i < |listing| && accept(listing[i]) && key(listing[i].name).Err?
  {
    if listing != [] {
      var front := listing[..|listing| - 1];
      ScanByFails(accept, key, front);
      if exists i :: 0 <= i < |front| && accept(front[i]) && key(front[i].name).Err? {
        var i :| 0 <= i < |front| && accept(front[i]) && key(front[i].name).Err?;
        assert listing[i] == front[i];
      }
      if exists i :: 0 <= i < |listing| && accept(listing[i]) && key(listing[i].name).Err? {
        var i :| 0 <= i < |listing| && accept(listing[i]) && key(listing[i].name).Err?;
        if i < |front| { assert front[i] == listing[i]; }
      }
    }
  }

  lemma {:induction false} GroupOfDistinct(key: string -> Result<Identity, ParseError>, s: seq<Occurrence>, k: Identity)
    requires Distinct(s)
    ensures Distinct(GroupOf(key, s, k))
  {
    if s != [] {
      var front := s[..|s| - 1];
      GroupOfDistinct(key, front, k);
      GroupOfMembers(key, front, k, s[|s| - 1]);
    }
  }

  /** Members of a group keep the order they have in `s`. */
  lemma {:induction false} GroupOfOrder(key: string -> Result<Identity, ParseError>, s: seq<Occurrence>,
                                        k: Identity, i: nat, j: nat)
    requires i < j < |GroupOf(key, s, k)|
    ensures exists a, b :: 0 <= a < b < |s| && s[a] == GroupOf(key, s, k)[i] && s[b] == GroupOf(key, s, k)[j]
  {
    var front := s[..|s| - 1];
    var g, g' := GroupOf(key, s, k), GroupOf(key, front, k);
    if j < |g'| {
      GroupOfOrder(key, front, k, i, j);
      var a, b :| 0 <= a < b < |front| && front[a] == g'[i] && front[b] == g'[j];
      assert s[a] == g[i] && s[b] == g[j];
    } else {
      GroupOfMembers(key, front, k, g[i]);
      var a :| 0 <= a < |front| && front[a] == g[i];
      assert s[a] == g[i] && s[|s| - 1] == g[j];
    }
  }

  /** `p` is listed, as an accepted directory, before `q` ever is. */
  ghost predicate ListedBefore(accept: Entry -> bool, listing: seq<Entry>, p: Occurrence, q: Occurrence) {
    exists i :: 0 <= i < |listing| && accept(listing[i]) && OccurrenceOf(listing[i]) == p &&
      forall j :: 0 <= j <= i ==> !(accept(listing[j]) && OccurrenceOf(listing[j]) == q)
  }

  /** `Seen` lists the directories in the order of their first listing. */
  lemma {:induction false} SeenOrder(accept: Entry -> bool, listing: seq<Entry>, i: nat, j: nat)
    requires i < j < |Seen(accept, listing)|
    ensures ListedBefore(accept, listing, Seen(accept, listing)[i], Seen(accept, listing)[j])
  {
    var front := listing[..|listing| - 1];
    var s, s' := Seen(accept, listing), Seen(accept, front);
    if j < |s'| {
      SeenOrder(accept, front, i, j);
      var a :| 0 <= a < |front| && accept(front[a]) && OccurrenceOf(front[a]) == s'[i] &&
        forall b :: 0 <= b <= a ==> !(accept(front[b]) && OccurrenceOf(front[b]) == s'[j]);
      assert accept(listing[a]) && OccurrenceOf(listing[a]) == s[i];
      assert forall b :: 0 <= b <= a ==> listing[b] == front[b];
    } else {
      SeenMembers(accept, front, s[i]);
      SeenMembers(accept, front, s[j]);
      var a :| 0 <= a < |front| && accept(front[a]) && OccurrenceOf(front[a]) == s[i];
      assert accept(listing[a]) && OccurrenceOf(listing[a]) == s[i];
      assert forall b :: 0 <= b <= a ==> listing[b] == front[b];
    }
  }

  // ---------------------------------------------------------------------------
  // What the loop promises, for the script's own filter and parser
  // ---------------------------------------------------------------------------

  /** The dictionary the loop builds holds each key of its order once. */
  lemma ScanIndexed(t: Tables, currentYY: nat, listing: seq<Entry>)
    requires currentYY < 100
    requires Scan(t, currentYY, listing).Ok?
    ensures Indexed(Scan(t, currentYY, listing).value)
  {
    ScanMatchesSeen(Accepted, KeyFn(t, currentYY), listing);
  }

  /** The loop fails exactly when some accepted directory's name does not parse. */
  lemma ScanFailsIff(t: Tables, currentYY: nat, listing: seq<Entry>)
    requires currentYY < 100
    ensures Scan(t, currentYY, listing).Err? <==>
      exists i :: 0 <= i < |listing| && Accepted(listing[i]) && Key(t, currentYY, listing[i].name).Err?
  {
    ScanByFails(Accepted, KeyFn(t, currentYY), listing);
  }

  /** Every accepted directory is recorded exactly once: in the list of its
      own key and of no other, in `unique_folder_paths`, and no list holds
      a pair twice. */
  lemma ScanRecordsEachOnce(t: Tables, currentYY: nat, listing: seq<Entry>, i: nat)
    requires currentYY < 100
    requires Scan(t, currentYY, listing).Ok?
    requires i < |listing| && Accepted(listing[i])
    ensures var c := Scan(t, currentYY, listing).value;
            var p := OccurrenceOf(listing[i]);
            && Key(t, currentYY, p.name).Ok?
            && Key(t, currentYY, p.name).value in c.groups
            && p in c.groups[Key(t, currentYY, p.name).value]
            && (forall k :: k in c.groups && p in c.groups[k] ==> k == Key(t, currentYY, p.name).value)
            && p in c.paths
  {
    var key := KeyFn(t, currentYY);
    ScanMatchesSeen(Accepted, key, listing);
    var p := OccurrenceOf(listing[i]);
    var s := Seen(Accepted, listing);
    SeenMembers(Accepted, listing, p);
    var j :| 0 <= j < |s| && s[j] == p;
    var k := key(p.name).value;
    GroupOfMembers(key, s, k, p);
    forall k' | k' in Scan(t, currentYY, listing).value.groups && p in Scan(t, currentYY, listing).value.groups[k']
      ensures k' == k
    {
      GroupOfMembers(key, s, k', p);
    }
  }

  /** Every list of the dictionary is non-empty and has no repeats. */
  lemma ScanGroupsNonEmpty(t: Tables, currentYY: nat, listing: seq<Entry>, k: Identity)
    requires currentYY < 100
    requires Scan(t, currentYY, listing).Ok?
    requires k in Scan(t, currentYY, listing).value.groups
    ensures var g := Scan(t, currentYY, listing).value.groups[k];
            |g| > 0 && Distinct(g)
  {
    var key := KeyFn(t, currentYY);
    ScanMatchesSeen(Accepted, key, listing);
    SeenDistinct(Accepted, listing);
    GroupOfDistinct(key, Seen(Accepted, listing), k);
  }

  /** Every recorded pair is an accepted directory of the listing, under
      its own key: no excluded name and no name without the car prefix
      appears anywhere, and every list is non-empty and free of repeats. */
  lemma ScanRecordsOnlyAccepted(t: Tables, currentYY: nat, listing: seq<Entry>, k: Identity, p: Occurrence)
    requires currentYY < 100
    requires Scan(t, currentYY, listing).Ok?
    requires k in Scan(t, currentYY, listing).value.groups
    ensures var g := Scan(t, currentYY, listing).value.groups[k];
            && |g| > 0
            && Distinct(g)
            && (p in g ==> Key(t, currentYY, p.name) == Ok(k))
            && (p in g ==> Normalize(p.name) !in EXCLUDED_SUBFOLDERS && HasCarPrefix(Normalize(p.name)))
            && (p in g ==> exists i :: 0 <= i < |listing| && listing[i].isDir && OccurrenceOf(listing[i]) == p)
  {
    var key := KeyFn(t, currentYY);
    ScanMatchesSeen(Accepted, key, listing);
    var s := Seen(Accepted, listing);
    SeenDistinct(Accepted, listing);
    GroupOfDistinct(key, s, k);
    GroupOfMembers(key, s, k, p);
    SeenMembers(Accepted, listing, p);
  }

  /** Each list keeps discovery order: of two pairs in a list, the earlier
      one was listed first. */
  lemma ScanKeepsDiscoveryOrder(t: Tables, currentYY: nat, listing: seq<Entry>, k: Identity, i: nat, j: nat)
    requires currentYY < 100
    requires Scan(t, currentYY, listing).Ok?
    requires k in Scan(t, currentYY, listing).value.groups
    requires i < j < |Scan(t, currentYY, listing).value.groups[k]|
    ensures var g := Scan(t, currentYY, listing).value.groups[k];
            ListedBefore(Accepted, listing, g[i], g[j])
  {
    var key := KeyFn(t, currentYY);
    ScanMatchesSeen(Accepted, key, listing);
    var s := Seen(Accepted, listing);
    GroupOfOrder(key, s, k, i, j);
    var a, b :| 0 <= a < b < |s| && s[a] == GroupOf(key, s, k)[i] && s[b] == GroupOf(key, s, k)[j];
    SeenOrder(Accepted, listing, a, b);
  }
}

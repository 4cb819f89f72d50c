/** The small rules of compare_carfolders.py that decide names and order in
    the generated page: the details-fragment file name (lines 102 and 179),
    `get_game_id` (lines 298-302), and the order of the table rows
    (line 594). */
module Report {
  import opened Wrappers
  import opened Text
  import opened FolderNames
  import opened Discovery
  import opened Totals

  // ---------------------------------------------------------------------------
  // The details file name
  // ---------------------------------------------------------------------------

  /** `f"{name.replace(' ', '_').replace('.', '_')}_{game_code}.html"`, with
      the game code looked up for the game folder, "unknown" if absent. */
  function DetailsFileName(originalName: string, gameFolderCodes: map<string, string>, gameFolder: string): (r: string)
    ensures var code := Get(gameFolderCodes, gameFolder, "unknown");
            && |r| == |originalName| + |code| + 6
            && (forall i :: 0 <= i < |originalName| ==>
                  r[i] == if originalName[i] == ' ' || originalName[i] == '.' then '_' else originalName[i])
            && r[|originalName|..] == "_" + code + ".html"
  {
    var code := Get(gameFolderCodes, gameFolder, "unknown");
    var safe := ReplaceChar(ReplaceChar(originalName, ' ', '_'), '.', '_');
    assert (safe + "_" + code + ".html")[|originalName|..] == "_" + code + ".html";
    safe + "_" + code + ".html"
  }

  /** The rule is not injective: names of one game that differ only in
      spaces, dots and underscores share one details file. */
  lemma DetailsFileNamesCollide(a: string, b: string, gameFolderCodes: map<string, string>, gameFolder: string)
    requires |a| == |b|
    requires forall i :: 0 <= i < |a| ==> a[i] == b[i] || (a[i] in " ._" && b[i] in " ._")
    ensures DetailsFileName(a, gameFolderCodes, gameFolder) == DetailsFileName(b, gameFolderCodes, gameFolder)
  {
    var ra, rb := DetailsFileName(a, gameFolderCodes, gameFolder), DetailsFileName(b, gameFolderCodes, gameFolder);
    assert ra[..|a|] == rb[..|b|];
    assert ra == ra[..|a|] + ra[|a|..];
    assert rb == rb[..|b|] + rb[|b|..];
  }

  // ---------------------------------------------------------------------------
  // get_game_id: os.path.splitext(os.path.basename(image))[0]
  // ---------------------------------------------------------------------------

  /** `os.path.basename` (POSIX): what follows the last `/`. */
  function Basename(path: string): (r: string)
    ensures '/' !in r
    ensures |r| <= |path| && path[|path| - |r|..] == r
    ensures |r| < |path| ==> path[|path| - |r| - 1] == '/'
    decreases |path|
  {
    if path == [] then []
    else if path[|path| - 1] == '/' then []
    else
      var front := Basename(path[..|path| - 1]);
      assert path[..|path| - 1][|path| - 1 - |front|..] == path[|path| - 1 - |front|..|path| - 1];
      front + [path[|path| - 1]]
  }

  /** Index of the last `c` in `s`. */
  function LastIndex(s: string, c: char): (r: Option<nat>)
    ensures r.None? <==> c !in s
    ensures r.Some? ==> r.value < |s| && s[r.value] == c
    ensures r.Some? ==> forall j :: r.value < j < |s| ==> s[j] != c
    decreases |s|
  {
    if s == [] then None
    else if s[|s| - 1] == c then Some(|s| - 1)
    else
      var r := LastIndex(s[..|s| - 1], c);
      assert s == s[..|s| - 1] + [s[|s| - 1]];
      r
  }

  /** `os.path.splitext(name)[0]` for a name without `/`: the text before the
      last dot, unless only dots precede that dot (as in ".bashrc"). */
  function Stem(name: string): string {
    match LastIndex(name, '.')
    case None => name
    case Some(dot) => if OnlyDots(name[..dot]) then name else name[..dot]
  }

  /** Whether every character of `s` is a dot. */
  predicate OnlyDots(s: string) {
    forall i :: 0 <= i < |s| ==> s[i] == '.'
  }

  /** `get_game_id(folder_path)` */
  function GameId(folderToImage: map<string, string>, gameFolder: string): string {
    Stem(Basename(Get(folderToImage, gameFolder, "")))
  }

  /** The game id of an image path `dir/stem.ext` is `stem`. */
  lemma GameIdOfImage(folderToImage: map<string, string>, gameFolder: string, dir: string, stem: string, ext: string)
    requires gameFolder in folderToImage && folderToImage[gameFolder] == dir + (stem + "." + ext)
    requires dir == [] || dir[|dir| - 1] == '/'
    requires stem != [] && stem[0] != '.' && '/' !in stem
    requires '/' !in ext && '.' !in ext
    ensures GameId(folderToImage, gameFolder) == stem
  {
    NoSlashInFile(stem, ext);
    BasenameOfFile(dir, stem + "." + ext);
    StemOfFile(stem, ext);
  }

  lemma NoSlashInFile(stem: string, ext: string)
    requires '/' !in stem && '/' !in ext
    ensures '/' !in stem + "." + ext
  {
    var file := stem + "." + ext;
    forall i | 0 <= i < |file|
      ensures file[i] != '/'
    {
      if i < |stem| {
        assert file[i] == stem[i];
      } else if i > |stem| {
        assert file[i] == ext[i - |stem| - 1];
      }
    }
  }

  lemma StemOfFile(stem: string, ext: string)
    requires stem != [] && stem[0] != '.'
    requires '.' !in ext
    ensures Stem(stem + "." + ext) == stem
  {
    var file := stem + "." + ext;
    assert file[|stem|] == '.';
    assert file[|stem| + 1..] == ext;
    var dot := LastIndex(file, '.').value;
    assert dot == |stem|;
    assert file[0] != '.';
    assert file[..dot] == stem;
  }

  lemma {:induction false} BasenameOfFile(dir: string, file: string)
    requires dir == [] || dir[|dir| - 1] == '/'
    requires '/' !in file
    ensures Basename(dir + file) == file
  {
    if file == [] {
      assert dir + file == dir;
    } else {
      var front := file[..|file| - 1];
      BasenameOfFile(dir, front);
      assert (dir + file)[..|dir + file| - 1] == dir + front;
      assert file == front + [file[|file| - 1]];
    }
  }

  /** A game folder without an image has the empty id. */
  lemma GameIdWithoutImage(folderToImage: map<string, string>, gameFolder: string)
    requires gameFolder !in folderToImage
    ensures GameId(folderToImage, gameFolder) == ""
  {
  }

  // ---------------------------------------------------------------------------
  // The order of the table rows (line 594)
  // ---------------------------------------------------------------------------

  /** Python's `a <= b` on strings: code point by code point, a proper
      prefix first. */
  predicate NoLater(a: string, b: string)
    decreases |a|
  {
    a == [] || (b != [] && (a[0] < b[0] || (a[0] == b[0] && NoLater(a[1..], b[1..]))))
  }

  lemma {:induction false} NoLaterReflexive(a: string)
    ensures NoLater(a, a)
    decreases |a|
  {
    if a != [] {
      NoLaterReflexive(a[1..]);
    }
  }

  lemma {:induction false} NoLaterTotal(a: string, b: string)
    ensures NoLater(a, b) || NoLater(b, a)
    decreases |a|
  {
    if a != [] && b != [] && a[0] == b[0] {
      NoLaterTotal(a[1..], b[1..]);
    }
  }

  lemma {:induction false} NoLaterTransitive(a: string, b: string, c: string)
    requires NoLater(a, b) && NoLater(b, c)
    ensures NoLater(a, c)
    decreases |a|
  {
    if a != [] && a[0] == b[0] && b[0] == c[0] {
      NoLaterTransitive(a[1..], b[1..], c[1..]);
    }
  }

  /** `keys` ascending by `keyOf`. */
  predicate SortedBy(keys: seq<Identity>, keyOf: Identity -> string) {
    forall i, j :: 0 <= i < j < |keys| ==> NoLater(keyOf(keys[i]), keyOf(keys[j]))
  }

  /** The members of `keys` whose sort key is `v`, in their order. */
  function WithSortKey(keys: seq<Identity>, keyOf: Identity -> string, v: string): seq<Identity>
    decreases |keys|
  {
    if keys == [] then []
    else
      var last := keys[|keys| - 1];
      WithSortKey(keys[..|keys| - 1], keyOf, v) + (if keyOf(last) == v then [last] else [])
  }

  /** Put `k` after every member of `sorted` whose key is not greater. */
  function InsertBy(sorted: seq<Identity>, k: Identity, keyOf: Identity -> string): seq<Identity>
    decreases |sorted|
  {
    if sorted == [] then [k]
    else
      var last := sorted[|sorted| - 1];
      if NoLater(keyOf(last), keyOf(k)) then sorted + [k]
      else InsertBy(sorted[..|sorted| - 1], k, keyOf) + [last]
  }

  /** Python's `sorted(keys, key=keyOf)`: a stable sort. */
  function SortBy(keys: seq<Identity>, keyOf: Identity -> string): seq<Identity>
    decreases |keys|
  {
    if keys == [] then []
    else InsertBy(SortBy(keys[..|keys| - 1], keyOf), keys[|keys| - 1], keyOf)
  }

  lemma {:induction false} InsertByPermutes(sorted: seq<Identity>, k: Identity, keyOf: Identity -> string)
    ensures multiset(InsertBy(sorted, k, keyOf)) == multiset(sorted) + multiset{k}
    decreases |sorted|
  {
    if sorted != [] {
      var last := sorted[|sorted| - 1];
      var front := sorted[..|sorted| - 1];
      assert sorted == front + [last];
      if !NoLater(keyOf(last), keyOf(k)) {
        InsertByPermutes(front, k, keyOf);
      }
    }
  }

  lemma {:induction false} InsertBySorted(sorted: seq<Identity>, k: Identity, keyOf: Identity -> string)
    requires SortedBy(sorted, keyOf)
    ensures SortedBy(InsertBy(sorted, k, keyOf), keyOf)
    decreases |sorted|
  {
    if sorted != [] {
      var last := sorted[|sorted| - 1];
      var front := sorted[..|sorted| - 1];
      var r := InsertBy(sorted, k, keyOf);
      if NoLater(keyOf(last), keyOf(k)) {
        forall i, j | 0 <= i < j < |r|
          ensures NoLater(keyOf(r[i]), keyOf(r[j]))
        {
          if j == |sorted| && i < |sorted| - 1 {
            NoLaterTransitive(keyOf(r[i]), keyOf(last), keyOf(k));
          }
        }
      } else {
        var front' := InsertBy(front, k, keyOf);
        InsertBySorted(front, k, keyOf);
        InsertByPermutes(front, k, keyOf);
        NoLaterTotal(keyOf(last), keyOf(k));
        forall i, j | 0 <= i < j < |r|
          ensures NoLater(keyOf(r[i]), keyOf(r[j]))
        {
          if j == |front'| {
            assert r[i] in multiset(front) + multiset{k} by {
              assert r[i] == front'[i];
              assert r[i] in multiset(front');
            }
            if r[i] != k {
              var m :| 0 <= m < |front| && front[m] == r[i];
              assert sorted[m] == r[i];
            }
          }
        }
      }
    }
  }

  lemma {:induction false} InsertByKeepsEqualKeys(sorted: seq<Identity>, k: Identity, keyOf: Identity -> string, v: string)
    ensures WithSortKey(InsertBy(sorted, k, keyOf), keyOf, v)
         == WithSortKey(sorted, keyOf, v) + (if keyOf(k) == v then [k] else [])
    decreases |sorted|
  {
    if sorted != [] {
      var last := sorted[|sorted| - 1];
      var front := sorted[..|sorted| - 1];
      if NoLater(keyOf(last), keyOf(k)) {
        assert (sorted + [k])[..|sorted|] == sorted;
      } else {
        InsertByKeepsEqualKeys(front, k, keyOf, v);
        if keyOf(last) == keyOf(k) {
          NoLaterReflexive(keyOf(k));
        }
        var r := InsertBy(front, k, keyOf) + [last];
        assert r[..|r| - 1] == InsertBy(front, k, keyOf);
      }
    }
  }

  /** The sort returns the keys it was given, each as often. */
  lemma {:induction false} SortByPermutes(keys: seq<Identity>, keyOf: Identity -> string)
    ensures multiset(SortBy(keys, keyOf)) == multiset(keys)
    decreases |keys|
  {
    if keys != [] {
      var front := keys[..|keys| - 1];
      SortByPermutes(front, keyOf);
      InsertByPermutes(SortBy(front, keyOf), keys[|keys| - 1], keyOf);
      assert keys == front + [keys[|keys| - 1]];
    }
  }

  /** The sort returns its keys ascending. */
  lemma {:induction false} SortBySorted(keys: seq<Identity>, keyOf: Identity -> string)
    ensures SortedBy(SortBy(keys, keyOf), keyOf)
    decreases |keys|
  {
    if keys != [] {
      var front := keys[..|keys| - 1];
      SortBySorted(front, keyOf);
      InsertBySorted(SortBy(front, keyOf), keys[|keys| - 1], keyOf);
    }
  }

  /** The sort is stable: keys with equal sort keys keep their order. */
  lemma {:induction false} SortByStable(keys: seq<Identity>, keyOf: Identity -> string, v: string)
    ensures WithSortKey(SortBy(keys, keyOf), keyOf, v) == WithSortKey(keys, keyOf, v)
    decreases |keys|
  {
    if keys != [] {
      var front := keys[..|keys| - 1];
      SortByStable(front, keyOf, v);
      InsertByKeepsEqualKeys(SortBy(front, keyOf), keys[|keys| - 1], keyOf, v);
    }
  }

  /** `x[1][0][1].lower()`: the lower-cased name of the group's first
      occurrence. The fold never leaves a group empty. */
  function FirstNameKey(c: Catalogue, k: Identity): string {
    var g := Get(c.groups, k, []);
    if g == [] then "" else Lower(g[0].name)
  }

  /** `sorted(subfolders_dict.items(), key=...)`, as the keys of the rows. */
  function RowOrder(c: Catalogue): seq<Identity> {
    SortBy(c.order, k => FirstNameKey(c, k))
  }

  /** The table shows every car once, ordered by the lower-cased name of its
      first occurrence. */
  lemma RowOrderOfScan(t: Tables, currentYY: nat, listing: seq<Entry>)
    requires currentYY < 100
    requires Scan(t, currentYY, listing).Ok?
    ensures var c := Scan(t, currentYY, listing).value;
            var rows := RowOrder(c);
            && multiset(rows) == multiset(c.order)
            && Distinct(rows)
            && (forall k :: k in rows <==> k in c.groups)
            && (forall i, j :: 0 <= i < j < |rows| ==> NoLater(FirstNameKey(c, rows[i]), FirstNameKey(c, rows[j])))
  {
    var c := Scan(t, currentYY, listing).value;
    var keyOf := k => FirstNameKey(c, k);
    ScanMatchesSeen(Accepted, KeyFn(t, currentYY), listing);
    SortByPermutes(c.order, keyOf);
    SortBySorted(c.order, keyOf);
    var rows := RowOrder(c);
    forall k
      ensures k in rows <==> k in c.order
    {
      assert k in rows <==> k in multiset(rows);
      assert k in c.order <==> k in multiset(c.order);
    }
    DistinctPermutation(c.order, rows);
  }

  lemma {:induction false} DistinctPermutation(a: seq<Identity>, b: seq<Identity>)
    requires Distinct(a) && multiset(a) == multiset(b)
    ensures Distinct(b)
  {
    forall i, j | 0 <= i < j < |b|
      ensures b[i] != b[j]
    {
      if b[i] == b[j] {
        assert multiset(b)[b[i]] >= 2 by {
          assert b == b[..j] + [b[j]] + b[j + 1..];
          assert b[i] in b[..j];
        }
        DistinctCountsOnce(a, b[i]);
      }
    }
  }

  lemma {:induction false} DistinctCountsOnce(a: seq<Identity>, k: Identity)
    requires Distinct(a)
    ensures multiset(a)[k] <= 1
    decreases |a|
  {
    if a != [] {
      var front := a[..|a| - 1];
      assert a == front + [a[|a| - 1]];
      DistinctCountsOnce(front, k);
      if a[|a| - 1] == k {
        assert k !in front;
      }
    }
  }

  /** Two rows never tie: distinct cars have first names that differ even
      when lower-cased, since the key ignores case. */
  lemma RowKeysDiffer(t: Tables, currentYY: nat, listing: seq<Entry>, k1: Identity, k2: Identity)
    requires currentYY < 100
    requires Scan(t, currentYY, listing).Ok?
    requires k1 in Scan(t, currentYY, listing).value.groups && k2 in Scan(t, currentYY, listing).value.groups
    requires k1 != k2
    ensures var c := Scan(t, currentYY, listing).value;
            FirstNameKey(c, k1) != FirstNameKey(c, k2)
  {
    var c := Scan(t, currentYY, listing).value;
    var g1, g2 := c.groups[k1], c.groups[k2];
    ScanMatchesSeen(Accepted, KeyFn(t, currentYY), listing);
    ScanRecordsOnlyAccepted(t, currentYY, listing, k1, g1[0]);
    ScanRecordsOnlyAccepted(t, currentYY, listing, k2, g2[0]);
    if Lower(g1[0].name) == Lower(g2[0].name) {
      KeyIgnoresCase(t, currentYY, g1[0].name, g2[0].name);
    }
  }
}

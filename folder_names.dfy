/** The folder-name parser of compare_carfolders.py: stripping the
    low-detail `slod` marker, the pre-filter applied to every directory
    name, and `parse_folder_name`, which turns a name into the seven-field
    identity the script groups by.

    The lookup tables of the `mappings` module are parameters, and the
    clock reading `datetime.now().year % 100` is the parameter `currentYY`. */
module FolderNames {
  import opened Wrappers
  import opened Text

  /** Names that are never taken as car folders (line 11). */
  const EXCLUDED_SUBFOLDERS: seq<string> :=
    ["_library", "appearancepresets", "driver", "shadersettings", "shared", "tex"]

  const UNKNOWN: string := "Unknown"
  const UNKNOWN_CODE: string := "unknown"
  const UNKNOWN_LOGO: string := "_images/brands/Unknown_Logo.png"

  /** One entry of `car_overrides`: manufacturer, model, year, variant, race number. */
  datatype Override = Override(manufacturer: string, model: string, year: string, variant: string, raceNumber: string)

  /** The lookup tables imported from `mappings`. */
  datatype Tables = Tables(
    manufacturerCodes: map<string, string>,
    manufacturerLogos: map<string, string>,
    variantMappings: map<string, string>,
    carOverrides: map<string, Override>,
    variantLogos: map<string, string>)

  /** The tuple `parse_folder_name` returns; the whole tuple is the grouping key. */
  datatype Identity = Identity(
    manufacturer: string,
    manufacturerLogo: string,
    model: string,
    year: string,
    variant: string,
    variantLogo: string,
    raceNumber: string)

  /** The ValueError `int()` raises on a two-character year that is not a number. */
  datatype ParseError = YearNotNumeric(yearPart: string)

  // ---------------------------------------------------------------------------
  // strip_slod_suffix: re.sub(r'(_?slod)$', '', name, flags=re.IGNORECASE)
  // ---------------------------------------------------------------------------

  /** `w` is "slod" in any mix of cases. */
  predicate IsSlod(w: string) { Lower(w) == "slod" }

  predicate EndsWithSlod(s: string) { |s| >= 4 && IsSlod(s[|s| - 4..]) }

  /** Python's `$` also matches just before a final newline. */
  predicate EndsWithSlodNewline(s: string) {
    |s| >= 5 && s[|s| - 1] == '\n' && IsSlod(s[|s| - 5..|s| - 1])
  }

  function DropUnderscore(s: string): string {
    if |s| > 0 && s[|s| - 1] == '_' then s[..|s| - 1] else s
  }

  function StripSlod(name: string): (r: string)
    ensures r == name <==> !EndsWithSlod(name) && !EndsWithSlodNewline(name)
    ensures |r| <= |name|
  {
    if EndsWithSlod(name) then DropUnderscore(name[..|name| - 4])
    else if EndsWithSlodNewline(name) then DropUnderscore(name[..|name| - 5]) + "\n"
    else name
  }

  /** A trailing `slod` goes together with exactly one `_` before it... */
  lemma StripSlodRemovesMarker(p: string, w: string)
    requires IsSlod(w)
    ensures StripSlod(p + "_" + w) == p
  {
    var s := p + "_" + w;
    assert s[|s| - 4..] == w;
    assert s[..|s| - 4] == p + "_";
    assert (p + "_")[..|p|] == p;
  }

  /** ... and alone when no `_` precedes it... */
  lemma StripSlodRemovesBareMarker(p: string, w: string)
    requires IsSlod(w)
    requires p == [] || p[|p| - 1] != '_'
    ensures StripSlod(p + w) == p
  {
    var s := p + w;
    assert s[|s| - 4..] == w;
    assert s[..|s| - 4] == p;
  }

  /** ... and also when it stands before a final newline. */
  lemma StripSlodBeforeNewline(p: string, w: string)
    requires IsSlod(w)
    ensures StripSlod(p + "_" + w + "\n") == p + "\n"
  {
    var s := p + "_" + w + "\n";
    assert Lower(s[|s| - 4..])[3] == '\n';
    assert !EndsWithSlod(s);
    assert s[|s| - 5..|s| - 1] == w;
    assert s[..|s| - 5] == p + "_";
    assert (p + "_")[..|p|] == p;
  }

  /** The same holds for a bare marker before a final newline. */
  lemma StripSlodBareBeforeNewline(p: string, w: string)
    requires IsSlod(w)
    requires p == [] || p[|p| - 1] != '_'
    ensures StripSlod(p + w + "\n") == p + "\n"
  {
    var s := p + w + "\n";
    assert Lower(s[|s| - 4..])[3] == '\n';
    assert !EndsWithSlod(s);
    assert s[|s| - 5..|s| - 1] == w;
    assert s[..|s| - 5] == p;
  }

  /** The function is not idempotent: one call removes one marker only. */
  lemma StripSlodOnlyOnce(p: string, w1: string, w2: string)
    requires IsSlod(w1) && IsSlod(w2)
    ensures StripSlod(p + "_" + w1 + "_" + w2) == p + "_" + w1
    ensures StripSlod(StripSlod(p + "_" + w1 + "_" + w2)) == p
  {
    StripSlodRemovesMarker(p + "_" + w1, w2);
    StripSlodRemovesMarker(p, w1);
  }

  /** Lower-casing keeps the marker where it is. */
  lemma LowerKeepsMarker(s: string)
    ensures EndsWithSlod(s) <==> EndsWithSlod(Lower(s))
    ensures EndsWithSlodNewline(s) <==> EndsWithSlodNewline(Lower(s))
  {
    if |s| >= 4 {
      LowerSlice(s, |s| - 4, |s|);
      LowerIdempotent(s[|s| - 4..]);
    }
    if |s| >= 5 {
      LowerSlice(s, |s| - 5, |s| - 1);
      LowerIdempotent(s[|s| - 5..|s| - 1]);
    }
  }

  lemma LowerDropUnderscore(q: string)
    ensures Lower(DropUnderscore(q)) == DropUnderscore(Lower(q))
  {
    if |q| > 0 {
      LowerSlice(q, 0, |q| - 1);
    }
  }

  /** Stripping and lower-casing commute. */
  lemma StripSlodLower(s: string)
    ensures Lower(StripSlod(s)) == StripSlod(Lower(s))
  {
    LowerKeepsMarker(s);
    if EndsWithSlod(s) {
      StripSlodLowerAtEnd(s);
    } else if EndsWithSlodNewline(s) {
      StripSlodLowerBeforeNewline(s);
    }
  }

  lemma StripSlodLowerAtEnd(s: string)
    requires EndsWithSlod(s) && EndsWithSlod(Lower(s))
    ensures Lower(StripSlod(s)) == StripSlod(Lower(s))
  {
    LowerSlice(s, 0, |s| - 4);
    LowerDropUnderscore(s[..|s| - 4]);
  }

  lemma StripSlodLowerBeforeNewline(s: string)
    requires !EndsWithSlod(s) && !EndsWithSlod(Lower(s))
    requires EndsWithSlodNewline(s) && EndsWithSlodNewline(Lower(s))
    ensures Lower(StripSlod(s)) == StripSlod(Lower(s))
  {
    LowerSlice(s, 0, |s| - 5);
    LowerDropUnderscore(s[..|s| - 5]);
    LowerAppend(DropUnderscore(s[..|s| - 5]), "\n");
    assert StripSlod(s) == DropUnderscore(s[..|s| - 5]) + "\n";
    assert StripSlod(Lower(s)) == DropUnderscore(Lower(s)[..|s| - 5]) + "\n";
  }

  // ---------------------------------------------------------------------------
  // The pre-filter of the discovery loop (lines 333 and 336)
  // ---------------------------------------------------------------------------

  /** `strip_slod_suffix(name).lower()` */
  function Normalize(name: string): (r: string)
    ensures !exists i :: 0 <= i < |r| && IsUpper(r[i])
    ensures |r| <= |name|
  {
    Lower(StripSlod(name))
  }

  /** `re.match(r'^[a-z]{2,3}_', s)` */
  predicate HasCarPrefix(s: string) {
    || (|s| >= 3 && IsLower(s[0]) && IsLower(s[1]) && s[2] == '_')
    || (|s| >= 4 && IsLower(s[0]) && IsLower(s[1]) && IsLower(s[2]) && s[3] == '_')
  }

  /** The name test of line 336, applied to the normalised name. */
  predicate PassesFilter(name: string) {
    var n := Normalize(name);
    n !in EXCLUDED_SUBFOLDERS && HasCarPrefix(n)
  }

  /** None of the excluded names has the car prefix, so the prefix test
      alone already rejects all of them. */
  lemma ExcludedFailPrefix(n: string)
    requires n in EXCLUDED_SUBFOLDERS
    ensures !HasCarPrefix(n)
  {
  }

  // ---------------------------------------------------------------------------
  // parse_folder_name (lines 213-265)
  // ---------------------------------------------------------------------------

  /** The year of lines 246-252: a two-character last segment `yy` becomes
      "19yy" when `int(yy)` is above the current two-digit year and "20yy"
      otherwise; any other segment is kept as it is. */
  function ExpandYear(yearPart: string, currentYY: nat): (r: Result<string, ParseError>)
    requires currentYY < 100
    ensures |yearPart| != 2 ==> r == Ok(yearPart)
    ensures |yearPart| == 2 && IntOfTwoChars(yearPart).None? ==> r == Err(YearNotNumeric(yearPart))
    ensures |yearPart| == 2 && IntOfTwoChars(yearPart).Some? ==>
      r == Ok((if IntOfTwoChars(yearPart).value > currentYY then "19" else "20") + yearPart)
  {
    if |yearPart| == 2 then
      match IntOfTwoChars(yearPart)
      case None => Err(YearNotNumeric(yearPart))
      case Some(n) => Ok((if n > currentYY then "19" else "20") + yearPart)
    else
      Ok(yearPart)
  }

  /** `parts[start:-1]` */
  function Between(parts: seq<string>, start: nat): (r: seq<string>)
    requires |parts| > 0
    ensures start < |parts| - 1 ==> r == parts[start..|parts| - 1]
    ensures start >= |parts| - 1 ==> r == []
  {
    if start < |parts| - 1 then parts[start..|parts| - 1] else []
  }

  /** The two logo lookups of lines 260 and 263, shared by every branch. */
  function WithLogos(t: Tables, code: string, manufacturer: string, model: string,
                     year: string, variant: string, raceNumber: string): Identity
  {
    Identity(manufacturer, Get(t.manufacturerLogos, code, UNKNOWN_LOGO), model, year,
             variant, Get(t.variantLogos, variant, variant), raceNumber)
  }

  /** `parse_folder_name(folder_name)`; Err is the ValueError of line 249. */
  function Parse(t: Tables, currentYY: nat, folderName: string): Result<Identity, ParseError>
    requires currentYY < 100
  {
    ParseStripped(t, currentYY, StripSlod(folderName))
  }

  /** Lines 220-265, once the marker is gone (line 219). */
  function ParseStripped(t: Tables, currentYY: nat, name: string): Result<Identity, ParseError>
    requires currentYY < 100
  {
    var parts := Split(name, '_');
    var initialCode := if |parts| >= 3 then Lower(parts[0]) else UNKNOWN_CODE;
    if name in t.carOverrides then
      var o := t.carOverrides[name];
      var code := if Lower(o.manufacturer) in t.manufacturerLogos then Lower(o.manufacturer) else initialCode;
      Ok(WithLogos(t, code, o.manufacturer, o.model, o.year, o.variant, o.raceNumber))
    else if |parts| >= 3 then
      var code := Lower(parts[0]);
      var hasRaceNumber := IsDigits(parts[1]);
      var raceNumber := if hasRaceNumber then parts[1] else "";
      var modelIndex := if hasRaceNumber then 2 else 1;
      var model := Title(parts[modelIndex]);
      match ExpandYear(parts[|parts| - 1], currentYY)
      case Err(e) => Err(e)
      case Ok(year) =>
        var variantParts := Between(parts, modelIndex + 1);
        var rawVariant := if variantParts != [] then Title(Join(variantParts, " ")) else "";
        var variant := Get(t.variantMappings, rawVariant, rawVariant);
        Ok(WithLogos(t, code, Get(t.manufacturerCodes, code, UNKNOWN), model, year, variant, raceNumber))
    else
      Ok(WithLogos(t, initialCode, UNKNOWN, UNKNOWN, UNKNOWN, UNKNOWN, UNKNOWN))
  }

  /** The grouping key of line 342: the parse of the normalised name. */
  function Key(t: Tables, currentYY: nat, name: string): Result<Identity, ParseError>
    requires currentYY < 100
  {
    Parse(t, currentYY, Normalize(name))
  }

  // ---------------------------------------------------------------------------
  // What parse_folder_name promises
  // ---------------------------------------------------------------------------

  /** An override entry is taken as it is, whatever the number of segments;
      only the logo depends on the name: through the lower-cased override
      manufacturer when the logo table knows it, and otherwise through the
      first segment (or "unknown" when there are fewer than three). */
  lemma ParseOverride(t: Tables, currentYY: nat, folderName: string)
    requires currentYY < 100
    requires StripSlod(folderName) in t.carOverrides
    ensures var name := StripSlod(folderName);
            var o := t.carOverrides[name];
            var r := Parse(t, currentYY, folderName);
            && r.Ok?
            && r.value.manufacturer == o.manufacturer
            && r.value.model == o.model
            && r.value.year == o.year
            && r.value.variant == o.variant
            && r.value.raceNumber == o.raceNumber
            && r.value.variantLogo == Get(t.variantLogos, o.variant, o.variant)
            && (Lower(o.manufacturer) in t.manufacturerLogos ==>
                  r.value.manufacturerLogo == t.manufacturerLogos[Lower(o.manufacturer)])
            && (Lower(o.manufacturer) !in t.manufacturerLogos && Count(name, '_') < 2 ==>
                  r.value.manufacturerLogo == Get(t.manufacturerLogos, UNKNOWN_CODE, UNKNOWN_LOGO))
            && (Lower(o.manufacturer) !in t.manufacturerLogos && Count(name, '_') >= 2 ==>
                  r.value.manufacturerLogo == Get(t.manufacturerLogos, Lower(Split(name, '_')[0]), UNKNOWN_LOGO))
  {
  }

  /** Without an override, a name with fewer than two underscores (fewer
      than three segments) is all "Unknown", with the logos looked up for
      "unknown" and "Unknown". */
  lemma ParseTooFewSegments(t: Tables, currentYY: nat, folderName: string)
    requires currentYY < 100
    requires StripSlod(folderName) !in t.carOverrides
    requires Count(StripSlod(folderName), '_') < 2
    ensures Parse(t, currentYY, folderName) ==
      Ok(Identity(UNKNOWN, Get(t.manufacturerLogos, UNKNOWN_CODE, UNKNOWN_LOGO), UNKNOWN, UNKNOWN,
                  UNKNOWN, Get(t.variantLogos, UNKNOWN, UNKNOWN), UNKNOWN))
  {
  }

  /** The premise of the positional lemmas: once the marker is stripped,
      the name is the segments `segs` joined with `_`. */
  predicate PositionalName(t: Tables, folderName: string, segs: seq<string>) {
    && |segs| >= 3
    && (forall i :: 0 <= i < |segs| ==> '_' !in segs[i])
    && StripSlod(folderName) == Join(segs, "_")
    && StripSlod(folderName) !in t.carOverrides
  }

  lemma SegmentsOfPositional(t: Tables, folderName: string, segs: seq<string>)
    requires PositionalName(t, folderName, segs)
    ensures Split(StripSlod(folderName), '_') == segs
  {
    SplitJoin(segs, '_');
  }

  /** Parsing fails exactly when the last segment has two characters that
      `int()` rejects. */
  lemma ParseFailsOnlyOnYear(t: Tables, currentYY: nat, folderName: string, segs: seq<string>)
    requires currentYY < 100
    requires PositionalName(t, folderName, segs)
    ensures Parse(t, currentYY, folderName).Err? <==>
      |segs[|segs| - 1]| == 2 && IntOfTwoChars(segs[|segs| - 1]).None?
  {
    SegmentsOfPositional(t, folderName, segs);
  }

  /** Segment 0 is the manufacturer code; an all-digit segment 1 is the race
      number and pushes the model to segment 2; the model is title-cased. */
  lemma ParseManufacturerAndModel(t: Tables, currentYY: nat, folderName: string, segs: seq<string>)
    requires currentYY < 100
    requires PositionalName(t, folderName, segs)
    requires Parse(t, currentYY, folderName).Ok?
    ensures var id := Parse(t, currentYY, folderName).value;
            && id.manufacturer == Get(t.manufacturerCodes, Lower(segs[0]), UNKNOWN)
            && id.manufacturerLogo == Get(t.manufacturerLogos, Lower(segs[0]), UNKNOWN_LOGO)
            && (IsDigits(segs[1]) ==> id.raceNumber == segs[1] && id.model == Title(segs[2]))
            && (!IsDigits(segs[1]) ==> id.raceNumber == "" && id.model == Title(segs[1]))
  {
    SegmentsOfPositional(t, folderName, segs);
  }

  /** The year is the last segment, with a two-character one expanded
      around the pivot `currentYY`. */
  lemma ParseYear(t: Tables, currentYY: nat, folderName: string, segs: seq<string>)
    requires currentYY < 100
    requires PositionalName(t, folderName, segs)
    requires Parse(t, currentYY, folderName).Ok?
    ensures var year := Parse(t, currentYY, folderName).value.year;
            var last := segs[|segs| - 1];
            && (|last| != 2 ==> year == last)
            && (|last| == 2 ==> IntOfTwoChars(last).Some? &&
                                year == (if IntOfTwoChars(last).value > currentYY then "19" else "20") + last)
  {
    SegmentsOfPositional(t, folderName, segs);
  }

  /** The variant is the segments strictly between the model and the year,
      joined with spaces and title-cased ("" when there are none), then
      passed through `variant_mappings`; its logo falls back to its text. */
  lemma ParseVariant(t: Tables, currentYY: nat, folderName: string, segs: seq<string>)
    requires currentYY < 100
    requires PositionalName(t, folderName, segs)
    requires Parse(t, currentYY, folderName).Ok?
    ensures var id := Parse(t, currentYY, folderName).value;
            var modelIndex := if IsDigits(segs[1]) then 2 else 1;
            var raw := if modelIndex + 1 < |segs| - 1
                       then Title(Join(segs[modelIndex + 1..|segs| - 1], " "))
                       else "";
            && id.variant == Get(t.variantMappings, raw, raw)
            && id.variantLogo == Get(t.variantLogos, id.variant, id.variant)
  {
    SegmentsOfPositional(t, folderName, segs);
    var modelIndex := if IsDigits(segs[1]) then 2 else 1;
    assert Between(segs, modelIndex + 1) ==
           if modelIndex + 1 < |segs| - 1 then segs[modelIndex + 1..|segs| - 1] else [];
  }

  /** Directory names that differ only in case get the same key. */
  lemma KeyIgnoresCase(t: Tables, currentYY: nat, a: string, b: string)
    requires currentYY < 100
    requires Lower(a) == Lower(b)
    ensures Key(t, currentYY, a) == Key(t, currentYY, b)
  {
    StripSlodLower(a);
    StripSlodLower(b);
  }

  /** A `slod` marker (in any case, with its `_`) does not change the key;
      since the parser strips once more, neither do two of them. */
  lemma KeyIgnoresMarkers(t: Tables, currentYY: nat, name: string, w1: string, w2: string)
    requires currentYY < 100
    requires !EndsWithSlod(name) && !EndsWithSlodNewline(name)
    requires IsSlod(w1) && IsSlod(w2)
    ensures Key(t, currentYY, name + "_" + w1) == Key(t, currentYY, name)
    ensures Key(t, currentYY, name + "_" + w1 + "_" + w2) == Key(t, currentYY, name)
  {
    MarkersNormalize(name, w1, w2);
    ParseSeesStripped(t, currentYY, Normalize(name + "_" + w1 + "_" + w2), Normalize(name));
  }

  /** The parser only looks at the stripped name. */
  lemma ParseSeesStripped(t: Tables, currentYY: nat, a: string, b: string)
    requires currentYY < 100
    requires StripSlod(a) == StripSlod(b)
    ensures Parse(t, currentYY, a) == Parse(t, currentYY, b)
  {
  }

  lemma MarkersNormalize(name: string, w1: string, w2: string)
    requires !EndsWithSlod(name) && !EndsWithSlodNewline(name)
    requires IsSlod(w1) && IsSlod(w2)
    ensures Normalize(name) == Lower(name)
    ensures Normalize(name + "_" + w1) == Lower(name)
    ensures StripSlod(Normalize(name + "_" + w1 + "_" + w2)) == StripSlod(Lower(name))
  {
    StripSlodRemovesMarker(name, w1);
    StripSlodRemovesMarker(name + "_" + w1, w2);
    LowerOfMarked(name, w1);
  }

  /** Lower-casing `name_w` where `w` is a marker still leaves a marker. */
  lemma LowerOfMarked(name: string, w: string)
    requires !EndsWithSlod(name) && !EndsWithSlodNewline(name)
    requires IsSlod(w)
    ensures StripSlod(Lower(name + "_" + w)) == StripSlod(Lower(name))
  {
    var l := Lower(name);
    LowerAppend(name + "_", w);
    LowerAppend(name, "_");
    assert Lower(name + "_" + w) == l + "_" + Lower(w);
    LowerIdempotent(w);
    StripSlodRemovesMarker(l, Lower(w));
    StripSlodLower(name);
  }

  // ---------------------------------------------------------------------------
  // Worked cases
  // ---------------------------------------------------------------------------

  lemma TitleOfModelCode()
    ensures Title("gt3rs") == "Gt3Rs"
  {
    var s := "gt3rs";
    forall i | 0 <= i < |s|
      ensures Title(s)[i] == "Gt3Rs"[i]
    {
      TitleAt(s, i);
    }
  }

  /** A name whose last character is neither `d`, `D` nor a newline has no marker. */
  lemma NoMarkerAtEnd(s: string)
    requires |s| > 0 && s[|s| - 1] != 'd' && s[|s| - 1] != 'D' && s[|s| - 1] != '\n'
    ensures StripSlod(s) == s
  {
    if |s| >= 4 {
      assert Lower(s[|s| - 4..])[3] == LowerChar(s[|s| - 1]);
    }
  }

  /** The premise of the positional lemmas for a literal name. */
  lemma LiteralPositional(t: Tables, name: string, segs: seq<string>)
    requires |segs| >= 3 && (forall i :: 0 <= i < |segs| ==> '_' !in segs[i])
    requires name == Join(segs, "_") && name !in t.carOverrides
    requires |name| > 0 && name[|name| - 1] != 'd' && name[|name| - 1] != 'D' && name[|name| - 1] != '\n'
    ensures PositionalName(t, name, segs)
  {
    NoMarkerAtEnd(name);
  }

  lemma ThreeSegments(a: string, b: string, c: string)
    ensures Join([a, b, c], "_") == a + "_" + b + "_" + c
  {
    assert [a, b, c][1..] == [b, c];
    assert [b, c][1..] == [c];
    assert Join([b, c], "_") == b + "_" + c;
  }

  /** "ab_12_model_2020": race number 12, model "Model", year 2020, and no
      segment left for the variant, so the variant is the mapping of "". */
  lemma RaceNumberCase(t: Tables, currentYY: nat, name: string)
    requires currentYY < 100
    requires name == "ab_12_model_2020" && name !in t.carOverrides
    ensures var r := Parse(t, currentYY, name);
            && r.Ok? && r.value.raceNumber == "12" && r.value.model == "Model" && r.value.year == "2020"
            && r.value.variant == Get(t.variantMappings, "", "")
            && r.value.variantLogo == Get(t.variantLogos, r.value.variant, r.value.variant)
  {
    var segs := ["ab", "12", "model", "2020"];
    RaceNumberName(name, segs);
    LiteralPositional(t, name, segs);
    RaceNumberCaseParts(t, currentYY, name, segs);
    TitleOfModel();
  }

  lemma RaceNumberName(name: string, segs: seq<string>)
    requires name == "ab_12_model_2020" && segs == ["ab", "12", "model", "2020"]
    ensures name == Join(segs, "_")
  {
    assert segs[1..] == ["12", "model", "2020"];
    ThreeSegments("12", "model", "2020");
  }

  lemma TitleOfModel()
    ensures Title("model") == "Model"
  {
    forall i | 0 <= i < 5
      ensures Title("model")[i] == "Model"[i]
    {
      TitleAt("model", i);
    }
  }

  lemma RaceNumberCaseParts(t: Tables, currentYY: nat, name: string, segs: seq<string>)
    requires currentYY < 100
    requires segs == ["ab", "12", "model", "2020"] && PositionalName(t, name, segs)
    ensures var r := Parse(t, currentYY, name);
            && r.Ok? && r.value.raceNumber == "12" && r.value.model == Title("model") && r.value.year == "2020"
            && r.value.variant == Get(t.variantMappings, "", "")
            && r.value.variantLogo == Get(t.variantLogos, r.value.variant, r.value.variant)
  {
    assert IsDigits(segs[1]);
    ParseFailsOnlyOnYear(t, currentYY, name, segs);
    ParseManufacturerAndModel(t, currentYY, name, segs);
    ParseYear(t, currentYY, name, segs);
    ParseVariant(t, currentYY, name, segs);
  }

  /** In 2024, "25" is read as 1925. */
  lemma YearPivotLateCase(t: Tables, name: string)
    requires name == "ab_model_25" && name !in t.carOverrides
    ensures Parse(t, 24, name).Ok? && Parse(t, 24, name).value.year == "1925"
  {
    ThreeSegments("ab", "model", "25");
    LiteralPositional(t, name, ["ab", "model", "25"]);
    ParseFailsOnlyOnYear(t, 24, name, ["ab", "model", "25"]);
    ParseYear(t, 24, name, ["ab", "model", "25"]);
  }

  /** A folder dated with the current two-digit year belongs to this
      century: the pivot test is a strict "greater than". */
  lemma CurrentYearIsThisCentury(t: Tables, currentYY: nat, folderName: string, segs: seq<string>)
    requires currentYY < 100
    requires PositionalName(t, folderName, segs)
    requires segs[|segs| - 1] == [('0' as int + currentYY / 10) as char, ('0' as int + currentYY % 10) as char]
    ensures Parse(t, currentYY, folderName).Ok?
    ensures Parse(t, currentYY, folderName).value.year == "20" + segs[|segs| - 1]
  {
    var yy := segs[|segs| - 1];
    assert IsDigits(yy);
    assert IntOfTwoChars(yy) == Some(currentYY);
    ParseFailsOnlyOnYear(t, currentYY, folderName, segs);
    ParseYear(t, currentYY, folderName, segs);
  }

  /** A two-letter last segment makes `int()` raise. */
  lemma NonNumericYearCase(t: Tables, currentYY: nat, name: string)
    requires currentYY < 100
    requires name == "ab_model_gt" && name !in t.carOverrides
    ensures Parse(t, currentYY, name) == Err(YearNotNumeric("gt"))
  {
    ThreeSegments("ab", "model", "gt");
    LiteralPositional(t, name, ["ab", "model", "gt"]);
    SegmentsOfPositional(t, name, ["ab", "model", "gt"]);
  }
}

/** The catalog records, the facet selection, the per-record predicate of
    `filterPlants` and the filter itself. */
module Plants {

  import opened Wrappers
  import opened Bands
  import opened Facets

  /** One catalog record. A tag list is `None` when the record has no such
      field or the field is not an array. Heights and spreads are in cm. */
  datatype Plant = Plant(
    botanicalName: string,
    commonName: string,
    plantType: string,
    sunlight: Option<seq<string>>,
    aspect: Option<seq<string>>,
    soilTexture: Option<seq<string>>,
    ph: Option<seq<string>>,
    situation: Option<seq<string>>,
    characteristics: Option<seq<string>>,
    seasonInterest: Option<seq<string>>,
    features: Option<seq<string>>,
    colours: Option<seq<string>>,
    heightMinCm: int,
    heightMaxCm: int,
    spreadMinCm: int,
    spreadMaxCm: int)

  /** The value of each drop-down; `""` is "any". The two bands are `"min-max"` texts. */
  datatype Selection = Selection(
    plantType: string,
    sunlight: string,
    aspect: string,
    soilTexture: string,
    ph: string,
    situation: string,
    characteristics: string,
    season: string,
    feature: string,
    colour: string,
    heightBand: string,
    spreadBand: string)

  /** Every drop-down cleared, as the clear button leaves them. */
  const NoSelection := Selection("", "", "", "", "", "", "", "", "", "", "", "")

  datatype Facet =
    | PlantType | Sunlight | Aspect | SoilTexture | Ph | Situation
    | Characteristics | Season | Feature | Colour | HeightBand | SpreadBand

  /** The value selected for one facet. */
  function Selected(sel: Selection, f: Facet): string {
    match f
    case PlantType => sel.plantType
    case Sunlight => sel.sunlight
    case Aspect => sel.aspect
    case SoilTexture => sel.soilTexture
    case Ph => sel.ph
    case Situation => sel.situation
    case Characteristics => sel.characteristics
    case Season => sel.season
    case Feature => sel.feature
    case Colour => sel.colour
    case HeightBand => sel.heightBand
    case SpreadBand => sel.spreadBand
  }

  /** The selection with one facet set to `v` and the others unchanged. */
  function WithSelected(sel: Selection, f: Facet, v: string): (sel': Selection)
    ensures Selected(sel', f) == v
    ensures forall g :: g != f ==> Selected(sel', g) == Selected(sel, g)
  {
    match f
    case PlantType => sel.(plantType := v)
    case Sunlight => sel.(sunlight := v)
    case Aspect => sel.(aspect := v)
    case SoilTexture => sel.(soilTexture := v)
    case Ph => sel.(ph := v)
    case Situation => sel.(situation := v)
    case Characteristics => sel.(characteristics := v)
    case Season => sel.(season := v)
    case Feature => sel.(feature := v)
    case Colour => sel.(colour := v)
    case HeightBand => sel.(heightBand := v)
    case SpreadBand => sel.(spreadBand := v)
  }

  /** Does the record's own closed range [lo, hi] meet the selected band? */
  predicate BandMatches(lo: int, hi: int, band: string) {
    var b := ParseBand(band);
    Overlaps(Finite(lo), Finite(hi), b.0, b.1)
  }

  /** The per-facet reading of a selected value `v`, one facet at a time:
      exact equality for the plant type, membership for the nine tag lists,
      overlap for the two bands. */
  function Satisfies(p: Plant, f: Facet, v: string): (b: bool)
    ensures v == "" ==> b
  {
    match f
    case PlantType => MatchesStringField(p.plantType, v)
    case Sunlight => MatchesArrayField(p.sunlight, v)
    case Aspect => MatchesArrayField(p.aspect, v)
    case SoilTexture => MatchesArrayField(p.soilTexture, v)
    case Ph => MatchesArrayField(p.ph, v)
    case Situation => MatchesArrayField(p.situation, v)
    case Characteristics => MatchesArrayField(p.characteristics, v)
    case Season => MatchesArrayField(p.seasonInterest, v)
    case Feature => MatchesArrayField(p.features, v)
    case Colour => MatchesArrayField(p.colours, v)
    case HeightBand => v == "" || BandMatches(p.heightMinCm, p.heightMaxCm, v)
    case SpreadBand => v == "" || BandMatches(p.spreadMinCm, p.spreadMaxCm, v)
  }

  predicate SatisfiesAll(sel: Selection, p: Plant) {
    forall f :: Satisfies(p, f, Selected(sel, f))
  }

  /** The predicate passed to `PLANTS.filter`, check by check in the order
      the source makes them; the first failing check rejects the record. */
  predicate Matches(sel: Selection, p: Plant) {
    if sel.plantType != "" && p.plantType != sel.plantType then false
    else if !MatchesArrayField(p.sunlight, sel.sunlight) then false
    else if !MatchesArrayField(p.aspect, sel.aspect) then false
    else if !MatchesArrayField(p.soilTexture, sel.soilTexture) then false
    else if !MatchesArrayField(p.ph, sel.ph) then false
    else if !MatchesArrayField(p.situation, sel.situation) then false
    else if !MatchesArrayField(p.characteristics, sel.characteristics) then false
    else if !MatchesArrayField(p.seasonInterest, sel.season) then false
    else if !MatchesArrayField(p.features, sel.feature) then false
    else if !MatchesArrayField(p.colours, sel.colour) then false
    else if sel.heightBand != "" && !BandMatches(p.heightMinCm, p.heightMaxCm, sel.heightBand) then false
    else if sel.spreadBand != "" && !BandMatches(p.spreadMinCm, p.spreadMaxCm, sel.spreadBand) then false
    else true
  }

  /** A record passes the filter exactly when every facet's selection holds of it. */
  lemma MatchesIffAllFacets(sel: Selection, p: Plant)
    ensures Matches(sel, p) <==> SatisfiesAll(sel, p)
  {
    if Matches(sel, p) {
      forall f ensures Satisfies(p, f, Selected(sel, f)) {
        match f
        case PlantType =>
        case Sunlight =>
        case Aspect =>
        case SoilTexture =>
        case Ph =>
        case Situation =>
        case Characteristics =>
        case Season =>
        case Feature =>
        case Colour =>
        case HeightBand =>
        case SpreadBand =>
      }
    }
    if SatisfiesAll(sel, p) {
      assert Satisfies(p, PlantType, Selected(sel, PlantType));
      assert Satisfies(p, Sunlight, Selected(sel, Sunlight));
      assert Satisfies(p, Aspect, Selected(sel, Aspect));
      assert Satisfies(p, SoilTexture, Selected(sel, SoilTexture));
      assert Satisfies(p, Ph, Selected(sel, Ph));
      assert Satisfies(p, Situation, Selected(sel, Situation));
      assert Satisfies(p, Characteristics, Selected(sel, Characteristics));
      assert Satisfies(p, Season, Selected(sel, Season));
      assert Satisfies(p, Feature, Selected(sel, Feature));
      assert Satisfies(p, Colour, Selected(sel, Colour));
      assert Satisfies(p, HeightBand, Selected(sel, HeightBand));
      assert Satisfies(p, SpreadBand, Selected(sel, SpreadBand));
    }
  }

  /** The plant-type check written inline in the filter is `matchesStringField`. */
  lemma PlantTypeCheckIsStringMatch(sel: Selection, p: Plant)
    ensures !(sel.plantType != "" && p.plantType != sel.plantType)
            <==> MatchesStringField(p.plantType, sel.plantType)
  {
  }

  /** With nothing selected, every record passes. */
  lemma MatchesNoSelection(p: Plant)
    ensures Matches(NoSelection, p)
  {
  }

  /** `PLANTS.filter(...)`: the records that pass, in catalog order. */
  function FilterPlants(catalog: seq<Plant>, sel: Selection): (r: seq<Plant>)
    ensures |r| <= |catalog|
    ensures forall p :: p in r <==> p in catalog && Matches(sel, p)
    ensures forall p :: multiset(r)[p] == if Matches(sel, p) then multiset(catalog)[p] else 0
    decreases |catalog|
  {
    if catalog == [] then []
    else
      var rest := FilterPlants(catalog[1..], sel);
      assert catalog == [catalog[0]] + catalog[1..];
      if Matches(sel, catalog[0]) then [catalog[0]] + rest else rest
  }

  /** `xs` is `ys` with some elements left out and the rest in their order. */
  predicate IsSubsequence<T(==)>(xs: seq<T>, ys: seq<T>)
    decreases |ys|
  {
    if ys == [] then xs == []
    else (xs != [] && xs[0] == ys[0] && IsSubsequence(xs[1..], ys[1..]))
         || IsSubsequence(xs, ys[1..])
  }

  /** The filter keeps catalog order and adds nothing. */
  lemma {:induction false} FilterIsSubsequence(catalog: seq<Plant>, sel: Selection)
    ensures IsSubsequence(FilterPlants(catalog, sel), catalog)
    decreases |catalog|
  {
    if catalog != [] {
      FilterIsSubsequence(catalog[1..], sel);
      var r := FilterPlants(catalog, sel);
      if Matches(sel, catalog[0]) {
        assert r[1..] == FilterPlants(catalog[1..], sel);
      }
    }
  }

  /** With nothing selected the filter returns the whole catalog unchanged. */
  lemma {:induction false} FilterNoSelection(catalog: seq<Plant>)
    ensures FilterPlants(catalog, NoSelection) == catalog
    decreases |catalog|
  {
    if catalog != [] {
      FilterNoSelection(catalog[1..]);
      MatchesNoSelection(catalog[0]);
      assert catalog == [catalog[0]] + catalog[1..];
    }
  }

  /** `narrow` keeps every facet `wide` selects and may select more. */
  predicate Narrows(narrow: Selection, wide: Selection) {
    forall f :: Selected(wide, f) == "" || Selected(narrow, f) == Selected(wide, f)
  }

  lemma NarrowerMatchesFewer(narrow: Selection, wide: Selection, p: Plant)
    requires Narrows(narrow, wide)
    ensures Matches(narrow, p) ==> Matches(wide, p)
  {
    MatchesIffAllFacets(narrow, p);
    MatchesIffAllFacets(wide, p);
    if Matches(narrow, p) {
      forall f ensures Satisfies(p, f, Selected(wide, f)) {
        assert Satisfies(p, f, Selected(narrow, f));
      }
    }
  }

  /** Monotonicity: a narrower selection yields a subsequence of the wider one's result. */
  lemma {:induction false} FilterMonotone(catalog: seq<Plant>, narrow: Selection, wide: Selection)
    requires Narrows(narrow, wide)
    ensures IsSubsequence(FilterPlants(catalog, narrow), FilterPlants(catalog, wide))
    decreases |catalog|
  {
    if catalog != [] {
      FilterMonotone(catalog[1..], narrow, wide);
      NarrowerMatchesFewer(narrow, wide, catalog[0]);
      var rn := FilterPlants(catalog, narrow);
      var rw := FilterPlants(catalog, wide);
      if Matches(narrow, catalog[0]) {
        assert rn[1..] == FilterPlants(catalog[1..], narrow);
        assert rw[1..] == FilterPlants(catalog[1..], wide);
      } else if Matches(wide, catalog[0]) {
        assert rw[1..] == FilterPlants(catalog[1..], wide);
      }
    }
  }

  /** Choosing a value for a facet that was "any" never enlarges the result. */
  lemma FilterSelectMore(catalog: seq<Plant>, sel: Selection, f: Facet, v: string)
    requires Selected(sel, f) == ""
    ensures IsSubsequence(FilterPlants(catalog, WithSelected(sel, f, v)), FilterPlants(catalog, sel))
  {
    var narrow := WithSelected(sel, f, v);
    assert Narrows(narrow, sel) by {
      forall g ensures Selected(sel, g) == "" || Selected(narrow, g) == Selected(sel, g) {
        if g != f {
        }
      }
    }
    FilterMonotone(catalog, narrow, sel);
  }

  /** Selecting one facet alone admits exactly the records that facet's reading admits. */
  lemma MatchesSingleFacet(p: Plant, f: Facet, v: string)
    ensures Matches(WithSelected(NoSelection, f, v), p) <==> Satisfies(p, f, v)
  {
    var sel := WithSelected(NoSelection, f, v);
    MatchesIffAllFacets(sel, p);
    if Satisfies(p, f, v) {
      forall g ensures Satisfies(p, g, Selected(sel, g)) {
        if g != f {
          assert Selected(sel, g) == Selected(NoSelection, g) == "";
        }
      }
    }
  }

  /** A type and a height band: a shrub is kept exactly when its height range
      meets 30-60 cm (so 20-50 cm is kept and 70-90 cm is not). */
  lemma ShrubHeightBandExample(p: Plant)
    ensures Matches(NoSelection.(plantType := "shrub", heightBand := "30-60"), p)
            <==> p.plantType == "shrub" && p.heightMinCm <= 60 && 30 <= p.heightMaxCm
  {
    assert "30-60" == "30" + "-" + "60";
    ParseBandDigits("30", "60");
    assert DigitsValue("30") == 30 by {
      assert "30"[..1] == "3";
    }
    assert DigitsValue("60") == 60 by {
      assert "60"[..1] == "6";
    }
  }

  /** A sunlight selection drops every record whose sunlight list lacks it or is absent. */
  lemma FullSunExample(p: Plant)
    ensures Matches(NoSelection.(sunlight := "full_sun"), p)
            <==> p.sunlight.Some? && "full_sun" in p.sunlight.value
  {
  }
}

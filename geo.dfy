/**
  `GeoHelper` (script.php): resolves a free-text address fragment to a city
  and/or a region and derives the postal code, federal district and the
  "with type" labels from the match.
*/
module Geo {
  import opened Wrappers
  import opened Text
  import opened Dictionary
  import opened Matcher

  datatype Region = Region(
    id: int,
    name: string,
    synonyms: seq<string>,
    postalCode: Option<string>,
    federalDistrict: Option<string>,
    regionWithType: Option<string>)

  /** A city as `City::with('region')->find` returns it: with its owning region
      attached, or none when the relation is null. */
  datatype City = City(
    id: int,
    name: string,
    synonyms: seq<string>,
    postalCode: Option<string>,
    cityWithType: Option<string>,
    region: Option<Region>)

  /** The reference data: the records in the order the store lists them, and
      the lookups by id. */
  datatype Store = Store(
    cities: seq<City>,
    regions: seq<Region>,
    cityById: int -> City,
    regionById: int -> Region)

  /** The public result fields of a `GeoHelper`. */
  datatype Resolution = Resolution(
    found: bool,
    city: Option<City>,
    region: Option<Region>,
    postalCode: Option<string>,
    federalDistrict: Option<string>,
    regionWithType: Option<string>,
    cityWithType: Option<string>)

  datatype ParseError = EmptySearch

  datatype Result<T> = Ok(value: T) | Err(error: ParseError)

  /** PHP's `empty()` on a string: the empty string and "0". */
  predicate IsEmptyText(s: string) {
    s == "" || s == "0"
  }

  function CityEntry(c: City): Entry {
    Entry(c.id, c.name, c.synonyms)
  }

  function RegionEntry(r: Region): Entry {
    Entry(r.id, r.name, r.synonyms)
  }

  function CityEntries(cs: seq<City>): seq<Entry> {
    seq(|cs|, i requires 0 <= i < |cs| => CityEntry(cs[i]))
  }

  function RegionEntries(rs: seq<Region>): seq<Entry> {
    seq(|rs|, i requires 0 <= i < |rs| => RegionEntry(rs[i]))
  }

  lemma CityEntriesPrefix(cs: seq<City>, i: nat)
    requires i < |cs|
    ensures CityEntries(cs[..i + 1]) == CityEntries(cs[..i]) + [CityEntry(cs[i])]
  {
  }

  lemma RegionEntriesPrefix(rs: seq<Region>, i: nat)
    requires i < |rs|
    ensures RegionEntries(rs[..i + 1]) == RegionEntries(rs[..i]) + [RegionEntry(rs[i])]
  {
  }

  /** The result fields as `reset` leaves them. */
  function Cleared(): Resolution {
    Resolution(false, None, None, None, None, None, None)
  }

  /** `setProperty`: fills the four derived fields from the matched city and
      region, and touches nothing else. */
  function Derive(f: Resolution): (r: Resolution)
    ensures r.found == f.found && r.city == f.city && r.region == f.region
    ensures !f.found || f.region.None? ==> r == f
  {
    if !f.found then f
    else if f.region.Some? && f.city.Some? then
      f.(postalCode := f.city.value.postalCode,
         federalDistrict := f.region.value.federalDistrict,
         regionWithType := f.region.value.regionWithType,
         cityWithType := f.city.value.cityWithType)
    else if f.region.Some? then
      f.(postalCode := f.region.value.postalCode,
         federalDistrict := f.region.value.federalDistrict,
         regionWithType := f.region.value.regionWithType,
         cityWithType := None)
    else f
  }

  /** `tryFindGeo` from the result fields `f`, on the lower-cased search text:
      a city hit sets the city and, when no region is set yet, the city's own
      region; only without a city hit (and without an earlier `found`) are the
      region keys scanned. */
  function FindGeo(lower: char -> char, f: Resolution, text: string, ct: Table, rt: Table, store: Store): (r: Resolution)
    ensures var ch, rh := FirstHit(lower, text, ct), FirstHit(lower, text, rt);
      r.found <==> f.found || ch.Some? || rh.Some?
    ensures var ch := FirstHit(lower, text, ct);
      ch.Some? ==>
        && r.city == Some(store.cityById(ct[ch.value].1))
        && r.region == if f.region.None? then r.city.value.region else f.region
    ensures var ch, rh := FirstHit(lower, text, ct), FirstHit(lower, text, rt);
      ch.None? ==>
        && r.city == f.city
        && r.region == if !f.found && rh.Some? then Some(store.regionById(rt[rh.value].1)) else f.region
    ensures Derive(r) == r
    ensures !r.found || r.region.None? ==>
      && r.postalCode == f.postalCode && r.federalDistrict == f.federalDistrict
      && r.regionWithType == f.regionWithType && r.cityWithType == f.cityWithType
  {
    match FirstHit(lower, text, ct)
    case Some(i) =>
      var c := store.cityById(ct[i].1);
      Derive(f.(found := true, city := Some(c), region := if f.region.None? then c.region else f.region))
    case None =>
      if f.found then Derive(f)
      else match FirstHit(lower, text, rt)
        case Some(j) => Derive(f.(found := true, region := Some(store.regionById(rt[j].1))))
        case None => Derive(f)
  }

  /** The lower-cased normalised search text the keys are matched against. */
  function SearchText(cc: CharClasses, s: string): string
    requires cc.Valid()
  {
    Lower(cc.lower, Normalize(cc, s))
  }

  /** What one successful `parse` of `s` computes over the tables `ct` and `rt`. */
  function Resolve(cc: CharClasses, s: string, ct: Table, rt: Table, store: Store): (r: Resolution)
    requires cc.Valid()
    ensures var ch, rh := FirstHit(cc.lower, SearchText(cc, s), ct), FirstHit(cc.lower, SearchText(cc, s), rt);
      r.found <==> ch.Some? || rh.Some?
    ensures !r.found ==> r == Cleared()
    ensures var ch := FirstHit(cc.lower, SearchText(cc, s), ct);
      ch.Some? ==> r.city == Some(store.cityById(ct[ch.value].1)) && r.region == r.city.value.region
    ensures var ch, rh := FirstHit(cc.lower, SearchText(cc, s), ct), FirstHit(cc.lower, SearchText(cc, s), rt);
      ch.None? ==> r.city == None && r.region == if rh.Some? then Some(store.regionById(rt[rh.value].1)) else None
    ensures r.city.Some? && r.region.Some? ==>
      && r.postalCode == r.city.value.postalCode
      && r.federalDistrict == r.region.value.federalDistrict
      && r.regionWithType == r.region.value.regionWithType
      && r.cityWithType == r.city.value.cityWithType
    ensures r.city.None? && r.region.Some? ==>
      && r.postalCode == r.region.value.postalCode
      && r.federalDistrict == r.region.value.federalDistrict
      && r.regionWithType == r.region.value.regionWithType
      && r.cityWithType == None
    ensures r.region.None? ==>
      r.postalCode == None && r.federalDistrict == None && r.regionWithType == None && r.cityWithType == None
  {
    FindGeo(cc.lower, Cleared(), SearchText(cc, s), ct, rt, store)
  }

  /** On a city hit the region table plays no part in the result. */
  lemma CityHitIgnoresRegions(cc: CharClasses, s: string, ct: Table, rt1: Table, rt2: Table, store: Store)
    requires cc.Valid()
    requires FirstHit(cc.lower, SearchText(cc, s), ct).Some?
    ensures Resolve(cc, s, ct, rt1, store) == Resolve(cc, s, ct, rt2, store)
  {
  }

  /** The search text is normalised before matching, so parsing text that is
      already normalised gives the same result as parsing the raw text. */
  lemma ResolveOfNormalized(cc: CharClasses, s: string, ct: Table, rt: Table, store: Store)
    requires cc.Valid()
    ensures Resolve(cc, Normalize(cc, s), ct, rt, store) == Resolve(cc, s, ct, rt, store)
  {
    NormalizeIdempotent(cc, s);
  }

  class GeoHelper {
    const classes: CharClasses
    var found: bool
    var postalCode: Option<string>
    var federalDistrict: Option<string>
    var regionWithType: Option<string>
    var cityWithType: Option<string>
    var region: Option<Region>
    var city: Option<City>
    var search: string
    var cities: Table
    var regions: Table

    ghost predicate Valid()
      reads this
    {
      classes.Valid() && UniqueKeys(cities) && UniqueKeys(regions)
    }

    function Snapshot(): Resolution
      reads this
    {
      Resolution(found, city, region, postalCode, federalDistrict, regionWithType, cityWithType)
    }

    /** `new GeoHelper()` without a text: nothing found, nothing loaded. */
    constructor (classes: CharClasses)
      requires classes.Valid()
      ensures Valid() && this.classes == classes
      ensures Snapshot() == Cleared() && search == "" && cities == [] && regions == []
    {
      this.classes := classes;
      found := false;
      postalCode, federalDistrict, regionWithType, cityWithType := None, None, None, None;
      region, city := None, None;
      search := "";
      cities, regions := [], [];
    }

    /** `new GeoHelper($text)`: the null text leaves a fresh helper; any other
        text is parsed, and an empty one fails construction. */
    static method Create(classes: CharClasses, text: Option<string>, store: Store) returns (r: Result<GeoHelper>)
      requires classes.Valid()
      ensures r.Err? <==> text.Some? && IsEmptyText(text.value)
      ensures r.Ok? ==> fresh(r.value) && r.value.Valid() && r.value.classes == classes
      ensures r.Ok? && text.None? ==>
        r.value.Snapshot() == Cleared() && r.value.cities == [] && r.value.regions == []
      ensures r.Ok? && text.Some? ==>
        && r.value.search == text.value
        && r.value.cities == Build(CityEntries(store.cities))
        && r.value.regions == Build(RegionEntries(store.regions))
        && r.value.Snapshot() == Resolve(classes, text.value, r.value.cities, r.value.regions, store)
    {
      var g := new GeoHelper(classes);
      if text.Some? {
        var p := g.Parse(text.value, store);
        if p.Err? {
          return Err(p.error);
        }
      }
      r := Ok(g);
    }

    method IsFound() returns (b: bool)
      ensures b == found
    {
      b := found;
    }

    /** `parse`: validates the text, clears the result, loads the tables if
        they are still empty, matches, and answers `found`. A rejected text
        changes nothing. */
    method Parse(s: string, store: Store) returns (r: Result<bool>)
      requires Valid()
      modifies this
      ensures Valid()
      ensures r.Err? <==> IsEmptyText(s)
      ensures r.Err? ==> r.error == EmptySearch && unchanged(this)
      ensures r.Ok? ==> search == s && r.value == found
      ensures r.Ok? ==>
        && cities == LoadOnce(old(cities), CityEntries(store.cities))
        && regions == LoadOnce(old(regions), RegionEntries(store.regions))
      ensures r.Ok? ==> Snapshot() == Resolve(classes, s, cities, regions, store)
    {
      var ok := SetSearch(s);
      if !ok {
        return Err(EmptySearch);
      }
      Reset();
      LoadData(store);
      TryFindGeo(store);
      r := Ok(found);
    }

    /** `setSearch`: an empty text is rejected and leaves the search as it was. */
    method SetSearch(s: string) returns (ok: bool)
      modifies this`search
      ensures ok <==> !IsEmptyText(s)
      ensures search == if ok then s else old(search)
    {
      if IsEmptyText(s) {
        return false;
      }
      search := s;
      ok := true;
    }

    /** `loadCities`: while the city table is empty, assigns every city's name
        and then its synonyms, city after city. */
    method LoadCities(store: Store)
      requires Valid()
      modifies this`cities
      ensures Valid()
      ensures cities == LoadOnce(old(cities), CityEntries(store.cities))
    {
      if cities != [] {
        return;
      }
      var cs := store.cities;
      var t: Table := [];
      var i := 0;
      while i < |cs|
        invariant 0 <= i <= |cs|
        invariant t == Build(CityEntries(cs[..i]))
      {
        var c := cs[i];
        ghost var done := Pairs(CityEntries(cs[..i]));
        NameStep(done, CityEntry(c));
        t := Assign(t, c.name, c.id);
        if c.synonyms != [] {
          var j := 0;
          while j < |c.synonyms|
            invariant 0 <= j <= |c.synonyms|
            invariant t == AssignAll([], done + EntryPairs(CityEntry(c))[..j + 1])
          {
            SynonymStep(done, CityEntry(c), j);
            t := Assign(t, c.synonyms[j], c.id);
            j := j + 1;
          }
        }
        EntryStep(CityEntries(cs[..i]), CityEntry(c));
        CityEntriesPrefix(cs, i);
        i := i + 1;
      }
      assert cs[..i] == cs;
      cities := t;
    }

    /** `loadRegions`: while the region table is empty, assigns every region's
        name and then its synonyms, region after region. */
    method LoadRegions(store: Store)
      requires Valid()
      modifies this`regions
      ensures Valid()
      ensures regions == LoadOnce(old(regions), RegionEntries(store.regions))
    {
      if regions != [] {
        return;
      }
      var rs := store.regions;
      var t: Table := [];
      var i := 0;
      while i < |rs|
        invariant 0 <= i <= |rs|
        invariant t == Build(RegionEntries(rs[..i]))
      {
        var g := rs[i];
        ghost var done := Pairs(RegionEntries(rs[..i]));
        NameStep(done, RegionEntry(g));
        t := Assign(t, g.name, g.id);
        if g.synonyms != [] {
          var j := 0;
          while j < |g.synonyms|
            invariant 0 <= j <= |g.synonyms|
            invariant t == AssignAll([], done + EntryPairs(RegionEntry(g))[..j + 1])
          {
            SynonymStep(done, RegionEntry(g), j);
            t := Assign(t, g.synonyms[j], g.id);
            j := j + 1;
          }
        }
        EntryStep(RegionEntries(rs[..i]), RegionEntry(g));
        RegionEntriesPrefix(rs, i);
        i := i + 1;
      }
      assert rs[..i] == rs;
      regions := t;
    }

    method LoadData(store: Store)
      requires Valid()
      modifies this`cities, this`regions
      ensures Valid()
      ensures cities == LoadOnce(old(cities), CityEntries(store.cities))
      ensures regions == LoadOnce(old(regions), RegionEntries(store.regions))
    {
      LoadCities(store);
      LoadRegions(store);
    }

    /** `getSearch`: the normalised search text. */
    function GetSearch(): (r: string)
      reads this`search
      requires classes.Valid()
      ensures Normalized(classes, r)
    {
      Normalize(classes, search)
    }

    /** `tryFindGeo`: lower-cases the normalised search text and matches the
        keys against it. */
    method TryFindGeo(store: Store)
      requires Valid()
      modifies this`found, this`city, this`region, this`postalCode, this`federalDistrict, this`regionWithType, this`cityWithType
      ensures Snapshot() == FindGeo(classes.lower, old(Snapshot()), SearchText(classes, search), cities, regions, store)
    {
      var text := Lower(classes.lower, GetSearch());
      MatchKeys(text, store);
    }

    /** The two scans of `tryFindGeo` over the lower-cased `text`: the city
        keys in table order, stopping at the first one contained in `text`;
        then, unless a city was found, the region keys the same way; then the
        derived fields. */
    method MatchKeys(text: string, store: Store)
      requires Valid()
      modifies this`found, this`city, this`region, this`postalCode, this`federalDistrict, this`regionWithType, this`cityWithType
      ensures Snapshot() == FindGeo(classes.lower, old(Snapshot()), text, cities, regions, store)
    {
      var i := 0;
      while i < |cities|
        invariant 0 <= i <= |cities|
        invariant forall j :: 0 <= j < i ==> !Hits(classes.lower, text, cities[j].0)
        invariant Snapshot() == old(Snapshot())
      {
        if Contains(text, Lower(classes.lower, cities[i].0)) {
          city := Some(store.cityById(cities[i].1));
          if region.None? {
            region := city.value.region;
          }
          found := true;
          assert FirstHit(classes.lower, text, cities) == Some(i);
          break;
        }
        i := i + 1;
      }
      if found {
        SetProperty();
        return;
      }
      var j := 0;
      while j < |regions|
        invariant 0 <= j <= |regions|
        invariant forall k :: 0 <= k < j ==> !Hits(classes.lower, text, regions[k].0)
        invariant Snapshot() == old(Snapshot())
      {
        if Contains(text, Lower(classes.lower, regions[j].0)) {
          found := true;
          region := Some(store.regionById(regions[j].1));
          assert FirstHit(classes.lower, text, regions) == Some(j);
          break;
        }
        j := j + 1;
      }
      SetProperty();
    }

    /** `reset`: clears every result field. */
    method Reset()
      modifies this`found, this`city, this`region, this`postalCode, this`federalDistrict, this`regionWithType, this`cityWithType
      ensures Snapshot() == Cleared()
    {
      found := false;
      city := None;
      region := None;
      postalCode := None;
      federalDistrict := None;
      regionWithType := None;
      cityWithType := None;
    }

    /** `setProperty`: derives the four fields from the match. */
    method SetProperty()
      modifies this`postalCode, this`federalDistrict, this`regionWithType, this`cityWithType
      ensures Snapshot() == Derive(old(Snapshot()))
    {
      if !found {
        return;
      }
      if region.Some? && city.Some? {
        postalCode := city.value.postalCode;
        federalDistrict := region.value.federalDistrict;
        regionWithType := region.value.regionWithType;
        cityWithType := city.value.cityWithType;
      } else if region.Some? {
        postalCode := region.value.postalCode;
        federalDistrict := region.value.federalDistrict;
        regionWithType := region.value.regionWithType;
        cityWithType := None;
      }
    }
  }
}

/**
 * `make_crc_for_main_alt_names`: every main city AltName, in primary-key
 * order, gets its city's country and region ids, a "City, Region, Country"
 * text (crc, at most 200 characters) and a "country/region/city" path (url,
 * at most 100 characters) built from the main names of its region and country
 * in its own language. A lookup that finds no row or several ends the run;
 * rows saved before it stay saved.
 */
module CrcPass {
  import opened Optional
  import opened Text
  import opened Records
  import opened Queries

  /** The rows the pass visits: `filter(type=3, is_main=True)`. */
  predicate IsCityMain(a: AltName) {
    a.geoType == CityType && a.isMain
  }

  function CityWithId(id: int): City -> bool {
    (c: City) => c.id == id
  }

  /** `AltName.objects.get(type=t, geoname_id=id, is_main=True, language=lg)`. */
  function MainNameOf(t: GeoType, id: int, lg: string): AltName -> bool {
    (a: AltName) => a.geoType == t && a.geonameId == id && a.isMain && a.language == lg
  }

  /** '{0}, {1}, {2}'.format(city, region, country). */
  function Composite(city: string, region: string, country: string): string {
    city + ", " + region + ", " + country
  }

  /** '{0}/{1}/{2}'.format of the three slugs, country first. */
  function UrlPath(country: string, region: string, city: string): string {
    Join([Slugify(country), Slugify(region), Slugify(city)], '/')
  }

  datatype Step = Done(row: AltName) | Failed(fault: Fault)

  /** The row as saved: its city's ids, and crc and url cut down to their columns' lengths. */
  function Filled(obj: AltName, city: City, regionName: string, countryName: string): (row: AltName)
    ensures row == obj.(countryId := row.countryId, regionId := row.regionId, crc := row.crc, url := row.url)
    ensures |row.crc| <= 200 && |row.url| <= 100
    ensures row.countryId == Some(city.countryId) && row.regionId == Some(city.regionId)
  {
    obj.(countryId := Some(city.countryId), regionId := Some(city.regionId),
         crc := PySlice(Composite(obj.name, regionName, countryName), 200),
         url := PySlice(UrlPath(countryName, regionName, obj.name), 100))
  }

  /**
   * One iteration of the pass for row obj, looking up in table s. Only the
   * country, region, crc and url of the row change, and the texts fit their
   * columns.
   */
  function CrcRow(s: seq<AltName>, cities: seq<City>, obj: AltName): (r: Step)
    ensures r.Done? ==> r.row == obj.(countryId := r.row.countryId, regionId := r.row.regionId,
                                      crc := r.row.crc, url := r.row.url)
    ensures r.Done? ==> |r.row.crc| <= 200 && |r.row.url| <= 100
    ensures r.Done? ==> r.row.countryId.Some? && r.row.regionId.Some?
  {
    match GetOne(cities, CityWithId(obj.geonameId))
    case Missing => Failed(DoesNotExist(obj.geonameId))
    case Ambiguous => Failed(MultipleObjectsReturned(obj.geonameId))
    case Found(city) =>
      match GetOne(s, MainNameOf(CountryType, city.countryId, obj.language))
      case Missing => Failed(DoesNotExist(city.countryId))
      case Ambiguous => Failed(MultipleObjectsReturned(city.countryId))
      case Found(country) =>
        match GetOne(s, MainNameOf(RegionType, city.regionId, obj.language))
        case Missing => Failed(DoesNotExist(city.regionId))
        case Ambiguous => Failed(MultipleObjectsReturned(city.regionId))
        case Found(region) =>
          Done(Filled(obj, city, region.name, country.name))
  }

  lemma SplitThree(x: string, y: string, z: string)
    requires '/' !in x && '/' !in y && '/' !in z
    ensures Split(Join([x, y, z], '/'), '/') == [x, y, z]
  {
    var parts := [x, y, z];
    assert parts[0] == x && parts[1] == y && parts[2] == z;
    SplitJoin(parts, '/');
  }

  /** An untruncated url splits at '/' into exactly the country, region and city slugs. */
  lemma UrlSegments(country: string, region: string, city: string)
    ensures Split(UrlPath(country, region, city), '/') == [Slugify(country), Slugify(region), Slugify(city)]
  {
    SlugHasNoSlash(country);
    SlugHasNoSlash(region);
    SlugHasNoSlash(city);
    SplitThree(Slugify(country), Slugify(region), Slugify(city));
  }

  /** The crc, cut down to 200 characters, still begins with the city's name (cut down alike). */
  lemma CrcBeginsWithName(city: string, region: string, country: string)
    ensures IsPrefix(PySlice(city, 200), PySlice(Composite(city, region, country), 200))
  {
    var full := Composite(city, region, country);
    assert full == city + (", " + region + ", " + country);
    assert full[..|city|] == city;
    if |city| > 200 {
      assert full[..200] == city[..200];
    }
  }

  /**
   * When the row is saved, its ids are its city's, both lookups found the
   * main name of the right type in the row's language, its crc is the
   * "City, Region, Country" text of its own name and those two names and its
   * url their "country/region/city" slug path, each cut down to its column;
   * so its crc begins with
   * its own name, and a url that was not cut down to 100 characters splits
   * into the slugs of the country's and the region's main names and of its
   * own name.
   */
  lemma CrcRowMeaning(s: seq<AltName>, cities: seq<City>, obj: AltName)
    requires CrcRow(s, cities, obj).Done?
    ensures GetOne(cities, CityWithId(obj.geonameId)).Found?
    ensures var city := GetOne(cities, CityWithId(obj.geonameId)).value;
      var country := GetOne(s, MainNameOf(CountryType, city.countryId, obj.language));
      var region := GetOne(s, MainNameOf(RegionType, city.regionId, obj.language));
      var row := CrcRow(s, cities, obj).row;
      city.id == obj.geonameId
      && row.countryId == Some(city.countryId) && row.regionId == Some(city.regionId)
      && country.Found? && region.Found?
      && country.value.geoType == CountryType && country.value.language == obj.language
      && region.value.geoType == RegionType && region.value.language == obj.language
      && row.crc == PySlice(Composite(obj.name, region.value.name, country.value.name), 200)
      && row.url == PySlice(UrlPath(country.value.name, region.value.name, obj.name), 100)
      && IsPrefix(PySlice(obj.name, 200), row.crc)
      && (|UrlPath(country.value.name, region.value.name, obj.name)| <= 100 ==>
            Split(row.url, '/') == [Slugify(country.value.name), Slugify(region.value.name), Slugify(obj.name)])
  {
    var city := GetOne(cities, CityWithId(obj.geonameId)).value;
    var country := GetOne(s, MainNameOf(CountryType, city.countryId, obj.language)).value;
    var region := GetOne(s, MainNameOf(RegionType, city.regionId, obj.language)).value;
    var row := CrcRow(s, cities, obj).row;
    assert row == Filled(obj, city, region.name, country.name);
    CrcRowName(obj, city, region.name, country.name);
    assert row.url == PySlice(UrlPath(country.name, region.name, obj.name), 100);
    if |UrlPath(country.name, region.name, obj.name)| <= 100 {
      UrlFits(country.name, region.name, obj.name);
    }
  }

  /**
   * row's crc and url are built from country and region, the main names, in
   * row's own language, of the country and the region row belongs to.
   */
  predicate BuiltFrom(row: AltName, country: AltName, region: AltName) {
    && row.countryId.Some? && row.regionId.Some?
    && MainNameOf(CountryType, row.countryId.value, row.language)(country)
    && MainNameOf(RegionType, row.regionId.value, row.language)(region)
    && row.crc == PySlice(Composite(row.name, region.name, country.name), 200)
    && row.url == PySlice(UrlPath(country.name, region.name, row.name), 100)
  }

  /** The row carries the country and region ids of a city with its geoname id. */
  predicate OwnedBy(row: AltName, city: City) {
    city.id == row.geonameId && row.countryId == Some(city.countryId) && row.regionId == Some(city.regionId)
  }

  /** A saved row belongs to its city and is built from the two main names that its lookups found in s. */
  lemma CrcRowBuilt(s: seq<AltName>, cities: seq<City>, obj: AltName)
    requires CrcRow(s, cities, obj).Done?
    ensures exists city :: city in cities && OwnedBy(CrcRow(s, cities, obj).row, city)
    ensures exists c, g :: c in s && g in s && c.geoType == CountryType && g.geoType == RegionType
                           && BuiltFrom(CrcRow(s, cities, obj).row, c, g)
  {
    CrcRowMeaning(s, cities, obj);
    var city := GetOne(cities, CityWithId(obj.geonameId)).value;
    var c := GetOne(s, MainNameOf(CountryType, city.countryId, obj.language)).value;
    var g := GetOne(s, MainNameOf(RegionType, city.regionId, obj.language)).value;
    assert BuiltFrom(CrcRow(s, cities, obj).row, c, g);
    assert OwnedBy(CrcRow(s, cities, obj).row, city);
  }

  lemma CrcRowName(obj: AltName, city: City, region: string, country: string)
    ensures IsPrefix(PySlice(obj.name, 200), Filled(obj, city, region, country).crc)
  {
    CrcBeginsWithName(obj.name, region, country);
  }

  /** A url that fits its column is kept whole and splits into the three slugs. */
  lemma UrlFits(country: string, region: string, city: string)
    requires |UrlPath(country, region, city)| <= 100
    ensures Split(PySlice(UrlPath(country, region, city), 100), '/') == [Slugify(country), Slugify(region), Slugify(city)]
  {
    UrlSegments(country, region, city);
    KeptWhole(UrlPath(country, region, city), [Slugify(country), Slugify(region), Slugify(city)]);
  }

  lemma KeptWhole(url: string, parts: seq<string>)
    requires |url| <= 100 && Split(url, '/') == parts
    ensures Split(PySlice(url, 100), '/') == parts
  {
    assert PySlice(url, 100) == url;
  }

  /** The pass with the work on one row left open: `step(t, obj)` is what row obj becomes against table t. */
  function StepsFrom(s: seq<AltName>, step: (seq<AltName>, AltName) -> Step, i: nat): (r: (seq<AltName>, Option<Fault>))
    requires i <= |s|
    decreases |s| - i
  {
    if i == |s| then (s, None)
    else if !IsCityMain(s[i]) then StepsFrom(s, step, i + 1)
    else match step(s, s[i])
      case Failed(f) => (s, Some(f))
      case Done(row) => StepsFrom(s[i := row], step, i + 1)
  }

  /** One turn of the loop at row i. */
  lemma StepsFromAt(s: seq<AltName>, step: (seq<AltName>, AltName) -> Step, i: nat)
    requires i < |s|
    ensures var st := step(s, s[i]);
      StepsFrom(s, step, i)
      == if !IsCityMain(s[i]) then StepsFrom(s, step, i + 1)
         else if st.Failed? then (s, Some(st.fault))
         else StepsFrom(s[i := st.row], step, i + 1)
  {
  }

  function CrcStep(cities: seq<City>): (seq<AltName>, AltName) -> Step {
    (t: seq<AltName>, obj: AltName) => CrcRow(t, cities, obj)
  }

  /** With the crc step filled in, the open pass is the pass. */
  lemma {:induction false} CrcFromSteps(s: seq<AltName>, cities: seq<City>, i: nat)
    requires i <= |s|
    ensures StepsFrom(s, CrcStep(cities), i) == CrcFrom(s, cities, i)
    decreases |s| - i
  {
    if i < |s| {
      if !IsCityMain(s[i]) {
        CrcFromSteps(s, cities, i + 1);
      } else {
        assert CrcStep(cities)(s, s[i]) == CrcRow(s, cities, s[i]);
        match CrcRow(s, cities, s[i])
        case Failed(f) =>
        case Done(row) => CrcFromSteps(s[i := row], cities, i + 1);
      }
    }
  }

  /** s and t differ at most in the city rows, and there only outside the keys. */
  predicate AgreeOffCities(s: seq<AltName>, t: seq<AltName>) {
    |s| == |t|
    && forall j :: 0 <= j < |s| ==>
         t[j].geoType == s[j].geoType && (s[j].geoType != CityType ==> t[j] == s[j])
  }

  /** The lookups read only country and region rows, which the pass does not touch. */
  lemma CrcRowAgree(s: seq<AltName>, t: seq<AltName>, cities: seq<City>, obj: AltName)
    requires AgreeOffCities(s, t)
    ensures CrcRow(t, cities, obj) == CrcRow(s, cities, obj)
  {
    match GetOne(cities, CityWithId(obj.geonameId))
    case Missing =>
    case Ambiguous =>
    case Found(city) =>
      GetOneAgree(s, t, MainNameOf(CountryType, city.countryId, obj.language));
      GetOneAgree(s, t, MainNameOf(RegionType, city.regionId, obj.language));
  }

  /** The pass from row i on, against the table as it stands. */
  function CrcFrom(s: seq<AltName>, cities: seq<City>, i: nat): (r: (seq<AltName>, Option<Fault>))
    requires i <= |s|
    decreases |s| - i
  {
    if i == |s| then (s, None)
    else if !IsCityMain(s[i]) then CrcFrom(s, cities, i + 1)
    else match CrcRow(s, cities, s[i])
      case Failed(f) => (s, Some(f))
      case Done(row) => CrcFrom(s[i := row], cities, i + 1)
  }

  /** The first main city row at or after i whose lookups fail. */
  function FirstFailure(s: seq<AltName>, cities: seq<City>, i: nat): (k: Option<nat>)
    requires i <= |s|
    ensures k.Some? ==> i <= k.value < |s| && IsCityMain(s[k.value]) && CrcRow(s, cities, s[k.value]).Failed?
    ensures forall j :: i <= j < (if k.Some? then k.value else |s|) && IsCityMain(s[j]) ==>
      CrcRow(s, cities, s[j]).Done?
    decreases |s| - i
  {
    if i == |s| then None
    else if IsCityMain(s[i]) && CrcRow(s, cities, s[i]).Failed? then Some(i)
    else FirstFailure(s, cities, i + 1)
  }

  /** Row j as the pass leaves it when the pass reaches it and its lookups succeed. */
  function Expected(s: seq<AltName>, cities: seq<City>, j: nat): AltName
    requires j < |s|
  {
    if IsCityMain(s[j]) && CrcRow(s, cities, s[j]).Done? then CrcRow(s, cities, s[j]).row else s[j]
  }

  /** The pass over s ends as r says when k is its first failing row. */
  predicate Outcome(s: seq<AltName>, cities: seq<City>, k: Option<nat>, r: (seq<AltName>, Option<Fault>)) {
    |r.0| == |s|
    && (r.1.None? <==> k.None?)
    && (k.Some? ==> k.value < |s| && CrcRow(s, cities, s[k.value]).Failed?
                    && r.1 == Some(CrcRow(s, cities, s[k.value]).fault))
    && forall j :: 0 <= j < |s| ==> r.0[j] == (if k.None? || j < k.value then Expected(s, cities, j) else s[j])
  }

  /** Where the pass stops, the table is the one it reached. */
  lemma OutcomeAtStop(s: seq<AltName>, t: seq<AltName>, cities: seq<City>, i: nat, k: Option<nat>, f: Option<Fault>)
    requires i <= |s| == |t|
    requires forall j :: 0 <= j < i ==> t[j] == Expected(s, cities, j)
    requires forall j :: i <= j < |s| ==> t[j] == s[j]
    requires k.None? ==> i == |s| && f.None?
    requires k.Some? ==> k.value == i < |s| && CrcRow(s, cities, s[i]).Failed? && f == Some(CrcRow(s, cities, s[i]).fault)
    ensures Outcome(s, cities, k, (t, f))
  {
  }

  /** t is s after the pass has handled the rows before i without a failure. */
  predicate Reached(s: seq<AltName>, t: seq<AltName>, cities: seq<City>, i: nat) {
    i <= |s| == |t|
    && AgreeOffCities(s, t)
    && (forall j :: 0 <= j < i ==> t[j] == Expected(s, cities, j))
    && (forall j :: i <= j < |s| ==> t[j] == s[j])
  }

  lemma StepSkip(s: seq<AltName>, t: seq<AltName>, cities: seq<City>, i: nat)
    requires Reached(s, t, cities, i) && i < |s| && !IsCityMain(s[i])
    ensures Reached(s, t, cities, i + 1)
    ensures CrcFrom(t, cities, i) == CrcFrom(t, cities, i + 1)
    ensures FirstFailure(s, cities, i) == FirstFailure(s, cities, i + 1)
  {
    assert t[i] == Expected(s, cities, i);
  }

  lemma StepDone(s: seq<AltName>, t: seq<AltName>, cities: seq<City>, i: nat)
    requires Reached(s, t, cities, i) && i < |s| && IsCityMain(s[i]) && CrcRow(s, cities, s[i]).Done?
    ensures Reached(s, t[i := CrcRow(s, cities, s[i]).row], cities, i + 1)
    ensures CrcFrom(t, cities, i) == CrcFrom(t[i := CrcRow(s, cities, s[i]).row], cities, i + 1)
    ensures FirstFailure(s, cities, i) == FirstFailure(s, cities, i + 1)
  {
    StepDoneReached(s, t, cities, i);
    StepDoneRuns(s, t, cities, i);
  }

  lemma StepDoneReached(s: seq<AltName>, t: seq<AltName>, cities: seq<City>, i: nat)
    requires Reached(s, t, cities, i) && i < |s| && IsCityMain(s[i]) && CrcRow(s, cities, s[i]).Done?
    ensures Reached(s, t[i := CrcRow(s, cities, s[i]).row], cities, i + 1)
  {
    var row := CrcRow(s, cities, s[i]).row;
    assert row.geoType == s[i].geoType;
    assert row == Expected(s, cities, i);
    StepAgrees(s, t, i, row);
    StepExpected(s, t, cities, i, row);
  }

  lemma StepAgrees(s: seq<AltName>, t: seq<AltName>, i: nat, row: AltName)
    requires AgreeOffCities(s, t) && i < |s| && s[i].geoType == CityType && row.geoType == CityType
    ensures AgreeOffCities(s, t[i := row])
  {
  }

  lemma StepExpected(s: seq<AltName>, t: seq<AltName>, cities: seq<City>, i: nat, row: AltName)
    requires i < |s| == |t|
    requires forall j :: 0 <= j < i ==> t[j] == Expected(s, cities, j)
    requires forall j :: i <= j < |s| ==> t[j] == s[j]
    requires row == Expected(s, cities, i)
    ensures forall j :: 0 <= j < i + 1 ==> t[i := row][j] == Expected(s, cities, j)
    ensures forall j :: i + 1 <= j < |s| ==> t[i := row][j] == s[j]
  {
  }

  lemma StepDoneRuns(s: seq<AltName>, t: seq<AltName>, cities: seq<City>, i: nat)
    requires Reached(s, t, cities, i) && i < |s| && IsCityMain(s[i]) && CrcRow(s, cities, s[i]).Done?
    ensures CrcFrom(t, cities, i) == CrcFrom(t[i := CrcRow(s, cities, s[i]).row], cities, i + 1)
    ensures FirstFailure(s, cities, i) == FirstFailure(s, cities, i + 1)
  {
    CrcRowAgree(s, t, cities, t[i]);
  }

  lemma StepFail(s: seq<AltName>, t: seq<AltName>, cities: seq<City>, i: nat)
    requires Reached(s, t, cities, i) && i < |s| && IsCityMain(s[i]) && CrcRow(s, cities, s[i]).Failed?
    ensures Outcome(s, cities, FirstFailure(s, cities, i), CrcFrom(t, cities, i))
  {
    var f := Some(CrcRow(s, cities, s[i]).fault);
    CrcRowAgree(s, t, cities, t[i]);
    assert CrcFrom(t, cities, i) == (t, f);
    OutcomeAtStop(s, t, cities, i, Some(i), f);
  }

  lemma {:induction false} CrcFromResult(s: seq<AltName>, t: seq<AltName>, cities: seq<City>, i: nat)
    requires Reached(s, t, cities, i)
    ensures Outcome(s, cities, FirstFailure(s, cities, i), CrcFrom(t, cities, i))
    decreases |s| - i
  {
    if i == |s| {
      OutcomeAtStop(s, t, cities, i, None, None);
    } else if !IsCityMain(s[i]) {
      StepSkip(s, t, cities, i);
      CrcFromResult(s, t, cities, i + 1);
    } else if CrcRow(s, cities, s[i]).Done? {
      StepDone(s, t, cities, i);
      CrcFromResult(s, t[i := CrcRow(s, cities, s[i]).row], cities, i + 1);
    } else {
      StepFail(s, t, cities, i);
    }
  }

  /**
   * The whole pass: with no failure every main city row carries its crc and
   * url and every other row is unchanged; at the first failing row the run
   * ends, with the rows before it saved and the rest untouched.
   */
  lemma CrcPassResult(s: seq<AltName>, cities: seq<City>)
    ensures Outcome(s, cities, FirstFailure(s, cities, 0), CrcFrom(s, cities, 0))
    ensures CrcFrom(s, cities, 0).1.None? <==>
      forall j :: 0 <= j < |s| && IsCityMain(s[j]) ==> CrcRow(s, cities, s[j]).Done?
  {
    CrcFromResult(s, s, cities, 0);
  }

  /**
   * After a pass without failure every main city row carries the ids of its
   * city and is built from the main names of its country and region in its
   * language, and those rows are still in the table.
   */
  lemma CrcPassBuilt(s: seq<AltName>, cities: seq<City>, j: nat)
    requires CrcFrom(s, cities, 0).1.None?
    requires j < |CrcFrom(s, cities, 0).0| && IsCityMain(CrcFrom(s, cities, 0).0[j])
    ensures var r := CrcFrom(s, cities, 0).0;
      exists c, g :: c in r && g in r && BuiltFrom(r[j], c, g)
    ensures exists city :: city in cities && OwnedBy(CrcFrom(s, cities, 0).0[j], city)
  {
    var r := CrcFrom(s, cities, 0).0;
    CrcPassResult(s, cities);
    assert r[j] == Expected(s, cities, j);
    assert IsCityMain(s[j]);
    CrcRowBuilt(s, cities, s[j]);
    var c, g :| c in s && g in s && c.geoType == CountryType && g.geoType == RegionType
                && BuiltFrom(r[j], c, g);
    KeptOffCities(s, cities, c);
    KeptOffCities(s, cities, g);
  }

  /** A row that is not a city's keeps its place after a pass without failure. */
  lemma KeptOffCities(s: seq<AltName>, cities: seq<City>, x: AltName)
    requires CrcFrom(s, cities, 0).1.None?
    requires x in s && x.geoType != CityType
    ensures x in CrcFrom(s, cities, 0).0
  {
    CrcPassResult(s, cities);
    var i :| 0 <= i < |s| && s[i] == x;
    assert CrcFrom(s, cities, 0).0[i] == Expected(s, cities, i);
  }
}

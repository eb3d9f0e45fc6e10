/**
 * `Command.handle`: the seven passes in their fixed order, as one function
 * of the tables and the downloaded data. A pass that raises ends the
 * command; what the passes before it saved stays saved.
 */
module Pipeline {
  import opened Optional
  import opened Text
  import opened Records
  import opened Queries
  import opened ImportFilters
  import opened FillUp
  import opened MainNames
  import opened CrcPass

  /** What `download` and `get_data` hand to an import: the file's lines and whether it was up to date. */
  datatype Download = Download(lines: seq<string>, upToDate: bool)

  datatype Inputs = Inputs(country: Download, region: Download, city: Download, altName: Download)

  /** `if uptodate and not self.force: return`. */
  predicate Skipped(d: Download, force: bool) {
    d.upToDate && !force
  }

  function CountryKey(c: Country): int { c.id }
  function RegionKey(r: Region): int { r.id }
  function CityKey(c: City): int { c.id }

  function RegionRule(countryIndex: map<string, int>): seq<string> -> RowResult<Region> {
    row => RegionFromRow(row, countryIndex)
  }

  function CityRule(countryIndex: map<string, int>, regionIndex: map<string, int>): seq<string> -> RowResult<City> {
    row => CityFromRow(row, countryIndex, regionIndex)
  }

  function AltNameRule(languages: seq<string>, geo: GeoIndex): seq<string> -> RowResult<AltName> {
    row => AltNameFromRow(row, languages, geo)
  }

  function CountryPass(cs: seq<Country>, d: Download, force: bool): (seq<Country>, Option<Fault>) {
    if Skipped(d, force) then (cs, None) else ImportRows(cs, Parse(d.lines), CountryFromRow, CountryKey)
  }

  function RegionPass(rs: seq<Region>, d: Download, force: bool, countryIndex: map<string, int>)
    : (seq<Region>, Option<Fault>)
  {
    if Skipped(d, force) then (rs, None) else ImportRows(rs, Parse(d.lines), RegionRule(countryIndex), RegionKey)
  }

  function CityPass(cs: seq<City>, d: Download, force: bool, countryIndex: map<string, int>,
                    regionIndex: map<string, int>): (seq<City>, Option<Fault>)
  {
    if Skipped(d, force) then (cs, None)
    else ImportRows(cs, Parse(d.lines), CityRule(countryIndex, regionIndex), CityKey)
  }

  function AltNamePass(alts: seq<AltName>, d: Download, force: bool, languages: seq<string>, geo: GeoIndex)
    : (seq<AltName>, Option<Fault>)
  {
    if Skipped(d, force) then (alts, None) else AppendRows(alts, Parse(d.lines), AltNameRule(languages, geo))
  }

  /** The four imports. The indexes are built from the tables as the earlier imports left them. */
  function ImportStage(t: Tables, inp: Inputs, force: bool, languages: seq<string>): (Tables, Option<Fault>) {
    var c := CountryPass(t.countries, inp.country, force);
    var t1 := t.(countries := c.0);
    if c.1.Some? then (t1, c.1)
    else
      var r := RegionPass(t1.regions, inp.region, force, CountryIndex(t1.countries));
      var t2 := t1.(regions := r.0);
      if r.1.Some? then (t2, r.1)
      else
        var y := CityPass(t2.cities, inp.city, force, CountryIndex(t2.countries), RegionIndex(t2.regions));
        var t3 := t2.(cities := y.0);
        if y.1.Some? then (t3, y.1)
        else
          var a := AltNamePass(t3.altNames, inp.altName, force, languages, GeoIndexOf(t3));
          (t3.(altNames := a.0), a.1)
  }

  function EntityIds(ents: seq<Entity>): (ids: seq<int>)
    ensures forall e :: e in ents ==> e.id in ids
  {
    var ids := seq(|ents|, i requires 0 <= i < |ents| => ents[i].id);
    assert forall i :: 0 <= i < |ents| ==> ids[i] == ents[i].id;
    ids
  }

  /** `fillup_alt_name`, its rows built as the code builds them. */
  function FilledUp(t: Tables, languages: seq<string>): Tables {
    t.(altNames := t.altNames + Added(t.altNames, Entities(t), languages, NewRowAsWritten))
  }

  /** `define_main_alt_names`: every country, region and city, every language. */
  function MainsDefined(t: Tables, languages: seq<string>): Tables {
    t.(altNames := DefineMains(t.altNames, EntityIds(Entities(t)), languages))
  }

  /** `make_crc_for_main_alt_names`. */
  function CrcMade(t: Tables): (Tables, Option<Fault>) {
    var c := CrcFrom(t.altNames, t.cities, 0);
    (t.(altNames := c.0), c.1)
  }

  /** The three passes that follow the imports; they run whether or not any file was imported. */
  function FinishStage(t: Tables, languages: seq<string>): (Tables, Option<Fault>) {
    CrcMade(MainsDefined(FilledUp(t, languages), languages))
  }

  /** The whole command. */
  function Run(t: Tables, inp: Inputs, force: bool, languages: seq<string>): (Tables, Option<Fault>) {
    var i := ImportStage(t, inp, force, languages);
    if i.1.Some? then i else FinishStage(i.0, languages)
  }

  // ---------------------------------------------------------------------------
  // What the command achieves

  lemma HasRowPair(s: seq<AltName>, id: int, lg: string)
    requires HasRow(s, id, lg)
    ensures HasPair(s, lg, id)
  {
    var i :| 0 <= i < |s| && s[i].geonameId == id && s[i].language == lg;
    assert OfPair(s[i], lg, id);
  }

  /** After the fill-up every record has a row in every language. */
  lemma FillUpCovers(t: Tables, languages: seq<string>, e: Entity, lg: string)
    requires e in Entities(t) && lg in languages
    ensures HasPair(FilledUp(t, languages).altNames, lg, e.id)
  {
    BuildsAsWritten();
    AddedComplete(t.altNames, Entities(t), languages, NewRowAsWritten, e, lg);
    HasRowPair(FilledUp(t, languages).altNames, e.id, lg);
  }

  /** After the fill-up and the main pass every record has exactly one main name in every language. */
  lemma MainsAfterDefine(t: Tables, languages: seq<string>, e: Entity, lg: string)
    requires e in Entities(t) && lg in languages
    ensures CountMains(MainsDefined(FilledUp(t, languages), languages).altNames, lg, e.id) == 1
  {
    var t5 := FilledUp(t, languages);
    var ids := EntityIds(Entities(t5));
    var a6 := DefineMains(t5.altNames, ids, languages);
    assert Entities(t5) == Entities(t);
    assert e.id in ids;
    FillUpCovers(t, languages, e, lg);
    DefineMainsResolves(t5.altNames, ids, languages, e.id, lg);
    assert MainsDefined(t5, languages).altNames == a6;
  }

  lemma DefineMainsResolves(s: seq<AltName>, ids: seq<int>, languages: seq<string>, id: int, lg: string)
    requires id in ids && lg in languages && HasPair(s, lg, id)
    ensures CountMains(DefineMains(s, ids, languages), lg, id) == 1
  {
    DefineMainsEffect(s, ids, languages);
    SameButMainPairs(s, DefineMains(s, ids, languages), lg, id);
  }

  /** A pass that ends without failure keeps the geoname id, language and main flag of every row. */
  lemma CrcKeepsMains(s: seq<AltName>, cities: seq<City>, lg: string, id: int)
    requires CrcFrom(s, cities, 0).1.None?
    ensures CountMains(CrcFrom(s, cities, 0).0, lg, id) == CountMains(s, lg, id)
  {
    var r := CrcFrom(s, cities, 0);
    CrcPassResult(s, cities);
    assert FirstFailure(s, cities, 0).None?;
    forall j | 0 <= j < |s|
      ensures MainRowOf(lg, id)(s[j]) == MainRowOf(lg, id)(r.0[j])
    {
      assert r.0[j] == Expected(s, cities, j);
    }
    CountIfPointwise(s, r.0, MainRowOf(lg, id));
  }

  /**
   * A command that ends without an exception leaves, for every country,
   * region and city and every configured language, exactly one main
   * AltName; and every main city name then carries the country and region
   * ids of the City row with its geoname id, and a crc and url that fit their columns, built from the main
   * names of that country and region in its own language, which are still
   * in the table.
   */
  lemma RunResult(t: Tables, inp: Inputs, force: bool, languages: seq<string>)
    requires Run(t, inp, force, languages).1.None?
    ensures var r := Run(t, inp, force, languages).0;
      forall e, lg :: e in Entities(r) && lg in languages ==> CountMains(r.altNames, lg, e.id) == 1
    ensures var r := Run(t, inp, force, languages).0;
      forall j :: 0 <= j < |r.altNames| && IsCityMain(r.altNames[j]) ==>
        && r.altNames[j].countryId.Some? && r.altNames[j].regionId.Some?
        && |r.altNames[j].crc| <= 200 && |r.altNames[j].url| <= 100
    ensures var r := Run(t, inp, force, languages).0;
      forall j :: 0 <= j < |r.altNames| && IsCityMain(r.altNames[j]) ==>
        exists c, g :: c in r.altNames && g in r.altNames && BuiltFrom(r.altNames[j], c, g)
    ensures var r := Run(t, inp, force, languages).0;
      forall j :: 0 <= j < |r.altNames| && IsCityMain(r.altNames[j]) ==>
        exists city :: city in r.cities && OwnedBy(r.altNames[j], city)
  {
    var t4 := ImportStage(t, inp, force, languages).0;
    var t6 := MainsDefined(FilledUp(t4, languages), languages);
    var r := Run(t, inp, force, languages).0;
    assert r == CrcMade(t6).0;
    assert Entities(r) == Entities(t4);
    forall e, lg | e in Entities(r) && lg in languages
      ensures CountMains(r.altNames, lg, e.id) == 1
    {
      MainsAfterDefine(t4, languages, e, lg);
      CrcKeepsMains(t6.altNames, t6.cities, lg, e.id);
    }
    CrcPassResult(t6.altNames, t6.cities);
    forall j | 0 <= j < |r.altNames| && IsCityMain(r.altNames[j])
      ensures r.altNames[j].countryId.Some? && r.altNames[j].regionId.Some?
      ensures |r.altNames[j].crc| <= 200 && |r.altNames[j].url| <= 100
    {
      assert r.altNames[j] == Expected(t6.altNames, t6.cities, j);
    }
    assert r.cities == t6.cities;
    forall j | 0 <= j < |r.altNames| && IsCityMain(r.altNames[j])
      ensures exists c, g :: c in r.altNames && g in r.altNames && BuiltFrom(r.altNames[j], c, g)
      ensures exists city :: city in r.cities && OwnedBy(r.altNames[j], city)
    {
      CrcPassBuilt(t6.altNames, t6.cities, j);
    }
  }
}

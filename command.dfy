/**
 * The `import_cities` management command as it runs: the database tables
 * it writes, the indexes it caches on itself, and the loops of its passes.
 * Every method is proved to leave the tables as the matching pass of the
 * Pipeline module says.
 */
module Command {
  import opened Optional
  import opened Text
  import opened Records
  import opened Queries
  import opened ImportFilters
  import opened FillUp
  import opened MainNames
  import opened CrcPass
  import opened Pipeline

  /** The four tables of the database, each in storage order. */
  class Store {
    var countries: seq<Country>
    var regions: seq<Region>
    var cities: seq<City>
    var altNames: seq<AltName>

    constructor (t: Tables)
      ensures Contents() == t
    {
      countries, regions, cities, altNames := t.countries, t.regions, t.cities, t.altNames;
    }

    function Contents(): Tables
      reads this
    {
      Tables(countries, regions, cities, altNames)
    }
  }

  /** A cached index if there is one (`hasattr(self, ...)`), else the one built now. */
  function Cached<T>(cache: Option<T>, built: T): T {
    if cache.Some? then cache.value else built
  }

  /** The inner loop of `fillup_alt_name`: `for e in alt: if ...: break`. */
  method FindEntry(snap: seq<AltName>, id: int, lg: string) returns (found: bool)
    ensures found == HasRow(snap, id, lg)
  {
    var i := 0;
    while i < |snap|
      invariant 0 <= i <= |snap|
      invariant forall j :: 0 <= j < i ==> !(snap[j].geonameId == id && snap[j].language == lg)
    {
      if snap[i].geonameId == id && snap[i].language == lg {
        return true;
      }
      i := i + 1;
    }
    return false;
  }

  lemma AppendAssociates(a: seq<AltName>, b: seq<AltName>, c: seq<AltName>)
    ensures a + b + c == a + (b + c)
  {
  }

  class ImportCommand {
    const store: Store
    /** The `--force` option. */
    const force: bool
    /** The codes of settings.LANGUAGES. */
    const languages: seq<string>
    var countryIndex: Option<map<string, int>>
    var regionIndex: Option<map<string, int>>
    var geoIndex: Option<GeoIndex>

    /** A fresh command object: no index is built yet. */
    constructor (store: Store, force: bool, languages: seq<string>)
      ensures this.store == store && this.force == force && this.languages == languages
      ensures countryIndex.None? && regionIndex.None? && geoIndex.None?
    {
      this.store, this.force, this.languages := store, force, languages;
      countryIndex, regionIndex, geoIndex := None, None, None;
    }

    // -------------------------------------------------------------------------
    // Indexes

    method BuildCountryIndex()
      modifies this
      ensures countryIndex == Some(Cached(old(countryIndex), CountryIndex(store.countries)))
      ensures regionIndex == old(regionIndex) && geoIndex == old(geoIndex)
    {
      if countryIndex.Some? {
        return;
      }
      var cs := store.countries;
      var m := map[];
      var i := 0;
      while i < |cs|
        invariant 0 <= i <= |cs|
        invariant m == CountryIndex(cs[..i])
      {
        assert cs[..i + 1][..i] == cs[..i];
        m := m[cs[i].code := cs[i].id];
        i := i + 1;
      }
      assert cs[..i] == cs;
      countryIndex := Some(m);
    }

    method BuildRegionIndex()
      modifies this
      ensures regionIndex == Some(Cached(old(regionIndex), RegionIndex(store.regions)))
      ensures countryIndex == old(countryIndex) && geoIndex == old(geoIndex)
    {
      if regionIndex.Some? {
        return;
      }
      var rs := store.regions;
      var m := map[];
      var i := 0;
      while i < |rs|
        invariant 0 <= i <= |rs|
        invariant m == RegionIndex(rs[..i])
      {
        assert rs[..i + 1][..i] == rs[..i];
        m := m[rs[i].code := rs[i].id];
        i := i + 1;
      }
      assert rs[..i] == rs;
      regionIndex := Some(m);
    }

    method BuildGeoIndex()
      modifies this
      ensures geoIndex == Some(Cached(old(geoIndex), GeoIndexOf(store.Contents())))
      ensures countryIndex == old(countryIndex) && regionIndex == old(regionIndex)
    {
      if geoIndex.Some? {
        return;
      }
      var countryIds, regionIds, cityIds := [], [], [];
      var i := 0;
      while i < |store.countries|
        invariant 0 <= i <= |store.countries|
        invariant countryIds == CountryIds(store.countries[..i])
      {
        assert CountryIds(store.countries[..i + 1]) == countryIds + [store.countries[i].id];
        countryIds := countryIds + [store.countries[i].id];
        i := i + 1;
      }
      assert store.countries[..i] == store.countries;
      i := 0;
      while i < |store.regions|
        invariant 0 <= i <= |store.regions|
        invariant regionIds == RegionIds(store.regions[..i])
      {
        assert RegionIds(store.regions[..i + 1]) == regionIds + [store.regions[i].id];
        regionIds := regionIds + [store.regions[i].id];
        i := i + 1;
      }
      assert store.regions[..i] == store.regions;
      i := 0;
      while i < |store.cities|
        invariant 0 <= i <= |store.cities|
        invariant cityIds == CityIds(store.cities[..i])
      {
        assert CityIds(store.cities[..i + 1]) == cityIds + [store.cities[i].id];
        cityIds := cityIds + [store.cities[i].id];
        i := i + 1;
      }
      assert store.cities[..i] == store.cities;
      geoIndex := Some(GeoIndex(countryIds, regionIds, cityIds));
    }

    // -------------------------------------------------------------------------
    // Imports

    method ImportCountry(d: Download) returns (fault: Option<Fault>)
      modifies store
      ensures (store.countries, fault) == CountryPass(old(store.countries), d, force)
      ensures store.Contents() == old(store.Contents()).(countries := store.countries)
    {
      if Skipped(d, force) {
        return None;
      }
      fault := SaveCountries(Parse(d.lines), CountryFromRow);
    }

    method ImportRegion(d: Download) returns (fault: Option<Fault>)
      modifies this, store
      ensures countryIndex == (if Skipped(d, force) then old(countryIndex)
                               else Some(Cached(old(countryIndex), CountryIndex(old(store.countries)))))
      ensures regionIndex == old(regionIndex) && geoIndex == old(geoIndex)
      ensures (store.regions, fault)
           == RegionPass(old(store.regions), d, force, Cached(old(countryIndex), CountryIndex(old(store.countries))))
      ensures store.Contents() == old(store.Contents()).(regions := store.regions)
    {
      if Skipped(d, force) {
        return None;
      }
      BuildCountryIndex();
      fault := SaveRegions(Parse(d.lines), RegionRule(countryIndex.value));
    }

    method ImportCity(d: Download) returns (fault: Option<Fault>)
      modifies this, store
      ensures countryIndex == (if Skipped(d, force) then old(countryIndex)
                               else Some(Cached(old(countryIndex), CountryIndex(old(store.countries)))))
      ensures regionIndex == (if Skipped(d, force) then old(regionIndex)
                              else Some(Cached(old(regionIndex), RegionIndex(old(store.regions)))))
      ensures geoIndex == old(geoIndex)
      ensures (store.cities, fault)
           == CityPass(old(store.cities), d, force, Cached(old(countryIndex), CountryIndex(old(store.countries))),
                       Cached(old(regionIndex), RegionIndex(old(store.regions))))
      ensures store.Contents() == old(store.Contents()).(cities := store.cities)
    {
      if Skipped(d, force) {
        return None;
      }
      BuildCountryIndex();
      BuildRegionIndex();
      fault := SaveCities(Parse(d.lines), CityRule(countryIndex.value, regionIndex.value));
    }

    method ImportAltName(d: Download) returns (fault: Option<Fault>)
      modifies this, store
      ensures geoIndex == (if Skipped(d, force) then old(geoIndex)
                           else Some(Cached(old(geoIndex), GeoIndexOf(old(store.Contents())))))
      ensures countryIndex == (if Skipped(d, force) then old(countryIndex)
                               else Some(Cached(old(countryIndex), CountryIndex(old(store.countries)))))
      ensures regionIndex == (if Skipped(d, force) then old(regionIndex)
                              else Some(Cached(old(regionIndex), RegionIndex(old(store.regions)))))
      ensures (store.altNames, fault)
           == AltNamePass(old(store.altNames), d, force, languages, Cached(old(geoIndex), GeoIndexOf(old(store.Contents()))))
      ensures store.Contents() == old(store.Contents()).(altNames := store.altNames)
    {
      if Skipped(d, force) {
        return None;
      }
      BuildGeoIndex();
      BuildCountryIndex();
      BuildRegionIndex();
      fault := AppendAltNames(Parse(d.lines), AltNameRule(languages, geoIndex.value));
    }

    /** The loop of `import_country`: each row through the filter, each kept record saved, until a row raises. */
    method SaveCountries(rows: seq<seq<string>>, rule: seq<string> -> RowResult<Country>) returns (fault: Option<Fault>)
      modifies store
      ensures (store.countries, fault) == ImportRows(old(store.countries), rows, rule, CountryKey)
      ensures store.regions == old(store.regions) && store.cities == old(store.cities)
      ensures store.altNames == old(store.altNames)
    {
      var i := 0;
      while i < |rows|
        invariant 0 <= i <= |rows|
        invariant ImportRows(old(store.countries), rows, rule, CountryKey)
               == ImportRows(store.countries, rows[i..], rule, CountryKey)
        invariant store.regions == old(store.regions) && store.cities == old(store.cities)
        invariant store.altNames == old(store.altNames)
      {
        ImportRowsAt(store.countries, rows, rule, CountryKey, i);
        var r := rule(rows[i]);
        if r.Abort? {
          return Some(r.fault);
        }
        if r.Keep? {
          store.countries := Upsert(store.countries, r.value, CountryKey);
        }
        i := i + 1;
      }
      return None;
    }

    /** The loop of `import_region`. */
    method SaveRegions(rows: seq<seq<string>>, rule: seq<string> -> RowResult<Region>) returns (fault: Option<Fault>)
      modifies store
      ensures (store.regions, fault) == ImportRows(old(store.regions), rows, rule, RegionKey)
      ensures store.countries == old(store.countries) && store.cities == old(store.cities)
      ensures store.altNames == old(store.altNames)
    {
      var i := 0;
      while i < |rows|
        invariant 0 <= i <= |rows|
        invariant ImportRows(old(store.regions), rows, rule, RegionKey)
               == ImportRows(store.regions, rows[i..], rule, RegionKey)
        invariant store.countries == old(store.countries) && store.cities == old(store.cities)
        invariant store.altNames == old(store.altNames)
      {
        ImportRowsAt(store.regions, rows, rule, RegionKey, i);
        var r := rule(rows[i]);
        if r.Abort? {
          return Some(r.fault);
        }
        if r.Keep? {
          store.regions := Upsert(store.regions, r.value, RegionKey);
        }
        i := i + 1;
      }
      return None;
    }

    /** The loop of `import_city`. */
    method SaveCities(rows: seq<seq<string>>, rule: seq<string> -> RowResult<City>) returns (fault: Option<Fault>)
      modifies store
      ensures (store.cities, fault) == ImportRows(old(store.cities), rows, rule, CityKey)
      ensures store.countries == old(store.countries) && store.regions == old(store.regions)
      ensures store.altNames == old(store.altNames)
    {
      var i := 0;
      while i < |rows|
        invariant 0 <= i <= |rows|
        invariant ImportRows(old(store.cities), rows, rule, CityKey)
               == ImportRows(store.cities, rows[i..], rule, CityKey)
        invariant store.countries == old(store.countries) && store.regions == old(store.regions)
        invariant store.altNames == old(store.altNames)
      {
        ImportRowsAt(store.cities, rows, rule, CityKey, i);
        var r := rule(rows[i]);
        if r.Abort? {
          return Some(r.fault);
        }
        if r.Keep? {
          store.cities := Upsert(store.cities, r.value, CityKey);
        }
        i := i + 1;
      }
      return None;
    }

    /** The loop of `import_alt_name`: AltName rows carry no pk, so every kept record is a new row. */
    method AppendAltNames(rows: seq<seq<string>>, rule: seq<string> -> RowResult<AltName>) returns (fault: Option<Fault>)
      modifies store
      ensures (store.altNames, fault) == AppendRows(old(store.altNames), rows, rule)
      ensures store.countries == old(store.countries) && store.regions == old(store.regions)
      ensures store.cities == old(store.cities)
    {
      var i := 0;
      while i < |rows|
        invariant 0 <= i <= |rows|
        invariant AppendRows(old(store.altNames), rows, rule) == AppendRows(store.altNames, rows[i..], rule)
        invariant store.countries == old(store.countries) && store.regions == old(store.regions)
        invariant store.cities == old(store.cities)
      {
        AppendRowsAt(store.altNames, rows, rule, i);
        var r := rule(rows[i]);
        if r.Abort? {
          return Some(r.fault);
        }
        if r.Keep? {
          store.altNames := store.altNames + [r.value];
        }
        i := i + 1;
      }
      return None;
    }

    // -------------------------------------------------------------------------
    // The passes over AltName

    method FillUpAltName()
      modifies store
      ensures store.Contents() == FilledUp(old(store.Contents()), languages)
    {
      FillUpEntities(store.altNames, Entities(store.Contents()));
    }

    /** The loops over the records: every record in order, against the snapshot `snap` of the table. */
    method FillUpEntities(snap: seq<AltName>, ents: seq<Entity>)
      modifies store
      ensures store.altNames == old(store.altNames) + Added(snap, ents, languages, NewRowAsWritten)
      ensures store.countries == old(store.countries) && store.regions == old(store.regions)
      ensures store.cities == old(store.cities)
    {
      var k := 0;
      while k < |ents|
        invariant 0 <= k <= |ents|
        invariant store.altNames == old(store.altNames) + Added(snap, ents[..k], languages, NewRowAsWritten)
        invariant store.countries == old(store.countries) && store.regions == old(store.regions)
        invariant store.cities == old(store.cities)
      {
        ghost var before := Added(snap, ents[..k], languages, NewRowAsWritten);
        FillUpEntity(snap, ents[k]);
        assert ents[..k + 1][..k] == ents[..k];
        assert Added(snap, ents[..k + 1], languages, NewRowAsWritten)
            == before + RowsFor(snap, ents[k], languages, NewRowAsWritten);
        AppendAssociates(old(store.altNames), before, RowsFor(snap, ents[k], languages, NewRowAsWritten));
        k := k + 1;
      }
      assert ents[..k] == ents;
    }

    /** The loop over the languages for one record, checking against the snapshot of the table. */
    method FillUpEntity(snap: seq<AltName>, e: Entity)
      modifies store
      ensures store.altNames == old(store.altNames) + RowsFor(snap, e, languages, NewRowAsWritten)
      ensures store.countries == old(store.countries) && store.regions == old(store.regions)
      ensures store.cities == old(store.cities)
    {
      var j := 0;
      while j < |languages|
        invariant 0 <= j <= |languages|
        invariant store.altNames == old(store.altNames) + RowsFor(snap, e, languages[..j], NewRowAsWritten)
        invariant store.countries == old(store.countries) && store.regions == old(store.regions)
        invariant store.cities == old(store.cities)
      {
        var lg := languages[j];
        RowsForStep(snap, e, languages, NewRowAsWritten, j);
        var found := FindEntry(snap, e.id, lg);
        if !found {
          AppendAssociates(old(store.altNames), RowsFor(snap, e, languages[..j], NewRowAsWritten), [NewRowAsWritten(e, lg)]);
          store.altNames := store.altNames + [NewRowAsWritten(e, lg)];
        }
        j := j + 1;
      }
      assert languages[..j] == languages;
    }

    /** Step 0 when several rows are main: `for an in anlist: an.is_main = False; an.save()`. */
    method ClearPairMains(lg: string, id: int)
      modifies store
      ensures store.altNames == ClearMains(old(store.altNames), lg, id)
      ensures store.countries == old(store.countries) && store.regions == old(store.regions)
      ensures store.cities == old(store.cities)
    {
      ghost var s := store.altNames;
      var i := 0;
      while i < |store.altNames|
        invariant 0 <= i <= |store.altNames| == |s|
        invariant forall j :: 0 <= j < i ==> store.altNames[j] == ClearMains(s, lg, id)[j]
        invariant forall j :: i <= j < |s| ==> store.altNames[j] == s[j]
        invariant store.countries == old(store.countries) && store.regions == old(store.regions)
        invariant store.cities == old(store.cities)
      {
        if MainRowOf(lg, id)(store.altNames[i]) {
          store.altNames := store.altNames[i := store.altNames[i].(isMain := false)];
        }
        i := i + 1;
      }
    }

    /** Makes row k main: `an.is_main = True; an.save()`. */
    method MarkMain(k: nat)
      requires k < |store.altNames|
      modifies store
      ensures store.altNames == old(store.altNames)[k := old(store.altNames)[k].(isMain := true)]
      ensures store.countries == old(store.countries) && store.regions == old(store.regions)
      ensures store.cities == old(store.cities)
    {
      store.altNames := store.altNames[k := store.altNames[k].(isMain := true)];
    }

    /** `try_to_set_main(lg, go)` for the record with geoname id `id`. */
    method TrySetMain(lg: string, id: int) returns (ok: bool)
      modifies store
      ensures (store.altNames, ok) == SetMain(old(store.altNames), lg, id)
      ensures store.countries == old(store.countries) && store.regions == old(store.regions)
      ensures store.cities == old(store.cities)
    {
      var mains := CountMains(store.altNames, lg, id);
      if mains == 1 {
        return true;
      } else if mains > 1 {
        ClearPairMains(lg, id);
      }
      var s := store.altNames;
      assert s == Unmain(old(store.altNames), lg, id);
      // Try 1: `get()` succeeds only when the pair has a single row.
      var first := FirstIn(s, RowOf(lg, id), Crc, |s|);
      if CountRows(s, lg, id) == 1 {
        CountIfOneAt(s, RowOf(lg, id));
        assert first == Chosen(s, lg, id);
        MarkMain(first.value);
        return true;
      }
      // Try 2: the first short row; try 3: the first preferred row; try 4: the first row.
      var short := FirstIn(s, ShortRowOf(lg, id), Crc, |s|);
      if short.Some? {
        MarkMain(short.value);
        return true;
      }
      var preferred := FirstIn(s, PreferredRowOf(lg, id), Crc, |s|);
      if preferred.Some? {
        MarkMain(preferred.value);
        return true;
      }
      if first.Some? {
        MarkMain(first.value);
        return true;
      }
      return false;
    }

    method DefineMainAltNames()
      modifies store
      ensures store.Contents() == MainsDefined(old(store.Contents()), languages)
    {
      DefineMainsOf(EntityIds(Entities(store.Contents())));
    }

    /** The loop over the records' ids: `for go in ...: for lg in languages: self.try_to_set_main(lg, go)`. */
    method DefineMainsOf(ids: seq<int>)
      modifies store
      ensures store.altNames == DefineMains(old(store.altNames), ids, languages)
      ensures store.countries == old(store.countries) && store.regions == old(store.regions)
      ensures store.cities == old(store.cities)
    {
      var k := 0;
      while k < |ids|
        invariant 0 <= k <= |ids|
        invariant DefineMains(old(store.altNames), ids, languages) == DefineMains(store.altNames, ids[k..], languages)
        invariant store.countries == old(store.countries) && store.regions == old(store.regions)
        invariant store.cities == old(store.cities)
      {
        DefineMainsAt(store.altNames, ids, languages, k);
        SetMainsFor(ids[k]);
        k := k + 1;
      }
    }

    /** The loop over the languages for one geoname id. */
    method SetMainsFor(id: int)
      modifies store
      ensures store.altNames == MainsFor(old(store.altNames), id, languages)
      ensures store.countries == old(store.countries) && store.regions == old(store.regions)
      ensures store.cities == old(store.cities)
    {
      var j := 0;
      while j < |languages|
        invariant 0 <= j <= |languages|
        invariant MainsFor(old(store.altNames), id, languages) == MainsFor(store.altNames, id, languages[j..])
        invariant store.countries == old(store.countries) && store.regions == old(store.regions)
        invariant store.cities == old(store.cities)
      {
        MainsForAt(store.altNames, id, languages, j);
        var _ := TrySetMain(languages[j], id);
        j := j + 1;
      }
    }

    method MakeCrcForMainAltNames() returns (fault: Option<Fault>)
      modifies store
      ensures (store.Contents(), fault) == CrcMade(old(store.Contents()))
    {
      CrcFromSteps(store.altNames, store.cities, 0);
      fault := SaveCrcRows(CrcStep(store.cities));
    }

    /** The loop of `make_crc_for_main_alt_names`, every main city row in order, with the work on one row as `step`. */
    method SaveCrcRows(step: (seq<AltName>, AltName) -> Step) returns (fault: Option<Fault>)
      modifies store
      ensures (store.altNames, fault) == StepsFrom(old(store.altNames), step, 0)
      ensures store.countries == old(store.countries) && store.regions == old(store.regions)
      ensures store.cities == old(store.cities)
    {
      var i := 0;
      while i < |store.altNames|
        invariant 0 <= i <= |store.altNames|
        invariant StepsFrom(old(store.altNames), step, 0) == StepsFrom(store.altNames, step, i)
        invariant store.countries == old(store.countries) && store.regions == old(store.regions)
        invariant store.cities == old(store.cities)
        decreases |store.altNames| - i
      {
        StepsFromAt(store.altNames, step, i);
        var obj := store.altNames[i];
        if IsCityMain(obj) {
          var r := step(store.altNames, obj);
          if r.Failed? {
            return Some(r.fault);
          }
          store.altNames := store.altNames[i := r.row];
        }
        i := i + 1;
      }
      return None;
    }

    /** `handle`: the seven passes in order; the first exception ends the command. */
    method Handle(inp: Inputs) returns (fault: Option<Fault>)
      requires countryIndex.None? && regionIndex.None? && geoIndex.None?
      modifies this, store
      ensures (store.Contents(), fault) == Run(old(store.Contents()), inp, force, languages)
    {
      fault := ImportCountry(inp.country);
      if fault.Some? {
        return;
      }
      fault := ImportRegion(inp.region);
      if fault.Some? {
        return;
      }
      fault := ImportCity(inp.city);
      if fault.Some? {
        return;
      }
      fault := ImportAltName(inp.altName);
      if fault.Some? {
        return;
      }
      FillUpAltName();
      DefineMainAltNames();
      fault := MakeCrcForMainAltNames();
    }
  }
}

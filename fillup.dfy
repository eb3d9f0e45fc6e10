/**
 * `fillup_alt_name`: for every Country, Region and City and every configured
 * language without any AltName row, add one row that carries the record's
 * own name. The check runs against the AltName table as it was when the pass
 * began: the QuerySet is evaluated once, so a row added by the pass is not
 * seen by the pass itself.
 */
module FillUp {
  import opened Optional
  import opened Text
  import opened Records

  /**
   * A Country, Region or City as the pass sees it: its id, its own name and
   * that name's slug, its AltName type, and the ids of the country and the
   * region it belongs to (`c.country_id`, `c.region_id`; NULL where the
   * model has no such field).
   */
  datatype Entity = Entity(id: int, name: string, slug: string, geoType: GeoType,
                           countryId: Option<int>, regionId: Option<int>)

  function EntityOf(id: int, name: string, geoType: GeoType, countryId: Option<int>, regionId: Option<int>)
    : (e: Entity)
    ensures e.id == id && e.name == name && e.geoType == geoType && e.slug == Slugify(name)
    ensures e.countryId == countryId && e.regionId == regionId
  {
    Entity(id, name, Slugify(name), geoType, countryId, regionId)
  }

  function CountryEntities(cs: seq<Country>): (r: seq<Entity>)
    ensures |r| == |cs|
    ensures forall i :: 0 <= i < |cs| ==> r[i] == EntityOf(cs[i].id, cs[i].name, CountryType, None, None)
  {
    seq(|cs|, i requires 0 <= i < |cs| => EntityOf(cs[i].id, cs[i].name, CountryType, None, None))
  }

  function RegionEntities(rs: seq<Region>): (r: seq<Entity>)
    ensures |r| == |rs|
    ensures forall i :: 0 <= i < |rs| ==> r[i] == EntityOf(rs[i].id, rs[i].name, RegionType, Some(rs[i].countryId), None)
  {
    seq(|rs|, i requires 0 <= i < |rs| => EntityOf(rs[i].id, rs[i].name, RegionType, Some(rs[i].countryId), None))
  }

  function CityEntities(cs: seq<City>): (r: seq<Entity>)
    ensures |r| == |cs|
    ensures forall i :: 0 <= i < |cs| ==>
      r[i] == EntityOf(cs[i].id, cs[i].name, CityType, Some(cs[i].countryId), Some(cs[i].regionId))
  {
    seq(|cs|, i requires 0 <= i < |cs| =>
      EntityOf(cs[i].id, cs[i].name, CityType, Some(cs[i].countryId), Some(cs[i].regionId)))
  }

  /** The order of the pass: every country, then every region, then every city. */
  function Entities(t: Tables): seq<Entity> {
    CountryEntities(t.countries) + RegionEntities(t.regions) + CityEntities(t.cities)
  }

  /** Some row of s names geoname id `id` in language lg (of whatever type). */
  predicate HasRow(s: seq<AltName>, id: int, lg: string) {
    exists i :: 0 <= i < |s| && s[i].geonameId == id && s[i].language == lg
  }

  /** A Python value as the guard of the pass sees it: a number, or an entry of `types` such as `(2, 'region')`. */
  datatype PyValue = Number(n: int) | Pair(code: int, name: string)

  /** The entry `t` of `types` for a type. */
  function TypeEntry(t: GeoType): (v: PyValue)
    ensures v.Pair? && v.code == t.Code()
  {
    Pair(t.Code(), if t == CountryType then "country" else if t == RegionType then "region" else "city")
  }

  /** The guards as written, `t == 2 or t == 3` and `t == 3`: a pair never equals a number. */
  predicate SetsCountryAsWritten(t: GeoType) {
    TypeEntry(t) == Number(2) || TypeEntry(t) == Number(3)
  }

  predicate SetsRegionAsWritten(t: GeoType) {
    TypeEntry(t) == Number(3)
  }

  /**
   * The row the pass adds, with the guards as written: the record's name
   * and its slug, preferred and short, neither colloquial nor historic, not
   * main, no crc or url.
   */
  function NewRowAsWritten(e: Entity, lg: string): (r: AltName)
    ensures r.geonameId == e.id && r.language == lg && r.name == e.name && r.slug == e.slug
    ensures r.geoType == e.geoType && !r.isMain && r.isPreferred && r.isShort && !r.isColloquial && !r.isHistoric
    ensures r.crc == "" && r.url == ""
  {
    var countryId := if SetsCountryAsWritten(e.geoType) then e.countryId else None;
    var regionId := if SetsCountryAsWritten(e.geoType) && SetsRegionAsWritten(e.geoType) then e.regionId else None;
    AltName(e.id, countryId, regionId, lg, "", "", e.name, e.slug, e.geoType,
            false, true, true, false, false)
  }

  /** As written, a row added for a region of a country still has no country. */
  lemma NewRowAsWrittenDropsCountry()
    ensures var e := EntityOf(2950157, "Berlin", RegionType, Some(2921044), None);
      e.countryId.Some? && NewRowAsWritten(e, "de").countryId.None?
  {
    var e := EntityOf(2950157, "Berlin", RegionType, Some(2921044), None);
    assert TypeEntry(e.geoType) != Number(2) && TypeEntry(e.geoType) != Number(3);
  }

  /** As written, no added row ever gets a country or a region. */
  lemma NewRowAsWrittenNeverFills(e: Entity, lg: string)
    ensures NewRowAsWritten(e, lg).countryId.None? && NewRowAsWritten(e, lg).regionId.None?
  {
    assert TypeEntry(e.geoType).Pair?;
  }

  /** The guards as intended, `t[0] == 2 or t[0] == 3` and `t[0] == 3`. */
  predicate SetsCountry(t: GeoType) {
    TypeEntry(t).code == 2 || TypeEntry(t).code == 3
  }

  predicate SetsRegion(t: GeoType) {
    TypeEntry(t).code == 3
  }

  /**
   * The row the pass adds: the record's name and its slug, preferred and
   * short, not main, no crc or url; the row of a region or a city carries
   * the record's country, the row of a city also its region.
   */
  function NewRow(e: Entity, lg: string): (r: AltName)
    ensures r.geonameId == e.id && r.language == lg && r.name == e.name && r.slug == e.slug
    ensures r.geoType == e.geoType && !r.isMain && r.isPreferred && r.isShort && !r.isColloquial && !r.isHistoric
    ensures r.crc == "" && r.url == ""
    ensures r.countryId == (if e.geoType == CountryType then None else e.countryId)
    ensures r.regionId == (if e.geoType == CityType then e.regionId else None)
  {
    var countryId := if SetsCountry(e.geoType) then e.countryId else None;
    var regionId := if SetsCountry(e.geoType) && SetsRegion(e.geoType) then e.regionId else None;
    AltName(e.id, countryId, regionId, lg, "", "", e.name, e.slug, e.geoType,
            false, true, true, false, false)
  }

  /** How the pass builds the row it adds for a record and a language. */
  type Builder = (Entity, string) -> AltName

  /** The row is the record's, in the language: all that the pass relies on. */
  ghost predicate Builds(mk: Builder) {
    forall e: Entity, lg: string :: mk(e, lg).geonameId == e.id && mk(e, lg).language == lg
  }

  lemma BuildsAsWritten()
    ensures Builds(NewRowAsWritten)
  {
  }

  lemma BuildsCorrected()
    ensures Builds(NewRow)
  {
  }

  /** The rows added for one record: one per language without a row in the snapshot, in language order. */
  function RowsFor(snap: seq<AltName>, e: Entity, langs: seq<string>, mk: Builder): seq<AltName>
    decreases |langs|
  {
    if langs == [] then []
    else
      var lg := langs[|langs| - 1];
      RowsFor(snap, e, langs[..|langs| - 1], mk) + (if HasRow(snap, e.id, lg) then [] else [mk(e, lg)])
  }

  /** One more language: its row is added exactly when the snapshot has none. */
  lemma RowsForStep(snap: seq<AltName>, e: Entity, langs: seq<string>, mk: Builder, j: nat)
    requires j < |langs|
    ensures RowsFor(snap, e, langs[..j + 1], mk)
         == RowsFor(snap, e, langs[..j], mk) + (if HasRow(snap, e.id, langs[j]) then [] else [mk(e, langs[j])])
  {
    assert langs[..j + 1][..j] == langs[..j];
  }

  /** The rows added by the whole pass, record by record. */
  function Added(snap: seq<AltName>, ents: seq<Entity>, langs: seq<string>, mk: Builder): seq<AltName>
    decreases |ents|
  {
    if ents == [] then []
    else Added(snap, ents[..|ents| - 1], langs, mk) + RowsFor(snap, ents[|ents| - 1], langs, mk)
  }

  /** Some language of langs had no row for e in the snapshot, and x is the row made for it. */
  predicate MadeFor(snap: seq<AltName>, e: Entity, langs: seq<string>, mk: Builder, x: AltName) {
    exists lg :: lg in langs && !HasRow(snap, e.id, lg) && x == mk(e, lg)
  }

  lemma {:induction false} RowsForMade(snap: seq<AltName>, e: Entity, langs: seq<string>, mk: Builder, x: AltName)
    requires x in RowsFor(snap, e, langs, mk)
    ensures MadeFor(snap, e, langs, mk, x)
    decreases |langs|
  {
    var init := langs[..|langs| - 1];
    var lg := langs[|langs| - 1];
    if x in RowsFor(snap, e, init, mk) {
      RowsForMade(snap, e, init, mk, x);
      var l :| l in init && !HasRow(snap, e.id, l) && x == mk(e, l);
      assert l in langs;
    } else {
      assert lg in langs;
    }
  }

  /** Every added row is the row made for a record and a language that had no row before the pass. */
  lemma {:induction false} AddedOnlyMissing(snap: seq<AltName>, ents: seq<Entity>, langs: seq<string>, mk: Builder, x: AltName)
    requires x in Added(snap, ents, langs, mk)
    ensures exists e :: e in ents && MadeFor(snap, e, langs, mk, x)
    decreases |ents|
  {
    var init := ents[..|ents| - 1];
    var e := ents[|ents| - 1];
    if x in Added(snap, init, langs, mk) {
      AddedOnlyMissing(snap, init, langs, mk, x);
      var d :| d in init && MadeFor(snap, d, langs, mk, x);
      assert d in ents;
    } else {
      RowsForMade(snap, e, langs, mk, x);
      assert e in ents;
    }
  }

  lemma {:induction false} RowsForComplete(snap: seq<AltName>, e: Entity, langs: seq<string>, mk: Builder, lg: string)
    requires Builds(mk) && lg in langs
    ensures HasRow(snap + RowsFor(snap, e, langs, mk), e.id, lg)
    decreases |langs|
  {
    var init := langs[..|langs| - 1];
    var last := langs[|langs| - 1];
    var r := RowsFor(snap, e, langs, mk);
    if HasRow(snap, e.id, lg) {
      var i :| 0 <= i < |snap| && snap[i].geonameId == e.id && snap[i].language == lg;
      assert (snap + r)[i] == snap[i];
    } else if lg == last {
      assert r[|r| - 1] == mk(e, lg);
      assert (snap + r)[|snap| + |r| - 1] == mk(e, lg);
    } else {
      assert langs == init + [last];
      assert lg in init;
      RowsForComplete(snap, e, init, mk, lg);
      var i :| 0 <= i < |snap + RowsFor(snap, e, init, mk)| && (snap + RowsFor(snap, e, init, mk))[i].geonameId == e.id
        && (snap + RowsFor(snap, e, init, mk))[i].language == lg;
      assert (snap + r)[i] == (snap + RowsFor(snap, e, init, mk))[i];
    }
  }

  /** A row that is there stays there when rows are appended. */
  lemma HasRowAppend(s: seq<AltName>, m: seq<AltName>, t: seq<AltName>, id: int, lg: string)
    requires HasRow(s + m, id, lg)
    ensures HasRow(s + (m + t), id, lg)
  {
    var i :| 0 <= i < |s + m| && (s + m)[i].geonameId == id && (s + m)[i].language == lg;
    assert (s + (m + t))[i] == (s + m)[i];
  }

  /** A row that is there stays there when rows are inserted. */
  lemma HasRowInsert(s: seq<AltName>, m: seq<AltName>, t: seq<AltName>, id: int, lg: string)
    requires HasRow(s + t, id, lg)
    ensures HasRow(s + (m + t), id, lg)
  {
    var i :| 0 <= i < |s + t| && (s + t)[i].geonameId == id && (s + t)[i].language == lg;
    if i < |s| {
      assert (s + (m + t))[i] == (s + t)[i];
    } else {
      assert (s + (m + t))[i + |m|] == (s + t)[i];
    }
  }

  /** After the pass every record has a row in every configured language. */
  lemma {:induction false} AddedComplete(snap: seq<AltName>, ents: seq<Entity>, langs: seq<string>, mk: Builder, e: Entity, lg: string)
    requires Builds(mk) && e in ents && lg in langs
    ensures HasRow(snap + Added(snap, ents, langs, mk), e.id, lg)
    decreases |ents|
  {
    var k :| 0 <= k < |ents| && ents[k] == e;
    var init := ents[..|ents| - 1];
    var a := Added(snap, init, langs, mk);
    var b := RowsFor(snap, ents[|ents| - 1], langs, mk);
    if k == |ents| - 1 {
      RowsForComplete(snap, e, langs, mk, lg);
      HasRowInsert(snap, a, b, e.id, lg);
    } else {
      assert init[k] == e;
      AddedComplete(snap, init, langs, mk, e, lg);
      HasRowAppend(snap, a, b, e.id, lg);
    }
    assert Added(snap, ents, langs, mk) == a + b;
  }

  lemma {:induction false} RowsForNone(snap: seq<AltName>, e: Entity, langs: seq<string>, mk: Builder)
    ensures RowsFor(snap, e, langs, mk) == [] <==> forall lg :: lg in langs ==> HasRow(snap, e.id, lg)
    decreases |langs|
  {
    if langs != [] {
      var init := langs[..|langs| - 1];
      RowsForNone(snap, e, init, mk);
      assert langs == init + [langs[|langs| - 1]];
    }
  }

  /** The pass adds nothing exactly when every record already has a row in every language. */
  lemma {:induction false} AddedNone(snap: seq<AltName>, ents: seq<Entity>, langs: seq<string>, mk: Builder)
    ensures Added(snap, ents, langs, mk) == [] <==>
      forall e, lg :: e in ents && lg in langs ==> HasRow(snap, e.id, lg)
    decreases |ents|
  {
    if ents != [] {
      var init := ents[..|ents| - 1];
      var last := ents[|ents| - 1];
      AddedNone(snap, init, langs, mk);
      RowsForNone(snap, last, langs, mk);
      assert ents == init + [last];
    }
  }

  /** Running the pass a second time adds nothing. */
  lemma FillUpIdempotent(snap: seq<AltName>, ents: seq<Entity>, langs: seq<string>, mk: Builder)
    requires Builds(mk)
    ensures Added(snap + Added(snap, ents, langs, mk), ents, langs, mk) == []
  {
    var after := snap + Added(snap, ents, langs, mk);
    forall e, lg | e in ents && lg in langs
      ensures HasRow(after, e.id, lg)
    {
      AddedComplete(snap, ents, langs, mk, e, lg);
    }
    AddedNone(after, ents, langs, mk);
  }

  lemma CountryEntityOwner(cs: seq<Country>, e: Entity)
    requires e in CountryEntities(cs)
    ensures e.geoType == CountryType && e.countryId.None? && e.regionId.None?
  {
    var i :| 0 <= i < |cs| && CountryEntities(cs)[i] == e;
  }

  lemma RegionEntityOwner(rs: seq<Region>, e: Entity)
    requires e in RegionEntities(rs)
    ensures e.geoType == RegionType && e.regionId.None?
    ensures exists r :: r in rs && r.id == e.id && e.countryId == Some(r.countryId)
  {
    var i :| 0 <= i < |rs| && RegionEntities(rs)[i] == e;
    assert rs[i] in rs;
  }

  lemma CityEntityOwner(cs: seq<City>, e: Entity)
    requires e in CityEntities(cs)
    ensures e.geoType == CityType
    ensures exists c :: c in cs && c.id == e.id && e.countryId == Some(c.countryId) && e.regionId == Some(c.regionId)
  {
    var i :| 0 <= i < |cs| && CityEntities(cs)[i] == e;
    assert cs[i] in cs;
  }

  /** The country and region ids of a record, as the pass reads them. */
  lemma EntityOwners(t: Tables, e: Entity)
    requires e in Entities(t)
    ensures e.geoType == CountryType ==> e.countryId.None? && e.regionId.None?
    ensures e.geoType == RegionType ==>
      e.regionId.None? && exists r :: r in t.regions && r.id == e.id && e.countryId == Some(r.countryId)
    ensures e.geoType == CityType ==>
      exists c :: c in t.cities && c.id == e.id && e.countryId == Some(c.countryId) && e.regionId == Some(c.regionId)
  {
    var cs, rs, ys := CountryEntities(t.countries), RegionEntities(t.regions), CityEntities(t.cities);
    assert e in cs || e in rs || e in ys;
    if e in cs {
      CountryEntityOwner(t.countries, e);
    } else if e in rs {
      RegionEntityOwner(t.regions, e);
    } else {
      CityEntityOwner(t.cities, e);
    }
  }

  /**
   * Every row the pass adds for a country has no country or region; every
   * row for a region carries that region's country; every row for a city
   * carries that city's country and region.
   */
  lemma AddedOwners(snap: seq<AltName>, t: Tables, langs: seq<string>, x: AltName)
    requires x in Added(snap, Entities(t), langs, NewRow)
    ensures x.geoType == CountryType ==> x.countryId.None? && x.regionId.None?
    ensures x.geoType == RegionType ==>
      x.regionId.None? && exists r :: r in t.regions && r.id == x.geonameId && x.countryId == Some(r.countryId)
    ensures x.geoType == CityType ==>
      exists c :: c in t.cities && c.id == x.geonameId && x.countryId == Some(c.countryId) && x.regionId == Some(c.regionId)
  {
    AddedOnlyMissing(snap, Entities(t), langs, NewRow, x);
    var e :| e in Entities(t) && MadeFor(snap, e, langs, NewRow, x);
    var lg :| lg in langs && !HasRow(snap, e.id, lg) && x == NewRow(e, lg);
    EntityOwners(t, e);
  }

  /** As written, no row the pass adds carries a country or a region. */
  lemma AddedAsWrittenUnowned(snap: seq<AltName>, ents: seq<Entity>, langs: seq<string>, x: AltName)
    requires x in Added(snap, ents, langs, NewRowAsWritten)
    ensures x.countryId.None? && x.regionId.None?
  {
    AddedOnlyMissing(snap, ents, langs, NewRowAsWritten, x);
    var e :| e in ents && MadeFor(snap, e, langs, NewRowAsWritten, x);
    var lg :| lg in langs && !HasRow(snap, e.id, lg) && x == NewRowAsWritten(e, lg);
    NewRowAsWrittenNeverFills(e, lg);
  }
}

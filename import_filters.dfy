/**
 * The row-level rules of the importer: how a dataset's lines become rows of
 * fields, which rows become Country, Region, City and AltName records, the
 * code- and id-keyed indexes the rules consult, and how saving a record
 * changes a table.
 */
module ImportFilters {
  import opened Optional
  import opened Text
  import opened Records

  /** The place classifications imported as cities. */
  const CityTypes: seq<string> := ["PPL", "PPLA", "PPLC", "PPLA2", "PPLA3", "PPLA4"]

  // ---------------------------------------------------------------------------
  // Lines to rows

  /** A line the parser passes over: empty, or a comment. */
  predicate IsSkippedLine(line: string) {
    |line| < 1 || line[0] == '#'
  }

  /** The line split on tabs, each field stripped. */
  function Fields(line: string): (row: seq<string>)
    ensures |row| == Count(line, '\t') + 1
  {
    var parts := Split(line, '\t');
    seq(|parts|, i requires 0 <= i < |parts| => Strip(parts[i]))
  }

  lemma StripDrops(s: string, c: char)
    requires c !in s
    ensures c !in Strip(s)
  {
  }

  /** Every field of a row is free of tabs and of surrounding whitespace, and the fields are the line's tab-separated parts in order. */
  lemma FieldsAreClean(line: string)
    ensures forall i :: 0 <= i < |Fields(line)| ==>
      && '\t' !in Fields(line)[i]
      && Strip(Fields(line)[i]) == Fields(line)[i]
      && Fields(line)[i] == Strip(Split(line, '\t')[i])
  {
    var parts := Split(line, '\t');
    forall i | 0 <= i < |parts|
      ensures '\t' !in Strip(parts[i]) && Strip(Strip(parts[i])) == Strip(parts[i])
    {
      StripDrops(parts[i], '\t');
      StripIdempotent(parts[i]);
    }
  }

  /** The generator `parse`: one row per line that is neither empty nor a comment. */
  function Parse(data: seq<string>): (rows: seq<seq<string>>)
    ensures |rows| <= |data|
  {
    if data == [] then []
    else (if IsSkippedLine(data[0]) then [] else [Fields(data[0])]) + Parse(data[1..])
  }

  /** Parsing works line by line: the rows of a concatenation are the concatenated rows. */
  lemma {:induction false} ParseAppend(a: seq<string>, b: seq<string>)
    ensures Parse(a + b) == Parse(a) + Parse(b)
  {
    if a == [] {
      assert a + b == b;
    } else {
      var ab := a + b;
      assert ab[0] == a[0] && ab[1..] == a[1..] + b;
      ParseAppend(a[1..], b);
      var h: seq<seq<string>> := if IsSkippedLine(a[0]) then [] else [Fields(a[0])];
      assert Parse(ab) == h + Parse(a[1..] + b);
      assert Parse(a) == h + Parse(a[1..]);
    }
  }

  /** A skipped line yields nothing; any other line yields exactly its fields. */
  lemma ParseLine(data: seq<string>, line: string)
    ensures Parse(data + [line]) == Parse(data) + (if IsSkippedLine(line) then [] else [Fields(line)])
  {
    ParseAppend(data, [line]);
  }

  // ---------------------------------------------------------------------------
  // Rows to records

  /** What one row does: nothing, a record to save, or an exception that ends the run. */
  datatype RowResult<T> = Skip | Keep(value: T) | Abort(fault: Fault)

  /** Python's t[1:]. */
  function DropFirst(t: string): string {
    if |t| > 0 then t[1..] else []
  }

  /**
   * A row of countryInfo.txt. Field 16 is the geoname id; a row without an
   * integer there is skipped. Saving converts the population (field 7) to an
   * integer, so a non-integer there ends the run.
   */
  function CountryFromRow(row: seq<string>): (r: RowResult<Country>)
    ensures r.Skip? <==> |row| <= 16 || PyInt(row[16]).None?
    ensures r.Abort? <==> |row| > 16 && PyInt(row[16]).Some? && PyInt(row[7]).None?
    ensures r.Keep? ==>
      && |row| > 16 && PyInt(row[16]) == Some(r.value.id)
      && r.value.code == row[0] && r.value.name == row[4]
      && PyInt(row[7]) == Some(r.value.population) && r.value.continent == row[8]
      && row[9] == (if row[9] == [] then [] else [row[9][0]]) + r.value.tld
  {
    if |row| <= 16 then Skip
    else match PyInt(row[16])
      case None => Skip
      case Some(id) =>
        match PyInt(row[7])
        case None => Abort(ValueError(row[7]))
        case Some(population) =>
          assert row[9] != [] ==> row[9] == [row[9][0]] + row[9][1..];
          Keep(Country(id, row[4], row[0], population, row[8], DropFirst(row[9])))
  }

  /**
   * A row of admin1CodesASCII.txt: code, name, ascii name, geoname id. The
   * region belongs to the country whose code is the part of its own code
   * before the first '.'; without such a country the row is skipped.
   */
  function RegionFromRow(row: seq<string>, countryIndex: map<string, int>): (r: RowResult<Region>)
    ensures r.Abort? <==> |row| < 4 || PyInt(row[3]).None?
    ensures r.Keep? <==> |row| >= 4 && PyInt(row[3]).Some? && CodePrefix(row[0]) in countryIndex
    ensures r.Keep? ==>
      && PyInt(row[3]) == Some(r.value.id) && r.value.code == row[0] && r.value.name == row[1]
      && r.value.countryId == countryIndex[CodePrefix(row[0])]
  {
    if |row| < 4 then Abort(IndexError)
    else match PyInt(row[3])
      case None => Abort(ValueError(row[3]))
      case Some(id) =>
        var prefix := CodePrefix(row[0]);
        if prefix in countryIndex then Keep(Region(id, row[1], row[0], countryIndex[prefix]))
        else Skip
  }

  /** The region-index key of a city row: upper-cased country code, '.', admin1 code. */
  function CityRegionCode(row: seq<string>): string
    requires |row| > 10
  {
    Upper(row[8]) + "." + row[10]
  }

  /**
   * A row of cities15000.txt. Only the populated-place classifications of
   * CityTypes (field 7) are cities; the country (field 8) and the region
   * (CityRegionCode) must be in the indexes, or the row is skipped. A short
   * row, a non-integer id (field 0) or population (field 14) ends the run.
   */
  function CityFromRow(row: seq<string>, countryIndex: map<string, int>, regionIndex: map<string, int>)
    : (r: RowResult<City>)
    ensures r.Keep? <==>
      && |row| > 14 && row[7] in CityTypes && PyInt(row[0]).Some?
      && row[8] in countryIndex && CityRegionCode(row) in regionIndex && PyInt(row[14]).Some?
    ensures r.Skip? <==>
      && |row| > 7
      && (|| row[7] !in CityTypes
          || (PyInt(row[0]).Some? && |row| > 14
              && (row[8] !in countryIndex || CityRegionCode(row) !in regionIndex)))
    ensures r.Keep? ==>
      && PyInt(row[0]) == Some(r.value.id) && r.value.name == row[1]
      && r.value.lat == row[4] && r.value.lng == row[5]
      && PyInt(row[14]) == Some(r.value.population)
      && r.value.countryId == countryIndex[row[8]]
      && r.value.regionId == regionIndex[CityRegionCode(row)]
  {
    if |row| <= 7 then Abort(IndexError)
    else if row[7] !in CityTypes then Skip
    else match PyInt(row[0])
      case None => Abort(ValueError(row[0]))
      case Some(id) =>
        if |row| <= 14 then Abort(IndexError)
        else if row[8] !in countryIndex then Skip
        else if CityRegionCode(row) !in regionIndex then Skip
        else match PyInt(row[14])
          case None => Abort(ValueError(row[14]))
          case Some(population) =>
            Keep(City(id, row[1], row[4], row[5], population,
                      countryIndex[row[8]], regionIndex[CityRegionCode(row)]))
  }

  /** The ids of the Country, Region and City tables, each in storage order. */
  datatype GeoIndex = GeoIndex(countryIds: seq<int>, regionIds: seq<int>, cityIds: seq<int>)

  /** The type of a geoname id: the first of country, region, city whose id list holds it. */
  function Classify(id: int, geo: GeoIndex): (t: Option<GeoType>)
    ensures t == Some(CountryType) <==> id in geo.countryIds
    ensures t == Some(RegionType) <==> id !in geo.countryIds && id in geo.regionIds
    ensures t == Some(CityType) <==> id !in geo.countryIds && id !in geo.regionIds && id in geo.cityIds
    ensures t == None <==> id !in geo.countryIds && id !in geo.regionIds && id !in geo.cityIds
  {
    if id in geo.countryIds then Some(CountryType)
    else if id in geo.regionIds then Some(RegionType)
    else if id in geo.cityIds then Some(CityType)
    else None
  }

  /**
   * A row of alternateNames.txt: alternate name id, geoname id, language,
   * name, isPreferred, isShort, isColloquial, isHistoric. Kept only when the
   * stripped name is non-empty, the language is configured, the id is
   * non-zero and known; a flag is set exactly when its field is non-empty,
   * and a fresh row is never main.
   */
  function AltNameFromRow(row: seq<string>, languages: seq<string>, geo: GeoIndex): (r: RowResult<AltName>)
    ensures r.Keep? <==>
      && |row| > 7 && Strip(row[3]) != [] && row[2] in languages
      && PyInt(row[1]).Some? && PyInt(row[1]).value != 0 && Classify(PyInt(row[1]).value, geo).Some?
    ensures r.Abort? <==>
      || |row| <= 3
      || (&& Strip(row[3]) != [] && row[2] in languages
          && (|| PyInt(row[1]).None?
              || (PyInt(row[1]).value != 0 && Classify(PyInt(row[1]).value, geo).Some? && |row| <= 7)))
    ensures r.Keep? ==>
      && Some(r.value.geonameId) == PyInt(row[1])
      && Some(r.value.geoType) == Classify(r.value.geonameId, geo)
      && r.value.language == row[2] && r.value.name == Strip(row[3])
      && r.value.slug == Slugify(r.value.name)
      && r.value.crc == [] && r.value.url == []
      && r.value.countryId == None && r.value.regionId == None
      && !r.value.isMain
      && r.value.isPreferred == (row[4] != []) && r.value.isShort == (row[5] != [])
      && r.value.isColloquial == (row[6] != []) && r.value.isHistoric == (row[7] != [])
  {
    if |row| <= 3 then Abort(IndexError)
    else
      var name := Strip(row[3]);
      if name == [] then Skip
      else if row[2] !in languages then Skip
      else match PyInt(row[1])
        case None => Abort(ValueError(row[1]))
        case Some(id) =>
          if id == 0 then Skip
          else match Classify(id, geo)
            case None => Skip
            case Some(t) =>
              if |row| <= 7 then Abort(IndexError)
              else Keep(AltName(id, None, None, row[2], "", "", name, Slugify(name), t,
                                false, row[4] != [], row[5] != [], row[6] != [], row[7] != []))
  }

  // ---------------------------------------------------------------------------
  // Indexes

  /** `index[obj.code] = obj` over a table: each code maps to the id of a record holding it. */
  function CodeIndex<T>(s: seq<T>, code: T -> string, id: T -> int): (m: map<string, int>)
    ensures m.Keys == set i | 0 <= i < |s| :: code(s[i])
    ensures forall k :: k in m ==> exists i :: 0 <= i < |s| && code(s[i]) == k && id(s[i]) == m[k]
  {
    if s == [] then map[]
    else
      var m := CodeIndex(s[..|s| - 1], code, id);
      var last := s[|s| - 1];
      assert forall i :: 0 <= i < |s| - 1 ==> s[..|s| - 1][i] == s[i];
      m[code(last) := id(last)]
  }

  function CountryIndex(cs: seq<Country>): map<string, int> {
    CodeIndex(cs, (c: Country) => c.code, (c: Country) => c.id)
  }

  function RegionIndex(rs: seq<Region>): map<string, int> {
    CodeIndex(rs, (r: Region) => r.code, (r: Region) => r.id)
  }

  function CountryIds(cs: seq<Country>): seq<int> {
    seq(|cs|, i requires 0 <= i < |cs| => cs[i].id)
  }

  function RegionIds(rs: seq<Region>): seq<int> {
    seq(|rs|, i requires 0 <= i < |rs| => rs[i].id)
  }

  function CityIds(cs: seq<City>): seq<int> {
    seq(|cs|, i requires 0 <= i < |cs| => cs[i].id)
  }

  function GeoIndexOf(t: Tables): GeoIndex {
    GeoIndex(CountryIds(t.countries), RegionIds(t.regions), CityIds(t.cities))
  }

  // ---------------------------------------------------------------------------
  // Saving into a table

  function IdSet<T>(s: seq<T>, id: T -> int): set<int> {
    set i | 0 <= i < |s| :: id(s[i])
  }

  ghost predicate UniqueIds<T>(s: seq<T>, id: T -> int) {
    forall i, j :: 0 <= i < j < |s| ==> id(s[i]) != id(s[j])
  }

  function IndexOfId<T>(s: seq<T>, id: T -> int, x: int): (r: Option<nat>)
    ensures r.Some? ==> r.value < |s| && id(s[r.value]) == x
    ensures r.None? ==> forall j :: 0 <= j < |s| ==> id(s[j]) != x
  {
    if s == [] then None
    else if id(s[0]) == x then Some(0)
    else match IndexOfId(s[1..], id, x)
      case None => None
      case Some(k) => Some(k + 1)
  }

  /**
   * `save()` of a record whose primary key is set: the row with that id is
   * updated, or the record is appended. The set of ids grows by the saved
   * id, distinct ids stay distinct, and every row with another id stays.
   */
  function Upsert<T>(s: seq<T>, x: T, id: T -> int): (r: seq<T>)
    ensures x in r
    ensures IdSet(r, id) == IdSet(s, id) + {id(x)}
    ensures UniqueIds(s, id) ==> UniqueIds(r, id)
    ensures forall j :: 0 <= j < |s| && id(s[j]) != id(x) ==> s[j] in r
  {
    match IndexOfId(s, id, id(x))
    case None =>
      var r := s + [x];
      assert r[|s|] == x;
      assert forall i :: 0 <= i < |s| ==> r[i] == s[i];
      assert IdSet(r, id) == IdSet(s, id) + {id(x)};
      r
    case Some(k) =>
      var r := s[k := x];
      assert r[k] == x;
      assert IdSet(r, id) == IdSet(s, id) + {id(x)} by {
        assert forall i :: 0 <= i < |s| ==> id(r[i]) == id(s[i]);
      }
      assert forall j :: 0 <= j < |s| && id(s[j]) != id(x) ==> r[j] == s[j];
      r
  }

  /** The records of the rows that are kept before the first row that ends the run. */
  function KeptBeforeAbort<T>(rows: seq<seq<string>>, f: seq<string> -> RowResult<T>): seq<T> {
    if rows == [] then []
    else match f(rows[0])
      case Skip => KeptBeforeAbort(rows[1..], f)
      case Keep(x) => [x] + KeptBeforeAbort(rows[1..], f)
      case Abort(_) => []
  }

  /** The exception of the first row that ends the run, if any. */
  function FirstAbort<T>(rows: seq<seq<string>>, f: seq<string> -> RowResult<T>): (e: Option<Fault>)
    ensures e.None? <==> forall i :: 0 <= i < |rows| ==> !f(rows[i]).Abort?
  {
    if rows == [] then None
    else match f(rows[0])
      case Abort(e) => Some(e)
      case _ => FirstAbort(rows[1..], f)
  }

  /** The import loop of Country, Region and City: each kept row is saved by id until a row ends the run. */
  function ImportRows<T>(table: seq<T>, rows: seq<seq<string>>, f: seq<string> -> RowResult<T>, id: T -> int)
    : (r: (seq<T>, Option<Fault>))
    decreases |rows|
  {
    if rows == [] then (table, None)
    else match f(rows[0])
      case Skip => ImportRows(table, rows[1..], f, id)
      case Keep(x) => ImportRows(Upsert(table, x, id), rows[1..], f, id)
      case Abort(e) => (table, Some(e))
  }

  /** One turn of the import loop: row i decides how the rest of the run goes on. */
  lemma ImportRowsAt<T>(table: seq<T>, rows: seq<seq<string>>, f: seq<string> -> RowResult<T>, id: T -> int, i: nat)
    requires i < |rows|
    ensures var r := f(rows[i]);
      ImportRows(table, rows[i..], f, id)
      == if r.Skip? then ImportRows(table, rows[i + 1..], f, id)
         else if r.Keep? then ImportRows(Upsert(table, r.value, id), rows[i + 1..], f, id)
         else (table, Some(r.fault))
  {
    assert rows[i..][0] == rows[i] && rows[i..][1..] == rows[i + 1..];
  }

  lemma IdSetCons<T>(x: T, rest: seq<T>, id: T -> int)
    ensures IdSet([x] + rest, id) == {id(x)} + IdSet(rest, id)
  {
    var k := [x] + rest;
    assert id(k[0]) == id(x);
    forall v | v in IdSet(rest, id)
      ensures v in IdSet(k, id)
    {
      var i :| 0 <= i < |rest| && id(rest[i]) == v;
      assert id(k[i + 1]) == v;
    }
    forall v | v in IdSet(k, id)
      ensures v in {id(x)} + IdSet(rest, id)
    {
      var i :| 0 <= i < |k| && id(k[i]) == v;
      if i > 0 {
        assert id(rest[i - 1]) == v;
      }
    }
  }

  /** After the import the table holds exactly its old ids plus those of the records kept before the run ended. */
  lemma {:induction false} ImportRowsIds<T>(table: seq<T>, rows: seq<seq<string>>,
                                            f: seq<string> -> RowResult<T>, id: T -> int)
    ensures IdSet(ImportRows(table, rows, f, id).0, id) == IdSet(table, id) + IdSet(KeptBeforeAbort(rows, f), id)
    decreases |rows|
  {
    if rows != [] {
      match f(rows[0])
      case Skip =>
        ImportRowsIds(table, rows[1..], f, id);
      case Keep(x) =>
        ImportRowsIds(Upsert(table, x, id), rows[1..], f, id);
        IdSetCons(x, KeptBeforeAbort(rows[1..], f), id);
      case Abort(_) =>
    }
  }

  /** Saving by primary key keeps the ids of a table distinct. */
  lemma {:induction false} ImportRowsUnique<T>(table: seq<T>, rows: seq<seq<string>>,
                                               f: seq<string> -> RowResult<T>, id: T -> int)
    requires UniqueIds(table, id)
    ensures UniqueIds(ImportRows(table, rows, f, id).0, id)
    decreases |rows|
  {
    if rows != [] {
      match f(rows[0])
      case Skip =>
        ImportRowsUnique(table, rows[1..], f, id);
      case Keep(x) =>
        ImportRowsUnique(Upsert(table, x, id), rows[1..], f, id);
      case Abort(_) =>
    }
  }

  /** Every row after the import is an old row or a record kept from the data. */
  lemma {:induction false} ImportRowsFrom<T>(table: seq<T>, rows: seq<seq<string>>,
                                             f: seq<string> -> RowResult<T>, id: T -> int, y: T)
    requires y in ImportRows(table, rows, f, id).0
    ensures y in table || y in KeptBeforeAbort(rows, f)
    decreases |rows|
  {
    if rows != [] {
      match f(rows[0])
      case Skip =>
        ImportRowsFrom(table, rows[1..], f, id, y);
      case Keep(x) =>
        var u := Upsert(table, x, id);
        ImportRowsFrom(u, rows[1..], f, id, y);
        if y in u {
          UpsertFrom(table, x, id, y);
        }
      case Abort(_) =>
    }
  }

  /** A row of the old table whose id no kept record carries is still in the table after the import. */
  lemma {:induction false} ImportRowsKeepsOld<T>(table: seq<T>, rows: seq<seq<string>>,
                                                 f: seq<string> -> RowResult<T>, id: T -> int, y: T)
    requires y in table && id(y) !in IdSet(KeptBeforeAbort(rows, f), id)
    ensures y in ImportRows(table, rows, f, id).0
    decreases |rows|
  {
    if rows != [] {
      match f(rows[0])
      case Skip =>
        ImportRowsKeepsOld(table, rows[1..], f, id, y);
      case Keep(x) =>
        IdSetCons(x, KeptBeforeAbort(rows[1..], f), id);
        var k :| 0 <= k < |table| && table[k] == y;
        assert y in Upsert(table, x, id) by {
          assert id(table[k]) != id(x);
        }
        ImportRowsKeepsOld(Upsert(table, x, id), rows[1..], f, id, y);
      case Abort(_) =>
    }
  }

  /**
   * A record kept from the data that no later kept record shares an id with
   * is in the table after the import: when several rows carry one id, the
   * last of them wins. A table whose ids were distinct then holds no other
   * row with that id.
   */
  lemma ImportRowsLast<T>(table: seq<T>, rows: seq<seq<string>>,
                          f: seq<string> -> RowResult<T>, id: T -> int, i: nat)
    requires i < |KeptBeforeAbort(rows, f)|
    requires forall j :: i < j < |KeptBeforeAbort(rows, f)| ==>
      id(KeptBeforeAbort(rows, f)[j]) != id(KeptBeforeAbort(rows, f)[i])
    ensures KeptBeforeAbort(rows, f)[i] in ImportRows(table, rows, f, id).0
    ensures UniqueIds(table, id) ==>
      forall z :: z in ImportRows(table, rows, f, id).0 && id(z) == id(KeptBeforeAbort(rows, f)[i]) ==>
        z == KeptBeforeAbort(rows, f)[i]
  {
    var r := ImportRows(table, rows, f, id).0;
    var y := KeptBeforeAbort(rows, f)[i];
    ImportRowsLastIn(table, rows, f, id, i);
    if UniqueIds(table, id) {
      ImportRowsUnique(table, rows, f, id);
      forall z | z in r && id(z) == id(y)
        ensures z == y
      {
        UniqueIdsOne(r, id, y, z);
      }
    }
  }

  /** In a table with distinct ids, two rows with the same id are the same row. */
  lemma UniqueIdsOne<T>(s: seq<T>, id: T -> int, y: T, z: T)
    requires UniqueIds(s, id) && y in s && z in s && id(y) == id(z)
    ensures y == z
  {
    var a :| 0 <= a < |s| && s[a] == y;
    var b :| 0 <= b < |s| && s[b] == z;
    if a != b {
      assert false;
    }
  }

  lemma {:induction false} ImportRowsLastIn<T>(table: seq<T>, rows: seq<seq<string>>,
                                               f: seq<string> -> RowResult<T>, id: T -> int, i: nat)
    requires i < |KeptBeforeAbort(rows, f)|
    requires forall j :: i < j < |KeptBeforeAbort(rows, f)| ==>
      id(KeptBeforeAbort(rows, f)[j]) != id(KeptBeforeAbort(rows, f)[i])
    ensures KeptBeforeAbort(rows, f)[i] in ImportRows(table, rows, f, id).0
    decreases |rows|
  {
    var kept := KeptBeforeAbort(rows, f);
    match f(rows[0])
    case Skip =>
      ImportRowsLastIn(table, rows[1..], f, id, i);
    case Keep(x) =>
      var rest := KeptBeforeAbort(rows[1..], f);
      assert kept == [x] + rest;
      if i == 0 {
        assert id(x) !in IdSet(rest, id) by {
          forall j | 0 <= j < |rest|
            ensures id(rest[j]) != id(x)
          {
            assert kept[j + 1] == rest[j];
          }
        }
        ImportRowsKeepsOld(Upsert(table, x, id), rows[1..], f, id, x);
      } else {
        forall j | i - 1 < j < |rest|
          ensures id(rest[j]) != id(rest[i - 1])
        {
          assert kept[j + 1] == rest[j] && kept[i] == rest[i - 1];
        }
        ImportRowsLastIn(Upsert(table, x, id), rows[1..], f, id, i - 1);
      }
  }

  /** The run ends exactly when some row fails, with the first failing row's exception. */
  lemma {:induction false} ImportRowsFault<T>(table: seq<T>, rows: seq<seq<string>>,
                                              f: seq<string> -> RowResult<T>, id: T -> int)
    ensures ImportRows(table, rows, f, id).1 == FirstAbort(rows, f)
    decreases |rows|
  {
    if rows != [] {
      match f(rows[0])
      case Skip =>
        ImportRowsFault(table, rows[1..], f, id);
      case Keep(x) =>
        ImportRowsFault(Upsert(table, x, id), rows[1..], f, id);
      case Abort(_) =>
    }
  }

  lemma UpsertFrom<T>(s: seq<T>, x: T, id: T -> int, y: T)
    requires y in Upsert(s, x, id)
    ensures y in s || y == x
  {
    match IndexOfId(s, id, id(x))
    case None =>
    case Some(k) =>
      var r := s[k := x];
      var j :| 0 <= j < |r| && r[j] == y;
      if j != k {
        assert s[j] == y;
      }
  }

  /** The import loop of AltName: each kept row is appended (a fresh primary key) until a row ends the run. */
  function AppendRows<T>(table: seq<T>, rows: seq<seq<string>>, f: seq<string> -> RowResult<T>)
    : (r: (seq<T>, Option<Fault>))
    decreases |rows|
  {
    if rows == [] then (table, None)
    else match f(rows[0])
      case Skip => AppendRows(table, rows[1..], f)
      case Keep(x) => AppendRows(table + [x], rows[1..], f)
      case Abort(e) => (table, Some(e))
  }

  /** One turn of the AltName import loop. */
  lemma AppendRowsAt<T>(table: seq<T>, rows: seq<seq<string>>, f: seq<string> -> RowResult<T>, i: nat)
    requires i < |rows|
    ensures var r := f(rows[i]);
      AppendRows(table, rows[i..], f)
      == if r.Skip? then AppendRows(table, rows[i + 1..], f)
         else if r.Keep? then AppendRows(table + [r.value], rows[i + 1..], f)
         else (table, Some(r.fault))
  {
    assert rows[i..][0] == rows[i] && rows[i..][1..] == rows[i + 1..];
  }

  /** Appending leaves the table's rows in place and adds exactly the kept records, in row order. */
  lemma {:induction false} AppendRowsSummary<T>(table: seq<T>, rows: seq<seq<string>>, f: seq<string> -> RowResult<T>)
    ensures AppendRows(table, rows, f) == (table + KeptBeforeAbort(rows, f), FirstAbort(rows, f))
    decreases |rows|
  {
    if rows == [] {
      assert table + [] == table;
    } else {
      match f(rows[0])
      case Skip =>
        AppendRowsSummary(table, rows[1..], f);
      case Keep(x) =>
        AppendRowsSummary(table + [x], rows[1..], f);
        assert table + [x] + KeptBeforeAbort(rows[1..], f) == table + ([x] + KeptBeforeAbort(rows[1..], f));
      case Abort(_) =>
        assert table + [] == table;
    }
  }
}

/**
 * The gazetteer's records: Country, Region and City keyed by their
 * geoname id, and AltName, one spelling of one of them in one language.
 */
module Records {
  import opened Optional

  /** AltName.type: 1 = country, 2 = region, 3 = city. */
  datatype GeoType = CountryType | RegionType | CityType {
    function Code(): int {
      match this
      case CountryType => 1
      case RegionType => 2
      case CityType => 3
    }
  }

  datatype Country = Country(
    id: int,
    name: string,
    code: string,
    population: int,
    continent: string,
    tld: string)

  /** `code` is "countrycode.regioncode"; `countryId` is the owning Country's id. */
  datatype Region = Region(id: int, name: string, code: string, countryId: int)

  /** `lat` and `lng` are kept as the dataset's text: nothing in the model computes with them. */
  datatype City = City(
    id: int,
    name: string,
    lat: string,
    lng: string,
    population: int,
    countryId: int,
    regionId: int)

  /**
   * One spelling of a Country, Region or City, in one language. `crc`
   * ("City, Region, Country") and `url` ("country/region/city") are built
   * only for the main row of a city; `countryId` and `regionId` are NULL
   * until then.
   */
  datatype AltName = AltName(
    geonameId: int,
    countryId: Option<int>,
    regionId: Option<int>,
    language: string,
    crc: string,
    url: string,
    name: string,
    slug: string,
    geoType: GeoType,
    isMain: bool,
    isPreferred: bool,
    isShort: bool,
    isColloquial: bool,
    isHistoric: bool)

  /** An exception nothing in the command catches: it ends the run. */
  datatype Fault =
    | IndexError
    | ValueError(text: string)
    | DoesNotExist(geonameId: int)
    | MultipleObjectsReturned(geonameId: int)

  /** All countries, regions, cities and alternate names, each table in storage order. */
  datatype Tables = Tables(
    countries: seq<Country>,
    regions: seq<Region>,
    cities: seq<City>,
    altNames: seq<AltName>)
}

# dtrcity geonames import and lookup views, modelled in Dafny

The `import_cities` management command fills four tables from the GeoNames
dumps: Country, Region, City and AltName. AltName holds the alternate
names of a place, one row per spelling and language. The command runs seven
passes in a fixed order:

1. import the countries;
2. import the regions, each attached to its country by the part of its code
   before the first '.';
3. import the cities of a populated-place class, each attached to its
   country and region;
4. import the alternate names in the configured languages, keeping only names
   of a known country, region or city;
5. fill up: add a name row for every record and language that has none;
6. give every record exactly one main name per language;
7. build the "City, Region, Country" text (`crc`) and the
   "country/region/city" path (`url`) of every main city name.

The first three imports save by primary key, so an existing row is
overwritten. An exception that nothing catches ends the whole command. Whatever
was saved before it stays saved.

Three JSON views read the tables:

- `city_autocomplete_crc`: crc values that begin with the query, then those
  that contain it further on, with duplicates removed;
- `cities_in_country`: (geoname id, crc) pairs of a country's cities above a
  population;
- `all_countries`: (geoname id, name) pairs of the main country names.

The model has one module per concern:

- `Text`: Python's `strip`, `split`, `join`, `int`, `str`, slicing and
  Django's `slugify`, on ASCII.
- `Records`: the four tables and the exceptions.
- `Queries`: the ORM's `count()`, `get()` and `filter(...)[0]`.
- `Sorting`: `order_by`, as an insertion sort on a text key.
- `ImportFilters`: `parse`, the row rules of the four imports, the indexes,
  and the import loops as functions.
- `FillUp`, `MainNames`, `CrcPass`: passes 5 to 7 as functions.
- `Pipeline`: the whole command as one function of the tables and the
  downloaded lines.
- `Command`: the command object as classes. A `Store` holds the four tables.
  An `ImportCommand` caches the indexes. Its methods carry the loops of the
  source, and each method is proved to leave the tables as the matching
  function of `Pipeline` says.
- `Views`: the three views and `list_uniq`.

## Model

| member | source | states |
|---|---|---|
| Text.Strip | management/commands/import_cities.py:171 | the stripped field is the text between a run of leading and a run of trailing whitespace, and neither of its ends is whitespace |
| Text.StripIdempotent | management/commands/import_cities.py:335 | stripping a name a second time changes nothing |
| Text.Split | management/commands/import_cities.py:171 | splitting on a one-character separator gives one part more than there are separators, and no part holds the separator |
| Text.JoinSplit | management/commands/import_cities.py:171 | joining the tab-separated parts with tabs gives back the line |
| Text.SplitJoin | management/commands/import_cities.py:592-593 | splitting a join of separator-free parts gives back the parts |
| Text.CodePrefix | management/commands/import_cities.py:254 | `code.split('.')[0]` is the longest prefix of the code without a '.', and the code continues with a '.' where it differs |
| Text.PyIntShow | management/commands/import_cities.py:228 | `int()` reads back every integer that `str()` writes |
| Text.PyIntBlank | management/commands/import_cities.py:228 | an empty or all-whitespace field is no integer, so a country row without a geoname id is skipped |
| Text.Slugify | management/commands/import_cities.py:375 | a slug holds only lower-case letters, digits, '_' and '-' |
| Text.SlugHasNoSlash | management/commands/import_cities.py:592-593 | no slug holds the '/' that separates the parts of a url |
| Text.PySlice | views.py:47 | `s[:n]` is a prefix of s, of length min(n, \|s\|) for n >= 0 |
| Queries.GetOne | management/commands/import_cities.py:475 | `get()` returns the one matching row, DoesNotExist when no row matches, and MultipleObjectsReturned when several do |
| Queries.GetOneAgree | management/commands/import_cities.py:581-584 | `get()` depends only on the rows its filter selects |
| Queries.FirstIn | management/commands/import_cities.py:489-490 | `filter(p)[0]` under the AltName ordering by crc picks a matching row whose crc is least, the earliest among equal crcs, and fails exactly when no row matches |
| Queries.CountIfPointwise | management/commands/import_cities.py:458 | `count()` agrees on two tables that agree row by row on the filter |
| Sorting.SortBy | views.py:24 | `order_by` returns a permutation of the rows in ascending key order |
| ImportFilters.Fields | management/commands/import_cities.py:171 | a line has one field more than it has tabs |
| ImportFilters.FieldsAreClean | management/commands/import_cities.py:171 | every field is free of tabs and of surrounding whitespace, and is the stripped tab-separated part at its position |
| ImportFilters.Parse | management/commands/import_cities.py:168-172 | the generator yields at most one row per line |
| ImportFilters.ParseAppend | management/commands/import_cities.py:168-172 | parsing works line by line: the rows of two concatenated inputs are the two row lists concatenated |
| ImportFilters.ParseLine | management/commands/import_cities.py:169-172 | an empty or '#' line yields no row, and any other line yields exactly its fields |
| ImportFilters.CountryFromRow | management/commands/import_cities.py:225-236 | a row is skipped exactly when field 16 is missing or not an integer; it ends the run exactly when the population in field 7 is not an integer; otherwise the country has that id, code, name, population and continent, and its tld is field 9 without its first character |
| ImportFilters.RegionFromRow | management/commands/import_cities.py:246-258 | a row ends the run exactly when it is shorter than 4 fields or field 3 is not an integer; it is kept exactly when the prefix of its code names an indexed country, which becomes its country; otherwise it is skipped |
| ImportFilters.CityFromRow | management/commands/import_cities.py:271-300 | a row is kept exactly when its class is a city type, its id and population are integers, and its country and `COUNTRY.admin1` region are indexed; it is skipped exactly for another class or a missing country or region; the city takes those ids, its name and its coordinates |
| ImportFilters.Classify | management/commands/import_cities.py:351-362 | a geoname id is a country when a country has it, else a region when a region has it, else a city when a city has it, else of no type |
| ImportFilters.AltNameFromRow | management/commands/import_cities.py:329-382 | a row is kept exactly when its stripped name is non-empty, its language is configured and its geoname id is a non-zero integer of a known type; it ends the run exactly when the row is too short or the id is not an integer; the kept row is not main, has no crc, url, country or region, its name is stripped, its slug is the name's slug, and its four flags are the non-emptiness of fields 4 to 7 |
| ImportFilters.CodeIndex | management/commands/import_cities.py:180-182 | the index maps exactly the codes of the table, each to the id of a record with that code |
| ImportFilters.IndexOfId | management/commands/import_cities.py:236 | the position of the row with a given primary key, or none when no row has it |
| ImportFilters.Upsert | management/commands/import_cities.py:236 | `save()` by primary key leaves the saved record in the table, adds its id to the id set, keeps distinct ids distinct, and keeps every row with another id |
| ImportFilters.FirstAbort | management/commands/import_cities.py:246-249 | there is no exception exactly when no row raises one |
| ImportFilters.ImportRowsIds | management/commands/import_cities.py:225-236 | after an import the table holds exactly its old ids plus those of the records kept before the run ended |
| ImportFilters.ImportRowsUnique | management/commands/import_cities.py:246-258 | an import keeps the primary keys of a table distinct |
| ImportFilters.ImportRowsFrom | management/commands/import_cities.py:271-300 | every row after an import is an old row or a record kept from the data |
| ImportFilters.ImportRowsKeepsOld | management/commands/import_cities.py:236 | an old row whose id no kept record carries survives the import |
| ImportFilters.ImportRowsLast | management/commands/import_cities.py:236 | when several kept records share an id, the last of them is in the table after the import, and in a table with distinct ids it is the only row with that id |
| ImportFilters.ImportRowsFault | management/commands/import_cities.py:246-249 | an import ends with an exception exactly when some row raises one, and with the first such row's exception |
| ImportFilters.AppendRowsSummary | management/commands/import_cities.py:329-383 | the alternate-name import keeps the old rows in place and appends exactly the records kept before the run ended, in row order |
| FillUp.NewRowAsWritten | management/commands/import_cities.py:419-438 | the row the code adds: the record's id, name and slug, the given language and type, preferred and short, neither colloquial nor historic, not main, with empty crc and url |
| FillUp.NewRowAsWrittenDropsCountry | management/commands/import_cities.py:432 | as written, the row added for a region of a country has no country |
| FillUp.NewRowAsWrittenNeverFills | management/commands/import_cities.py:432-437 | as written, no added row gets a country or a region |
| FillUp.NewRow | management/commands/import_cities.py:419-438 | the row as the guards intend it: the same fields as the row the code adds, and in addition a region's or city's row has the record's country and a city's row also its region |
| FillUp.AddedAsWrittenUnowned | management/commands/import_cities.py:432-437 | as written, no row the pass adds carries a country or a region |
| FillUp.RowsForMade | management/commands/import_cities.py:408-439 | every row added for a record is the row made for a language that had no row in the snapshot, whichever row builder is used |
| FillUp.AddedOnlyMissing | management/commands/import_cities.py:406-439 | every added row is the row made for a record and a language that had no row before the pass, for any row builder |
| FillUp.RowsForComplete | management/commands/import_cities.py:408-439 | after the languages of a record are handled, it has a row in each of them, for any row builder that keeps the record's id and the language |
| FillUp.AddedComplete | management/commands/import_cities.py:406-439 | after the pass every country, region and city has a row in every configured language, for any row builder that keeps the record's id and the language |
| FillUp.RowsForNone | management/commands/import_cities.py:411-416 | nothing is added for a record exactly when it has a row in every language |
| FillUp.AddedNone | management/commands/import_cities.py:406-416 | the pass adds nothing exactly when every record already has a row in every language |
| FillUp.FillUpIdempotent | management/commands/import_cities.py:385-439 | a second fill-up adds nothing, for any row builder that keeps the record's id and the language |
| FillUp.EntityOwners | management/commands/import_cities.py:402-404 | a country has no owner, a region has its own country, and a city has its own country and region |
| FillUp.AddedOwners | management/commands/import_cities.py:432-437 | with the intended guards, every added row of a region carries that region's country; every added row of a city carries that city's country and region; added country rows carry neither |
| MainNames.ClearMains | management/commands/import_cities.py:465-467 | clearing only drops the main flag of the pair's rows, and keeps every other field and every other row |
| MainNames.Chosen | management/commands/import_cities.py:472-524 | a row is picked exactly when the pair has one; the pick is the only row when there is one (try 1), otherwise the first short row in crc order when there is one (try 2), otherwise the first preferred row (try 3), otherwise the first row (try 4) |
| MainNames.Unmain | management/commands/import_cities.py:453-470 | step 0 without exactly one main row leaves no main row in the pair and changes nothing else |
| MainNames.MakeMain | management/commands/import_cities.py:476-477 | marking one row of a pair that has no main row leaves it exactly one |
| MainNames.SetMain | management/commands/import_cities.py:452-528 | `try_to_set_main` changes only the main flags of the pair's rows; it returns True exactly when the pair has a row, the pair then has exactly one main row, and on False nothing changes |
| MainNames.SetMainIdempotent | management/commands/import_cities.py:456-461 | a second call finds one main row and changes nothing |
| MainNames.SetMainPicksChosen | management/commands/import_cities.py:472-524 | the only main row the tries leave is the one the tries pick |
| MainNames.UnmainKeepsChosen | management/commands/import_cities.py:462-470 | clearing the main flags does not change which row the tries pick |
| MainNames.SetMainKeepsResolved | management/commands/import_cities.py:452-528 | a pair with no row or with exactly one main row stays so when another pair is set |
| MainNames.SetMainResolved | management/commands/import_cities.py:456-461 | a pair that already has one main row is left as it is |
| MainNames.MainsForEffect | management/commands/import_cities.py:532-533 | after the loop over the languages every language of the record is resolved, only main flags of those rows change, and resolved pairs stay resolved |
| MainNames.DefineMainsEffect | management/commands/import_cities.py:530-543 | after the pass every visited pair that has a row has exactly one main row; only main flags of visited pairs change, and resolved pairs stay resolved |
| MainNames.MainsForStable | management/commands/import_cities.py:532-533 | the language loop changes nothing when the record's pairs are resolved already |
| MainNames.DefineMainsStable | management/commands/import_cities.py:530-543 | the pass changes nothing when every visited pair is resolved already |
| MainNames.DefineMainsIdempotent | management/commands/import_cities.py:530-543 | running the pass twice is running it once |
| CrcPass.Filled | management/commands/import_cities.py:573-593 | the saved row differs from the row only in its country, region, crc and url; the ids are its city's, the crc fits 200 characters and the url 100 |
| CrcPass.CrcRow | management/commands/import_cities.py:566-596 | a row that is saved changes only in its country, region, crc and url, which are set and fit their columns |
| CrcPass.UrlSegments | management/commands/import_cities.py:592-593 | an untruncated url splits at '/' into exactly the country, region and city slugs, in that order |
| CrcPass.CrcBeginsWithName | management/commands/import_cities.py:587-588 | the cut crc begins with the city's name, cut alike |
| CrcPass.CrcRowMeaning | management/commands/import_cities.py:566-596 | when a row is saved, its city exists, its ids are that city's, both lookups found a main name of the right type in the row's language, its crc is "name, region name, country name" cut to 200 characters and its url the slug path of country, region and name cut to 100, so the crc begins with its own name and a url that fits splits into the three slugs |
| CrcPass.CrcRowBuilt | management/commands/import_cities.py:566-593 | a saved row carries the country and region ids of the city with its geoname id, and its crc and url are built from main country and region rows of the table, in its language, that belong to its country and region |
| CrcPass.UrlFits | management/commands/import_cities.py:593 | cutting a url that fits into 100 characters keeps its three slugs |
| CrcPass.CrcRowAgree | management/commands/import_cities.py:581-584 | the lookups of a row read only country and region rows, which the pass does not touch |
| CrcPass.CrcFromSteps | management/commands/import_cities.py:563-597 | the loop with the crc step filled in is the pass |
| CrcPass.FirstFailure | management/commands/import_cities.py:563-597 | the first main city row whose lookups fail, with every main city row before it succeeding |
| CrcPass.CrcFromResult | management/commands/import_cities.py:563-597 | from any point the loop reaches, it ends as its first failing row says |
| CrcPass.CrcPassBuilt | management/commands/import_cities.py:563-597 | after a pass without failure every main city row carries its city's country and region ids, and its crc and url are built from main country and region rows that are still in the table |
| CrcPass.KeptOffCities | management/commands/import_cities.py:563-597 | a row that is not a city's is still in the table after a pass without failure |
| CrcPass.CrcPassResult | management/commands/import_cities.py:563-597 | without a failure every main city row carries its crc and url and every other row is unchanged; at the first failing row the run ends with the rows before it saved; it ends without exception exactly when every main city row's lookups succeed |
| Pipeline.EntityIds | management/commands/import_cities.py:530-543 | the ids the main pass visits include the id of every record |
| Pipeline.FillUpCovers | management/commands/import_cities.py:92 | after the fill-up, run with the rows as the code builds them, every record has a row in every language |
| Pipeline.MainsAfterDefine | management/commands/import_cities.py:92-93 | after the fill-up and the main pass every record has exactly one main name in every language |
| Pipeline.DefineMainsResolves | management/commands/import_cities.py:530-543 | a visited pair that has a row ends with exactly one main row |
| Pipeline.CrcKeepsMains | management/commands/import_cities.py:563-597 | a crc pass without failure keeps the number of main rows of every pair |
| Pipeline.RunResult | management/commands/import_cities.py:84-94 | a command that ends without exception leaves exactly one main name per record and language, and every main city name carries the country and region ids of the city with its geoname id, and a crc and url that fit their columns and are built from main names of that country and region in its language, which are in the final table |
| Command.FindEntry | management/commands/import_cities.py:411-416 | the search through the snapshot finds an entry exactly when one has the record's id and the language |
| Command.ImportCommand.BuildCountryIndex | management/commands/import_cities.py:174-183 | a cached country index is kept; otherwise the index is built from the Country table; the other indexes are untouched |
| Command.ImportCommand.BuildRegionIndex | management/commands/import_cities.py:185-194 | the same for the region index over the Region table |
| Command.ImportCommand.BuildGeoIndex | management/commands/import_cities.py:196-216 | a cached geo index is kept; otherwise it lists the ids of the three tables in order |
| Command.ImportCommand.ImportCountry | management/commands/import_cities.py:218-237 | the Country table and the exception are those of the country import, or unchanged when the file is up to date and not forced; the other tables stay alone |
| Command.ImportCommand.ImportRegion | management/commands/import_cities.py:239-261 | the region import against the cached or freshly built country index; only the Region table changes |
| Command.ImportCommand.ImportCity | management/commands/import_cities.py:263-301 | the city import against the country and region indexes; only the City table changes |
| Command.ImportCommand.ImportAltName | management/commands/import_cities.py:303-383 | the alternate-name import against the geo index; only the AltName table changes |
| Command.ImportCommand.SaveCountries | management/commands/import_cities.py:225-236 | the loop saves exactly as the country import function says, and touches no other table |
| Command.ImportCommand.SaveRegions | management/commands/import_cities.py:246-260 | the same for the region loop |
| Command.ImportCommand.SaveCities | management/commands/import_cities.py:271-300 | the same for the city loop |
| Command.ImportCommand.AppendAltNames | management/commands/import_cities.py:329-383 | the same for the alternate-name loop |
| Command.ImportCommand.FillUpAltName | management/commands/import_cities.py:385-439 | the fill-up leaves the tables as the fill-up function says, with the rows built as the code builds them |
| Command.ImportCommand.FillUpEntities | management/commands/import_cities.py:406-407 | the loop over the records appends exactly the rows of the fill-up, record by record, built as the code builds them |
| Command.ImportCommand.FillUpEntity | management/commands/import_cities.py:408-439 | the loop over the languages appends exactly the rows of one record, built as the code builds them |
| Command.ImportCommand.ClearPairMains | management/commands/import_cities.py:465-467 | the loop over `anlist` clears the pair's main flags and nothing else |
| Command.ImportCommand.MarkMain | management/commands/import_cities.py:476-477 | `an.is_main = True; an.save()` sets the flag of that one row |
| Command.ImportCommand.TrySetMain | management/commands/import_cities.py:452-528 | the table and the result are those of `try_to_set_main` |
| Command.ImportCommand.DefineMainAltNames | management/commands/import_cities.py:441-543 | the main pass leaves the tables as the main-pass function says |
| Command.ImportCommand.DefineMainsOf | management/commands/import_cities.py:530-543 | the loops over the records and the languages |
| Command.ImportCommand.SetMainsFor | management/commands/import_cities.py:532-533 | the loop over the languages of one record |
| Command.ImportCommand.MakeCrcForMainAltNames | management/commands/import_cities.py:545-597 | the crc pass leaves the tables and the exception as the crc-pass function says |
| Command.ImportCommand.SaveCrcRows | management/commands/import_cities.py:563-597 | the loop over the rows saves each main city row as its step says, and stops at the first failure |
| Command.ImportCommand.Handle | management/commands/import_cities.py:84-94 | the seven passes in order leave the tables and the exception as the whole-command function says |
| Views.ListUniq | views.py:124-129 | the loop with its `seen` set computes `list_uniq` |
| Views.UniqFromMembers | views.py:129 | the values kept are exactly those of the list not seen before |
| Views.UniqFromDistinct | views.py:124-129 | no value is kept twice |
| Views.UniqFromUnchanged | views.py:124-129 | a list without repeats comes out unchanged |
| Views.UniqFromAppend | views.py:129 | the two halves of a list are cleaned one after the other |
| Views.UniqFromAscending | views.py:119 | cleaning an ascending list leaves it ascending |
| Views.Where | views.py:108 | `filter(p)` keeps exactly the rows that satisfy p |
| Views.FillAll | views.py:110-117 | when both lists fit into size, nothing is cut |
| Views.FillShape | views.py:110-117 | the filled list is a prefix of the first list followed by a prefix of the second; the second list contributes only when the first is taken whole; for a non-negative size the length is min(size, both lengths together) |
| Views.FillLength | views.py:110-117 | for a non-negative size the filled list has min(size, both lengths together) values |
| Views.FillCutFirst | views.py:109-112 | when a value of an ascending first list is left out, the list is the first size values of the first list alone, size of them, each at most the left-out value |
| Views.FillCutMore | views.py:112-117 | when a value of an ascending second list is left out, the list has size values and every value taken from the second list is at most the left-out value |
| Views.CityAutocompleteCrc | views.py:87-120 | the view answers as the autocomplete function says |
| Views.SortedCrcsMember | views.py:108-109 | the crc list holds exactly the crcs of the matching rows |
| Views.SortedCrcsAscending | views.py:109 | the crc list is in ascending order |
| Views.CandidatesShape | views.py:108-117 | the list before cleaning is the values beginning with q, ascending, then values containing q further on, ascending, together at most size |
| Views.CandidatesTopUp | views.py:108-117 | the list before cleaning is the first crcs of the begins-with query then the first crcs of the contains-later query; the second query tops up only when the first is taken whole; for a non-negative size it has min(size, both query lengths together) values |
| Views.CandidatesCut | views.py:107-119 | when a crc of a city row in the language containing q is missing from the cleaned list, the list before cleaning has exactly size values, every listed value of the missing crc's own group is at most it, and a missing begins-with crc means nothing from the contains-later query was listed |
| Views.UniqSplit | views.py:119 | cleaning keeps the values beginning with q before the others, each group ascending |
| Views.CandidatesFromCities | views.py:108-117 | every candidate is the crc of a city row in the language that contains q |
| Views.CleanCandidates | views.py:107-119 | the cleaned list holds distinct crcs of city rows in the language containing q, those beginning with q first, each group in order, at most size of them; when such a crc is missing, size values were taken, it sorts after every listed crc of its group, and if it begins with q no contains-later crc is listed |
| Views.AutocompleteResult | views.py:101-120 | 500 exactly for a non-integer size, or a negative size with an acceptable q; 400 exactly for a q shorter than the minimum length (at least 1); otherwise distinct crcs of city rows in the language containing q, beginning-with first, each group ascending, at most size; a crc of such a row is missing only when size values were taken, after every listed crc of its group, with no contains-later crc listed when it begins with q |
| Views.CandidatesAll | views.py:110-117 | when all matching rows fit into size, the candidates are all of them |
| Views.CandidatesComplete | views.py:107-119 | when all matching rows fit into size, every crc of a city row in the language containing q is listed |
| Views.AutocompleteComplete | views.py:87-120 | when all matching rows fit into size, the answer lists every crc of a city row in the language containing q |
| Views.SortedPairs | views.py:47 | the cut list of pairs is in key order and pairs each row's geoname id with its key |
| Views.CityRowOf | views.py:43-46 | every main city name in the language of a city of the country above the population is one of the rows the view selects |
| Views.CityItemListed | views.py:45-47 | such a name's pair is listed when all rows fit into size; when the cut leaves it out, its crc is at least that of every listed pair |
| Views.CityAnswer | views.py:43-47 | the accepted answer has min(size, number of matching rows) pairs, in crc order, each the geoname id and crc of a main city name in the language of a city of the country above the population; every such pair is listed when all fit, and one left out by the cut sorts after every listed pair |
| Views.CitiesInCountryResult | views.py:29-48 | 500 exactly for a non-integer population or size, an ambiguous country, or a negative size; 404 exactly when q is no country's id; otherwise the answer above, with its completeness and its cut |
| Views.CountryEntrySound | views.py:20-25 | every listed pair is the id and name of a main country name in the active language whose id is a country's |
| Views.CountryEntryComplete | views.py:20-25 | every such name is listed |
| Views.AllCountriesResult | views.py:20-26 | the answer is in name order and lists exactly the main country names in the active language whose id is a country's, one entry per row |

## Findings

| source | as written | input that shows it | evidently intended | confidence | as-written member | corrected member |
|---|---|---|---|---|---|---|
| management/commands/import_cities.py:432-437 | `if t == 2 or t == 3:` compares the entry `t` of `types`, a pair such as `(2, 'region')`, with a number, so it is never true, and neither is the inner `t == 3` | a region of country 2921044 with no German name: the row the fill-up adds for it in "de" gets no country | `t[0] == 2 or t[0] == 3` and `t[0] == 3`: rows added for regions and cities carry their country, city rows also their region | not executed | FillUp.NewRowAsWritten, FillUp.NewRowAsWrittenDropsCountry | FillUp.NewRow, FillUp.AddedOwners |

The command and the whole-command function build the added rows as the code
does, with `FillUp.NewRowAsWritten`. The fill-up lemmas hold for any row
builder that keeps the record's id and the language, so they cover both rows.
`FillUp.AddedOwners` proves what the intended guards give. The difference
shows only in the country and region of added region rows and of added city
rows that do not become main. The crc pass sets both ids on every main city
row anyway.

## Left out

- Downloading, the up-to-date test and reading the zip or text files are not modelled. Each import receives the file's lines and its up-to-date flag as a parameter.
- The progress `print` calls, and their own accesses to `city.country` and `city.region`, are not modelled.
- Latitude and longitude stay text. `float()` is not modelled, so a city row with a malformed coordinate is kept, where the source would raise.
- `obj.lat = city.lat` in the crc pass is not modelled. AltName has no such columns, and Django saves only declared fields.
- Regions and cities are kept in storage order, not in their model orderings (`['country', 'name']` at models.py:80, `['name']` at models.py:116). In the main pass this changes nothing. In the fill-up it changes the order in which rows are added, so added rows get their primary keys in storage order rather than in that ordering. The crc pass walks the rows by primary key (`order_by('pk')`), so when it ends at a failing row the set of rows saved before the failure can differ.
- The database collation and case-insensitive matching are modelled as code-point order and ASCII lower-casing. `slugify` works on ASCII only, without NFKD normalisation.
- Rows with equal crc are taken in storage order by `filter(...)[0]`. The database leaves their order unspecified.
- Python's `int()` is modelled on ASCII digits with a sign and surrounding whitespace. Underscores and non-ASCII digits are not accepted.
- `city_by_latlng` and the geometry it uses are not part of this model.
- Foreign keys are assumed to hold. `city.country` and `obj.country` refer to stored rows, and the crc pass looks them up by id without a separate failure.
- Command.ImportCommand.Handle: requires that no index is cached yet. This holds for a fresh command object, which is how Django runs a command.
- `settings.LANGUAGES`, `CITY_TYPES`, `CITY_AUTOCOMPELTE_MIN_LEN` and `get_language()` are not modelled. They are parameters or constants of the model.
- The three record loops of `fillup_alt_name` and `define_main_alt_names` (countries, then regions, then cities) are modelled as one loop over the records in that order.
- Step 0 of `try_to_set_main` and the `except: pass` around each try are not modelled as separate paths. Within the model, none of the queries they guard raises except through `get()` and `[0]`, whose failures are the tries' own fall-through.
- Views.CandidatesShape: states the size bound only for a non-negative size. The view answers 500 before a negative size reaches the query.
- Views.CleanCandidates: states the size bound only for a non-negative size, for the same reason.
- Views.CityAnswer: states the length only for a non-negative size, for the same reason.
- A negative `size` makes the queryset slice raise, and the view answers 500. This holds for Django's assertion in older versions and for its ValueError in newer ones.
- ImportFilters.CountryFromRow and ImportFilters.CityFromRow: keep a row with a negative population. The population columns are positive integers (models.py:63, models.py:113), so in the source `save()` (import_cities.py:236, 300) raises IntegrityError for such a row and the command ends. The database's checks are not modelled.
- Text longer than its column is kept. Such columns include a country's tld and continent (2 characters, models.py:59-61), the names of countries, regions and cities (100, models.py:53, 72, 101), their codes (20, models.py:57, 74) and an AltName's name (200, models.py:230). A database that enforces these lengths, such as PostgreSQL, raises DataError on `save()`. The crc and url are cut to their widths by the code itself, and the model does the same.
- Concurrency and transactions are not modelled. Every `save()` takes effect at once.

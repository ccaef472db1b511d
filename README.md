# geodata-br MCP service — a Dafny model

This project models the core of the geodata-br MCP server. The server answers
questions about Brazilian states and municipalities from the GeoJSON files of the
geodata-br repository. The model covers three parts:

- **The state table** (`config.py`). The constants map the 27 federative units,
  plus the whole-country entry "100", between IBGE codes, abbreviations (UF),
  names and regions. On top of them sit the resolution functions: code of an
  abbreviation or a code, state information, states of a region, file name, all
  states and the state count.
- **The utilities** (`utils.py`):
  - the module-level GeoJSON cache;
  - accent folding and `normalize_text`;
  - search by name, exact or normalised, and search by IBGE id;
  - the name and id projections;
  - bounding boxes;
  - structure validation, feature counting and the document summary.
- **The tool bodies** (`server.py`), over an abstract environment:
  - the data root and whether it exists;
  - the listing of the `geojson` directory;
  - a map from path to parsed document.

Each module is one Dafny file:

- `wrappers.dfy`: Option, Result and the error kinds the source raises.
- `text.dfy`: the Python string built-ins the source relies on (upper, lower,
  strip, substring test, split, join, sorting).
- `json.dfy`: parsed JSON values and dictionary access with defaults.
- `config.dfy`, `normalize.dfy`, `cache.dfy`, `search.dfy`, `bounds.dfy`,
  `validate.dfy`, `server.dfy`: the source modules.

The code that works step by step is modelled as methods with loops:

- the cache is a class whose `Load` updates its dictionary;
- the replace loop of `normalize_text`;
- the search loops;
- the summary's geometry-type loop;
- each tool.

Each method is proved equal to a specification function. The properties are
proved about those functions. Pure lookups stay functions.

## Model

| member | source | states |
|---|---|---|
| Config.StateToIbgeInverts | src/geodata_br_mcp/config.py:10-49 | STATE_TO_IBGE is the exact inverse of IBGE_TO_STATE on abbreviations, in both directions (no code or abbreviation repeats in the literal) |
| Config.TableSizes | src/geodata_br_mcp/config.py:10-49 | both tables hold 28 entries: 27 units plus "100" |
| Config.KeysAreDigitsOrWords | src/geodata_br_mcp/config.py:10-49 | every code is all digits, every abbreviation is an upper-case word and is never also a code |
| Config.GetStateCode | src/geodata_br_mcp/config.py:105-126 | a code of the table resolves to itself; otherwise an abbreviation in any case resolves to the code whose UF is its upper-case form; it fails with "UF ou código IBGE inválido: x" exactly when the input is neither |
| Config.GetStateCodeIdempotent | src/geodata_br_mcp/config.py:105-126 | resolving a resolved code gives it back |
| Config.GetStateCodeIgnoresCase | src/geodata_br_mcp/config.py:118-124 | an input and its upper-case form resolve alike |
| Config.GetStateCodeOfUf | src/geodata_br_mcp/config.py:122-126 | any casing of a state's abbreviation resolves to that state's code |
| Config.GetStateCodeExample | src/geodata_br_mcp/config.py:105-126 | "35", "sp" and "SP" all resolve to "35" |
| Config.Unresolvable | src/geodata_br_mcp/config.py:118-126 | an upper-case text that is neither a code nor an abbreviation fails with "UF ou código IBGE inválido: x" |
| Config.GetStateCodeRejects | src/geodata_br_mcp/config.py:118-126 | the unknown abbreviation "XX" and the unknown code "99" are refused with that message |
| Config.ValidateUf | src/geodata_br_mcp/config.py:81-90 | valid exactly when some state of the table has the input's upper-case form as its UF |
| Config.ValidateIbgeCode | src/geodata_br_mcp/config.py:93-102 | valid exactly when the input is the code of a row of the table; a valid code is all digits |
| Config.ValidatorsDecideResolution | src/geodata_br_mcp/config.py:81-126 | a valid code resolves to itself; otherwise the input resolves exactly when it is a valid UF |
| Config.GetStateInfo | src/geodata_br_mcp/config.py:129-144 | succeeds exactly when the input resolves; the result carries the resolved code and that entry's uf, name and region; otherwise the resolution error |
| Config.GetStateInfoRoundTrip | src/geodata_br_mcp/config.py:129-144 | looking up the returned uf or the returned code gives the same information back |
| Config.GetStatesByRegion | src/geodata_br_mcp/config.py:147-163 | an unknown region fails with the message listing the five valid regions; a known one gives one entry per abbreviation of its group, in order, each with that uf and that region |
| Config.InfoList | src/geodata_br_mcp/config.py:163 | the list succeeds exactly when every abbreviation resolves, and then holds `get_state_info` of each, in order |
| Config.InfoListFirstError | src/geodata_br_mcp/config.py:159-163 | building the list stops at the first abbreviation that does not resolve, with its error |
| Config.GetStatesByRegionSul | src/geodata_br_mcp/config.py:52-58 | "Sul" lists PR, SC, RS in that order |
| Config.GroupsAreDisjoint | src/geodata_br_mcp/config.py:52-58 | no abbreviation is in two regions |
| Config.BrazilInNoGroup | src/geodata_br_mcp/config.py:52-58 | "BR" is in no region |
| Config.EveryStateGrouped | src/geodata_br_mcp/config.py:10-58 | every unit other than "100" is listed in the group of its own region |
| Config.GroupedUf | src/geodata_br_mcp/config.py:52-58 | every grouped abbreviation resolves to a state of that region |
| Config.RegionToIbgeCodesAgree | src/geodata_br_mcp/config.py:61-63 | for each region, REGION_TO_IBGE_CODES lists the codes of the group's abbreviations, position by position, and each code's state is in that region |
| Config.GetFilenameForState | src/geodata_br_mcp/config.py:166-176 | succeeds exactly when the input resolves, and names "geojs-" + code + "-mun.json" |
| Config.FilenameOfInjective | src/geodata_br_mcp/config.py:66 | different codes give different file names |
| Config.GetAllStates | src/geodata_br_mcp/config.py:180-186 | 28 entries whose codes are the table's codes sorted as strings, each equal to `get_state_info` of its code |
| Config.GetAllStatesStartsWithBrazil | src/geodata_br_mcp/config.py:180-186 | "100" sorts first, so the country entry heads the list |
| Config.GetTotalStates | src/geodata_br_mcp/config.py:189-195 | the count without the country entry is 27 |
| Text.SortedPermutationUnique | src/geodata_br_mcp/config.py:186 | two sorted permutations of the same strings are equal, so `sorted` has one answer |
| Text.Sort | src/geodata_br_mcp/config.py:186 | the result is sorted and a permutation of the input |
| Text.StripIdempotent | src/geodata_br_mcp/utils.py:129 | stripping twice is stripping once |
| Text.StripPadded | src/geodata_br_mcp/utils.py:129 | strip removes exactly the surrounding blanks of a text with non-blank ends |
| Text.SplitAtFirst | src/geodata_br_mcp/server.py:95 | splitting "a-b" with no "-" in `a` puts `a` first and the pieces of `b` after it |
| Normalize.NormalizeText | src/geodata_br_mcp/utils.py:64-129 | the replace loop over the table, then lower and strip, yields the normalised text |
| Normalize.ApplyRowsIsFold | src/geodata_br_mcp/utils.py:125-127 | replacing row after row equals mapping each character to the value of its row, because no replacement produces a key |
| Normalize.ReplacementsShape | src/geodata_br_mcp/utils.py:74-123 | the table has 48 rows, each an accented character mapped to ASCII |
| Normalize.NormalizedIdempotent | src/geodata_br_mcp/utils.py:64-129 | normalising a normalised text changes nothing |
| Normalize.NormalizedShape | src/geodata_br_mcp/utils.py:64-129 | a normalised text has no table key, no upper-case letter and no blank at either end |
| Normalize.FoldAsciiText | src/geodata_br_mcp/utils.py:74-127 | ASCII text passes through the replace loop unchanged |
| Normalize.NormalizedExample | src/geodata_br_mcp/utils.py:64-129 | "  São Paulo  " normalises to "sao paulo" |
| GeoCache.Cache.constructor | src/geodata_br_mcp/utils.py:14 | the cache starts empty |
| GeoCache.Cache.Load | src/geodata_br_mcp/utils.py:17-46 | a hit returns the stored document; a miss reads the file, fails with "Arquivo não encontrado" or a decode error, or stores and returns the document |
| GeoCache.Cache.Size | src/geodata_br_mcp/utils.py:55-61 | the size is 0 exactly when nothing is cached |
| GeoCache.LoadSize | src/geodata_br_mcp/utils.py:30-46 | a load grows the cache by one exactly when it stores a new document, and leaves its size otherwise |
| GeoCache.Cache.Clear | src/geodata_br_mcp/utils.py:49-52 | the cache is empty afterwards and its size is 0 |
| GeoCache.ReadFile | src/geodata_br_mcp/utils.py:36-41 | reading succeeds exactly when the file exists and parses |
| GeoCache.HitReadsNoFile | src/geodata_br_mcp/utils.py:30-34 | a hit does not depend on the files and stores nothing |
| GeoCache.MissStores | src/geodata_br_mcp/utils.py:36-46 | a miss on a parsable file stores exactly one new entry |
| GeoCache.MissFailsUnchanged | src/geodata_br_mcp/utils.py:36-41 | a miss on a missing or unparsable file fails with the matching error and stores nothing |
| GeoCache.CoherentLoad | src/geodata_br_mcp/utils.py:17-46 | while the files do not change, a load returns what reading the file returns, and the cache stays coherent |
| GeoCache.LoadGrows | src/geodata_br_mcp/utils.py:17-46 | a load adds at most its own path and keeps every earlier entry |
| GeoCache.LoadTwice | src/geodata_br_mcp/utils.py:17-46 | a second load of the same path gives the same result and changes nothing |
| GeoCache.StaleAfterChange | src/geodata_br_mcp/utils.py:30-46 | after a path is cached, replacing its file does not change what the next load returns |
| Search.SearchFeaturesByName | src/geodata_br_mcp/utils.py:132-165 | the result is the features whose name matches, in input order: equal names in exact mode, normalised containment in either direction otherwise |
| Search.FilterFirst | src/geodata_br_mcp/utils.py:132-165 | the search is empty exactly when no feature matches; otherwise its first result is the first matching feature |
| Search.FilterPermutation | src/geodata_br_mcp/utils.py:132-165 | reordering the features only reorders the results |
| Search.ExactImpliesFuzzy | src/geodata_br_mcp/utils.py:132-165 | a feature found in exact mode is also found in normalised mode |
| Search.ExactWithinFuzzy | src/geodata_br_mcp/utils.py:132-165 | the positions an exact search keeps are among those a normalised search keeps |
| Search.MissingNameMatches | src/geodata_br_mcp/utils.py:132-165 | in normalised mode a feature with no name matches every term, because the empty text is contained in any text |
| Search.EmptyTermKeepsAll | src/geodata_br_mcp/utils.py:132-165 | in normalised mode the empty term keeps every feature |
| Search.FindById | src/geodata_br_mcp/utils.py:168-184 | nothing is found exactly when no feature has that id; otherwise the first feature whose id equals the code |
| Search.SearchFeaturesByIbge | src/geodata_br_mcp/utils.py:168-184 | the scan returns the first feature whose id equals the code, or nothing |
| Search.ExtractNames | src/geodata_br_mcp/utils.py:213-222 | one entry per feature: its name, "" when missing |
| Search.ExtractIds | src/geodata_br_mcp/utils.py:225-234 | one entry per feature: its id, "" when missing |
| Search.ExactCountsNames | src/geodata_br_mcp/utils.py:132-222 | an exact search returns as many features as the extracted names hold copies of the term |
| Search.IdsAgreeWithSearch | src/geodata_br_mcp/utils.py:168-234 | a non-empty code is found exactly when it is among the extracted ids, at the first position it holds there |
| Search.MissingIdDefaults | src/geodata_br_mcp/utils.py:168-234 | a feature with no id extracts as "" but is not found by the empty code |
| Bounds.Flatten | src/geodata_br_mcp/utils.py:253-266 | every flattened position is a non-empty list starting with a number |
| Bounds.FlattenItemsAppend | src/geodata_br_mcp/utils.py:262-266 | flattening a concatenation of items flattens each part, in order, and drops nothing |
| Bounds.FlattenPositions | src/geodata_br_mcp/utils.py:253-266 | a list of positions flattens to exactly those positions, in order |
| Bounds.FlattenKeepsItem | src/geodata_br_mcp/utils.py:253-266 | every position found under any item, at any depth, is in the result |
| Bounds.Points | src/geodata_br_mcp/utils.py:273-277 | every point is the point of a usable position (at least two components, both numbers) and every usable position's point is among them (as a set); no point means no usable position |
| Bounds.PointsIndices | src/geodata_br_mcp/utils.py:273-277 | the points are exactly the usable positions' points, in order: the j-th point comes from the position at an increasing index, and every usable position's index is picked |
| Bounds.Min | src/geodata_br_mcp/utils.py:276-279 | the minimum is an element and is at most every element |
| Bounds.Max | src/geodata_br_mcp/utils.py:276-279 | the maximum is an element and is at least every element |
| Bounds.BoxOf | src/geodata_br_mcp/utils.py:276-279 | the box holds every point and each of its four edges is reached by some point |
| Bounds.GetFeatureBounds | src/geodata_br_mcp/utils.py:237-279 | no box exactly when the geometry has no usable position; otherwise the bounding box of the usable positions |
| Bounds.BoundsExample | src/geodata_br_mcp/utils.py:237-279 | a ring holding a one-number position skips it and spans the others |
| Validate.ValidateStructure | src/geodata_br_mcp/utils.py:282-331 | valid exactly when there is no message; a missing type and an unknown type give their messages; a collection without "features" or with a non-list one, a feature without "geometry" or then without "properties", and a geometry without "coordinates" each give their own message, and otherwise the document is valid |
| Validate.ValidIffWellFormed | src/geodata_br_mcp/utils.py:282-331 | a document is accepted exactly when it has a known type and the fields that type needs |
| Validate.CountFeatures | src/geodata_br_mcp/utils.py:334-347 | a collection counts its feature list, a single feature counts 1, anything else 0 |
| Validate.CountOfValidCollection | src/geodata_br_mcp/utils.py:282-347 | an accepted collection counts exactly the entries of its feature list |
| Validate.GeometryTypes | src/geodata_br_mcp/utils.py:374-380 | a type is collected exactly when it is truthy and some feature's geometry has it |
| Validate.CollectGeometryTypes | src/geodata_br_mcp/utils.py:374-380 | the loop collects exactly those types |
| Validate.GetGeojsonSummary | src/geodata_br_mcp/utils.py:350-382 | the summary is type (default "Unknown") and count, plus the first feature's property keys and the geometry types of a non-empty collection |
| Validate.SummaryFacts | src/geodata_br_mcp/utils.py:350-382 | the summary's count is `count_features`; a missing type reads "Unknown"; no null or empty type is listed; the property keys appear exactly for a non-empty feature list |
| Server.GetStateFile | src/geodata_br_mcp/server.py:55-66 | succeeds exactly when the input resolves, with the path of its code's file under the data root's geojson directory |
| Server.StatePathInjective | src/geodata_br_mcp/server.py:55-66 | different codes give different paths |
| Server.LoadStateGeojson | src/geodata_br_mcp/server.py:69-72 | fails without touching the cache when the input does not resolve, and otherwise is the cached load of the state's file |
| Server.LoadStateFacts | src/geodata_br_mcp/server.py:69-72 | a state loads only its own file |
| Server.CodeOfFilename | src/geodata_br_mcp/server.py:93-95 | the file name of a code without "-" matches the glob and gives back its code |
| Server.ListStates | src/geodata_br_mcp/server.py:75-103 | fails without a data root, gives [] without a geojson directory, and otherwise lists the table's states of the matching files in sorted name order |
| Server.ListStatesFacts | src/geodata_br_mcp/server.py:85-103 | every listed entry is `get_state_info` of its code and comes from a matching name in the directory, and every table state whose file is present is listed |
| Server.StatesOfNamesIndices | src/geodata_br_mcp/server.py:93-100 | each entry comes from one of the names, the positions of those names increase, and every name whose code is in the table gives an entry |
| Server.ListStatesOrder | src/geodata_br_mcp/server.py:93-101 | the names are the matching ones sorted, and the entries follow them in that order, one per name whose code is in the table |
| Server.ListStatesIgnoresListingOrder | src/geodata_br_mcp/server.py:93 | the order in which the directory lists its files does not change the answer |
| Server.GetStateDetails | src/geodata_br_mcp/server.py:106-131 | load first; then the table information, with the municipality count when the document has features |
| Server.StateDetailsFacts | src/geodata_br_mcp/server.py:120-131 | a successful answer is the resolved state's information, with a count exactly when the document has "features", equal to the list length |
| Server.Municipalities | src/geodata_br_mcp/server.py:150-156 | one row per feature, with its id, name and description ("" when missing) |
| Server.ListMunicipalities | src/geodata_br_mcp/server.py:134-159 | the rows of the state's features, after the same load and its errors |
| Server.ListMunicipalitiesAgreesWithExtracts | src/geodata_br_mcp/server.py:147-159 | the rows agree position by position with the name and id projections |
| Server.GetMunicipalityGeojson | src/geodata_br_mcp/server.py:162-191 | the first result of the normalised name search in the state's features, or "Município '…' não encontrado em UF" |
| Server.MunicipalityGeojsonFirstMatch | src/geodata_br_mcp/server.py:179-191 | not found exactly when no feature matches; otherwise the first matching feature |
| Server.SearchMunicipalityByIbge | src/geodata_br_mcp/server.py:194-232 | checks the code length and its state prefix, loads that state's file and returns the feature with that id, with each step's error |
| Server.SearchByIbgeChain | src/geodata_br_mcp/server.py:210-232 | a short code, then an unknown prefix, then a load error, then a missing id, each give their own error; otherwise the first feature with that id |
| Server.FoundIsTruthy | src/geodata_br_mcp/server.py:226-229 | a found feature is never empty, so the truthiness test never hides a match |
| Server.SearchByIbgeLoadsPrefixOnly | src/geodata_br_mcp/server.py:214-220 | the search caches at most the file of the code's two-character prefix |
| Server.SearchByIbgeNeverLoadsBrazil | src/geodata_br_mcp/server.py:214-220 | that file is never the whole-country file |
| Server.GetBrazilGeojson | src/geodata_br_mcp/server.py:235-250 | the cached load of the file of code "100" |
| Server.BrazilLoadsItsFile | src/geodata_br_mcp/server.py:246 | the whole-country tool reads exactly "geojs-100-mun.json" |
| Server.MissingRootFailsEverywhere | src/geodata_br_mcp/server.py:44-52 | without the data root every tool fails with the same RuntimeError and leaves the cache unchanged |

## Left out

- The MCP framework is not modelled: the FastMCP application, the tool decorators, `Field` descriptions, logging and the entry point. None of them changes a result.
- The data root is a parameter of the environment: its value, read from `GEODATA_BR_PATH` at import time, and whether it exists. The file-system calls behind `Path.exists` and `glob` are abstracted, not their results: `Env.rootExists`, a `geojsonNames` of `None` and `path in files` stand for the three `exists()` checks.
- The file system is a map from path text to a parsed document. A missing key is a missing file, and `None` is text that is not valid JSON. `Path` arithmetic is a text join with "/". The parse error's message is abstracted as the path that failed.
- The directory listing is a parameter. The glob `geojs-*-mun.json` is modelled as a prefix and suffix test on the names the listing gives.
- `filter_features_by_pattern` is not part of this model. It uses Python's regular expressions, which no tool calls.
- Upper and lower case cover ASCII letters only; Python's full Unicode case mapping is not modelled. The accent table already folds every accented letter it lists to ASCII. `strip` uses Python's whitespace class in full.
- JSON values of the wrong type read as the default. Examples: a non-dictionary under "properties" or "geometry", a non-list "features", a non-string name. Python would raise an `AttributeError` or a `TypeError` there, and the model does not capture those exceptions. Three further cases: a list- or dictionary-valued geometry `type` makes `geometry_types.add` raise `TypeError` (utils.py:379), but the model collects it; string coordinates make `flatten_coords` recurse into one-character strings until `RecursionError` (utils.py:262-266), and a number or dictionary as coordinates raises on `coords[0]`, but the model's `Flatten` returns `[]` for every value that is not a list; a JSON object with a repeated key counts it twice in `Json.Keys` and `Json.Len` and reads its first value in `Json.Lookup`, while a Python dictionary keeps the key once, with the last value.
- Numbers are mathematical reals. Floating-point rounding is not modelled.
- Bounds.Points: a position whose second component is not a number is skipped. Python keeps it in `lats`: `min` and `max` raise when it cannot be compared with the others, but when every second component is a string they return strings. For coordinates `[[1, "a"]]` Python returns `(1, "a", 1, "a")`, and the model returns no box.
- Validate.ValidateStructure: a `type` that is a number, list or dictionary is rendered as "?" in the unknown-type message. Python would print its `repr`.
- Validate.GetGeojsonSummary: `geometry_types` is a set. The source's list order comes from a Python set and is unspecified.
- Validate.SummaryOf: a "features" value that is truthy but not a list is treated like an empty one.
- Json.Lookup: a document with a repeated key is read at the key's first occurrence.
- Python's recursion limit in `flatten_coords` and concurrent use of the cache are not modelled.

# City radius search — a Dafny model of `Controller`

The program reads a data file of cities. Each city takes two lines: a name, then a coordinate
line `lat <3 bytes> lon`. It keeps the cities in `m_cityCoords`, a `std::map` from name to
`(lat, lon)`. For a selected city, a radius and one of three norms (Euclidean, Chebyshev,
Manhattan), it lists the other cities within the radius, ordered by distance in a
`std::multimap<double, std::string>`. It then counts the cities of that list that lie north
of the selected city.

This project models that core:

- `Lex` (lex.dfy): the name order of `std::map<std::string, …>`. It is code-point
  lexicographic order, and the module proves it is a strict total order.
- `CityStore` (store.dfy): `m_cityCoords` as an ascending sequence of entries. It covers
  `operator[]` for reading (`Lookup`, which gives (0, 0) for an absent name) and for
  assignment (`Insert`).
- `NumberScanner` (scanner.dfy): `iss >> lat && iss.ignore(3) && iss >> lon` on one
  coordinate line. It scans a decimal number with optional sign, fraction and exponent.
  The line is a string of characters stored as UTF-8, and `ignore(3)` skips three bytes,
  not three characters. So `1€5` reads (1, 5), `1é12` reads (1, 2), and `1 °,2` is
  rejected.
- `Loader` (loader.dfy): `load_data` over the sequence of lines the file yields. It has
  both error outcomes, and the store it builds is stated against an independent
  last-write-wins map.
- `Metric` (metric.dfy): the `validateNorm` table and `computeDistance`.
- `RadiusQuery` (query.dfy): `getCitiesInRadius`, with the multimap's `emplace`. The result
  is proved to be the unique ordered list of exactly the qualifying cities.
- `NorthCount` (north.dfy): `countCitiesNorthOf`, exactly as written, and the count the
  program evidently intends.
- `Scenario` (scenario.dfy): a worked four-city example of both.

The model makes these representation choices:

- Coordinates and distances are exact reals.
- The Euclidean distance is kept squared, because Dafny's reals have no square root.
  `WithinRadius` compares it with `radius * radius` when the radius is not negative, so
  `hypot(dx, dy) <= radius` decides the same way. The square root is strictly increasing on
  non-negative reals, so the order of distances is the same too.
- A selected city that is not in the store is handled as the code handles it:
  - `m_cityCoords[city]` reads (0, 0), and the query measures from there.
  - The lookup inserts the city into the store. `RadiusQuery.StoreAfterSearch` states that
    effect.

`countCitiesNorthOf` returns 0 when the selected city is not in the result. It does not fall
back to counting the whole result. See `NorthCount.CountCitiesNorthOf` and the finding below.

## Model

| member | source | states |
|---|---|---|
| Lex.Irreflexive | include/Controller.h:23 | No name precedes itself in the map's key order. |
| Lex.Asymmetric | include/Controller.h:23 | Of two names, at most one precedes the other. |
| Lex.Transitive | include/Controller.h:23 | The key order is transitive. |
| Lex.Total | include/Controller.h:23 | Two different names are always ordered one way or the other, so the map's iteration order is defined. |
| CityStore.Lookup | src/Controller.cpp:59 | `m_cityCoords[name]` read for its value. A name with no entry reads (0, 0). `CityStore.LookupEntry` states the other half. |
| CityStore.LookupEntry | src/Controller.cpp:59 | In a valid store, reading a stored name gives exactly the coordinates of that name's entry. |
| CityStore.InsertEntry | src/Controller.cpp:32 | Inserting into the ordered entries keeps them strictly ascending. The resulting name-to-coordinates map is the old map with the name set to the new value. The entry count grows by one exactly when the name is new. |
| CityStore.Insert | src/Controller.cpp:32 | `m_cityCoords[name] = c` yields a valid store whose contents are the old contents with `name` mapped to `c`, and nothing else changed. |
| CityStore.OneEntryPerName | include/Controller.h:23 | A valid store holds exactly one entry per distinct name. |
| CityStore.Canonical | include/Controller.h:23 | Two valid stores with the same contents are identical, so the iteration order is determined by the contents alone. |
| NumberScanner.ReadDouble | src/Controller.cpp:28 | Reading a double consumes a non-empty prefix of the input. It fails when the first non-blank character cannot begin a number. |
| NumberScanner.ReadDoubleText | src/Controller.cpp:28 | Round trip: reading the text of a decimal literal, followed by anything that cannot continue a number, yields the literal's value and leaves exactly that rest. |
| NumberScanner.IgnoreBytes | src/Controller.cpp:28 | `ignore(3)` on the line's UTF-8 bytes. When it succeeds it never lengthens the input, and a positive skip always consumes something. Its meaning is stated by the four lemmas below. |
| NumberScanner.IgnoreBytesSkips | src/Controller.cpp:28 | A successful skip of n bytes leaves a suffix of the input, and the characters it passed over take exactly n bytes in UTF-8. |
| NumberScanner.IgnoreExact | src/Controller.cpp:28 | Skipping exactly the byte length of a prefix leaves what follows that prefix. |
| NumberScanner.IgnorePastEnd | src/Controller.cpp:28 | Skipping more bytes than the input holds fails, as the next extraction then meets the end of the stream. |
| NumberScanner.IgnoreInside | src/Controller.cpp:28 | A skip that ends inside a multi-byte character fails, as the next extraction then meets a continuation byte. |
| NumberScanner.ParseCoordinates | src/Controller.cpp:26-30 | The whole extraction `iss >> lat && iss.ignore(3) && iss >> lon`. A line it accepts has at least three characters. Its meaning is stated by `ParseCoordinatesText` and the `Rejects` lemmas. |
| NumberScanner.ParseCoordinatesText | src/Controller.cpp:26-30 | Round trip: a latitude literal, a separator of exactly three UTF-8 bytes (the first of which cannot continue the latitude), and a longitude literal parse to (latitude, longitude). Any text after the longitude that does not continue it is ignored. |
| NumberScanner.RejectsShortSeparator | src/Controller.cpp:28 | A line that ends fewer than three bytes after the latitude is rejected. |
| NumberScanner.RejectsSplitCharacter | src/Controller.cpp:28 | A line whose three skipped bytes end inside a multi-byte character is rejected. |
| NumberScanner.RejectsMissingLongitude | src/Controller.cpp:28 | A line with no number after the three skipped bytes is rejected. |
| NumberScanner.RejectsNonNumeric | src/Controller.cpp:28 | A line whose first non-blank character cannot start a number is rejected. |
| NumberScanner.EuroSeparator | src/Controller.cpp:28 | `1€5` parses to (1, 5): the euro sign is exactly the three skipped bytes. |
| NumberScanner.AccentSeparator | src/Controller.cpp:28 | `1é12` parses to (1, 2): `é` takes two bytes, so the skip also swallows the `1` after it. |
| NumberScanner.DegreeSeparator | src/Controller.cpp:28 | `1 °,2` is rejected: a space and `°` make the three bytes, and the comma left over is not a number. |
| NumberScanner.SplitEuro | src/Controller.cpp:28 | `1, €5` is rejected: the three skipped bytes end inside the euro sign. |
| Loader.OverwriteKeys | src/Controller.cpp:32 | Under repeated map assignment, exactly the names written become keys. |
| Loader.OverwriteLast | src/Controller.cpp:32 | Under repeated map assignment, the last write of a name decides its coordinates. |
| Loader.WritesMeaning | src/Controller.cpp:19-32 | After reading all pairs, the keys are exactly the names read. Each name holds the coordinates of its last pair. |
| Loader.LoadData | src/Controller.cpp:12-39 | Loading succeeds iff the line count is even and every coordinate line parses. It fails with "Could not parse data" iff some pair's coordinate line does not parse. It fails with "Could not read line" iff every complete pair parses and a name line is left without its coordinate line. On success the store is valid and its contents are the last-write-wins map of all pairs. Its keys are the names read, each distinct name has one entry, and each name holds its last pair's coordinates. |
| Metric.NormOfKey | src/Controller.cpp:149-155 | Keys 0, 1 and 2 select the Euclidean, Chebyshev and Manhattan norms. Every other key selects none, so the prompt is repeated. |
| Metric.Apply | src/Controller.cpp:150-152 | The three norms of the `norms` table applied to a difference vector, the Euclidean one squared. Every norm is non-negative. `NormsNested`, `PositiveApart` and `EuclideanPositiveApart` state how they relate. |
| Metric.ComputeDistance | src/Controller.cpp:169-173 | The chosen norm of `coord1 - coord2`, which is never negative. `Symmetric`, `NonNegative` and `PositiveApart` state what makes it a distance. |
| Metric.WithinRadius | src/Controller.cpp:61 | The test `distance <= radius`, on the square for the Euclidean norm. A negative radius admits no distance. `WithinRadiusSquare` shows the squared test decides as the original does. |
| Metric.WithinRadiusSquare | src/Controller.cpp:61 | A non-negative Euclidean length is within the radius exactly when its square passes the squared test, so `hypot(dx, dy) <= radius` and the model agree. |
| Metric.Symmetric | src/Controller.cpp:169-173 | The distance between two coordinates does not depend on the order of the arguments, for every norm. |
| Metric.NonNegative | src/Controller.cpp:150-152 | Every norm gives a non-negative distance, and 0 between equal coordinates. |
| Metric.PositiveApart | src/Controller.cpp:151-152 | The Chebyshev and Manhattan distances between different coordinates are positive. |
| Metric.EuclideanPositiveApart | src/Controller.cpp:150 | The (squared) Euclidean norm is at least the square of each non-zero coordinate difference, and that square is positive. |
| Metric.ChebyshevAtMostManhattan | src/Controller.cpp:151-152 | The Chebyshev distance never exceeds the Manhattan distance. |
| Metric.NormsNested | src/Controller.cpp:150-152 | The Chebyshev distance is at most the Euclidean distance, which is at most the Manhattan distance. This is stated on squares. |
| Metric.WithinRadiusMonotone | src/Controller.cpp:61 | A distance within a radius is within every larger radius. |
| Metric.WithinRadiusNested | src/Controller.cpp:61 | For one radius, a pair within the Manhattan radius is within the Euclidean radius, and a pair within the Euclidean radius is within the Chebyshev radius. |
| RadiusQuery.UpperBound | include/Controller.h:17 | The insertion point of a key in a multimap: every earlier element's key is at most the key, and the element there has a greater key. |
| RadiusQuery.Emplace | src/Controller.cpp:62 | `emplace` adds exactly the one new element and keeps all the others. |
| RadiusQuery.EmplaceOrdered | src/Controller.cpp:62 | Emplacing a city whose name follows every name present keeps the multimap ordered by (distance, name). |
| RadiusQuery.CandidatesSound | src/Controller.cpp:55-62 | Every element of the reference list comes from an entry that is not the selected city and is within the radius, at that entry's distance. |
| RadiusQuery.CandidatesComplete | src/Controller.cpp:55-62 | Every entry that is not the selected city and is within the radius contributes its element to the reference list. |
| RadiusQuery.Scan | src/Controller.cpp:51-64 | The loop over the store produces a list ordered by (distance, name) that holds exactly the elements of the reference list. |
| RadiusQuery.GetCitiesInRadius | src/Controller.cpp:48-67 | The result is ordered by distance, then name. Every listed city is another stored city within the radius, at its distance from the selected city's coordinates. Every such city is listed. |
| RadiusQuery.InResultIff | src/Controller.cpp:55-63 | A stored city is listed iff it is not the selected city and its distance is at most the radius, boundary included. The selected city is never listed, and only stored cities are. |
| RadiusQuery.OneHitPerCity | src/Controller.cpp:51-63 | No city appears twice in the result. |
| RadiusQuery.RadiusMonotone | src/Controller.cpp:61 | Growing the radius never drops a listed city. |
| RadiusQuery.NormsNestedResults | src/Controller.cpp:59-63 | For one radius, the Manhattan result's cities are among the Euclidean result's, which are among the Chebyshev result's. |
| RadiusQuery.OrderedUnique | include/Controller.h:17 | Two lists strictly ordered by (distance, name) with the same elements are equal. |
| RadiusQuery.ResultDetermined | src/Controller.cpp:48-67 | Independent description of the result: any ordered list that holds exactly the qualifying cities at their distances is the result. |
| RadiusQuery.StoreAfterSearch | src/Controller.cpp:59 | The query's lookup of the selected city leaves the store valid. It adds the selected city, at (0, 0), iff the city was absent and the store was not empty. Every other name and every lookup is unchanged. |
| RadiusQuery.SearchRepeatable | src/Controller.cpp:59 | Running the query again on the store as the first run left it gives the same result. |
| NorthCount.FindCity | src/Controller.cpp:75-78 | The search stops at the first element naming the city, or at the end when none does. |
| NorthCount.FindCityFound | src/Controller.cpp:75-81 | The search stops before the end iff the city is listed. |
| NorthCount.CountNorth | src/Controller.cpp:82-84 | The number of listed cities strictly north of a latitude is at most the list's length. |
| NorthCount.CountNorthZero | src/Controller.cpp:82-84 | The north count is 0 iff no listed city is north. |
| NorthCount.CountNorthAll | src/Controller.cpp:82-84 | The north count is the list's length iff every listed city is north. |
| NorthCount.CountNorthAppend | src/Controller.cpp:82-84 | The north count of two lists joined is the sum of their counts. |
| NorthCount.CountNorthSplit | src/Controller.cpp:82-84 | Cutting a list anywhere, the north counts of the two parts add up to the whole list's count. |
| NorthCount.CountCitiesNorthOf | src/Controller.cpp:74-88 | The count is 0 when the city is not listed, and never exceeds the number of listed cities north of it. |
| NorthCount.CountAfterFirstOccurrence | src/Controller.cpp:80-85 | When the city is listed, the count is the full north count minus the north cities up to and including the city's first occurrence. |
| NorthCount.NorthAfterSearchIsZero | src/Controller.cpp:195-196 | Counting on the radius query's own result gives 0 for every store, city, radius and norm. |
| NorthCount.CountNorthOfCity | src/Controller.cpp:83 | The intended count is at most the result's length. It is 0 iff no listed city lies north of the selected city. |
| NorthCount.IntendedCountPositive | src/Controller.cpp:83 | On the query's result, the intended count is positive iff some other stored city within the radius lies north of the selected city. |
| NorthCount.NorthListed | src/Controller.cpp:83 | A stored city other than the selected one, within the radius and north of it, makes the intended count positive. |
| NorthCount.AsWrittenMissesNorth | src/Controller.cpp:74-88 | Whenever a city within the radius lies north of the selected city, the program's count is 0 while the intended count is positive. |
| Scenario.SearchAroundA | src/Controller.cpp:48-67 | For A(0,0), B(1,0), C(0,2) and D(5,5), the Euclidean query around A with radius 2 lists B at squared distance 1, then C at 4. |
| Scenario.NorthOfAAsWritten | src/Controller.cpp:74-88 | On that result the program counts 0 cities north of A. |
| Scenario.NorthOfAIntended | src/Controller.cpp:83 | On that result the intended count is 1 (B). |

## Left out

- Opening the file and stream-level read faults (src/Controller.cpp:13-16, 36-38). `Loader.LoadData` takes the lines `std::getline` yields, so a missing file and `file.bad()` are not modelled.
- Splitting the file into lines is not modelled. A trailing `'\r'` stays part of a name, as it does in the code, but the lines are given rather than read.
- The interactive validators are not modelled: `validateInput`, `validateCity`, `validateRadius`, and the console loop of `validateNorm` (src/Controller.cpp:110-162, include/Controller.h:29-42). Only the norm table and its rejection of other keys are modelled, in `Metric.NormOfKey`. The radius and city checks would only narrow the inputs the model already handles.
- `printSearchResults` and `run` are not modelled (src/Controller.cpp:96-103, 181-204). They print text and loop on console input. Their composition of query and count is stated by `NorthCount.NorthAfterSearchIsZero`.
- IEEE-754 doubles are replaced by exact reals. This leaves out rounding in subtraction, `std::abs`, sums and `std::hypot`, and out-of-range values, infinities and NaN.
- RadiusQuery.GetCitiesInRadius: for the Euclidean norm, each hit's key is the squared distance rather than `std::hypot`'s value. Inclusion and order are the same, but the printed distance would be its square root.
- Metric.EuclideanPositiveApart: the Euclidean distance is shown positive only in terms of the two coordinate differences, not as one statement over two unequal coordinate pairs. Nonlinear real arithmetic over the pair's components is beyond what the solver proves reliably.
- NumberScanner.ReadDouble: reads decimal numbers exactly, in the grammar libstdc++'s `num_get` accepts for `double` in the "C" locale. Like that library, it reads no hexadecimal, `inf` or `nan` spelling. Out-of-range magnitudes make the stream's extraction fail, but the model accepts them. Locales with digit grouping are not modelled.
- The data file is taken to be valid UTF-8, and each character is a Unicode scalar value. A file with invalid byte sequences is not modelled.
- NorthCount.CountCitiesNorthOf: `m_cityCoords[it->second]` and `m_cityCoords[city]` at line 83 can insert absent names. The count reads their default latitude 0, but the resulting store change is not returned. On the query's own result, line 83 never runs.
- `iss.clear()` (src/Controller.cpp:33) is not modelled because it acts on a stream that is discarded.

## Findings

| source | as written | input that shows it | evidently intended | confidence | as-written member | corrected member |
|---|---|---|---|---|---|---|
| src/Controller.cpp:74-88 | The count considers only the hits after the first hit naming the selected city, and is 0 when there is none. `getCitiesInRadius` never lists the selected city, so the count printed by `run` is always 0. | Cities A(0,0), B(1,0), C(0,2), D(5,5); selected A, radius 2, Euclidean. The result is B, then C, and B lies north of A, yet the count is 0. | The number of listed cities whose latitude exceeds the selected city's: 1 for this input. | high; not executed | NorthCount.AsWrittenMissesNorth | NorthCount.CountNorthOfCity |

# Fuel Route API: fuel-stop selection and intersection clean-up

This project models the algorithmic core of the Fuel Route API in Dafny.

- **Fuel-stop selector** (`routing/services/fuel_optimizer.py`). `optimize_fuel`
  walks a route point by point and adds up segment distances. Once 450 miles
  (BUFFER) have been driven since the last refill, it asks
  `find_cheapest_station` for the cheapest station within 50 miles of the
  current point. If one is found, it records a full-tank refill there
  (`(MAX_RANGE / MPG) * price`, that is 50 gallons) and starts counting again.
  `find_cheapest_station` drops stations whose coordinates are missing,
  keeps those within the radius and returns the first one at the lowest price.
- **Intersection normaliser, batch script** (`gecode.truks.py`).
  `normalize_intersection` upper-cases the text, deletes `EXIT\s*\d+`, deletes
  commas, collapses whitespace runs and strips the ends. A missing address
  gives `""`.
- **Intersection normaliser, interactive helper** (`Geocoding.py`).
  `normalize_intersection` deletes `EXIT\s*\d+` in any case, turns commas into
  spaces, collapses whitespace and strips. `geocode_with_intersection` asks the
  geocoder for the cleaned intersection in its city and state, and falls back
  to the city alone.

Modules:

- `Wrappers`: `Option`.
- `PyText`: Python string operations on `seq<char>`: `str.upper`,
  `str.isspace`, `str.strip`, and `re.sub(r"\s+", " ", s)`.
- `ExitPattern`: `re.sub(r"EXIT\s*\d+", "", s)`, with and without
  `re.IGNORECASE`. It is a left-to-right scan into kept characters and deleted
  matches (`Piece`).
- `GecodeTruks`: the batch script's `normalize_intersection`.
- `Geocoding`: the helper's `normalize_intersection` and
  `geocode_with_intersection`.
- `FuelOptimizer`: `find_cheapest_station` and `optimize_fuel`.

Model choices:

- The geodesic distance is the parameter `dist`. It may be any function from
  two points to non-negative miles.
- The geocoder is the parameter `lookup` from a query to an optional position.
- Coordinates, distances and prices are real numbers. A coordinate that is
  `None` or NaN is `None`.
- `OptimizeFuel` is a method with the source's loop. It is proved against
  `Greedy`, a recursive specification of the plan: the first refill is at the
  first point where BUFFER miles are reached and a station is near, and the
  rest of the plan restarts from there. The lemmas about `Greedy` give the
  promised properties: one refill per point at most, refills at least BUFFER
  miles apart, each refill a listed station, and only one possible plan.
- Python's `station not in selected_stops` compares a 5-field station tuple
  with 6-field stop tuples, so it is always true. `NotSelected` models this
  literally with tuples as sequences of Python values. `RoundTripRefillsTwice`
  shows a route where the same station is chosen twice.
- The regex is modelled as the scan `re.sub` performs. `Scan` reads the input
  back exactly (`Joined(Scan(s)) == s`), and `ScanLeftmostLongest` shows each
  deleted piece is a whole, greedy, leftmost match and that no match starts at
  a kept character.
- Neither normaliser is idempotent. `NotIdempotent` in each module shows an
  input whose output still contains an `EXIT <number>`, which a second pass
  deletes.

## Model

| member | source | states |
|---|---|---|
| PyText.Upper | gecode.truks.py:36 | `address.upper()`: same length, each character upper-cased one for one, no lower-case ASCII letter left |
| PyText.UpperIdempotent | gecode.truks.py:36 | upper-casing twice is upper-casing once |
| PyText.Strip | gecode.truks.py:47 | `str.strip()`: no whitespace at either end, no longer than the input, only characters of the input, no adjacent whitespace created |
| PyText.StripSlice | gecode.truks.py:47 | the result of `strip` is the input with a whitespace-only prefix and a whitespace-only suffix removed, and nothing else |
| PyText.StripNonSpace | gecode.truks.py:47 | stripping removes only whitespace |
| PyText.StripTrimmed | gecode.truks.py:47 | text without whitespace at its ends is returned unchanged |
| PyText.CollapseSpaces | gecode.truks.py:45 | `re.sub(r"\s+", " ", s)`: each maximal whitespace run becomes one `' '`. It has no contract of its own; CollapseSpacesShape, CollapseSpacesChars and CollapseSpacesNonSpace state its properties |
| PyText.CollapseSpacesShape | gecode.truks.py:45 | after `re.sub(r"\s+", " ", s)` no two whitespace characters are adjacent, the only whitespace left is `' '`, and the output is no longer than the input |
| PyText.CollapseSpacesChars | gecode.truks.py:45 | collapsing introduces no character other than `' '` |
| PyText.CollapseSpacesNonSpace | gecode.truks.py:45 | collapsing removes or replaces only whitespace, so the non-whitespace text is unchanged |
| PyText.CollapseGap | gecode.truks.py:45 | a whitespace run between words becomes one space |
| PyText.Squeeze | Geocoding.py:21 | `re.sub(r"\s+", " ", s).strip()`: no whitespace at the ends, none adjacent, only `' '` as whitespace, no longer than the input, no new character but `' '` |
| PyText.SqueezeNonSpace | Geocoding.py:21 | collapse-and-strip keeps the non-whitespace text in order |
| ExitPattern.IsExitWord | Geocoding.py:15 | the word `EXIT` matches literally, and in any ASCII case under `re.IGNORECASE` |
| ExitPattern.IsExitToken | gecode.truks.py:39 | a whole match of `EXIT\s*\d+`: the word, a whitespace run, then at least one digit and nothing else. A predicate without a contract; MatchLength, TokenMaximal and ScanLeftmostLongest use it |
| ExitPattern.MatchLength | gecode.truks.py:39 | the match at the start of the text is a whole `EXIT\s*\d+` match not followed by a digit; 0 means no match starts there |
| ExitPattern.TokenMaximal | gecode.truks.py:39 | a match ending before a non-digit cannot be extended (the greedy `\d+`) |
| ExitPattern.Scan | gecode.truks.py:39 | the scan's pieces put back together give the input exactly |
| ExitPattern.ScanLeftmostLongest | gecode.truks.py:39 | every deleted piece is a whole greedy match, and no match starts at a kept character (leftmost, non-overlapping) |
| ExitPattern.RemoveExits | gecode.truks.py:39 | `re.sub(r"EXIT\s*\d+", "", s)`: no longer than the input and no new characters |
| ExitPattern.RemoveExitsPlainPrefix | Geocoding.py:15 | text in which no match can start is copied through unchanged, in its original case |
| ExitPattern.RemoveExitsToken | Geocoding.py:15 | a whole match not followed by a digit is deleted |
| ExitPattern.ExitRemoved | gecode.truks.py:39 | `EXIT <number>` on its own is deleted entirely |
| GecodeTruks.DeleteCommas | gecode.truks.py:42 | `replace(",", "")`: no comma left, every other character kept the same number of times |
| GecodeTruks.DeleteCommasAppend | gecode.truks.py:42 | commas are deleted piece by piece, so the kept characters stay in order |
| GecodeTruks.DeleteCommasNone | gecode.truks.py:42 | text without commas is unchanged |
| GecodeTruks.NormalizeIntersection | gecode.truks.py:26-47 | a missing address gives `""`; the output has no comma, no lower-case ASCII letter, and no whitespace at its ends or side by side. It is also no longer than the input, which holds only for ASCII upper-casing (see Left out) |
| GecodeTruks.NormalizeKeepsText | gecode.truks.py:36-47 | apart from whitespace, the output is the upper-cased input with every `EXIT <number>` and every comma deleted |
| GecodeTruks.DocExample | gecode.truks.py:28-30 | `"I-85,  EXIT 22 & CR-138"` becomes `"I-85 & CR-138"`, for any such road names and exit number |
| GecodeTruks.NotIdempotent | gecode.truks.py:39-42 | `"EX,IT 5"` becomes `"EXIT 5"`, which a second pass turns into `""` |
| Geocoding.CommasToSpaces | Geocoding.py:18 | `replace(",", " ")`: same length, every comma a space, every other character unchanged |
| Geocoding.CommasToSpacesAppend | Geocoding.py:18 | the replacement works piece by piece |
| Geocoding.NormalizeIntersection | Geocoding.py:6-23 | no comma, no whitespace at the ends or side by side, only `' '` as whitespace, no longer than the input, and only characters of the input or `' '` |
| Geocoding.CityQuery | Geocoding.py:72 | the fallback query `f"{City}, {State}, USA"`, which also ends the first query (Geocoding.py:66). No contract of its own |
| Geocoding.NormalizeKeepsText | Geocoding.py:14-21 | apart from whitespace, the output is the input with every case-insensitive `EXIT <number>` deleted and commas made spaces |
| Geocoding.DocExample | Geocoding.py:8-11 | `'I-44, EXIT 283 & US-69'` becomes `'I-44 & US-69'`, also with `Exit` or `exit`, for any such road names and exit number |
| Geocoding.NotIdempotent | Geocoding.py:15 | `"EXEXIT 1IT 2"` becomes `"EXIT 2"`, which a second pass turns into `""` |
| Geocoding.GeocodeWithIntersection | Geocoding.py:57-75 | the first query is the cleaned intersection with `City, State, USA`; the city query is sent exactly when the first finds nothing; the result is the last query's answer |
| Geocoding.GeocodeOutcome | Geocoding.py:64-75 | no position exactly when neither query finds one; the intersection's position when it is found, else the city's |
| FuelOptimizer.FilterMembers | routing/services/fuel_optimizer.py:48-61 | a list comprehension keeps exactly the elements that pass its test |
| FuelOptimizer.Filter | routing/services/fuel_optimizer.py:48-61 | the list comprehension `[s for s in xs if p(s)]`, order kept. No contract of its own; FilterMembers, FilterImplied and FilterIndex state its properties |
| FuelOptimizer.FilterIndex | routing/services/fuel_optimizer.py:58-61 | each element kept has a place in the original list, and the elements kept before it are those kept from before that place |
| FuelOptimizer.CheapestFirst | routing/services/fuel_optimizer.py:67 | `min(nearby, key=price)` is the first station at the lowest price |
| FuelOptimizer.MinByPrice | routing/services/fuel_optimizer.py:67 | `min` with a key as a left-to-right scan that replaces the best so far only by a strictly cheaper station. No contract of its own; CheapestFirst states what it returns |
| FuelOptimizer.Cheapest | routing/services/fuel_optimizer.py:67 | `min(nearby, key=lambda s: s[4])` on a non-empty list. No contract of its own; CheapestFirst states what it returns |
| FuelOptimizer.FindCheapestStation | routing/services/fuel_optimizer.py:40-67 | `find_cheapest_station`: filter by coordinates, return `None` if none remain, filter by distance, return `None` if none remain, else `min` by price. Its contract is stated by FindCheapestSpec and FindCheapestFirst |
| FuelOptimizer.FindCheapestSpec | routing/services/fuel_optimizer.py:40-67 | `None` exactly when no station has coordinates within `radius`; otherwise a listed station within `radius` whose price is no higher than any other such station |
| FuelOptimizer.FindCheapestFirst | routing/services/fuel_optimizer.py:67 | every station within `radius` listed before the one returned is strictly dearer |
| FuelOptimizer.Refill | routing/services/fuel_optimizer.py:32-34 | the stop copies the station's five fields and adds `refill_cost == 50 * price` |
| FuelOptimizer.NotSelected | routing/services/fuel_optimizer.py:31 | `station not in selected_stops` holds always: a 5-tuple never equals a 6-tuple |
| FuelOptimizer.ScannedQuiet | routing/services/fuel_optimizer.py:25-28 | without a refill, the running distance grows by the segment and the plan is unchanged |
| FuelOptimizer.ScannedFire | routing/services/fuel_optimizer.py:28-35 | a refill appends the station found there and resets the running distance to 0 |
| FuelOptimizer.OptimizeFuel | routing/services/fuel_optimizer.py:13-38 | the result is the greedy plan; at most one stop per point after the first; at least BUFFER miles of route per stop; none on a route shorter than BUFFER; each stop a listed station with coordinates, refilled |
| FuelOptimizer.GreedyStops | routing/services/fuel_optimizer.py:24-36 | one stop per refill point, points strictly increasing along the route, each stop the station found at its point |
| FuelOptimizer.GreedySpacing | routing/services/fuel_optimizer.py:26-35 | each stop accounts for at least BUFFER miles driven |
| FuelOptimizer.GreedyFromStations | routing/services/fuel_optimizer.py:30-34 | every stop is a full tank at a listed station with usable coordinates |
| FuelOptimizer.GreedyPlan | routing/services/fuel_optimizer.py:21-36 | a whole-route plan has at most `len(route) - 1` stops and at least BUFFER miles of route per stop, so it is empty when the route is shorter than BUFFER |
| FuelOptimizer.GreedyFirst | routing/services/fuel_optimizer.py:28-31 | the first refill is at the first point where BUFFER miles are reached and a station is near; no refill exactly when that never happens |
| FuelOptimizer.GreedyUnique | routing/services/fuel_optimizer.py:24-36 | route, stations and distance determine the plan: two plans are equal |
| FuelOptimizer.RoundTripPlan | routing/services/fuel_optimizer.py:28-35 | on a there-and-back route, the plan refills at the depot, finds nothing at home and keeps counting, then refills at the same depot |
| FuelOptimizer.RoundTripRefillsTwice | routing/services/fuel_optimizer.py:31 | so the result holds the same station twice |
| FuelOptimizer.GreedyTotalCost | routing/views.py:40 | the total of the stops' `refill_cost` is 50 times the sum of their prices |
| FuelOptimizer.TotalCost | routing/views.py:40 | `sum(stop[5] for stop in fuel_stops_selected)`. No contract of its own; GreedyTotalCost states its value for a plan |

## Left out

- The geodesic distance (geopy's WGS-84 `geodesic(...).miles`) is the parameter `dist`. The model assumes nothing about it except that it is non-negative.
- `geocode_address` (the Nominatim HTTP request, `raise_for_status` and its exceptions, JSON parsing, `float()` of the answer) is the parameter `lookup`. An empty answer is `None`.
- The memo cache, the script entry points (`main`, `AddCoordinates.py`, `load_fuel_data.py`) and their CSV and database I/O are not part of this model.
- The `print` of the fallback message in `geocode_with_intersection` is not modelled.
- `cleaner.py` (pandas `drop_duplicates`), `routing/services/routing.py` (routing HTTP client, polyline decoding, map rendering) and `routing/models.py` are not part of this model.
- `routing/views.py` is modelled only for the total cost sum. The unit conversion and `round` are floating-point presentation.
- Floating point is not modelled: distances, prices and refill costs are exact reals, and NaN coordinates are folded into `None`. NaN prices are not modelled.
- `str.upper`, `\d` and `re.IGNORECASE` are modelled for ASCII letters and digits only. Python's Unicode case mapping and Unicode decimal digits are not modelled. Whitespace (`\s`, `str.strip`) uses Python's full `str.isspace` list.
- GecodeTruks.NormalizeIntersection: the bound "no longer than the input" depends on ASCII-only upper-casing. Python's `str.upper` can lengthen text (`"ß".upper() == "SS"`), so the program itself can return a longer string.
- Geocoding.NormalizeIntersection: takes a `string`. A missing `Address` cell (pandas NaN) reaching `re.sub` at Geocoding.py:15 raises `TypeError` in the program; that crash is not modelled.
- Geocoding.GeocodeWithIntersection: takes the address as a `string`, so the `TypeError` raised for a missing address (Geocoding.py:64 passing NaN to `normalize_intersection`) is not modelled.
- FuelOptimizer.OptimizeFuel: requires a route with at least one point. On an empty route the program raises `IndexError` at `route_coords[0]` (fuel_optimizer.py:22); that error path is not modelled.
- PyText.Strip: its own contract gives the properties the normalisers need. That the result is the input between a whitespace prefix and a whitespace suffix is stated by the lemma StripSlice, not by Strip's contract.
- `pd.isna` is modelled as the `None` case of an `Option<string>`. A non-string, non-missing cell is not modelled.
- `geocode_with_intersection` takes the city and state as strings. Formatting a missing cell as `nan` is not modelled.
- GecodeTruks.DocExample: proved for any road names without whitespace, commas, lower-case letters or `E`, and any exit number, of which the documented string is one instance.
- Geocoding.DocExample: proved for any road names without whitespace, commas, `E` or `e` (lower-case letters are allowed), any exit number and the word `EXIT` in any ASCII case, of which the documented string is one instance.
- GecodeTruks.NotIdempotent and Geocoding.NotIdempotent: proved for any exit numbers, of which `"EX,IT 5"` and `"EXEXIT 1IT 2"` are instances.
- Python lists are modelled as immutable sequences. `selected_stops` is rebuilt by appending, and the input lists are never changed; aliasing is not modelled.

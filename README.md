# Fog of Explore — a Dafny model of the game engine

Fog of Explore is a campus exploration game. The player walks around with a
phone. Each time a new position arrives, the game checks the fixed catalogue
of campus locations. A location within its visit radius whose one-hour
cooldown is over gets visited:

- its points are scaled by the category multiplier;
- a first visit earns a 50 % bonus on top;
- the new total sets the player's level through a table of thresholds.

The state is saved to browser storage after every visit and loaded again at
start-up. A separate pipeline lists the locations within 100 m, nearest first.

This project models that engine and proves properties of it:

- `locations.dfy` (module `Locations`) holds the catalogue, the multiplier,
  emoji and level tables, and the configuration constants. It also holds
  `CalculateLevel`, a loop with an early exit that is proved equal to a
  reference definition: the level of the last threshold reached. Beside it
  is `GetPointsForNextLevel`.
- `visits.dfy` (module `Visits`) covers the player state as a value
  (`Progress`), and the award arithmetic (`Math.round` on exact tenths).
  It also holds the visit step and a whole check pass as a fold over the
  catalogue, with the invariants they keep and the order-independence of
  a pass.
- `storage.dfy` (module `Storage`) holds the saved record, in which any field
  may be missing, and the decoding done on load with JavaScript's `||`
  fallbacks. It also holds the encoding done on save and the round trip
  between them.
- `nearby.dfy` (module `Nearby`) is the map/filter/sort pipeline of the
  nearby list.
- `game.dfy` (module `Game`) is the class `GameState`. Its fields are
  updated in place by `VisitLocation`, `CheckNearbyLocations`,
  `LoadFromStorage` and `SaveToStorage`, and each method is proved against
  the value-level functions above.
- `wrappers.dfy` holds `Option`.

In these details the model follows the code:

- The level is saved and loaded as stored, not recomputed from the points.
  `Storage.DecodeKeepsStoredLevel` shows a record that loads into an
  inconsistent state.
- A stored last-visit time of 0 is falsy, so it never blocks a visit: the
  location can be visited again at once. The first-visit bonus still
  depends on the visited set, not on the timestamp, so such a revisit earns
  no bonus if the id is already visited.
- No GPS accuracy gate is applied. `MIN_ACCURACY` is declared but never
  read by the code.
- `Math.round` rounds halves toward +∞.
- Because a loaded level is not recomputed, a pass only keeps the level
  from falling when the state it starts from keeps the level invariant.
  From a loaded record whose level is above what its points give, the
  next visit recomputes the level and it can fall;
  `Visits.LoadedLevelCanDrop` shows 0 points at level 5 falling to level 1.
  The points never fall, whatever the starting state.

## Model

| member | source | states |
|---|---|---|
| Locations.CatalogueWellFormed | locations.js:3-114 | The catalogue ids are distinct, every radius is positive, every points value non-negative, and every category one the multiplier table knows. |
| Locations.CategoryEmoji | locations.js:140-150 | A known category gets its table emoji and any other category gets the pin; the result is never empty. |
| Locations.MultiplierTenths | script.js:249 | A known category gets its table multiplier and an unknown one gets 1.0; every multiplier lies between 0.8 and 1.3. |
| Locations.ThresholdsWellFormed | locations.js:117-128 | The level table has ten rows, row i being level i+1; it starts at 0 points, its floors strictly ascend and the top floor is 12000. |
| Locations.LastReachedBracket | locations.js:153-163 | Over an ascending table, the last threshold reached brackets the points: its floor is at or below them and the next floor is above them. |
| Locations.LastReachedIgnoresUnreached | locations.js:155-161 | Thresholds past the first one not reached do not change the level, which is why the early exit is sound. |
| Locations.LevelFor | locations.js:153-163 | The level for any points total lies between 1 and 10. |
| Locations.LevelForIsGreatestReached | locations.js:153-163 | The level is the greatest whose minimum points are reached, and the next level's minimum is not reached. |
| Locations.LevelForBelowFirstFloor | locations.js:154-159 | Any total below 100 points, negative ones included, is level 1. |
| Locations.LevelForMonotone | locations.js:155-161 | More points never give a lower level. |
| Locations.CalculateLevel | locations.js:153-163 | The loop with early exit returns exactly the level of the last threshold reached, between 1 and 10. |
| Locations.FirstAbove | locations.js:168 | The search returns the first threshold whose level exceeds the given one, or reports that none does. |
| Locations.GetPointsForNextLevel | locations.js:166-174 | Below 12000 points the result is positive and adds up to the next level's minimum; at or above 12000 it is 0. |
| Visits.RoundTenths | script.js:250 | The result is the integer nearest to n/10, with halves rounded up. |
| Visits.InitialConsistent | script.js:5-8 | A new player's state (0 points, level 1, nothing visited) already keeps the invariants: timestamps exactly for the visited ids, and the level the points give. |
| Visits.BaseAward | script.js:248-250 | The award before the bonus is the integer nearest to points × multiplier, halves rounded up, and is never negative for non-negative points. |
| Visits.Award | script.js:248-254 | A repeat visit earns the base award. A first visit earns 1.5 × the base award, rounded again, which is never less than the base award for non-negative points. |
| Visits.UnknownCategoryAward | script.js:249-250 | An unknown category earns exactly the base points on a repeat visit. |
| Visits.MainLibraryAwards | script.js:247-254 | Main Library earns 90 points on a first visit and 60 afterwards. |
| Visits.InVisitRange | script.js:227 | A location is in range within its own radius and always within 30 m (the boundary inclusive), and only then. |
| Visits.CooldownOver | script.js:228-229 | The cooldown is over with no timestamp or a timestamp of 0; otherwise exactly when an hour has passed since the timestamp. |
| Visits.CooldownStaysOver | script.js:229 | Once the cooldown is over it stays over as the clock advances. |
| Visits.Visit | script.js:239-258 | A visit adds the id to the visited set and records its time, leaving other timestamps alone. It reports whether the id was unvisited and awards the matching amount, adds it to the points and sets the level the new total gives. VisitPreserves and VisitLocation build on it. |
| Visits.VisitPreserves | script.js:239-258 | A visit keeps the timestamps keyed exactly by the visited ids and the level in step with the points; with non-negative base points, points and level do not go down. |
| Visits.Pass | script.js:218-235 | A pass that visits nothing leaves the state unchanged. PassLength, PassAccounting, PassPointsGrow, PassPreserves, PassIsIndependent and PassCreditsOnce state the rest. |
| Visits.PassLength | script.js:218-235 | A pass makes at most one visit per location it examines. |
| Visits.PassAccounting | script.js:218-235 | After a pass, the points grow by exactly the sum of the reported awards. The visited set and the timestamped ids grow by exactly the reported ids, and all of them are catalogue ids. |
| Visits.PassPointsGrow | script.js:250-257 | Over locations with non-negative points, a pass never lowers the points, whatever state it starts from. |
| Visits.LoadedLevelCanDrop | script.js:257-258 | From a state that does not keep the level invariant (0 points at level 5), one visit to Main Library recomputes the level as 1, so the level falls. |
| Visits.PassPreserves | script.js:218-235 | A pass keeps the state consistent; over locations with non-negative points, points and level do not go down. |
| Visits.IndependentEventsAgree | script.js:227-233 | Two states that agree on the visited flags and timestamps of the catalogue ids make the same visits. |
| Visits.PassIsIndependent | script.js:218-235 | With distinct ids, the visits of a pass are exactly those decided against the state before the pass; earlier visits in the pass do not affect later ones. |
| Visits.PassCreditsOnce | script.js:218-235 | With distinct ids, a pass credits each location at most once. |
| Visits.BlockedLocationChangesNothing | script.js:227-233 | A location out of range, or one still inside its cooldown, is not visited and leaves the state unchanged. |
| Visits.MainLibraryScenarios | script.js:227-254 | Main Library scenarios: the first visit earns 90; a second reading 10 minutes later changes nothing; two hours later it earns 60 as a repeat; at exactly 30 m it is in range. |
| Storage.NumberOr | script.js:24-25 | A stored non-zero number is kept, while a missing field or 0 gives the fallback, so a non-zero fallback never yields 0. |
| Storage.MapFromEntries | script.js:27 | The map's keys are the entries' ids, and an id that is not repeated later keeps its entry's time. |
| Storage.Decode | script.js:24-27 | Stored points are kept (missing gives 0). The level is the stored one, and a missing or 0 level gives 1, so it is never 0. The visited set is exactly the stored ids, and the timestamp keys are exactly the stored entry ids, each with the time of its last entry. DecodeEncode and LoadSaveLoad give its round trips. |
| Storage.Encode | script.js:37-42 | The saved record keeps the points and the level as they are; EncodeContents states what its two arrays hold. |
| Storage.EncodeContents | script.js:37-42 | Every field is present. Points and level are kept as they are, the visited array holds exactly the visited ids, and the entries are exactly the map's (id, time) pairs. |
| Storage.SetToArray | script.js:40 | The array holds each element of the set exactly once. |
| Storage.MapToEntries | script.js:41 | The entries hold each key of the map exactly once, paired with its value. |
| Storage.DecodeEncode | script.js:24-41 | Saving and then loading gives the state back, for any level other than 0. |
| Storage.EntriesRoundTrip | script.js:27-41 | Rebuilding a map from its saved entries gives the map back. |
| Storage.DecodeEncodeConsistent | script.js:24-41 | Every consistent state survives a save and a load unchanged. |
| Storage.LoadSaveLoad | script.js:24-42 | Loading, saving and loading again gives the state of the first load, whatever the record. |
| Storage.DecodeHighLevel | script.js:24-25 | A record of 0 points at level 5 loads as exactly that state, which does not keep the level invariant. |
| Storage.DecodeMissingFields | script.js:24-27 | A record with every field missing loads as a new player's state. |
| Storage.DecodeKeepsStoredLevel | script.js:24-25 | Loading takes the stored level as it is: a record of 500 points at level 1 loads as level 1, although 500 points is level 4. |
| Nearby.WithDistances | script.js:326-334 | Every catalogue location is paired, in order, with its own distance. |
| Nearby.WithinNearby | script.js:335 | An entry is kept exactly when its distance is at most 100 m, as many times as it occurs; the others are dropped. |
| Nearby.InsertByDistance | script.js:336 | Inserting into a distance-sorted list keeps it sorted and adds exactly the one element. |
| Nearby.SortByDistance | script.js:336 | The result is sorted by distance and is a permutation of the input. |
| Nearby.NearbyLocations | script.js:325-336 | The nearby list is sorted by distance and never longer than the catalogue; NearbyLocationsSpec states its contents. |
| Nearby.NearbyLocationsSpec | script.js:325-336 | An entry is in the nearby list exactly when it pairs a catalogue location with its distance and that distance is at most 100 m. Each such pairing occurs as often as in the catalogue, so exactly once when the ids are distinct. |
| Nearby.WithDistancesOnce | script.js:326-334 | With distinct ids, each catalogue location occurs once among its pairings with distances. |
| Game.GameState.constructor | script.js:3-16 | A new game starts from 0 points, level 1 and no visits, which keeps the invariants; it then loads the saved record if there is one. |
| Game.GameState.LoadFromStorage | script.js:19-32 | With a saved record, every field is overwritten with its decoding; with none, nothing changes. |
| Game.GameState.SaveToStorage | script.js:35-47 | The storage then holds the encoding of the current state. |
| Game.GameState.VisitLocation | script.js:239-271 | The id is added to the visited set and its timestamp recorded, and the award is added with the bonus exactly on a first visit. The level is recomputed and the new state saved. Consistency is kept and points and level do not go down. |
| Game.GameState.CheckLocation | script.js:226-234 | A single catalogue entry is visited exactly when it is in range and off cooldown; otherwise the state and the storage are untouched. |
| Game.GameState.CheckLocations | script.js:218-235 | The walk changes the state exactly as the pass function does and reports its visits; the state is saved when anything was visited. With distinct ids, the visits are decided against the starting state. Consistency is kept. Over locations with non-negative points the points never fall from any starting state, and the level never falls from a consistent one. |
| Game.GameState.WalkLocations | script.js:218-235 | The loop over the locations, in order, changes the state exactly as the pass function does and reports its visits. The state is saved whenever anything was visited. |
| Game.GameState.CheckNearbyLocations | script.js:213-236 | Without a position nothing happens. With one, the catalogue pass is applied, each catalogue location is decided against the starting state, and consistency is kept. The points never fall from any starting state, and the level never falls from a consistent one. |

## Left out

- `calculateDistance` (haversine) is not modelled. Distances are inputs to
  the model, and its zero-distance and symmetry properties are not stated.
- Floating point is not modelled. Multipliers are exact tenths and
  `Math.round` works on integers, so double rounding error and NaN
  distances do not arise.
- `Date.now()` becomes parameters. `checkNearbyLocations` reads the clock
  once for the cooldown test, and each visit reads it again for the
  timestamp it stores.
- Geolocation and timers are not modelled: `enableLocation`,
  `startLocationWatching`, `startAutoRefresh`, `refreshLocation`,
  `handleLocationSuccess`, `handleLocationError` and `cleanup`. The fields
  `userPosition` (modelled only as whether distances are available),
  `isLocationEnabled`, `watchId` and `autoRefreshTimer` are left out with
  them.
- DOM and UI code is not modelled: `initializeUI`, `setupEventListeners`,
  the `update*Display` methods, `updateVisitedLocations`, `updateStats`
  and the rendering of the nearby list. `showVisitNotification` is stood
  for by the returned `VisitEvent`, which carries its three arguments.
- Storage I/O and JSON are not modelled. A missing record and a record
  that fails to parse are both `None`; a parsed record is a `StoredData`
  whose fields may be missing. JSON values of the wrong type are not
  modelled.
- A failed save is not modelled. In the source, an exception from
  `setItem` is caught and the previous record stays; `SaveToStorage`
  always succeeds.
- `Storage.SetToArray` and `Storage.MapToEntries` do not keep the insertion
  order of `Array.from`. They fix some order, and only the contents are
  stated.
- `Nearby.SortByDistance` does not state the stability of the sort.
- Lookups by category never hit keys inherited from `Object.prototype`.
- `MIN_ACCURACY` and `AUTO_REFRESH_INTERVAL` are declared as constants, but
  no modelled operation uses them.

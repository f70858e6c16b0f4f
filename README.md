# HealthFoodMe main map: category filter and marker lookup

This project models the two pieces of logic in the main map screen of the
HealthFoodMe iOS client (`MainMapVC`) that do not depend on UIKit or the map
SDK.

- **Category filter bar.** The screen keeps eight flags, `selectedCategories`,
  one per food category, all false at start, and a string `currentCategory`
  that filters the restaurant list. Selecting or deselecting a cell toggles
  its flag and then runs `setCurrentCategory`. When the tapped flag is now on,
  that step switches every other flag off. It then sets `currentCategory` to
  the name of the last selected category, or to `""` when none is selected.
- **Marker lookup.** `matchRestaurantId` scans the restaurants of the last
  list fetch. It returns the id of the last one whose latitude and longitude
  both equal the tapped position, or `""` when none matches.

Everything is in `MainMap.dfy`, in module `MainMap`. The view controller is
the class `MainMap.MainMapVC`. Its fields are the state the Swift class
updates in place. `selectedCategories` is an `array<bool>`. The first loop of
`setCurrentCategory` switches its entries off one by one, as in the source.
The second loop only reads the flags and assigns `currentCategory`. Each method is proved against a
function over sequences: `Toggled`, `ClearOthers`, `AfterTap` and
`CategoryLabel` for the filter, and `LastMatch` and `MatchedId` for the
lookup. The lemmas prove what those functions promise. In particular, no
sequence of taps from the initial state can select more than one category.
The class invariant `Valid()` says the same: at most one category is
selected, and `currentCategory` names it.

The category names (`MainMapCategory.categorySample`) are defined outside
this file, so they are a constructor parameter. The model fixes their number
at eight, the length of the initial flags. The filter bar shows one cell per
name and reads the flag of each cell's row, so it needs no more names than
flags.

Coordinates are a type parameter `Coord` that only supports equality, because
the source only compares them with `==`.

## Model

| member | source | states |
|---|---|---|
| MainMap.Toggled | HealthFoodMe/HealthFoodMe/Presentation/Map/MainMapScene/VC/MainMapVC.swift:483 | flips exactly entry i and leaves every other entry and the length as they were |
| MainMap.ClearOthers | HealthFoodMe/HealthFoodMe/Presentation/Map/MainMapScene/VC/MainMapVC.swift:425-431 | keeps the length; if entry i is on, entry i is the only one left on; if it is off, nothing changes |
| MainMap.CategoryLabel | HealthFoodMe/HealthFoodMe/Presentation/Map/MainMapScene/VC/MainMapVC.swift:432-441 | "" when no flag is on; otherwise the name of the on index that has no later index on |
| MainMap.LastSelected | HealthFoodMe/HealthFoodMe/Presentation/Map/MainMapScene/VC/MainMapVC.swift:433-438 | None exactly when no entry is on; otherwise an index that is on, with no later index on |
| MainMap.AfterTap | HealthFoodMe/HealthFoodMe/Presentation/Map/MainMapScene/VC/MainMapVC.swift:482-492 | a tap keeps the length and flips entry i; switching i on switches every other entry off; switching it off leaves the others unchanged |
| MainMap.AfterTaps | HealthFoodMe/HealthFoodMe/Presentation/Map/MainMapScene/VC/MainMapVC.swift:31-33 | a sequence of taps never changes the number of flags |
| MainMap.LastSelectedSnoc | HealthFoodMe/HealthFoodMe/Presentation/Map/MainMapScene/VC/MainMapVC.swift:433-438 | a newly scanned entry becomes the last selected one exactly when it is on; this is the step of the label loop |
| MainMap.TapFromAtMostOne | HealthFoodMe/HealthFoodMe/Presentation/Map/MainMapScene/VC/MainMapVC.swift:482-492 | from a state with at most one selection, tapping the selected entry leaves none selected, and tapping another entry leaves only that one selected |
| MainMap.TapKeepsAtMostOne | HealthFoodMe/HealthFoodMe/Presentation/Map/MainMapScene/VC/MainMapVC.swift:424-431 | one tap keeps "at most one category selected" |
| MainMap.TapLabel | HealthFoodMe/HealthFoodMe/Presentation/Map/MainMapScene/VC/MainMapVC.swift:432-441 | after a tap from a valid state the label is "" if the tapped entry was on, else the tapped category's name |
| MainMap.TapsKeepAtMostOne | HealthFoodMe/HealthFoodMe/Presentation/Map/MainMapScene/VC/MainMapVC.swift:482-492 | any sequence of taps keeps "at most one category selected" |
| MainMap.TapsFromInitialState | HealthFoodMe/HealthFoodMe/Presentation/Map/MainMapScene/VC/MainMapVC.swift:31-33 | from the all-false initial bar, any sequence of in-range taps leaves eight flags with at most one on |
| MainMap.LastMatch | HealthFoodMe/HealthFoodMe/Presentation/Map/MainMapScene/VC/MainMapVC.swift:446-451 | None exactly when no entity has both coordinates equal to the position; otherwise a matching index with no later match |
| MainMap.MatchedId | HealthFoodMe/HealthFoodMe/Presentation/Map/MainMapScene/VC/MainMapVC.swift:444-453 | "" when no entity stands at the position; otherwise the id of the matching entity that has no later match |
| MainMap.MatchedIdSnoc | HealthFoodMe/HealthFoodMe/Presentation/Map/MainMapScene/VC/MainMapVC.swift:446-451 | a later matching entity overrides every earlier match; a non-matching one changes nothing |
| MainMap.UniqueMatchId | HealthFoodMe/HealthFoodMe/Presentation/Map/MainMapScene/VC/MainMapVC.swift:444-453 | when exactly one entity stands at the position, its id is returned |
| MainMap.MainMapVC.constructor | HealthFoodMe/HealthFoodMe/Presentation/Map/MainMapScene/VC/MainMapVC.swift:25-38 | eight false flags, empty category, empty restaurant list, invariant established |
| MainMap.MainMapVC.SetCurrentCategory | HealthFoodMe/HealthFoodMe/Presentation/Map/MainMapScene/VC/MainMapVC.swift:424-442 | the new flags are ClearOthers of the old ones, in place; currentCategory names the last selected category or is ""; the flag array and the names are not replaced |
| MainMap.MainMapVC.ShouldSelectItemAt | HealthFoodMe/HealthFoodMe/Presentation/Map/MainMapScene/VC/MainMapVC.swift:482-486 | toggle then normalise (AfterTap); keeps the invariant; returns true; the label is "" or the tapped name |
| MainMap.MainMapVC.ShouldDeselectItemAt | HealthFoodMe/HealthFoodMe/Presentation/Map/MainMapScene/VC/MainMapVC.swift:488-492 | the same toggle-then-normalise step as a select, with the same guarantees |
| MainMap.MainMapVC.ReceiveRestaurantList | HealthFoodMe/HealthFoodMe/Presentation/Map/MainMapScene/VC/MainMapVC.swift:538-540 | keeps the class invariant; the restaurant list becomes the fetched payload |
| MainMap.MainMapVC.MatchRestaurantId | HealthFoodMe/HealthFoodMe/Presentation/Map/MainMapScene/VC/MainMapVC.swift:444-453 | returns the id of the last entity at the position, or "" when none is there; changes no state |

## Left out

- The `didSet` observers are left out. In the source, every assignment to
  `currentCategory` refetches the restaurant list, including each assignment
  inside the label loop. Every assignment to `selectedCategories` reloads the
  collection view. The model keeps only the resulting values.
- The network requests (`fetchRestaurantList`, `fetchRestaurantSummary`), the
  Rx bindings and the location manager are left out, because they are I/O and
  foreign SDKs. `ReceiveRestaurantList` stands for the assignment made when a
  list fetch succeeds, with the payload as a parameter.
- The marker-tap handler that calls `matchRestaurantId` and then stores the
  id, stores the location and fetches the summary is left out. So are the
  bottom-sheet pan, tap and animation code, camera moves, layout and
  navigation. All of these are UIKit, SnapKit or map-SDK choreography over
  `CGFloat` geometry.
- ShouldSelectItemAt, ShouldDeselectItemAt and SetCurrentCategory require an
  index below eight. In Swift an index out of range traps, at
  `selectedCategories[indexPath.row]` and at `selectedCategories[currentIndex]`.
  The model does not capture that crash. The collection view only offers
  rows below the number of categories.
- MatchRestaurantId: the coordinates are an abstract type with equality. The
  source compares `Double` values, where NaN matches nothing and 0.0 equals
  -0.0. The model does not capture those IEEE 754 cases.
- MatchRestaurantId: a result of "" does not prove that no restaurant
  matched, because a matching restaurant may itself have the id "". The model
  states only the stated direction, and `MatchedId` gives the exact value.
- Screens other than the main map (detail, menu tab, web view, social
  login), the module factory and the plain payload structs are not part of
  this model. They contain no logic beyond UI and SDK glue.

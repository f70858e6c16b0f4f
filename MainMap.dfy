/**
 The logic of the main map screen of the HealthFoodMe client that can be
 stated without the UI toolkit: the category filter bar, where tapping a
 category toggles it and at most one category stays selected, and the lookup
 of the restaurant id behind a tapped map marker by its coordinates.

 The screen is modelled as a class `MainMapVC` whose fields are the ones the
 view controller updates in place; the specification of each operation is a
 function over sequences, and the lemmas state what those functions promise.
 */
module MainMap {

  /** Number of entries of the filter bar: the length of the all-false
      initial value of `selectedCategories`. */
  const CategoryCount: nat := 8

  datatype Option<T> = None | Some(value: T)

  // ---------------------------------------------------------------------------
  // Category filter: specification
  // ---------------------------------------------------------------------------

  /** The selection with entry `i` flipped (Swift's `Bool.toggle()` on one
      array element), every other entry as it was. */
  function Toggled(s: seq<bool>, i: nat): (r: seq<bool>)
    requires i < |s|
    ensures |r| == |s|
    ensures r[i] == !s[i]
    ensures forall k :: 0 <= k < |s| && k != i ==> r[k] == s[k]
  {
    s[i := !s[i]]
  }

  /** The first half of `setCurrentCategory`: when entry `i` is selected,
      every other selected entry is switched off; entries are only ever
      switched off, one entry at a time. */
  function ClearOthers(s: seq<bool>, i: nat): (r: seq<bool>)
    requires i < |s|
    ensures |r| == |s|
    ensures s[i] ==> forall k :: 0 <= k < |s| ==> r[k] == (k == i)
    ensures !s[i] ==> r == s
  {
    seq(|s|, k requires 0 <= k < |s| => s[k] && (k == i || !s[i]))
  }

  /** The last selected index, if any. */
  function LastSelected(s: seq<bool>): (r: Option<nat>)
    ensures r.None? <==> forall k :: 0 <= k < |s| ==> !s[k]
    ensures r.Some? ==> r.value < |s| && s[r.value]
    ensures r.Some? ==> forall k :: r.value < k < |s| ==> !s[k]
  {
    if |s| == 0 then None
    else if s[|s| - 1] then Some(|s| - 1)
    else LastSelected(s[..|s| - 1])
  }

  /** The value of `currentCategory` that a selection stands for: the name of
      the last selected category, or the empty string when none is selected. */
  function CategoryLabel(names: seq<string>, s: seq<bool>): (r: string)
    requires |names| == |s|
    ensures (forall k :: 0 <= k < |s| ==> !s[k]) ==> r == ""
    ensures forall k :: 0 <= k < |s| && s[k] && (forall j :: k < j < |s| ==> !s[j]) ==> r == names[k]
  {
    match LastSelected(s)
    case None => ""
    case Some(k) => names[k]
  }

  /** The selection after one tap on entry `i`: toggle, then normalise.
      Switching an entry on switches every other entry off; switching it
      off leaves every other entry as it was. */
  function AfterTap(s: seq<bool>, i: nat): (r: seq<bool>)
    requires i < |s|
    ensures |r| == |s|
    ensures r[i] == !s[i]
    ensures !s[i] ==> forall k :: 0 <= k < |s| && k != i ==> !r[k]
    ensures s[i] ==> forall k :: 0 <= k < |s| && k != i ==> r[k] == s[k]
  {
    ClearOthers(Toggled(s, i), i)
  }

  predicate AllTapsInRange(s: seq<bool>, taps: seq<nat>)
  {
    forall k :: 0 <= k < |taps| ==> taps[k] < |s|
  }

  /** The selection after a whole sequence of taps, oldest first. */
  function AfterTaps(s: seq<bool>, taps: seq<nat>): (r: seq<bool>)
    requires AllTapsInRange(s, taps)
    ensures |r| == |s|
    decreases |taps|
  {
    if taps == [] then s
    else AfterTaps(AfterTap(s, taps[0]), taps[1..])
  }

  predicate AtMostOneSelected(s: seq<bool>)
  {
    forall j, k :: 0 <= j < |s| && 0 <= k < |s| && s[j] && s[k] ==> j == k
  }

  function NoneSelected(n: nat): (r: seq<bool>)
  {
    seq(n, k => false)
  }

  function OnlySelected(n: nat, i: nat): (r: seq<bool>)
  {
    seq(n, k => k == i)
  }

  // ---------------------------------------------------------------------------
  // Category filter: lemmas
  // ---------------------------------------------------------------------------

  /** Appending one entry: it becomes the last selected one exactly when it
      is selected. */
  lemma LastSelectedSnoc(s: seq<bool>, k: nat)
    requires k < |s|
    ensures LastSelected(s[..k + 1]) == if s[k] then Some(k) else LastSelected(s[..k])
  {
  }

  /** From a state with at most one selection, a tap behaves like a radio
      button that can also be switched off: tapping the selected entry
      leaves nothing selected, tapping any other entry selects it alone. */
  lemma TapFromAtMostOne(s: seq<bool>, i: nat)
    requires i < |s| && AtMostOneSelected(s)
    ensures AfterTap(s, i) == if s[i] then NoneSelected(|s|) else OnlySelected(|s|, i)
  {
  }

  /** A tap keeps "at most one category selected". */
  lemma TapKeepsAtMostOne(s: seq<bool>, i: nat)
    requires i < |s| && AtMostOneSelected(s)
    ensures AtMostOneSelected(AfterTap(s, i))
  {
  }

  /** After a tap the label is the tapped category's name, unless the tap
      switched the only selected category off. */
  lemma TapLabel(names: seq<string>, s: seq<bool>, i: nat)
    requires |names| == |s| && i < |s| && AtMostOneSelected(s)
    ensures CategoryLabel(names, AfterTap(s, i)) == if s[i] then "" else names[i]
  {
  }

  /** Any sequence of taps keeps "at most one category selected". */
  lemma {:induction false} TapsKeepAtMostOne(s: seq<bool>, taps: seq<nat>)
    requires AllTapsInRange(s, taps) && AtMostOneSelected(s)
    ensures AtMostOneSelected(AfterTaps(s, taps))
    decreases |taps|
  {
    if taps != [] {
      TapKeepsAtMostOne(s, taps[0]);
      var s' := AfterTap(s, taps[0]);
      TapsKeepAtMostOne(s', taps[1..]);
    }
  }

  /** From the initial all-false bar, after any sequence of taps the bar
      still has eight entries and at most one of them is selected. */
  lemma TapsFromInitialState(taps: seq<nat>)
    requires forall k :: 0 <= k < |taps| ==> taps[k] < CategoryCount
    ensures AllTapsInRange(NoneSelected(CategoryCount), taps)
    ensures |AfterTaps(NoneSelected(CategoryCount), taps)| == CategoryCount
    ensures AtMostOneSelected(AfterTaps(NoneSelected(CategoryCount), taps))
  {
    TapsKeepAtMostOne(NoneSelected(CategoryCount), taps);
  }

  // ---------------------------------------------------------------------------
  // Restaurant lookup: specification and lemmas
  // ---------------------------------------------------------------------------

  /** The fields of a restaurant summary the lookup reads. The coordinate
      type is only ever compared for equality. */
  datatype MainMapEntity<Coord> = MainMapEntity(id: string, latitude: Coord, longitude: Coord)

  /** A map position, as the map SDK's latitude/longitude pair. */
  datatype LatLng<Coord> = LatLng(lat: Coord, lng: Coord)

  predicate AtPosition<Coord(==)>(e: MainMapEntity<Coord>, position: LatLng<Coord>)
  {
    e.latitude == position.lat && e.longitude == position.lng
  }

  /** The index of the last entity standing exactly at `position`, if any. */
  function LastMatch<Coord(==)>(data: seq<MainMapEntity<Coord>>, position: LatLng<Coord>): (r: Option<nat>)
    ensures r.None? <==> forall k :: 0 <= k < |data| ==> !AtPosition(data[k], position)
    ensures r.Some? ==> r.value < |data| && AtPosition(data[r.value], position)
    ensures r.Some? ==> forall k :: r.value < k < |data| ==> !AtPosition(data[k], position)
  {
    if |data| == 0 then None
    else if AtPosition(data[|data| - 1], position) then Some(|data| - 1)
    else LastMatch(data[..|data| - 1], position)
  }

  /** The id the lookup reports: that of the last match, or "" for none. */
  function MatchedId<Coord(==)>(data: seq<MainMapEntity<Coord>>, position: LatLng<Coord>): (r: string)
    ensures (forall k :: 0 <= k < |data| ==> !AtPosition(data[k], position)) ==> r == ""
    ensures forall k ::
              (0 <= k < |data| && AtPosition(data[k], position)
               && forall j :: k < j < |data| ==> !AtPosition(data[j], position))
              ==> r == data[k].id
  {
    match LastMatch(data, position)
    case None => ""
    case Some(k) => data[k].id
  }

  /** Appending an entity: a later match overrides every earlier one, a
      non-matching entity changes nothing. */
  lemma MatchedIdSnoc<Coord>(data: seq<MainMapEntity<Coord>>, e: MainMapEntity<Coord>, position: LatLng<Coord>)
    ensures MatchedId(data + [e], position) == if AtPosition(e, position) then e.id else MatchedId(data, position)
  {
  }

  /** When exactly one entity stands at the position, its id is reported. */
  lemma UniqueMatchId<Coord>(data: seq<MainMapEntity<Coord>>, position: LatLng<Coord>, j: nat)
    requires j < |data| && AtPosition(data[j], position)
    requires forall k :: 0 <= k < |data| && k != j ==> !AtPosition(data[k], position)
    ensures MatchedId(data, position) == data[j].id
  {
  }

  // ---------------------------------------------------------------------------
  // The view controller's state
  // ---------------------------------------------------------------------------

  class MainMapVC<Coord(==)> {
    /** One flag per category of the filter bar, updated in place. */
    var selectedCategories: array<bool>
    /** The name of the category the restaurant list is filtered by. */
    var currentCategory: string
    /** The display names of the categories, in filter-bar order. */
    const categorySample: seq<string>
    /** The restaurants of the last successful list fetch. */
    var restaurantData: seq<MainMapEntity<Coord>>

    /** The shape every state has: eight flags and eight names. */
    ghost predicate WellFormed()
      reads this
    {
      selectedCategories.Length == CategoryCount && |categorySample| == CategoryCount
    }

    /** The invariant every tap keeps: at most one category selected, and
        `currentCategory` names it. */
    ghost predicate Valid()
      reads this, selectedCategories
    {
      && WellFormed()
      && AtMostOneSelected(selectedCategories[..])
      && currentCategory == CategoryLabel(categorySample, selectedCategories[..])
    }

    constructor (names: seq<string>)
      requires |names| == CategoryCount
      ensures Valid() && fresh(selectedCategories)
      ensures selectedCategories[..] == NoneSelected(CategoryCount)
      ensures currentCategory == "" && categorySample == names && restaurantData == []
    {
      selectedCategories := new bool[CategoryCount](_ => false);
      currentCategory := "";
      categorySample := names;
      restaurantData := [];
    }

    /** Normalises the selection after entry `currentIndex` was toggled and
        recomputes the label. */
    method SetCurrentCategory(currentIndex: nat)
      requires WellFormed() && currentIndex < CategoryCount
      modifies this`currentCategory, selectedCategories
      ensures WellFormed()
      ensures selectedCategories[..] == ClearOthers(old(selectedCategories[..]), currentIndex)
      ensures currentCategory == CategoryLabel(categorySample, selectedCategories[..])
    {
      ghost var before := selectedCategories[..];
      if selectedCategories[currentIndex] {
        var index := 0;
        while index < selectedCategories.Length
          invariant 0 <= index <= selectedCategories.Length
          invariant forall k :: 0 <= k < index ==> selectedCategories[k] == (before[k] && k == currentIndex)
          invariant forall k :: index <= k < selectedCategories.Length ==> selectedCategories[k] == before[k]
        {
          if selectedCategories[index] == true && index != currentIndex {
            selectedCategories[index] := false;
          }
          index := index + 1;
        }
      }
      assert selectedCategories[..] == ClearOthers(before, currentIndex);

      var hasCurrent := false;
      var index := 0;
      while index < selectedCategories.Length
        invariant 0 <= index <= selectedCategories.Length
        invariant selectedCategories[..] == ClearOthers(before, currentIndex)
        invariant hasCurrent == LastSelected(selectedCategories[..][..index]).Some?
        invariant hasCurrent ==> currentCategory == categorySample[LastSelected(selectedCategories[..][..index]).value]
      {
        LastSelectedSnoc(selectedCategories[..], index);
        if selectedCategories[index] {
          currentCategory := categorySample[index];
          hasCurrent := true;
        }
        index := index + 1;
      }
      if !hasCurrent {
        currentCategory := "";
      }
      assert selectedCategories[..][..index] == selectedCategories[..];
    }

    /** A tap on a category that is shown as not selected. */
    method ShouldSelectItemAt(row: nat) returns (allow: bool)
      requires Valid() && row < CategoryCount
      modifies this`currentCategory, selectedCategories
      ensures Valid()
      ensures allow
      ensures selectedCategories[..] == AfterTap(old(selectedCategories[..]), row)
      ensures currentCategory == if old(selectedCategories[row]) then "" else categorySample[row]
    {
      ghost var before := selectedCategories[..];
      selectedCategories[row] := !selectedCategories[row];
      assert selectedCategories[..] == Toggled(before, row);
      SetCurrentCategory(row);
      TapKeepsAtMostOne(before, row);
      TapLabel(categorySample, before, row);
      allow := true;
    }

    /** A tap on a category that is shown as selected: the same toggle and
        normalisation as a select. */
    method ShouldDeselectItemAt(row: nat) returns (allow: bool)
      requires Valid() && row < CategoryCount
      modifies this`currentCategory, selectedCategories
      ensures Valid()
      ensures allow
      ensures selectedCategories[..] == AfterTap(old(selectedCategories[..]), row)
      ensures currentCategory == if old(selectedCategories[row]) then "" else categorySample[row]
    {
      ghost var before := selectedCategories[..];
      selectedCategories[row] := !selectedCategories[row];
      assert selectedCategories[..] == Toggled(before, row);
      SetCurrentCategory(row);
      TapKeepsAtMostOne(before, row);
      TapLabel(categorySample, before, row);
      allow := true;
    }

    /** Stores the restaurant list of a successful fetch. */
    method ReceiveRestaurantList(data: seq<MainMapEntity<Coord>>)
      requires Valid()
      modifies this`restaurantData
      ensures Valid()
      ensures restaurantData == data
    {
      restaurantData := data;
    }

    /** The id of the last restaurant whose latitude and longitude both equal
        the position's, or "" when there is none; nothing is changed. */
    method MatchRestaurantId(position: LatLng<Coord>) returns (id: string)
      ensures id == MatchedId(restaurantData, position)
      ensures (forall k :: 0 <= k < |restaurantData| ==> !AtPosition(restaurantData[k], position)) ==> id == ""
    {
      id := "";
      var k := 0;
      while k < |restaurantData|
        invariant 0 <= k <= |restaurantData|
        invariant id == MatchedId(restaurantData[..k], position)
      {
        var entity := restaurantData[k];
        assert restaurantData[..k + 1] == restaurantData[..k] + [entity];
        MatchedIdSnoc(restaurantData[..k], entity, position);
        if entity.latitude == position.lat && entity.longitude == position.lng {
          id := entity.id;
        }
        k := k + 1;
      }
      assert restaurantData[..k] == restaurantData;
    }
  }
}

/**
 * The marker list of the home screen (src/screens/Home.tsx): the `markers`
 * state cell, the updaters the sidebar and the add-marker form call, the
 * values derived from it, and the rules that disable the show-all and
 * hide-all buttons. Every updater is a pure transform of the previous list;
 * the screen replaces its state with the result.
 */
module Home {
  import opened Wrappers
  import opened Models
  import opened Sequences
  import opened JsBuiltins
  import Constants
  import Indicators

  // ------------------------------------------------------ the list transforms

  /** The useState initialiser: every seed marker as a visible row, in order. */
  function SeedRows(ms: seq<MapMarker>): seq<MarkerRow>
  {
    seq(|ms|, i requires 0 <= i < |ms| => MarkerRow(ms[i].id, ms[i].position, ms[i].caption, true))
  }

  /** The markers the map component reads from a list of rows: id, position and caption. */
  function AsMapMarkers(rows: seq<MarkerRow>): seq<MapMarker>
  {
    seq(|rows|, i requires 0 <= i < |rows| => AsMapMarker(rows[i]))
  }

  /** toggleMarkerVisibility(id): flips `visible` on the rows with that id. */
  function Toggled(rows: seq<MarkerRow>, id: string): seq<MarkerRow>
  {
    seq(|rows|, i requires 0 <= i < |rows| =>
      if rows[i].id == id then rows[i].(visible := !rows[i].visible) else rows[i])
  }

  /** handleRemoveMarker(id): the rows whose id differs, in order. */
  function Removed(rows: seq<MarkerRow>, id: string): seq<MarkerRow>
  {
    if rows == [] then []
    else
      var last := rows[|rows| - 1];
      Removed(rows[..|rows| - 1], id) + (if last.id != id then [last] else [])
  }

  /** The map both visibility buttons run over the list, setting every row's `visible` to `v`. */
  function WithVisibility(rows: seq<MarkerRow>, v: bool): seq<MarkerRow>
  {
    seq(|rows|, i requires 0 <= i < |rows| => rows[i].(visible := v))
  }

  /** showAllMarkers. */
  function ShowAll(rows: seq<MarkerRow>): seq<MarkerRow>
  {
    WithVisibility(rows, true)
  }

  /** hideAllMarkers. */
  function HideAll(rows: seq<MarkerRow>): seq<MarkerRow>
  {
    WithVisibility(rows, false)
  }

  /**
   * handleAddMarker: one visible row at the end, with the id newUuid()
   * returned, the position the form's numbers give, and the trimmed label.
   */
  function Appended(rows: seq<MarkerRow>, newId: string, position: LatLng, text: string): (r: seq<MarkerRow>)
    ensures |r| == |rows| + 1 && r[..|rows|] == rows
    ensures r[|rows|].id == newId && r[|rows|].position == position && r[|rows|].visible
    ensures r[|rows|].caption == Trim(text)
    ensures r[|rows|].caption != [] ==> !IsWhiteSpace(r[|rows|].caption[0]) && !IsWhiteSpace(r[|rows|].caption[|r[|rows|].caption| - 1])
  {
    rows + [MarkerRow(newId, position, Trim(text), true)]
  }

  // ------------------------------------------------------ the derived values

  /** allVisible: the list is not empty and every row is visible. */
  predicate AllVisible(rows: seq<MarkerRow>)
  {
    |rows| > 0 && forall i | 0 <= i < |rows| :: rows[i].visible
  }

  /** allHidden: the list is not empty and every row is hidden. */
  predicate AllHidden(rows: seq<MarkerRow>)
  {
    |rows| > 0 && forall i | 0 <= i < |rows| :: !rows[i].visible
  }

  /** visibleMarkers: the visible rows, copied, in order. */
  function VisibleMarkers(rows: seq<MarkerRow>): seq<MarkerRow>
  {
    if rows == [] then []
    else
      var last := rows[|rows| - 1];
      VisibleMarkers(rows[..|rows| - 1]) + (if last.visible then [last] else [])
  }

  /** The show-all button's `disabled`. */
  predicate ShowAllDisabled(rows: seq<MarkerRow>)
  {
    |rows| == 0 || AllVisible(rows)
  }

  /** The hide-all button's `disabled`. */
  predicate HideAllDisabled(rows: seq<MarkerRow>)
  {
    |rows| == 0 || AllHidden(rows)
  }

  // ------------------------------------------------------------ the screen

  /** The `markers` state cell; each handler replaces it with its updater's result. */
  class HomeScreen {
    var markers: seq<MarkerRow>

    /** Ids are unique: the seed ids are, and newUuid supplies fresh ones. */
    predicate Valid()
      reads this
    {
      Distinct(RowIds(markers))
    }

    /** The markers prop of the map component. */
    function MapMarkers(): seq<MapMarker>
      reads this
    {
      AsMapMarkers(VisibleMarkers(markers))
    }

    /** The screen's invariant is what keeps the map's arrow keys unique. */
    lemma IndicatorIdsDistinct(view: Indicators.Viewport, atan2: (real, real) -> real)
      requires Valid()
      ensures Distinct(Indicators.IndicatorIds(Indicators.Project(view, atan2, MapMarkers())))
    {
      DistinctIndicatorIds(markers, view, atan2);
    }

    constructor ()
      ensures markers == SeedRows(Constants.InitialMarkers)
      ensures Valid()
    {
      markers := SeedRows(Constants.InitialMarkers);
      Constants.InitialMarkersDistinct();
      SeedRowsFacts(Constants.InitialMarkers);
    }

    method ToggleMarkerVisibility(id: string)
      modifies this
      ensures markers == Toggled(old(markers), id)
      ensures old(Valid()) ==> Valid()
    {
      ToggledFacts(markers, id);
      assert RowIds(Toggled(markers, id)) == RowIds(markers);
      markers := Toggled(markers, id);
    }

    method RemoveMarker(id: string)
      modifies this
      ensures markers == Removed(old(markers), id)
      ensures old(Valid()) ==> Valid()
    {
      RemovedIds(markers, id);
      if Valid() {
        SubsequenceOfDistinct(RowIds(Removed(markers, id)), RowIds(markers));
      }
      markers := Removed(markers, id);
    }

    method ShowAllMarkers()
      modifies this
      ensures markers == ShowAll(old(markers))
      ensures old(Valid()) ==> Valid()
    {
      assert RowIds(ShowAll(markers)) == RowIds(markers);
      markers := ShowAll(markers);
    }

    method HideAllMarkers()
      modifies this
      ensures markers == HideAll(old(markers))
      ensures old(Valid()) ==> Valid()
    {
      assert RowIds(HideAll(markers)) == RowIds(markers);
      markers := HideAll(markers);
    }

    /** handleAddMarker, with the id newUuid() returned passed in. */
    method AddMarker(newId: string, position: LatLng, text: string)
      modifies this
      ensures markers == Appended(old(markers), newId, position, text)
      ensures old(Valid()) && newId !in RowIds(old(markers)) ==> Valid()
    {
      if Valid() && newId !in RowIds(markers) {
        AppendedKeepsDistinct(markers, newId, position, text);
      }
      markers := Appended(markers, newId, position, text);
    }
  }

  // ------------------------------------------------------------- properties

  /** The seed list is the initial markers in order, all visible. */
  lemma SeedRowsFacts(ms: seq<MapMarker>)
    ensures AsMapMarkers(SeedRows(ms)) == ms
    ensures forall i | 0 <= i < |SeedRows(ms)| :: SeedRows(ms)[i].visible
    ensures RowIds(SeedRows(ms)) == Ids(ms)
  {
    assert forall i | 0 <= i < |ms| :: AsMapMarkers(SeedRows(ms))[i] == ms[i];
  }

  /** Toggling flips `visible` on the rows with the id and changes nothing else. */
  lemma ToggledFacts(rows: seq<MarkerRow>, id: string)
    ensures |Toggled(rows, id)| == |rows|
    ensures AsMapMarkers(Toggled(rows, id)) == AsMapMarkers(rows)
    ensures forall i | 0 <= i < |rows| ::
              Toggled(rows, id)[i].visible == (if rows[i].id == id then !rows[i].visible else rows[i].visible)
  {
    var t := Toggled(rows, id);
    assert forall i | 0 <= i < |rows| :: AsMapMarkers(t)[i] == AsMapMarkers(rows)[i];
  }

  /** Toggling the same id twice restores the list. */
  lemma ToggledTwice(rows: seq<MarkerRow>, id: string)
    ensures Toggled(Toggled(rows, id), id) == rows
  {
    var t := Toggled(Toggled(rows, id), id);
    assert forall i | 0 <= i < |rows| :: t[i] == rows[i];
  }

  /**
   * Removing keeps the other rows in order and drops exactly the rows with
   * the id; every copy of a kept row survives.
   */
  lemma {:induction false} RemovedFacts(rows: seq<MarkerRow>, id: string)
    ensures IsSubsequence(Removed(rows, id), rows)
    ensures forall x :: x in Removed(rows, id) <==> x in rows && x.id != id
    ensures forall x :: multiset(Removed(rows, id))[x] == if x.id != id then multiset(rows)[x] else 0
  {
    RemovedCount(rows, id);
    RemovedSubsequence(rows, id);
  }

  lemma {:induction false} RemovedSubsequence(rows: seq<MarkerRow>, id: string)
    ensures IsSubsequence(Removed(rows, id), rows)
  {
    if rows != [] {
      var init, last := rows[..|rows| - 1], rows[|rows| - 1];
      RemovedSubsequence(init, id);
      assert rows == init + [last];
      SubsequenceSnoc(Removed(init, id), init, last, last.id != id);
      assert Removed(rows, id) == if last.id != id then Removed(init, id) + [last] else Removed(init, id);
    }
  }

  /** filter keeps every copy of a row whose id differs, and none of a row with the id. */
  lemma {:induction false} RemovedCount(rows: seq<MarkerRow>, id: string)
    ensures forall x :: multiset(Removed(rows, id))[x] == if x.id != id then multiset(rows)[x] else 0
  {
    if rows != [] {
      var init, last := rows[..|rows| - 1], rows[|rows| - 1];
      RemovedCount(init, id);
      assert rows == init + [last];
      assert multiset(rows) == multiset(init) + multiset{last};
      assert multiset(Removed(rows, id)) == multiset(Removed(init, id)) + if last.id != id then multiset{last} else multiset{};
    }
  }

  /** The ids left after removing are a subsequence of the ids before, and the removed id is gone. */
  lemma {:induction false} RemovedIds(rows: seq<MarkerRow>, id: string)
    ensures IsSubsequence(RowIds(Removed(rows, id)), RowIds(rows))
    ensures id !in RowIds(Removed(rows, id))
  {
    if rows == [] {
      assert RowIds(Removed(rows, id)) == [];
    } else {
      var init, last := rows[..|rows| - 1], rows[|rows| - 1];
      RemovedIds(init, id);
      var keep := last.id != id;
      SubsequenceSnoc(RowIds(Removed(init, id)), RowIds(init), last.id, keep);
      assert RowIds(rows) == RowIds(init) + [last.id];
      assert RowIds(Removed(rows, id))
          == if keep then RowIds(Removed(init, id)) + [last.id] else RowIds(Removed(init, id));
    }
  }

  /** Showing all makes every row visible and changes nothing else; a second time changes nothing. */
  lemma ShowAllFacts(rows: seq<MarkerRow>)
    ensures AsMapMarkers(ShowAll(rows)) == AsMapMarkers(rows)
    ensures forall i | 0 <= i < |ShowAll(rows)| :: ShowAll(rows)[i].visible
    ensures ShowAll(ShowAll(rows)) == ShowAll(rows)
    ensures AllVisible(ShowAll(rows)) <==> rows != []
  {
    assert forall i | 0 <= i < |rows| :: AsMapMarkers(ShowAll(rows))[i] == AsMapMarkers(rows)[i];
    assert forall i | 0 <= i < |rows| :: ShowAll(ShowAll(rows))[i] == ShowAll(rows)[i];
  }

  /** Hiding all makes every row hidden and changes nothing else; a second time changes nothing. */
  lemma HideAllFacts(rows: seq<MarkerRow>)
    ensures AsMapMarkers(HideAll(rows)) == AsMapMarkers(rows)
    ensures forall i | 0 <= i < |HideAll(rows)| :: !HideAll(rows)[i].visible
    ensures HideAll(HideAll(rows)) == HideAll(rows)
    ensures AllHidden(HideAll(rows)) <==> rows != []
  {
    assert forall i | 0 <= i < |rows| :: AsMapMarkers(HideAll(rows))[i] == AsMapMarkers(rows)[i];
    assert forall i | 0 <= i < |rows| :: HideAll(HideAll(rows))[i] == HideAll(rows)[i];
  }

  /** Adding a row under a fresh id keeps the ids unique. */
  lemma AppendedKeepsDistinct(rows: seq<MarkerRow>, newId: string, position: LatLng, text: string)
    requires Distinct(RowIds(rows)) && newId !in RowIds(rows)
    ensures Distinct(RowIds(Appended(rows, newId, position, text)))
  {
    var r := Appended(rows, newId, position, text);
    var ids := RowIds(r);
    assert ids == RowIds(rows) + [newId];
    forall i, j | 0 <= i < j < |ids| ensures ids[i] != ids[j] {
      if j == |rows| {
        assert ids[i] == RowIds(rows)[i];
      } else {
        assert ids[i] == RowIds(rows)[i] && ids[j] == RowIds(rows)[j];
      }
    }
  }

  /** For a non-empty list allVisible and allHidden never hold together. */
  lemma NotAllVisibleAndAllHidden(rows: seq<MarkerRow>)
    ensures !(AllVisible(rows) && AllHidden(rows))
  {
    if rows != [] {
      assert rows[0].visible || !rows[0].visible;
    }
  }

  /** visibleMarkers keeps exactly the visible rows, in their order, every copy of each. */
  lemma {:induction false} VisibleMarkersFacts(rows: seq<MarkerRow>)
    ensures IsSubsequence(VisibleMarkers(rows), rows)
    ensures forall x :: x in VisibleMarkers(rows) <==> x in rows && x.visible
    ensures forall x :: multiset(VisibleMarkers(rows))[x] == if x.visible then multiset(rows)[x] else 0
  {
    VisibleMarkersCount(rows);
    VisibleMarkersSubsequence(rows);
  }

  lemma {:induction false} VisibleMarkersSubsequence(rows: seq<MarkerRow>)
    ensures IsSubsequence(VisibleMarkers(rows), rows)
  {
    if rows != [] {
      var init, last := rows[..|rows| - 1], rows[|rows| - 1];
      VisibleMarkersSubsequence(init);
      assert rows == init + [last];
      SubsequenceSnoc(VisibleMarkers(init), init, last, last.visible);
      assert VisibleMarkers(rows) == if last.visible then VisibleMarkers(init) + [last] else VisibleMarkers(init);
    }
  }

  /** filter keeps every copy of a visible row, and none of a hidden one. */
  lemma {:induction false} VisibleMarkersCount(rows: seq<MarkerRow>)
    ensures forall x :: multiset(VisibleMarkers(rows))[x] == if x.visible then multiset(rows)[x] else 0
  {
    if rows != [] {
      var init, last := rows[..|rows| - 1], rows[|rows| - 1];
      VisibleMarkersCount(init);
      assert rows == init + [last];
      assert multiset(rows) == multiset(init) + multiset{last};
      assert multiset(VisibleMarkers(rows)) == multiset(VisibleMarkers(init)) + if last.visible then multiset{last} else multiset{};
    }
  }

  /** The ids handed to the map are a subsequence of the ids of the list. */
  lemma {:induction false} VisibleRowIds(rows: seq<MarkerRow>)
    ensures IsSubsequence(Ids(AsMapMarkers(VisibleMarkers(rows))), RowIds(rows))
  {
    if rows == [] {
      assert Ids(AsMapMarkers(VisibleMarkers(rows))) == [];
    } else {
      var init, last := rows[..|rows| - 1], rows[|rows| - 1];
      VisibleRowIds(init);
      SubsequenceSnoc(Ids(AsMapMarkers(VisibleMarkers(init))), RowIds(init), last.id, last.visible);
      assert RowIds(rows) == RowIds(init) + [last.id];
      assert Ids(AsMapMarkers(VisibleMarkers(rows)))
          == if last.visible then Ids(AsMapMarkers(VisibleMarkers(init))) + [last.id]
             else Ids(AsMapMarkers(VisibleMarkers(init)));
    }
  }

  /** With distinct row ids the map draws at most one arrow per id (the `key` of each arrow). */
  lemma DistinctIndicatorIds(rows: seq<MarkerRow>, view: Indicators.Viewport, atan2: (real, real) -> real)
    requires Distinct(RowIds(rows))
    ensures Distinct(Indicators.IndicatorIds(Indicators.Project(view, atan2, AsMapMarkers(VisibleMarkers(rows)))))
  {
    VisibleRowIds(rows);
    SubsequenceOfDistinct(Ids(AsMapMarkers(VisibleMarkers(rows))), RowIds(rows));
    Indicators.DistinctIdsPreserved(view, atan2, AsMapMarkers(VisibleMarkers(rows)));
  }

  /** All rows are passed to the map exactly when all are visible. */
  lemma VisibleMarkersAll(rows: seq<MarkerRow>)
    ensures VisibleMarkers(rows) == rows <==> forall i | 0 <= i < |rows| :: rows[i].visible
  {
    if VisibleMarkers(rows) == rows {
      VisibleMarkersFacts(rows);
      forall i | 0 <= i < |rows| ensures rows[i].visible {
        assert rows[i] in VisibleMarkers(rows);
      }
    }
    if forall i | 0 <= i < |rows| :: rows[i].visible {
      AllVisibleKept(rows);
    }
  }

  lemma {:induction false} AllVisibleKept(rows: seq<MarkerRow>)
    requires forall i | 0 <= i < |rows| :: rows[i].visible
    ensures VisibleMarkers(rows) == rows
  {
    if rows != [] {
      var init := rows[..|rows| - 1];
      assert forall i | 0 <= i < |init| :: init[i] == rows[i];
      AllVisibleKept(init);
      assert rows == init + [rows[|rows| - 1]];
    }
  }

  /** Show all is disabled exactly when pressing it would leave the list as it is. */
  lemma ShowAllDisabledIff(rows: seq<MarkerRow>)
    ensures ShowAllDisabled(rows) <==> ShowAll(rows) == rows
  {
    if ShowAll(rows) == rows {
      assert forall i | 0 <= i < |rows| :: rows[i].visible == ShowAll(rows)[i].visible;
    }
    if ShowAllDisabled(rows) {
      assert forall i | 0 <= i < |rows| :: ShowAll(rows)[i] == rows[i];
    }
  }

  /** Hide all is disabled exactly when pressing it would leave the list as it is. */
  lemma HideAllDisabledIff(rows: seq<MarkerRow>)
    ensures HideAllDisabled(rows) <==> HideAll(rows) == rows
  {
    if HideAll(rows) == rows {
      assert forall i | 0 <= i < |rows| :: rows[i].visible == HideAll(rows)[i].visible;
    }
    if HideAllDisabled(rows) {
      assert forall i | 0 <= i < |rows| :: HideAll(rows)[i] == rows[i];
    }
  }

  /** Every entry of the visible-marker list is a visible row of the screen. */
  lemma VisibleMarkerIsVisibleRow(rows: seq<MarkerRow>, k: nat)
    requires k < |VisibleMarkers(rows)|
    ensures exists i | 0 <= i < |rows| :: rows[i].visible && rows[i].id == VisibleMarkers(rows)[k].id
  {
    var visible := VisibleMarkers(rows);
    VisibleMarkersFacts(rows);
    assert visible[k] in visible;
    var i :| 0 <= i < |rows| && rows[i] == visible[k];
  }

  /** An indicator the map shows always belongs to a row whose marker is visible. */
  lemma IndicatorsComeFromVisibleRows(rows: seq<MarkerRow>, view: Indicators.Viewport,
                                      atan2: (real, real) -> real)
    ensures forall ind | ind in Indicators.Project(view, atan2, AsMapMarkers(VisibleMarkers(rows))) ::
              exists i | 0 <= i < |rows| :: rows[i].visible && rows[i].id == ind.id
  {
    var ms := AsMapMarkers(VisibleMarkers(rows));
    forall ind | ind in Indicators.Project(view, atan2, ms)
      ensures exists i | 0 <= i < |rows| :: rows[i].visible && rows[i].id == ind.id
    {
      Indicators.IndicatorHasMarkerId(view, atan2, ms, ind);
      var k :| 0 <= k < |ms| && ms[k].id == ind.id;
      VisibleMarkerIsVisibleRow(rows, k);
    }
  }
}

/** The seed data of the map screen (src/utils/constants.ts). */
module Constants {
  import opened Models
  import opened Sequences

  /** INITIAL_MARKERS: three Czech cities. */
  const InitialMarkers: seq<MapMarker> := [
    MapMarker("0c3fab4a-c7f0-4902-810e-a695cc31d1d6", LatLng(50.087, 14.421), "Praha"),
    MapMarker("ae6c1f7d-d378-4161-8c63-f9a0d9785917", LatLng(49.1951, 16.6068), "Brno"),
    MapMarker("2e376730-f11b-40d5-be5b-a1f6f00673a7", LatLng(49.8209, 18.2625), "Ostrava")
  ]

  /** The seed markers have pairwise different ids. */
  lemma InitialMarkersDistinct()
    ensures |InitialMarkers| == 3
    ensures Distinct(Ids(InitialMarkers))
  {
    var ids := Ids(InitialMarkers);
    assert ids[0][0] == '0' && ids[1][0] == 'a' && ids[2][0] == '2';
  }
}

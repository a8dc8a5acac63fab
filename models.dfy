/**
 * The records of the map screen (src/models/map.ts).
 * Leaflet's `LatLngExpression` is represented by its normal form, a `LatLng`
 * pair, and JavaScript numbers by exact reals. The source field `label`
 * is called `caption` here because `label` is a Dafny keyword.
 */
module Models {

  /** A geographic position in degrees. */
  datatype LatLng = LatLng(lat: real, lng: real)

  /** A pixel position inside the map container. */
  datatype Point = Point(x: real, y: real)

  /** IMapMarker: a labelled geographic marker with a UUID. */
  datatype MapMarker = MapMarker(id: string, position: LatLng, caption: string)

  /** IMarkerRow: a marker in the sidebar list together with its visibility. */
  datatype MarkerRow = MarkerRow(id: string, position: LatLng, caption: string, visible: bool)

  /** IIndicatorInfo: an edge indicator pointing at an off-screen marker. */
  datatype IndicatorInfo = IndicatorInfo(
    id: string,
    x: real,
    y: real,
    rotation: real,
    distance: string,
    caption: string)

  /** The marker a row stands for (the fields `Maps` reads). */
  function AsMapMarker(row: MarkerRow): MapMarker
  {
    MapMarker(row.id, row.position, row.caption)
  }

  /** The ids of a marker list, in order. */
  function Ids(ms: seq<MapMarker>): seq<string>
  {
    seq(|ms|, i requires 0 <= i < |ms| => ms[i].id)
  }

  /** The ids of a row list, in order. */
  function RowIds(rows: seq<MarkerRow>): seq<string>
  {
    seq(|rows|, i requires 0 <= i < |rows| => rows[i].id)
  }
}

/** A single bridge or tunnel way of the `brunnels` package (brunnels/brunnel_way.py):
    identity, node sharing, bridge/tunnel classification and the cycling-relevance filter. */
module PkgBrunnelWay {
  import opened Base
  import opened Text
  import opened WayModel

  /** `get_id`: the way's OSM id as text, or "unknown". */
  function GetId(w: Way): (s: string)
    ensures |s| > 0 && ';' !in s
  {
    IdString(w.data.id)
  }

  /** `shares_node_with`: the two ways have a node in common. */
  function SharesNodeWith(a: Way, b: Way): (r: bool)
    ensures r <==> exists n :: n in a.data.nodes && n in b.data.nodes
  {
    SharesNode(a.data.nodes, b.data.nodes)
  }

  lemma SharesNodeWithSymmetric(a: Way, b: Way)
    ensures SharesNodeWith(a, b) == SharesNodeWith(b, a)
  {
  }

  /** `determine_type`: a tunnel when a `tunnel` tag is present with a value other than
      "no" or "false"; otherwise a bridge. */
  function DetermineType(tags: Tags): (t: BrunnelType)
    ensures t == Tunnel <==> "tunnel" in tags && tags["tunnel"] != "no" && tags["tunnel"] != "false"
  {
    if "tunnel" in tags && tags["tunnel"] !in ["no", "false"] then Tunnel else Bridge
  }

  /** A closed way: at least two nodes and the first equals the last. */
  predicate IsClosed(nodes: seq<NodeId>)
  {
    |nodes| >= 2 && nodes[0] == nodes[|nodes| - 1]
  }

  predicate Has(tags: Tags, key: string, value: string)
  {
    key in tags && tags[key] == value
  }

  /** `should_filter`: closed ways are polygons unless polygons are kept; then a `bicycle` tag
      decides alone (no: excluded, any other value: kept); then a cycleway is kept; then a
      waterway tag excludes; then a railway tag other than "abandoned" excludes. */
  function ShouldFilter(data: WayData, keepPolygons: bool): (r: FilterReason)
    ensures r == Polygon <==> !keepPolygons && IsClosed(data.nodes)
    ensures r == BicycleNo <==>
      !(!keepPolygons && IsClosed(data.nodes)) && Has(data.tags, "bicycle", "no")
    ensures r == Waterway <==>
      !(!keepPolygons && IsClosed(data.nodes)) && "bicycle" !in data.tags
      && !Has(data.tags, "highway", "cycleway") && "waterway" in data.tags
    ensures r == Railway <==>
      !(!keepPolygons && IsClosed(data.nodes)) && "bicycle" !in data.tags
      && !Has(data.tags, "highway", "cycleway") && "waterway" !in data.tags
      && "railway" in data.tags && data.tags["railway"] != "abandoned"
    ensures r in {NoFilter, Polygon, BicycleNo, Waterway, Railway}
  {
    if !keepPolygons && IsClosed(data.nodes) then Polygon
    else
      var tags := data.tags;
      if "bicycle" in tags then
        (if tags["bicycle"] == "no" then BicycleNo else NoFilter)
      else if Has(tags, "highway", "cycleway") then NoFilter
      else if "waterway" in tags then Waterway
      else if "railway" in tags && tags["railway"] != "abandoned" then Railway
      else NoFilter
  }

  /** Keeping polygons changes the verdict only for closed ways. */
  lemma KeepPolygonsOnlyMattersForClosedWays(data: WayData)
    ensures !IsClosed(data.nodes) ==> ShouldFilter(data, true) == ShouldFilter(data, false)
    ensures IsClosed(data.nodes) ==> ShouldFilter(data, false) == Polygon
  {
  }

  /** `from_overpass_data`: one coordinate per geometry entry, the type and filter reason from
      the tags and nodes, not yet contained in the route and without a route span. */
  function FromOverpassData(data: WayData, keepPolygons: bool): (w: Way)
    ensures w.coords == data.geometry && w.data == data
    ensures w.btype == Tunnel <==> "tunnel" in data.tags && data.tags["tunnel"] != "no" && data.tags["tunnel"] != "false"
    ensures w.reason == NoFilter ==> !(!keepPolygons && IsClosed(data.nodes)) && !Has(data.tags, "bicycle", "no")
    ensures w.btype == DetermineType(data.tags) && w.reason == ShouldFilter(data, keepPolygons)
    ensures !w.contained && w.span.None?
  {
    Way(data.geometry, data, DetermineType(data.tags), false, ShouldFilter(data, keepPolygons), None)
  }

  /** Reading the same way with and without keeping polygons gives the same way unless it is
      closed, and a closed way read without keeping polygons is always dropped as a polygon. */
  lemma FromOverpassDataKeepPolygons(data: WayData)
    ensures !IsClosed(data.nodes) ==> FromOverpassData(data, true) == FromOverpassData(data, false)
    ensures IsClosed(data.nodes) ==>
      FromOverpassData(data, false).reason == Polygon && FromOverpassData(data, true).reason != Polygon
  {
    KeepPolygonsOnlyMattersForClosedWays(data);
  }
}

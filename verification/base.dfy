/** Vocabulary shared by every part of the brunnels model: optional values, the Python
    exceptions an operation can raise, positions and the raw OpenStreetMap way record. */
module Base {

  /** A value that may be absent (Python `None`). */
  datatype Option<+T> = None | Some(value: T)

  /** The exception a failing operation raises; the message names only the condition. */
  datatype Error =
    | ValueError(message: string)
    | RuntimeError(message: string)
    | AttributeError(message: string)
    | IndexError(message: string)
    | ZeroDivisionError

  /** Either the value an operation returns or the exception it raises. */
  datatype Result<+T> = Ok(value: T) | Err(error: Error)

  /** A WGS84 coordinate in decimal degrees, with the elevation a GPX track point may carry
      (None for OpenStreetMap nodes). Equality compares all three fields, as the dataclass
      does. */
  datatype Position = Position(lat: real, lon: real, elevation: Option<real>)

  /** An OpenStreetMap node identifier. */
  type NodeId = int

  /** OpenStreetMap tags of a way. */
  type Tags = map<string, string>

  /** Whether a way is a bridge or a tunnel. */
  datatype BrunnelType = Bridge | Tunnel

  /** The order in which a way's node list (or coordinate list) is traversed. */
  datatype Direction = Forward | Reverse

  /** A way as delivered by the Overpass API. A key the record lacks reads as empty:
      no id, no nodes, no tags, no geometry. */
  datatype WayData = WayData(id: Option<int>, nodes: seq<NodeId>, tags: Tags, geometry: seq<Position>)

  function Abs(x: real): (r: real)
    ensures r >= 0.0 && (r == x || r == -x)
  {
    if x < 0.0 then -x else x
  }

  function Min(a: real, b: real): (r: real)
    ensures r <= a && r <= b && (r == a || r == b)
  {
    if a <= b then a else b
  }

  function Max(a: real, b: real): (r: real)
    ensures r >= a && r >= b && (r == a || r == b)
  {
    if a >= b then a else b
  }
}

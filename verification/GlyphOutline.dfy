/** Outline vertices, shared by both glyph decoders and the curve flattener. */
module GlyphOutline {
  import opened MachineInts

  datatype VertexKind = VMove | VLine | VCurve | VCubic

  /** `stbtt_vertex`: a point, the control point of a curve, and the second one of a cubic. */
  datatype Vertex = Vertex(kind: VertexKind, x: int, y: int, cx: int, cy: int, cx1: int, cy1: int)

  const NO_VERTEX := Vertex(VMove, 0, 0, 0, 0, 0, 0)

  /** What a vertex becomes in the output array, whose coordinates are 16 bits wide. */
  function Stored(v: Vertex): Vertex {
    Vertex(v.kind, ToInt16(v.x), ToInt16(v.y), ToInt16(v.cx), ToInt16(v.cy), ToInt16(v.cx1), ToInt16(v.cy1))
  }

  function StoredAll(vs: seq<Vertex>): (r: seq<Vertex>)
    ensures |r| == |vs|
  {
    seq(|vs|, i requires 0 <= i < |vs| => Stored(vs[i]))
  }
}

/** The callers of the charstring interpreter: one counts, then stores; the other only measures. */
module CharstringGlyph {
  import opened GlyphOutline
  import opened Charstring
  import opened CharstringContext
  import opened CharstringInterpreter

  /** `stbtt__GetGlyphShapeT2`: the counting run and the output run agree, so the second one fills the
      allocated array exactly; nothing is returned for a rejected glyph. */
  method GetGlyphShape(font: Font, index: int) returns (vertices: array?<Vertex>, n: nat)
    ensures var glyph := Glyph(font, index);
            if glyph.Finished? then
              && vertices != null && fresh(vertices)
              && n == vertices.Length
              && vertices[..] == StoredAll(glyph.path.out)
            else vertices == null && n == 0
  {
    hide Glyph, Spans, PointsOfAll, Stored;
    var countContext := new Context(true, null);
    var ok := RunCharstring(font, index, countContext);
    if ok {
      vertices := new Vertex[countContext.numVertices](_ => NO_VERTEX);
      var outputContext := new Context(false, vertices);
      ok := RunCharstring(font, index, outputContext);
      if ok {
        assert outputContext.numVertices == countContext.numVertices;
        return vertices, outputContext.numVertices;
      }
    }
    return null, 0;
  }

  /** `stbtt__GetGlyphInfoT2`: the vertex count and the exact extent of the untruncated points. */
  method GetGlyphInfo(font: Font, index: int) returns (n: nat, box: Box)
    ensures var glyph := Glyph(font, index);
            if glyph.Finished? then
              n == |glyph.path.out| && Spans(box, PointsOfAll(glyph.path.out))
            else n == 0 && box == Box.Box(0, 0, 0, 0)
  {
    hide Glyph, Spans, PointsOfAll;
    var c := new Context(true, null);
    var ok := RunCharstring(font, index, c);
    box := if ok then c.box else Box.Box(0, 0, 0, 0);
    n := if ok then c.numVertices else 0;
  }
}

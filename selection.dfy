/**
 * The scan `modify_contours` makes before it walks the contours of a
 * layer: when no point of any contour is selected, the whole glyph is
 * worked on (the glyph variant). The scan leaves the inner loop at the
 * first selected point of a contour and goes on with the next contour.
 */
module Selection {
  import opened Contours

  /** No point of any contour of the layer is selected. */
  predicate NothingSelected(layer: seq<Contour>)
    reads layer
  {
    forall i, k :: 0 <= i < |layer| && 0 <= k < |layer[i].points| ==> !layer[i].points[k].selected
  }

  /** `is_glyph_variant`: true exactly when nothing in the layer is selected. */
  method GlyphVariant(layer: seq<Contour>) returns (glyphVariant: bool)
    ensures glyphVariant <==> NothingSelected(layer)
  {
    glyphVariant := true;
    var i := 0;
    while i < |layer|
      invariant 0 <= i <= |layer|
      invariant glyphVariant <==> forall n, k :: 0 <= n < i && 0 <= k < |layer[n].points| ==> !layer[n].points[k].selected
    {
      var j := 0;
      while j < |layer[i].points|
        invariant 0 <= j <= |layer[i].points|
        invariant glyphVariant <==>
          && (forall n, k :: 0 <= n < i && 0 <= k < |layer[n].points| ==> !layer[n].points[k].selected)
          && (forall k :: 0 <= k < j ==> !layer[i].points[k].selected)
      {
        if layer[i].points[j].selected {
          glyphVariant := false;
          break;
        }
        j := j + 1;
      }
      i := i + 1;
    }
  }
}

/** `SvgPropertiesTrait`: the CSS properties SVG also accepts as presentation attributes. */
module SvgPropertiesTrait {

  /**
   * `in_array($p, SVG_PROPERTIES, true)`: the constant list written out entry
   * by entry in its order (`visibility` is listed twice, as in the list).
   */
  predicate IsSvgProperty(p: string) {
    p == "fill" || p == "fill-opacity" || p == "fill-rule" || p == "stroke" ||
    p == "stroke-opacity" || p == "stroke-width" || p == "stroke-linecap" ||
    p == "stroke-linejoin" || p == "stroke-miterlimit" || p == "stroke-dasharray" ||
    p == "stroke-dashoffset" || p == "opacity" || p == "visibility" || p == "marker-start" ||
    p == "marker-mid" || p == "marker-end" || p == "mask" || p == "clip-path" ||
    p == "clip-rule" || p == "filter" || p == "shape-rendering" || p == "vector-effect" ||
    p == "color-interpolation" || p == "color-interpolation-filters" ||
    p == "color-rendering" || p == "image-rendering" || p == "pointer-events" ||
    p == "text-rendering" || p == "stop-color" || p == "stop-opacity" || p == "text-anchor" ||
    p == "alignment-baseline" || p == "dominant-baseline" || p == "letter-spacing" ||
    p == "word-spacing" || p == "kerning" || p == "cursor" || p == "direction" ||
    p == "display" || p == "overflow" || p == "visibility" || p == "unicode-bidi" ||
    p == "writing-mode"
  }
}

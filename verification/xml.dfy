/** The document tree the FCPXML writer builds with ElementTree, kept as a
    tree: serialising it to text is a separate, abstract step. */
module Xml {
  import opened Rationals

  /** An attribute value. Times stay fractions and are written `"<num>/<den>s"`
      (so `Time(Zero)` is the literal `"0/1s"`); the name of a video format
      whose frame rate is not a whole number is written with Python's float
      formatting, which is kept abstract as `RateName`. */
  datatype Value =
    | Str(text: string)
    | Time(time: Fraction)
    | RateName(height: int, fpsNum: int, fpsDen: int)

  /** An element: its tag, its attributes in insertion order, its children. */
  datatype Element = Element(tag: string, attrs: seq<(string, Value)>, children: seq<Element>)
}

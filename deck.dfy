/**
 * The part of a parsed presentation that `extract_slide_knowledge` reads,
 * as plain values: a deck is a sequence of slides, a slide an ordered
 * sequence of shapes. The title placeholder is one of those shapes.
 */
module Deck {
  import opened Lists

  /** One shape of a slide: whether it has a text frame, whether it is the
      slide's title placeholder, and its text. */
  datatype Shape = Shape(hasTextFrame: bool, isTitlePlaceholder: bool, text: string)

  datatype Slide = Slide(shapes: seq<Shape>)

  /** `i` is the first title placeholder among `shapes`. */
  predicate IsFirstTitle(shapes: seq<Shape>, i: int) {
    0 <= i < |shapes| && shapes[i].isTitlePlaceholder
    && forall j :: 0 <= j < i ==> !shapes[j].isTitlePlaceholder
  }

  /** Position of the title placeholder (`slide.shapes.title`), if any. */
  function TitleIndex(shapes: seq<Shape>): (r: Option<nat>)
    ensures r.Some? ==> IsFirstTitle(shapes, r.value)
    ensures r.None? ==> forall j :: 0 <= j < |shapes| ==> !shapes[j].isTitlePlaceholder
  {
    if |shapes| == 0 then None
    else if shapes[0].isTitlePlaceholder then Some(0)
    else match TitleIndex(shapes[1..]) {
      case None => None
      case Some(i) => Some(i + 1)
    }
  }

  /** The slide's title: the text of its title placeholder, or "" when it
      has none. */
  function TitleText(slide: Slide): (t: string)
    ensures (forall j :: 0 <= j < |slide.shapes| ==> !slide.shapes[j].isTitlePlaceholder) ==> t == ""
    ensures forall i :: IsFirstTitle(slide.shapes, i) ==> t == slide.shapes[i].text
  {
    match TitleIndex(slide.shapes) {
      case None => ""
      case Some(i) => slide.shapes[i].text
    }
  }
}

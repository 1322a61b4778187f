/** Where the quick-save button goes (content.js, selection handler): just
    past the bottom-right corner of the selection, pulled back from the
    right edge of the viewport and flipped above the selection when it
    would hang below the bottom edge. Coordinates are whole pixels. */
module Placement {
  import opened Options

  /** The estimated button size and the margins the code keeps. */
  const BtnWidth: int := 100
  const BtnHeight: int := 36
  const RightMargin: int := 10
  const GapAbove: int := 5

  /** The selection's bounding box, as far as the placement reads it. */
  datatype Rect = Rect(right: int, bottom: int, top: int)

  /** The browser state the handler reads: the selection's box (`None`
      when `getRangeAt(0)` throws), the pointer, the scroll offsets and
      the viewport size. */
  datatype View = View(
    range: Option<Rect>,
    clientX: int, clientY: int,
    scrollX: int, scrollY: int,
    width: int, height: int)

  /** The horizontal rule: `left` is kept unless the button would cross the
      right edge, in which case it is put `RightMargin` pixels inside. */
  function ClampLeft(preferred: int, width: int): (left: int)
    ensures left + BtnWidth <= width
    ensures left <= preferred
    ensures left == preferred <==> preferred + BtnWidth <= width
    ensures left != preferred ==> left + BtnWidth + RightMargin == width
  {
    if preferred + BtnWidth > width then width - BtnWidth - RightMargin else preferred
  }

  /** The vertical rule: `top` is kept unless the button would cross the
      bottom edge, in which case the button goes `GapAbove` pixels above
      the anchor line `above`. */
  function FlipTop(preferred: int, above: int, height: int): (top: int)
    ensures preferred + BtnHeight <= height ==> top == preferred
    ensures preferred + BtnHeight > height ==> top + BtnHeight + GapAbove == above
  {
    if preferred + BtnHeight > height then above - BtnHeight - GapAbove else preferred
  }

  /** The corner the button is anchored to, falling back to the pointer. */
  function AnchorRight(v: View): int {
    if v.range.Some? then v.range.value.right else v.clientX
  }

  function AnchorBottom(v: View): int {
    if v.range.Some? then v.range.value.bottom else v.clientY
  }

  function AnchorTop(v: View): int {
    if v.range.Some? then v.range.value.top else v.clientY
  }

  /** A CSS pixel value that may be `NaN`, as JavaScript arithmetic on an
      `undefined` operand produces. */
  datatype Px = Px(n: int) | NaN

  /** The placement as written. The fallback box built when `getRangeAt`
      throws has `right` and `bottom` but no `top`, so the flip reads
      `undefined` and yields `NaN`. Positions add the scroll offsets
      although the button is `position: fixed`. */
  function PlaceAsWritten(v: View): (r: (int, Px))
    ensures r.0 + BtnWidth <= v.width
    ensures r.0 == ClampLeft(AnchorRight(v) + v.scrollX, v.width)
    ensures r.1.Px? ==> r.1.n == FlipTop(AnchorBottom(v) + v.scrollY, AnchorTop(v) + v.scrollY, v.height)
    ensures r.1.NaN? <==> v.range.None? && v.clientY + v.scrollY + BtnHeight > v.height
  {
    var left := ClampLeft(AnchorRight(v) + v.scrollX, v.width);
    var top := AnchorBottom(v) + v.scrollY;
    if top + BtnHeight > v.height then
      if v.range.Some? then (left, Px(v.range.value.top + v.scrollY - BtnHeight - GapAbove))
      else (left, NaN)
    else
      (left, Px(top))
  }

  /** A pointer-only selection near the bottom of the viewport: the flip
      computes `NaN` and the button gets no valid `top`. */
  lemma FallbackFlipIsNaN()
    ensures PlaceAsWritten(View(None, 300, 590, 0, 0, 1024, 600)).1 == NaN
  {
  }

  /** A selection in the middle of a page scrolled 2000 pixels down: the
      fixed-position button lands far below the visible viewport. */
  lemma ScrolledButtonOffScreen()
    ensures var r := PlaceAsWritten(View(Some(Rect(400, 300, 280)), 0, 0, 0, 2000, 1024, 600));
            r.1.Px? && r.1.n > 600
  {
  }

  /** The corrected placement: the box and the viewport are both in
      viewport coordinates, as `position: fixed` expects, and the fallback
      box uses the pointer's `y` as its top, as the PDF handler's fallback
      does. */
  function Place(v: View): (r: (int, int))
    ensures r.0 + BtnWidth <= v.width
    ensures r.0 == AnchorRight(v) <==> AnchorRight(v) + BtnWidth <= v.width
    ensures AnchorBottom(v) + BtnHeight <= v.height ==> r.1 == AnchorBottom(v)
    ensures AnchorBottom(v) + BtnHeight > v.height ==> r.1 + BtnHeight + GapAbove == AnchorTop(v)
  {
    (ClampLeft(AnchorRight(v), v.width), FlipTop(AnchorBottom(v), AnchorTop(v), v.height))
  }

  /** A selection that lies inside the viewport, with room for the button
      above it, gets a button wholly inside the viewport's height. */
  lemma {:induction false} PlaceStaysVisible(v: View)
    requires 0 <= AnchorTop(v) <= AnchorBottom(v) <= v.height
    requires AnchorTop(v) >= BtnHeight + GapAbove
    ensures var r := Place(v); 0 <= r.1 && r.1 + BtnHeight <= v.height
  {
    var r := Place(v);
    if AnchorBottom(v) + BtnHeight > v.height {
      assert r.1 == AnchorTop(v) - BtnHeight - GapAbove;
    }
  }

  /** With a selection box and no scrolling, the corrected placement agrees
      with the code as written. */
  lemma {:induction false} PlaceAgreesWhenUnscrolled(v: View)
    requires v.range.Some? && v.scrollX == 0 && v.scrollY == 0
    ensures PlaceAsWritten(v) == (Place(v).0, Px(Place(v).1))
  {
  }
}

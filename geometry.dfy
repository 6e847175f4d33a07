/** Where the label sits: its default size when created without one, and
    where it settles when a drag ends (against the side edge of the half of
    the screen that holds its origin, and between the top and bottom
    paddings). */
module Geometry {

  datatype Point = Point(x: real, y: real)
  datatype Size = Size(width: real, height: real)
  datatype Rect = Rect(origin: Point, size: Size)

  const HPadding: real := 20.0
  const TopPadding: real := 88.0
  const BottomPadding: real := 78.0

  const ZeroSize := Size(0.0, 0.0)
  const DefaultSize := Size(60.0, 20.0)

  /** `init(frame:)`: a frame of zero size is given the default size. */
  function InitialFrame(frame: Rect): (r: Rect)
    ensures r.origin == frame.origin
    ensures r.size != ZeroSize
    ensures frame.size == ZeroSize ==> r.size == DefaultSize
    ensures frame.size != ZeroSize ==> r == frame
  {
    if frame.size == ZeroSize then frame.(size := DefaultSize) else frame
  }

  /** The frame the shared label is created with. */
  const SharedFrame := Rect(Point(HPadding, TopPadding), ZeroSize)

  /** The shared label starts at the left padding below the top padding, with
      the default size, where a drag would leave it on any screen at least
      166 points tall and 40 wide. */
  lemma SharedLabelFrame(screen: Size)
    requires screen.height >= TopPadding + BottomPadding && screen.width >= 2.0 * HPadding
    ensures InitialFrame(SharedFrame) == Rect(Point(20.0, 88.0), Size(60.0, 20.0))
    ensures DragEndFrame(InitialFrame(SharedFrame), screen) == InitialFrame(SharedFrame)
  {
  }

  /** The x a drag ends at: the label keeps a gap of `HPadding` to the left
      edge when its origin is in the left half of the screen, and to the right
      edge otherwise. */
  function SnapX(x: real, width: real, screenWidth: real): (r: real)
    ensures x <= screenWidth / 2.0 ==> r == HPadding
    ensures x > screenWidth / 2.0 ==> screenWidth - (r + width) == HPadding
  {
    if x - screenWidth / 2.0 > 0.0 then screenWidth - width - HPadding else HPadding
  }

  /** `min(max(y, TopPadding), screenHeight - BottomPadding)`. */
  function ClampY(y: real, screenHeight: real): (r: real)
    ensures TopPadding <= screenHeight - BottomPadding ==>
      TopPadding <= r <= screenHeight - BottomPadding
    ensures TopPadding <= y <= screenHeight - BottomPadding ==> r == y
    ensures screenHeight - BottomPadding < TopPadding ==> r == screenHeight - BottomPadding
    ensures y < TopPadding <= screenHeight - BottomPadding ==> r == TopPadding
    ensures y > screenHeight - BottomPadding ==> r == screenHeight - BottomPadding
    ensures r == y || r == TopPadding || r == screenHeight - BottomPadding
  {
    var atLeastTop := if y < TopPadding then TopPadding else y;
    if screenHeight - BottomPadding < atLeastTop then screenHeight - BottomPadding else atLeastTop
  }

  /** Clamping a clamped y changes nothing. */
  lemma ClampYIdempotent(y: real, screenHeight: real)
    ensures ClampY(ClampY(y, screenHeight), screenHeight) == ClampY(y, screenHeight)
  {
  }

  /** Snapping a snapped x changes nothing as long as the label, with its
      padding, fits in half the screen. */
  lemma SnapXIdempotent(x: real, width: real, screenWidth: real)
    requires 2.0 * HPadding <= screenWidth
    requires 2.0 * (width + HPadding) < screenWidth
    ensures SnapX(SnapX(x, width, screenWidth), width, screenWidth) == SnapX(x, width, screenWidth)
  {
  }

  /** The frame when a drag ends on a screen of the given size: the size is
      kept, x is snapped to a side and y clamped between the paddings. */
  function DragEndFrame(frame: Rect, screen: Size): (r: Rect)
    ensures r.size == frame.size
    ensures r.origin.x == HPadding || r.origin.x + frame.size.width == screen.width - HPadding
    ensures TopPadding <= screen.height - BottomPadding ==>
      TopPadding <= r.origin.y <= screen.height - BottomPadding
  {
    frame.(origin := Point(SnapX(frame.origin.x, frame.size.width, screen.width),
                           ClampY(frame.origin.y, screen.height)))
  }
}

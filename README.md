# FPSLabel — a verified model of the frame-rate overlay

FPSLabel is a small debugging overlay for iOS. The label samples the display
link's timestamp on every screen refresh. It counts the frames in a window of
at least one second. When the window closes, it shows the rate as text like
`60 FPS`. The number is coloured on a red-to-green gradient, and the unit is
white. The user can drag the label around. When the drag ends, the label
settles against the side of the screen whose half holds its origin, and is kept between a top and a
bottom padding.

The model has five modules:

- `Sampling` gives the sampling rule of `tick()` as a pure transition
  function. `Step` handles one timestamp, and `Run` folds a whole history of
  timestamps. Lemmas cover the three cases of a tick and the bounds on a
  reading. They also show that the counter stays non-negative over any
  history, that it counts exactly the ticks of the open window, and that an
  evenly refreshing display is reported at exactly its refresh rate.
- `Presentation` holds the text and its attributes:
  - `%d` formatting, with decimal digits and their read-back proved to be
    inverses;
  - Swift's `rounded()` (nearest integer, halves away from zero);
  - the display text, the hue formula, and the four attribute ranges with
    their layout facts;
  - `AttributedText`, a class for the mutable attributed string, with
    `AddAttribute` rewriting the attributes of a range in place;
  - `Render`, which builds the label's text and proves which colour and
    font each character ends up with.
- `Geometry` holds the padding constants and the default-size rule of
  `init(frame:)`. It also holds the drag-end snap of x and clamp of y.
- `Label` holds the class `FPSLabel`. Its fields are `count`, `lastTime`,
  `frame` and `attributedText`. Three ghost fields record history: every
  sampled timestamp, every emitted reading, and the ticks of the open window.
  `Tick` and its sampling part `Sample` are proved against `Step`. Their
  invariant, `Tracks`, ties the fields to `Run` over the whole history and
  the open window to the tail of that history. `EndDrag` is
  proved against `DragEndFrame`.
- `Wrappers` holds `Option`.

Timestamps, coordinates and rates are Dafny `real`s, and integers are
unbounded.

## Behaviour at the edges

- **A timestamp of exactly 0.0 means "no sample yet".** A tick at 0.0
  leaves `lastTime` at 0, so the window opens only on the next tick
  (FPSLabel/FPSLabel.swift:100-103). So a stream `0.0, 0.0166, …, 1.0` gives
  no reading by 1.0. See `Sampling.ZeroTimestampDoesNotOpenWindow`.
- **Every tick after the first sample is counted, even if time went
  backwards.** A timestamp at or before `lastTime` still adds one to `count`
  (FPSLabel/FPSLabel.swift:105). It only makes the elapsed time smaller, so
  the reading comes later.
- **The hue is not normalised.** The model records the raw value
  `0.27 * (fps/60 - 0.2)`, which is negative below 12 fps.
- **The small-font character is the space between the number and the unit**
  (index `len - 4`). It is not part of the number.

## Model

| member | source | states |
|---|---|---|
| `Sampling.Step` | FPSLabel/FPSLabel.swift:100-112 | One tick of `tick()` on a timestamp. The window start only ever moves to the tick itself. A tick that emits leaves the count at 0, and any other tick adds at most 1 to it. |
| `Sampling.Run` | FPSLabel/FPSLabel.swift:98-112 | Feeding a history of timestamps in order, one `Step` each. It emits at most one reading per tick. |
| `Sampling.FirstTickInitialises` | FPSLabel/FPSLabel.swift:100-103 | Before any sample, a tick only records its timestamp as `lastTime`. The count is unchanged and nothing is emitted. |
| `Sampling.TickAccumulates` | FPSLabel/FPSLabel.swift:105-109 | After the first sample, a tick less than a second after `lastTime` adds exactly 1 to the count. It keeps `lastTime` and emits nothing. |
| `Sampling.EmitsIffWindowElapsed` | FPSLabel/FPSLabel.swift:105-112 | A tick emits if and only if a sample exists and at least a second has elapsed. The reading times the elapsed time equals the count including this tick. Afterwards the count is 0 and `lastTime` is the tick's timestamp. |
| `Sampling.ReadingBounds` | FPSLabel/FPSLabel.swift:105-111 | From a non-negative count, any reading is greater than 0 and at most the number of ticks the closed window counted. |
| `Sampling.StepKeepsInv` | FPSLabel/FPSLabel.swift:100-112 | One tick keeps the count non-negative and keeps it 0 while there is no sample. Any reading it emits is positive. |
| `Sampling.RunAppend` | FPSLabel/FPSLabel.swift:98-112 | Feeding one more timestamp steps from the state the earlier ones reached, and adds that step's reading to the readings. |
| `Sampling.RunKeepsInv` | FPSLabel/FPSLabel.swift:98-112 | Over any history of timestamps, the count stays non-negative and is 0 while there is no sample. Every reading emitted is positive. |
| `Sampling.WindowAccumulates` | FPSLabel/FPSLabel.swift:105-109 | While every tick lies less than a second after the window opened, nothing is emitted and the count grows by exactly the number of ticks. |
| `Sampling.FirstTickNeverEmits` | FPSLabel/FPSLabel.swift:100-103 | The first tick a new label receives never emits a reading, whatever its timestamp. |
| `Sampling.ZeroTimestampDoesNotOpenWindow` | FPSLabel/FPSLabel.swift:100-103 | A tick at 0.0 is taken as "no sample yet". Fed 0.0, 0.5 and 1.0, the label opens its window at 0.5 and emits nothing. |
| `Sampling.EvenTicksWithinWindow` | FPSLabel/FPSLabel.swift:105-109 | Evenly spaced ticks that stay under a second after the window opened are all counted, and nothing is emitted. |
| `Sampling.RateOfEvenWindow` | FPSLabel/FPSLabel.swift:111 | n frames over n refresh periods give a rate of 1/period. |
| `Sampling.EvenRefreshReading` | FPSLabel/FPSLabel.swift:105-112 | A display refreshing every p seconds gives exactly one reading, 1/p, on the first tick at least a second after the window opened. Afterwards the count is 0 and the window reopens at that tick. |
| `Sampling.SixtyHertzReadsSixty` | FPSLabel/FPSLabel.swift:105-112 | Sixty refreshes a second, for one second after a sample, give exactly the readings `[60]`. |
| `Presentation.Digits` | FPSLabel/FPSLabel.swift:116 | The decimal digits of a natural number form a non-empty string of digit characters. |
| `Presentation.DigitsIsNumeral` | FPSLabel/FPSLabel.swift:116 | The digits of a number have no leading zero unless the number is 0. |
| `Presentation.ValueOfDigits` | FPSLabel/FPSLabel.swift:116 | Reading back the digits of n gives n. |
| `Presentation.NumeralValueLowerBound` | FPSLabel/FPSLabel.swift:116 | A numeral of two or more digits denotes at least 10. |
| `Presentation.DigitsOfValue` | FPSLabel/FPSLabel.swift:116 | Every numeral is the digits of the number it denotes. This is the other direction of the round trip. |
| `Presentation.FormatInt` | FPSLabel/FPSLabel.swift:116 | `%d` writes a non-negative integer as a numeral that reads back as the integer. It writes a negative integer as `-` followed by the numeral of its magnitude. |
| `Presentation.Round` | FPSLabel/FPSLabel.swift:116 | `rounded()` is within 1/2 of its input, and ties go away from zero. A non-negative input rounds to a non-negative integer. |
| `Presentation.DisplayText` | FPSLabel/FPSLabel.swift:116 | The text of a reading has at least 5 characters and ends in `" FPS"`. |
| `Presentation.DisplayTextShape` | FPSLabel/FPSLabel.swift:116 | The text is the formatted rounded rate, a space and `FPS`. It has at least 5 characters, and its fourth-last character is the space. For a non-negative rate, the number part reads back as the rounded rate. |
| `Presentation.SixtyFpsText` | FPSLabel/FPSLabel.swift:116 | A reading of 60 shows `60 FPS`. |
| `Presentation.Hue` | FPSLabel/FPSLabel.swift:114-115 | The hue `0.27 * (fps/60 - 0.2)` is negative exactly below 12 fps and 0 exactly at 12 fps. |
| `Presentation.GradientColor` | FPSLabel/FPSLabel.swift:114-115 | The number's colour is an HSBA colour whose hue is `0.27 * (fps/60 - 0.2)`. |
| `Presentation.HueIncreasing` | FPSLabel/FPSLabel.swift:114-115 | The hue grows strictly with the rate, in both directions of the if-and-only-if. It is -0.054 at 0 fps, 0 (red) at 12 fps and 0.216 at 60 fps. |
| `Presentation.AttributeRanges` | FPSLabel/FPSLabel.swift:118-121 | The four ranges the label adds, in order: the gradient colour, white, the main font and the small font. |
| `Presentation.RangesInBounds` | FPSLabel/FPSLabel.swift:118-121 | All four ranges lie inside the text if and only if it has at least 4 characters. |
| `Presentation.ColorRangesPartition` | FPSLabel/FPSLabel.swift:118-119 | The gradient range and the white range split the text: each character is in exactly one of them, and nothing outside the text is in either. |
| `Presentation.RangesOnDisplayText` | FPSLabel/FPSLabel.swift:116-121 | On a displayed reading, every range is in bounds and the white range is exactly `FPS`. The main font covers the whole text, and the small font covers only the space. |
| `Presentation.AttributedText.constructor` | FPSLabel/FPSLabel.swift:117 | A new attributed string holds the text, and no character has a colour or a font yet. |
| `Presentation.AttributedText.AddAttribute` | FPSLabel/FPSLabel.swift:118-121 | Adding an attribute to an in-bounds range sets that attribute on exactly the characters of the range. It leaves every other character and the other attribute alone. |
| `Presentation.Render` | FPSLabel/FPSLabel.swift:114-121 | The rendered text is the display text. Every character before the unit has the gradient colour and the unit is white. Every character has the main font except the space before the unit, which has the small font. |
| `Geometry.InitialFrame` | FPSLabel/FPSLabel.swift:60-64 | `init(frame:)` keeps the origin. It gives a zero-size frame the 60×20 default and keeps any other frame unchanged. The result never has zero size. |
| `Geometry.SharedLabelFrame` | FPSLabel/FPSLabel.swift:42 | The shared label starts at (20, 88) with size 60×20. On any screen at least 40 wide and 166 tall, a drag ending there leaves it in place. |
| `Geometry.SnapX` | FPSLabel/FPSLabel.swift:137 | When a drag ends with the origin in the left half, the label is 20 points from the left edge. Otherwise its right side is 20 points from the right edge. |
| `Geometry.SnapXIdempotent` | FPSLabel/FPSLabel.swift:137 | If the label and its padding fit in half the screen, snapping a snapped x changes nothing. |
| `Geometry.ClampY` | FPSLabel/FPSLabel.swift:138 | The clamped y lies in `[88, height - 78]` whenever that range is non-empty, and a y already in it is kept. A y below 88 goes to 88 when the range is non-empty; a y above `height - 78` goes to `height - 78`. When the range is empty, the bottom bound wins. |
| `Geometry.ClampYIdempotent` | FPSLabel/FPSLabel.swift:138 | Clamping a clamped y changes nothing. |
| `Geometry.DragEndFrame` | FPSLabel/FPSLabel.swift:134-139 | A drag's end keeps the size, puts the label 20 points from one side edge, and keeps y between the paddings when the screen is tall enough. |
| `Label.FPSLabel.constructor` | FPSLabel/FPSLabel.swift:60-67 | A new label has the initial frame, a count of 0, no sample, no text and an empty history. |
| `Label.TracksInv` | FPSLabel/FPSLabel.swift:39-40 | A label state that agrees with its history (`Tracks`, the body of the class invariant `FPSLabel.Valid`) has a non-negative count, which is 0 before the first sample. |
| `Label.TracksFirstSample` | FPSLabel/FPSLabel.swift:100-103 | Before the first sample, a tick joins the history and sets `lastTime`. The open window stays empty, and the agreement with the history is kept. |
| `Label.TracksCounted` | FPSLabel/FPSLabel.swift:105-109 | A tick less than a second into the window joins both the history and the window. The count is one more, and the window is still the tail of the history after the tick that opened it. |
| `Label.TracksClosed` | FPSLabel/FPSLabel.swift:105-112 | A tick a second or more into the window adds its positive reading to the readings. The count becomes 0 and a new, empty window opens at the tick. |
| `Label.TracksStep` | FPSLabel/FPSLabel.swift:98-112 | Every tick keeps the agreement between the label's state and its history, with the window and readings changing as `Step` dictates. |
| `Label.FPSLabel.Tick` | FPSLabel/FPSLabel.swift:98-124 | Without a display link nothing changes. With one, the fields take the state `Step` gives and the timestamp joins the history. An emitted reading is positive and at most the count, and it becomes a fresh attributed text laid out as `Render` states. The frame is kept, and the invariant tying the fields to `Run` over the whole history is preserved. |
| `Label.FPSLabel.Sample` | FPSLabel/FPSLabel.swift:100-112 | The sampling part of a tick. It moves the fields as `Step` does and extends the history and the readings. A tick that does not emit adds itself to the open window unless it is the first sample; an emitting tick empties the window. It keeps the class invariant: the fields replay the history, the open window is the tail of the history after the tick that opened it with one tick per count, each tick is less than a second after the window opened, and every reading is positive. |
| `Label.FPSLabel.EndDrag` | FPSLabel/FPSLabel.swift:131-141 | The end of a drag moves the frame to `DragEndFrame` of the old frame and leaves the sampling state and the text unchanged. |

## Left out

- UIKit view set-up (corner radius, z position, clipping, alignment, background, user interaction), the `attributedText` drawing and the `UIView.animate` wrapper around the drag-end frame change: these are platform rendering with no logic to verify.
- The `CADisplayLink` subscription, its preferred frame-rate range, its invalidation in `deinit`, and the `DisplayLinkTarget` closure adapter: this is a foreign callback mechanism. `Tick` instead takes the link's timestamp as an argument, or `None` when there is no link.
- `install(on:)`, `uninstall()` and the view hierarchy around the `shared` singleton: these are view-hierarchy side effects. The body of `install(on:)` after its `guard` runs only under `#if DEBUG`; `uninstall()` removes the shared label from its superview in any build. Only the shared label's initial frame is modelled.
- Presentation.AttributedText.AddAttribute: requires its range to lie inside the text, so the `NSRangeException` that `addAttribute(_:value:range:)` raises for an out-of-range `NSRange` is not modelled. The label's own calls never reach it, because its text always has at least 5 characters (`Presentation.RangesOnDisplayText`).
- `init?(coder:)`: it only calls `fatalError`.
- `fontWithSize` and its fallback from Menlo to Courier to the system font: these are library lookups. The two fonts are modelled as `MainFont` (size 14) and `SubFont` (size 4).
- What `UIColor(hue:saturation:brightness:alpha:)` does with a hue outside 0 to 1: this is colour-model behaviour of the platform. The raw hue is recorded.
- The pan gesture's translation, the transform it updates and the gesture's state machine: these are platform gesture handling. `EndDrag` is the `.ended` case applied to the current frame.
- IEEE `Double` arithmetic and `CGFloat`: timestamps, rates and coordinates are exact reals. `rounded()` is the exact rule for reals.
- `Int(fps.rounded())` trapping on a value outside `Int`'s range: integers are unbounded. A reading is at most the window's tick count, so this cannot happen for a real display.
- Presentation.FormatInt: writes the full numeral of any integer. `%d` reads its 64-bit `Int` argument as a 32-bit C `int`, so a rounded rate of 2^31 or more would print only its low 32 bits. This is not modelled, because a reading is at most the window's tick count and never comes near 2^31.
- Character counting by `String.count` and by `NSRange` (UTF-16) agree on the ASCII text the label shows, so both are modelled as the length of a `seq<char>`.

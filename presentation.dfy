/** The text the label shows for a reading and the attributes laid over it:
    the rounded rate in decimal followed by " FPS", the number in a colour
    graded by the rate, the unit in white, one font for the whole string and a
    tiny one for the character before the unit. */
module Presentation {
  import opened Wrappers

  // ---------------------------------------------------------------- numbers

  predicate IsDigit(c: char)
  {
    '0' <= c <= '9'
  }

  function DigitChar(d: int): (c: char)
    requires 0 <= d < 10
    ensures IsDigit(c)
  {
    ('0' as int + d) as char
  }

  function DigitValue(c: char): int
  {
    c as int - '0' as int
  }

  /** The decimal digits of `n`, most significant first, without leading
      zeros. */
  function Digits(n: nat): (s: string)
    ensures |s| >= 1
    ensures forall i :: 0 <= i < |s| ==> IsDigit(s[i])
    decreases n
  {
    if n < 10 then [DigitChar(n)] else Digits(n / 10) + [DigitChar(n % 10)]
  }

  /** The number a string of decimal digits denotes. */
  function Value(s: string): int
    decreases |s|
  {
    if s == [] then 0 else 10 * Value(s[..|s| - 1]) + DigitValue(s[|s| - 1])
  }

  /** A decimal numeral as `%d` writes a non-negative number: digits only,
      and no leading zero unless the number is zero. */
  ghost predicate IsNumeral(s: string)
  {
    |s| >= 1 &&
    (forall i :: 0 <= i < |s| ==> IsDigit(s[i])) &&
    (s[0] == '0' ==> |s| == 1)
  }

  lemma {:induction false} DigitsIsNumeral(n: nat)
    ensures IsNumeral(Digits(n))
    decreases n
  {
    if n >= 10 {
      DigitsIsNumeral(n / 10);
      assert Digits(n)[0] == Digits(n / 10)[0];
    }
  }

  /** Reading back the digits of `n` gives `n`. */
  lemma {:induction false} ValueOfDigits(n: nat)
    ensures Value(Digits(n)) == n
    decreases n
  {
    var s := Digits(n);
    if n < 10 {
      assert s[..0] == [];
    } else {
      ValueOfDigits(n / 10);
      assert s[..|s| - 1] == Digits(n / 10);
    }
  }

  lemma {:induction false} NumeralValueLowerBound(s: string)
    requires IsNumeral(s) && |s| >= 2
    ensures Value(s) >= 10
    decreases |s|
  {
    var prefix := s[..|s| - 1];
    assert prefix[0] == s[0];
    assert IsDigit(s[|s| - 1]);
    if |prefix| >= 2 {
      NumeralValueLowerBound(prefix);
    } else {
      assert prefix[..0] == [];
      assert Value(prefix) == DigitValue(s[0]) >= 1;
    }
  }

  /** Every numeral is the digits of the number it denotes. */
  lemma {:induction false} DigitsOfValue(s: string)
    requires IsNumeral(s)
    ensures Value(s) >= 0 && Digits(Value(s)) == s
    decreases |s|
  {
    var last := s[|s| - 1];
    var prefix := s[..|s| - 1];
    if |s| == 1 {
      assert prefix == [];
      assert DigitChar(DigitValue(last)) == last;
    } else {
      assert prefix[0] == s[0];
      assert IsNumeral(prefix);
      DigitsOfValue(prefix);
      NumeralValueLowerBound(s);
      var v := Value(s);
      assert v / 10 == Value(prefix) && v % 10 == DigitValue(last);
      assert DigitChar(DigitValue(last)) == last;
      assert s == prefix + [last];
    }
  }

  /** `%d`: an integer in decimal, with a minus sign when negative. */
  function FormatInt(n: int): (s: string)
    ensures n >= 0 ==> IsNumeral(s) && Value(s) == n
    ensures n < 0 ==> |s| >= 2 && s[0] == '-' && IsNumeral(s[1..]) && Value(s[1..]) == -n
  {
    DigitsIsNumeral(if n < 0 then -n else n);
    ValueOfDigits(if n < 0 then -n else n);
    if n < 0 then
      assert ("-" + Digits(-n))[1..] == Digits(-n);
      "-" + Digits(-n)
    else
      Digits(n)
  }

  /** Swift's `rounded()` rule: to the nearest integer, halves away from zero. */
  function Round(x: real): (n: int)
    ensures -0.5 <= n as real - x <= 0.5
    ensures n as real - x == 0.5 ==> x > 0.0
    ensures x - n as real == 0.5 ==> x < 0.0
    ensures x >= 0.0 ==> n >= 0
  {
    if x >= 0.0 then (x + 0.5).Floor else -((0.5 - x).Floor)
  }

  // ---------------------------------------------------------------- text

  /** The unit written after the number. */
  const Unit: string := "FPS"

  /** `String(format: "%d FPS", Int(fps.rounded()))`. */
  function DisplayText(fps: real): (t: string)
    ensures |t| >= 5 && t[|t| - 4..] == " FPS"
  {
    FormatInt(Round(fps)) + " " + Unit
  }

  /** The text is the number, a space and the unit, so it has at least five
      characters, ends in "FPS", and its fourth-last character is the space;
      for a positive reading the number is a plain numeral that reads back as
      the rounded reading. */
  lemma DisplayTextShape(fps: real)
    ensures var t := DisplayText(fps);
      |t| >= 5 && t[|t| - 3..] == Unit && t[|t| - 4] == ' ' &&
      t[..|t| - 4] == FormatInt(Round(fps))
    ensures var t := DisplayText(fps);
      fps >= 0.0 ==> |t| >= 5 && IsNumeral(t[..|t| - 4]) && Value(t[..|t| - 4]) == Round(fps)
  {
    var t := DisplayText(fps);
    var number := FormatInt(Round(fps));
    assert t == number + [' '] + Unit;
    assert t[..|t| - 4] == number;
    assert t[|t| - 3..] == Unit;
  }

  /** A reading of exactly 60 shows "60 FPS". */
  lemma SixtyFpsText()
    ensures DisplayText(60.0) == "60 FPS"
  {
    assert Round(60.0) == 60;
    assert Digits(6) == "6";
    assert Digits(60) == "60";
  }

  // ---------------------------------------------------------------- colour

  datatype Color = HSBA(hue: real, saturation: real, brightness: real, alpha: real) | White

  /** Target rate the gradient is graded against. */
  const TargetFps: real := 60.0

  /** `0.27 * (progress - 0.2)` with `progress = fps / 60`. */
  function Hue(fps: real): (h: real)
    ensures h < 0.0 <==> fps < 12.0
    ensures h == 0.0 <==> fps == 12.0
  {
    0.27 * (fps / TargetFps - 0.2)
  }

  /** The colour of the number: full saturation, brightness 0.9, opaque. */
  function GradientColor(fps: real): (c: Color)
    ensures c.HSBA? && c.hue == Hue(fps)
  {
    HSBA(Hue(fps), 1.0, 0.9, 1.0)
  }

  /** The hue grows strictly with the rate: red (0) at 12 fps, 0.216 at the
      60 fps target. */
  lemma {:induction false} HueIncreasing(a: real, b: real)
    ensures a < b <==> Hue(a) < Hue(b)
    ensures Hue(0.0) == -0.054 && Hue(12.0) == 0.0 && Hue(TargetFps) == 0.216
  {
    assert Hue(b) - Hue(a) == 0.0045 * (b - a);
  }

  // ---------------------------------------------------------------- attributes

  /** The two fonts: `mainFont` (size 14) and `subFont` (size 4). */
  datatype FontRef = MainFont | SubFont

  datatype Attribute = ForegroundColor(color: Color) | Font(font: FontRef)

  /** An attribute laid over the characters `location .. location + length`. */
  datatype AttrRange = AttrRange(attribute: Attribute, location: int, length: int)

  predicate InBounds(r: AttrRange, len: int)
  {
    0 <= r.location && 0 <= r.length && r.location + r.length <= len
  }

  predicate Covers(r: AttrRange, i: int)
  {
    r.location <= i < r.location + r.length
  }

  /** The four ranges the label adds to its text, in the order it adds them. */
  function AttributeRanges(text: string, color: Color): (rs: seq<AttrRange>)
    ensures |rs| == 4
    ensures rs[0].attribute == ForegroundColor(color) && rs[1].attribute == ForegroundColor(White)
    ensures rs[2].attribute == Font(MainFont) && rs[3].attribute == Font(SubFont)
  {
    var n := |text|;
    [ AttrRange(ForegroundColor(color), 0, n - 3),
      AttrRange(ForegroundColor(White), n - 3, 3),
      AttrRange(Font(MainFont), 0, n),
      AttrRange(Font(SubFont), n - 4, 1) ]
  }

  /** All four ranges lie inside the text exactly when it has at least four
      characters. */
  lemma RangesInBounds(text: string, color: Color)
    ensures (forall r :: r in AttributeRanges(text, color) ==> InBounds(r, |text|)) <==> |text| >= 4
  {
    var rs := AttributeRanges(text, color);
    if |text| < 4 {
      assert rs[3] in rs && !InBounds(rs[3], |text|);
    }
  }

  /** The gradient range and the white range split the text: each character
      lies in exactly one of them and nothing outside the text lies in either. */
  lemma ColorRangesPartition(text: string, color: Color)
    requires |text| >= 3
    ensures var rs := AttributeRanges(text, color);
      forall i :: 0 <= i < |text| <==> Covers(rs[0], i) || Covers(rs[1], i)
    ensures var rs := AttributeRanges(text, color);
      forall i :: !(Covers(rs[0], i) && Covers(rs[1], i))
  {
  }

  /** On a displayed reading the white range is exactly the unit, the main
      font covers the whole text and the small font covers only the space
      before the unit. */
  lemma {:induction false} RangesOnDisplayText(fps: real, color: Color)
    ensures var t := DisplayText(fps); var rs := AttributeRanges(t, color);
      (forall r :: r in rs ==> InBounds(r, |t|)) &&
      t[rs[1].location .. rs[1].location + rs[1].length] == Unit &&
      rs[2].location == 0 && rs[2].length == |t| &&
      rs[3].length == 1 && t[rs[3].location] == ' '
  {
    var t := DisplayText(fps);
    DisplayTextShape(fps);
    RangesInBounds(t, color);
  }

  /** A range of characters given a new value for one attribute key; the
      characters outside it keep theirs. */
  function Painted<T>(s: seq<Option<T>>, location: int, length: int, v: T): seq<Option<T>>
  {
    seq(|s|, i requires 0 <= i < |s| => if location <= i < location + length then Some(v) else s[i])
  }

  /** `NSMutableAttributedString`: a fixed text and, per character, its
      foreground colour and its font (none until one is added). */
  class AttributedText {
    const text: string
    var foreground: seq<Option<Color>>
    var font: seq<Option<FontRef>>

    ghost predicate Valid()
      reads this
    {
      |foreground| == |text| && |font| == |text|
    }

    constructor (s: string)
      ensures Valid() && text == s
      ensures forall i :: 0 <= i < |s| ==> foreground[i] == None && font[i] == None
    {
      text := s;
      foreground := seq(|s|, _ => None);
      font := seq(|s|, _ => None);
    }

    /** `addAttribute(_:value:range:)`: the range must lie inside the text. */
    method AddAttribute(a: Attribute, location: int, length: int)
      requires Valid() && 0 <= location && 0 <= length && location + length <= |text|
      modifies this
      ensures Valid()
      ensures forall i :: 0 <= i < |text| ==>
        foreground[i] == (if a.ForegroundColor? && location <= i < location + length
                          then Some(a.color) else old(foreground[i]))
      ensures forall i :: 0 <= i < |text| ==>
        font[i] == (if a.Font? && location <= i < location + length
                    then Some(a.font) else old(font[i]))
    {
      match a
      case ForegroundColor(c) => foreground := Painted(foreground, location, length, c);
      case Font(f) => font := Painted(font, location, length, f);
    }
  }

  /** The label's attributed text for a reading: every character before the
      unit in the gradient colour, the unit in white, every character in the
      main font except the space before the unit, which is in the small font. */
  method Render(fps: real) returns (t: AttributedText)
    ensures fresh(t) && t.Valid() && t.text == DisplayText(fps)
    ensures forall i :: 0 <= i < |t.text| ==>
      t.foreground[i] == Some(if i < |t.text| - 3 then GradientColor(fps) else White)
    ensures forall i :: 0 <= i < |t.text| ==>
      t.font[i] == Some(if i == |t.text| - 4 then SubFont else MainFont)
  {
    var displayText := DisplayText(fps);
    var ranges := AttributeRanges(displayText, GradientColor(fps));
    RangesOnDisplayText(fps, GradientColor(fps));
    assert forall k :: 0 <= k < 4 ==> InBounds(ranges[k], |displayText|) by {
      assert forall k :: 0 <= k < 4 ==> ranges[k] in ranges;
    }
    t := new AttributedText(displayText);
    t.AddAttribute(ranges[0].attribute, ranges[0].location, ranges[0].length);
    t.AddAttribute(ranges[1].attribute, ranges[1].location, ranges[1].length);
    t.AddAttribute(ranges[2].attribute, ranges[2].location, ranges[2].length);
    t.AddAttribute(ranges[3].attribute, ranges[3].location, ranges[3].length);
  }
}

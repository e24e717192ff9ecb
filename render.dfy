/** The display server's text renderer: `format_single_display` (one display
    record, a header line and up to six attribute lines) and
    `format_display_info` (a banner, the numbered records in the order the
    facility returned them, and a total). Both build their text by appending
    to a mutable string, so both are methods, each proved equal to a
    specification function whose properties are proved below. */
module Render {
  import opened Primitives
  import opened Decimal
  import opened Float32

  /** One display as the enumeration facility reports it: the fields the
      renderer reads, with the source's widths. */
  datatype Display = Display(
    name: string,
    friendlyName: string,
    x: I32,
    y: I32,
    width: U32,
    height: U32,
    widthMm: I32,
    heightMm: I32,
    frequency: F32,
    scaleFactor: F32,
    rotation: F32,
    isPrimary: bool)

  /** The three float-to-text conversions the model does not reproduce:
      `diagonal` renders, with `{:.1}`, the diagonal in inches computed from
      the sum of the squared sides in millimetres (the model hands it the
      exact sum `SquareSum`, where the source's `i32` sum can overflow; see
      `SquareSumOverflows` and `SquareSumAgrees`); `refresh` renders the
      frequency with `{:.0}`; `percent` renders `scale_factor * 100.0` with
      `{:.0}`. */
  datatype FloatText = FloatText(
    diagonal: int -> string,
    refresh: F32 -> string,
    percent: F32 -> string)

  /** The kinds of line a single rendering is made of, in rendering order. */
  datatype Line = Header | Resolution | Position | Physical | Refresh | Scale | Rotation

  function Rank(l: Line): nat {
    match l
    case Header => 0
    case Resolution => 1
    case Position => 2
    case Physical => 3
    case Refresh => 4
    case Scale => 5
    case Rotation => 6
  }

  const PrimarySuffix := " (primary)"
  const Degree := "\U{00B0}"

  /** The header prefers the friendly name and falls back to the name. */
  function Label(d: Display): string {
    if |d.friendlyName| == 0 then d.name else d.friendlyName
  }

  predicate HasPhysicalSize(d: Display) {
    d.widthMm > 0 && d.heightMm > 0
  }

  /** `w.pow(2) + h.pow(2)` as the source computes it on i32: a release
      build wraps around, a debug build panics. */
  function WrappingSquareSum(w: I32, h: I32): (r: I32)
    ensures (r - (w * w + h * h)) % 0x1_0000_0000 == 0
  {
    WrapI32(w * w + h * h)
  }

  /** The sum of the squared sides, exactly: the corrected sum, which the
      model's `PhysicalText` uses in place of `WrappingSquareSum`. The two
      agree whenever the exact sum fits in an i32 (`SquareSumAgrees`). */
  function SquareSum(w: int, h: int): (s: nat)
    ensures w != 0 || h != 0 ==> s > 0
    ensures s >= w * w && s >= h * h
  {
    w * w + h * h
  }

  /** The input 46341 mm x 1 mm passes the physical-size guard, yet its
      squared sides do not fit in an i32: as written the sum wraps to a
      negative number (whose square root is NaN), while the exact sum is
      positive. */
  lemma SquareSumOverflows()
    ensures HasPhysicalSize(Display("", "", 0, 0, 0, 0, 46341, 1, F32(0), F32(0), F32(0), false))
    ensures WrappingSquareSum(46341, 1) < 0 < SquareSum(46341, 1)
  {
    assert 46341 * 46341 + 1 * 1 == 2147488282;
  }

  /** The corrected sum departs from the source's only on overflow: when
      the exact sum fits in an i32, it is what the source computes. */
  lemma SquareSumAgrees(w: I32, h: I32)
    requires w * w + h * h <= I32Max
    ensures WrappingSquareSum(w, h) == SquareSum(w, h)
  {
  }

  function HeaderText(d: Display): string {
    Label(d) + (if d.isPrimary then PrimarySuffix else "") + "\n"
  }

  function ResolutionText(d: Display): string {
    "  Resolution: " + IntToString(d.width) + "x" + IntToString(d.height) + "\n"
  }

  function PositionText(d: Display): string {
    "  Position: (" + IntToString(d.x) + ", " + IntToString(d.y) + ")\n"
  }

  function PhysicalText(d: Display, fmt: FloatText): string {
    "  Physical: " + IntToString(d.widthMm) + "mm x " + IntToString(d.heightMm) + "mm (~"
    + fmt.diagonal(SquareSum(d.widthMm, d.heightMm)) + "\")\n"
  }

  function RefreshText(d: Display, fmt: FloatText): string {
    "  Refresh: " + fmt.refresh(d.frequency) + "Hz\n"
  }

  function ScaleText(d: Display, fmt: FloatText): string {
    "  Scale: " + fmt.percent(d.scaleFactor) + "%\n"
  }

  function RotationText(d: Display): string {
    "  Rotation: " + IntToString(TruncToI32(d.rotation)) + Degree + "\n"
  }

  /** The text of one line of a rendering. */
  function LineText(d: Display, fmt: FloatText, l: Line): string {
    match l
    case Header => HeaderText(d)
    case Resolution => ResolutionText(d)
    case Position => PositionText(d)
    case Physical => PhysicalText(d, fmt)
    case Refresh => RefreshText(d, fmt)
    case Scale => ScaleText(d, fmt)
    case Rotation => RotationText(d)
  }

  function Optional(present: bool, l: Line): seq<Line> {
    if present then [l] else []
  }

  /** The lines of a rendering: the three fixed lines, then each optional
      line when its flag is set. */
  function Lines(physical: bool, refresh: bool, scale: bool, rotation: bool): seq<Line> {
    [Header, Resolution, Position] + Optional(physical, Physical) + Optional(refresh, Refresh)
    + Optional(scale, Scale) + Optional(rotation, Rotation)
  }

  /** Which lines a rendering of d has, each optional one by its own guard. */
  function Layout(d: Display): seq<Line> {
    Lines(HasPhysicalSize(d), GreaterThanZero(d.frequency), NotEqualOne(d.scaleFactor), NotEqualZero(d.rotation))
  }

  lemma InOptional(ls: seq<Line>, present: bool, l: Line)
    ensures forall x :: x in ls + Optional(present, l) <==> x in ls || (present && x == l)
  {
    if present {
      assert (ls + [l])[|ls|] == l;
    } else {
      assert ls + [] == ls;
    }
  }

  /** The fixed lines come first; each optional line is there exactly when
      its flag is set. */
  lemma LinesShown(physical: bool, refresh: bool, scale: bool, rotation: bool)
    ensures var ls := Lines(physical, refresh, scale, rotation);
      |ls| >= 3 && ls[..3] == [Header, Resolution, Position]
      && (Physical in ls <==> physical) && (Refresh in ls <==> refresh)
      && (Scale in ls <==> scale) && (Rotation in ls <==> rotation)
  {
    var s0 := [Header, Resolution, Position];
    var s1 := s0 + Optional(physical, Physical);
    var s2 := s1 + Optional(refresh, Refresh);
    var s3 := s2 + Optional(scale, Scale);
    var s4 := s3 + Optional(rotation, Rotation);
    InOptional(s0, physical, Physical);
    InOptional(s1, refresh, Refresh);
    InOptional(s2, scale, Scale);
    InOptional(s3, rotation, Rotation);
    assert s4[..3] == s0;
  }

  /** A rendering of d shows the header, resolution and position lines
      first, the physical-size line exactly when both millimetre sides are
      positive, the refresh line exactly when the frequency is above 0, the
      scale line exactly when the factor differs from 1, and the rotation
      line exactly when the rotation differs from 0. */
  lemma LayoutLines(d: Display)
    ensures var ls := Layout(d);
      |ls| >= 3 && ls[..3] == [Header, Resolution, Position]
      && (Physical in ls <==> HasPhysicalSize(d))
      && (Refresh in ls <==> GreaterThanZero(d.frequency))
      && (Scale in ls <==> NotEqualOne(d.scaleFactor))
      && (Rotation in ls <==> NotEqualZero(d.rotation))
  {
    LinesShown(HasPhysicalSize(d), GreaterThanZero(d.frequency), NotEqualOne(d.scaleFactor), NotEqualZero(d.rotation));
  }

  predicate Ordered(ls: seq<Line>) {
    forall i, j :: 0 <= i < j < |ls| ==> Rank(ls[i]) < Rank(ls[j])
  }

  predicate Below(ls: seq<Line>, bound: nat) {
    forall i :: 0 <= i < |ls| ==> Rank(ls[i]) < bound
  }

  lemma OrderedExtend(ls: seq<Line>, present: bool, l: Line)
    requires Ordered(ls) && Below(ls, Rank(l))
    ensures Ordered(ls + Optional(present, l)) && Below(ls + Optional(present, l), Rank(l) + 1)
  {
  }

  /** The lines come in the fixed order Header, Resolution, Position,
      Physical, Refresh, Scale, Rotation, each at most once. */
  lemma LinesOrdered(physical: bool, refresh: bool, scale: bool, rotation: bool)
    ensures Ordered(Lines(physical, refresh, scale, rotation))
  {
    var s0 := [Header, Resolution, Position];
    assert Ordered(s0) && Below(s0, 3);
    OrderedExtend(s0, physical, Physical);
    var s1 := s0 + Optional(physical, Physical);
    OrderedExtend(s1, refresh, Refresh);
    var s2 := s1 + Optional(refresh, Refresh);
    OrderedExtend(s2, scale, Scale);
    var s3 := s2 + Optional(scale, Scale);
    OrderedExtend(s3, rotation, Rotation);
  }

  /** The texts of the elements of xs, joined in order. */
  function Join<T>(text: T -> string, xs: seq<T>): string {
    if xs == [] then "" else Join(text, xs[..|xs| - 1]) + text(xs[|xs| - 1])
  }

  lemma JoinSnoc<T>(text: T -> string, xs: seq<T>, x: T)
    ensures Join(text, xs + [x]) == Join(text, xs) + text(x)
  {
    assert (xs + [x])[..|xs|] == xs;
  }

  lemma {:induction false} JoinAppend<T>(text: T -> string, a: seq<T>, b: seq<T>)
    ensures Join(text, a + b) == Join(text, a) + Join(text, b)
    decreases |b|
  {
    if b == [] {
      assert a + b == a;
    } else {
      var b', x := b[..|b| - 1], b[|b| - 1];
      assert a + b == (a + b') + [x];
      JoinSnoc(text, a + b', x);
      JoinAppend(text, a, b');
      JoinSnoc(text, b', x);
      assert b == b' + [x];
    }
  }

  lemma JoinFirst(text: Line -> string, l: Line, rest: seq<Line>)
    ensures Join(text, [l] + rest) == text(l) + Join(text, rest)
  {
    JoinAppend(text, [l], rest);
    JoinSnoc(text, [], l);
    assert [] + [l] == [l];
  }

  /** The text of a line that is shown only when present holds. */
  function OptionalText(present: bool, t: string): string {
    if present then t else ""
  }

  lemma JoinOptional(text: Line -> string, ls: seq<Line>, present: bool, l: Line)
    ensures Join(text, ls + Optional(present, l)) == Join(text, ls) + OptionalText(present, text(l))
  {
    if present {
      JoinSnoc(text, ls, l);
    } else {
      assert ls + [] == ls;
    }
  }

  lemma JoinBase(text: Line -> string)
    ensures Join(text, [Header, Resolution, Position]) == text(Header) + text(Resolution) + text(Position)
  {
    JoinSnoc(text, [Header, Resolution], Position);
    JoinSnoc(text, [Header], Resolution);
    JoinSnoc(text, [], Header);
    assert [Header, Resolution] + [Position] == [Header, Resolution, Position];
    assert [Header] + [Resolution] == [Header, Resolution];
    assert [] + [Header] == [Header];
  }

  /** Joining a layout's lines, for any line texts: the three fixed lines,
      then each optional one exactly when its guard holds. */
  lemma JoinLayout(text: Line -> string, physical: bool, refresh: bool, scale: bool, rotation: bool)
    ensures Join(text, Lines(physical, refresh, scale, rotation))
      == text(Header) + text(Resolution) + text(Position) + OptionalText(physical, text(Physical))
         + OptionalText(refresh, text(Refresh)) + OptionalText(scale, text(Scale))
         + OptionalText(rotation, text(Rotation))
  {
    var base := [Header, Resolution, Position];
    var s1 := base + Optional(physical, Physical);
    var s2 := s1 + Optional(refresh, Refresh);
    var s3 := s2 + Optional(scale, Scale);
    JoinBase(text);
    JoinOptional(text, base, physical, Physical);
    JoinOptional(text, s1, refresh, Refresh);
    JoinOptional(text, s2, scale, Scale);
    JoinOptional(text, s3, rotation, Rotation);
  }

  /** The line texts of the rendering of d. */
  function Texts(d: Display, fmt: FloatText): Line -> string {
    l => LineText(d, fmt, l)
  }

  lemma TextsOfLines(d: Display, fmt: FloatText)
    ensures Texts(d, fmt)(Header) == HeaderText(d)
    ensures Texts(d, fmt)(Resolution) == ResolutionText(d)
    ensures Texts(d, fmt)(Position) == PositionText(d)
    ensures Texts(d, fmt)(Physical) == PhysicalText(d, fmt)
    ensures Texts(d, fmt)(Refresh) == RefreshText(d, fmt)
    ensures Texts(d, fmt)(Scale) == ScaleText(d, fmt)
    ensures Texts(d, fmt)(Rotation) == RotationText(d)
  {
  }

  /** The text `format_single_display` produces for d. */
  function SingleDisplay(d: Display, fmt: FloatText): string {
    Join(Texts(d, fmt), Layout(d))
  }

  lemma EmptyPrefix(s: string)
    ensures "" + s == s
  {
  }

  /** `format_single_display`. */
  method FormatSingleDisplay(d: Display, fmt: FloatText) returns (result: string)
    ensures result == SingleDisplay(d, fmt)
  {
    result := "";
    result := result + HeaderText(d);
    EmptyPrefix(HeaderText(d));
    result := result + ResolutionText(d);
    result := result + PositionText(d);

    ghost var r0 := result;
    if d.widthMm > 0 && d.heightMm > 0 {
      result := result + PhysicalText(d, fmt);
    }
    assert result == r0 + OptionalText(HasPhysicalSize(d), PhysicalText(d, fmt));

    ghost var r1 := result;
    if GreaterThanZero(d.frequency) {
      result := result + RefreshText(d, fmt);
    }
    assert result == r1 + OptionalText(GreaterThanZero(d.frequency), RefreshText(d, fmt));

    ghost var r2 := result;
    if NotEqualOne(d.scaleFactor) {
      result := result + ScaleText(d, fmt);
    }
    assert result == r2 + OptionalText(NotEqualOne(d.scaleFactor), ScaleText(d, fmt));

    ghost var r3 := result;
    if NotEqualZero(d.rotation) {
      result := result + RotationText(d);
    }
    assert result == r3 + OptionalText(NotEqualZero(d.rotation), RotationText(d));

    SingleDisplayLines(d, fmt);
  }

  predicate StartsWith(s: string, prefix: string) {
    |prefix| <= |s| && s[..|prefix|] == prefix
  }

  /** Every rendering is the header line, then the resolution line, then
      the position line, then the physical-size, refresh, scale and rotation
      lines in that order, each exactly when its own guard holds. */
  lemma SingleDisplayLines(d: Display, fmt: FloatText)
    ensures SingleDisplay(d, fmt)
      == HeaderText(d) + ResolutionText(d) + PositionText(d)
         + OptionalText(HasPhysicalSize(d), PhysicalText(d, fmt))
         + OptionalText(GreaterThanZero(d.frequency), RefreshText(d, fmt))
         + OptionalText(NotEqualOne(d.scaleFactor), ScaleText(d, fmt))
         + OptionalText(NotEqualZero(d.rotation), RotationText(d))
  {
    JoinLayout(Texts(d, fmt), HasPhysicalSize(d), GreaterThanZero(d.frequency),
               NotEqualOne(d.scaleFactor), NotEqualZero(d.rotation));
    TextsOfLines(d, fmt);
  }

  lemma LabelPrefix(s: string, head: string, suffix: string, tail: string)
    requires s == head + suffix + "\n" + tail
    ensures StartsWith(s, head)
    ensures StartsWith(s, head + suffix + "\n")
  {
    assert s == (head + suffix + "\n") + tail;
    assert s[..|head|] == (head + suffix + "\n")[..|head|];
  }

  lemma NotPrimaryPrefix(s: string, head: string, tail: string)
    requires s == head + "\n" + tail
    ensures !StartsWith(s, head + PrimarySuffix + "\n")
  {
    assert s[|head|] == '\n';
    assert (head + PrimarySuffix + "\n")[|head|] == ' ';
  }

  /** The rendering starts with the friendly name when it is non-empty and
      with the name otherwise; right after it comes " (primary)\n" exactly
      when the display is the primary one, and "\n" otherwise. */
  lemma HeaderOfRendering(d: Display, fmt: FloatText)
    ensures |d.friendlyName| > 0 ==> StartsWith(SingleDisplay(d, fmt), d.friendlyName)
    ensures |d.friendlyName| == 0 ==> StartsWith(SingleDisplay(d, fmt), d.name)
    ensures d.isPrimary <==> StartsWith(SingleDisplay(d, fmt), Label(d) + PrimarySuffix + "\n")
    ensures !d.isPrimary ==> StartsWith(SingleDisplay(d, fmt), Label(d) + "\n")
  {
    var s, l, ls := SingleDisplay(d, fmt), Label(d), Layout(d);
    var tail := Join(Texts(d, fmt), ls[1..]);
    assert ls == [Header] + ls[1..];
    JoinFirst(Texts(d, fmt), Header, ls[1..]);
    if d.isPrimary {
      LabelPrefix(s, l, PrimarySuffix, tail);
    } else {
      assert l + "" == l;
      LabelPrefix(s, l, "", tail);
      NotPrimaryPrefix(s, l, tail);
    }
  }

  /** A rotation of 0.5 degrees passes the `!= 0.0` guard, yet the cast
      truncates it: the rendering carries the line "  Rotation: 0°". */
  lemma FractionalRotationReadsZero(d: Display, fmt: FloatText)
    requires d.rotation == F32(0x3F00_0000)
    ensures d.rotation.IsFinite() && d.rotation.Value() == 0.5
    ensures Rotation in Layout(d)
    ensures RotationText(d) == "  Rotation: 0" + Degree + "\n"
  {
    HalfTruncatesToZero();
    LayoutLines(d);
  }

  /** The concatenation of a sequence of strings, in order. */
  function Concat(ss: seq<string>): string {
    Join(Itself, ss)
  }

  function Itself(s: string): string {
    s
  }

  lemma SplitAt<T>(s: seq<T>, i: nat)
    requires i < |s|
    ensures s == s[..i] + [s[i]] + s[i + 1..]
  {
  }

  lemma ConcatSnoc(ss: seq<string>, s: string)
    ensures Concat(ss + [s]) == Concat(ss) + s
  {
    JoinSnoc(Itself, ss, s);
  }

  /** Any element of a sequence of strings sits, in the concatenation,
      between the concatenations of the elements before and after it. */
  lemma ConcatSplit(ss: seq<string>, i: nat)
    requires i < |ss|
    ensures Concat(ss) == Concat(ss[..i]) + ss[i] + Concat(ss[i + 1..])
  {
    SplitAt(ss, i);
    JoinAppend(Itself, ss[..i] + [ss[i]], ss[i + 1..]);
    ConcatSnoc(ss[..i], ss[i]);
  }

  /** Appending the three parts of one more string to a text that is a
      prefix followed by a concatenation extends the concatenation. */
  lemma ConcatStep(text: string, prefix: string, ss: seq<string>, a: string, b: string, c: string)
    requires text == prefix + Concat(ss)
    ensures text + a + b + c == prefix + Concat(ss + [a + b + c])
  {
    ConcatSnoc(ss, a + b + c);
  }

  const Banner := "Display Information:\n\n"
  const NoDisplays := "No displays detected.\n"

  function BlockPrefix(index: nat): string {
    "Display " + IntToString(index) + ": "
  }

  /** The block of the display at 1-based position index. */
  function Block(index: nat, d: Display, fmt: FloatText): string {
    BlockPrefix(index) + SingleDisplay(d, fmt) + "\n"
  }

  /** The blocks of ds, numbered from 1 in the order of ds. */
  function Blocks(ds: seq<Display>, fmt: FloatText): (bs: seq<string>)
    ensures |bs| == |ds|
  {
    if ds == [] then [] else Blocks(ds[..|ds| - 1], fmt) + [Block(|ds|, ds[|ds| - 1], fmt)]
  }

  /** Block k of ds renders ds[k - 1] under the number k. */
  lemma {:induction false} BlocksNumbering(ds: seq<Display>, fmt: FloatText, k: nat)
    requires k < |ds|
    ensures Blocks(ds, fmt)[k] == Block(k + 1, ds[k], fmt)
    decreases |ds|
  {
    var n := |ds| - 1;
    assert Blocks(ds, fmt) == Blocks(ds[..n], fmt) + [Block(n + 1, ds[n], fmt)];
    if k < n {
      BlocksNumbering(ds[..n], fmt, k);
      assert ds[..n][k] == ds[k];
    }
  }

  lemma BlocksSnoc(ds: seq<Display>, fmt: FloatText, i: nat)
    requires i < |ds|
    ensures Blocks(ds[..i + 1], fmt) == Blocks(ds[..i], fmt) + [Block(i + 1, ds[i], fmt)]
  {
    assert ds[..i + 1][..i] == ds[..i];
  }

  function TotalLine(n: nat): string {
    "Total displays: " + IntToString(n) + "\n"
  }

  /** The text `format_display_info` produces for ds. */
  function DisplayInfoText(ds: seq<Display>, fmt: FloatText): string {
    if |ds| == 0 then Banner + NoDisplays else Banner + Concat(Blocks(ds, fmt)) + TotalLine(|ds|)
  }

  /** `format_display_info`. */
  method FormatDisplayInfo(displays: seq<Display>, fmt: FloatText) returns (result: string)
    ensures result == DisplayInfoText(displays, fmt)
  {
    result := Banner;

    if |displays| == 0 {
      result := result + NoDisplays;
      return;
    }

    for i := 0 to |displays|
      invariant result == Banner + Concat(Blocks(displays[..i], fmt))
    {
      ghost var before := result;
      var prefix := BlockPrefix(i + 1);
      result := result + prefix;
      var single := FormatSingleDisplay(displays[i], fmt);
      result := result + single;
      result := result + "\n";
      ConcatStep(before, Banner, Blocks(displays[..i], fmt), prefix, single, "\n");
      BlocksSnoc(displays, fmt, i);
    }
    assert displays[..|displays|] == displays;

    result := result + TotalLine(|displays|);
  }

  /** With no displays the text is the banner, a blank line and the
      notice, and nothing else: in particular no "Total displays" line. */
  lemma EmptyListRendering(fmt: FloatText)
    ensures DisplayInfoText([], fmt) == "Display Information:\n" + "\n" + "No displays detected.\n"
  {
    assert "Display Information:\n" + "\n" == Banner;
  }

  /** With N > 0 displays, the i-th one (from 0) is rendered as block i + 1,
      after the blocks of those before it and before the blocks of those
      after it, and the text ends with the total line for N. */
  lemma ListRenderingBlock(ds: seq<Display>, fmt: FloatText, i: nat)
    requires i < |ds|
    ensures DisplayInfoText(ds, fmt)
      == Banner + (Concat(Blocks(ds, fmt)[..i]) + Block(i + 1, ds[i], fmt) + Concat(Blocks(ds, fmt)[i + 1..]))
         + TotalLine(|ds|)
  {
    ConcatSplit(Blocks(ds, fmt), i);
    BlocksNumbering(ds, fmt, i);
  }
}

/** The display server's three tools. Each asks the display-enumeration
    facility for displays, renders them with the renderer, and answers with
    one text content on success or an internal error whose message names
    the failed request and carries the facility's own message. The facility
    itself is not modelled: its answer (or, for the two lookups, the
    function from query to answer) is a parameter. */
module Tools {
  import opened Primitives
  import opened Decimal
  import opened Render

  /** What the facility answers: a value, or an error rendered with `{}`. */
  datatype Result<T> = Ok(value: T) | Err(error: string)

  datatype Content = Text(text: string)

  /** A tool's outcome: success with its contents, or an internal error. */
  datatype ToolResult = Success(contents: seq<Content>) | InternalError(message: string)

  datatype PointParams = PointParams(x: I32, y: I32)

  datatype NameParams = NameParams(name: string)

  const InfoFailure := "Failed to get display info: "

  function PointFailure(x: I32, y: I32): string {
    "Failed to get display at (" + IntToString(x) + ", " + IntToString(y) + "): "
  }

  function NameFailure(name: string): string {
    "Failed to get display '" + name + "': "
  }

  /** The line that introduces the display found at a point. */
  function PointHeading(x: I32, y: I32): string {
    "Display at (" + IntToString(x) + ", " + IntToString(y) + "):\n"
  }

  /** `get_display_info`: the rendering of every display the facility
      enumerates, or an error carrying the facility's message. */
  method GetDisplayInfo(all: Result<seq<Display>>, fmt: FloatText) returns (r: ToolResult)
    ensures r.Success? <==> all.Ok?
    ensures all.Ok? ==> r == Success([Text(DisplayInfoText(all.value, fmt))])
    ensures all.Err? ==> r == InternalError(InfoFailure + all.error)
  {
    match all
    case Err(e) =>
      r := InternalError(InfoFailure + e);
    case Ok(displays) =>
      var formatted := FormatDisplayInfo(displays, fmt);
      r := Success([Text(formatted)]);
  }

  /** `get_display_at_point`: the facility is asked for the point of the
      parameters; the display found is rendered under a heading that repeats
      that point, and an error names the point too. */
  method GetDisplayAtPoint(fromPoint: (I32, I32) -> Result<Display>, params: PointParams, fmt: FloatText)
    returns (r: ToolResult)
    ensures r.Success? <==> fromPoint(params.x, params.y).Ok?
    ensures fromPoint(params.x, params.y).Ok? ==>
      r == Success([Text(PointHeading(params.x, params.y) + SingleDisplay(fromPoint(params.x, params.y).value, fmt))])
    ensures fromPoint(params.x, params.y).Err? ==>
      r == InternalError(PointFailure(params.x, params.y) + fromPoint(params.x, params.y).error)
  {
    match fromPoint(params.x, params.y)
    case Err(e) =>
      r := InternalError(PointFailure(params.x, params.y) + e);
    case Ok(display) =>
      var single := FormatSingleDisplay(display, fmt);
      var formatted := PointHeading(params.x, params.y) + single;
      r := Success([Text(formatted)]);
  }

  /** `get_display_by_name`: the display the facility finds under the name
      is rendered as it is; an error quotes the name. */
  method GetDisplayByName(fromName: string -> Result<Display>, params: NameParams, fmt: FloatText)
    returns (r: ToolResult)
    ensures r.Success? <==> fromName(params.name).Ok?
    ensures fromName(params.name).Ok? ==> r == Success([Text(SingleDisplay(fromName(params.name).value, fmt))])
    ensures fromName(params.name).Err? ==> r == InternalError(NameFailure(params.name) + fromName(params.name).error)
  {
    match fromName(params.name)
    case Err(e) =>
      r := InternalError(NameFailure(params.name) + e);
    case Ok(display) =>
      var formatted := FormatSingleDisplay(display, fmt);
      r := Success([Text(formatted)]);
  }

  lemma CancelPrefix(p: string, a: string, b: string)
    requires p + a == p + b
    ensures a == b
  {
    assert a == (p + a)[|p|..];
    assert b == (p + b)[|p|..];
  }

  lemma AssociateRight(p: string, x: string, c: string, y: string, e: string, s: string)
    ensures p + x + c + y + e + s == p + (x + (c + (y + (e + s))))
  {
  }

  /** Two integers written between fixed separators that do not start with
      a digit can be read back: equal texts mean equal integers and equal
      tails. */
  lemma PairTextSplit(p: string, c: string, e: string, x1: string, y1: string, s1: string,
                      x2: string, y2: string, s2: string)
    requires IsIntText(x1) && IsIntText(y1) && IsIntText(x2) && IsIntText(y2)
    requires |c| > 0 && !IsDigit(c[0]) && |e| > 0 && !IsDigit(e[0])
    requires p + x1 + c + y1 + e + s1 == p + x2 + c + y2 + e + s2
    ensures x1 == x2 && y1 == y2 && s1 == s2
  {
    AssociateRight(p, x1, c, y1, e, s1);
    AssociateRight(p, x2, c, y2, e, s2);
    CancelPrefix(p, x1 + (c + (y1 + (e + s1))), x2 + (c + (y2 + (e + s2))));
    IntTextSplit(x1, c + (y1 + (e + s1)), x2, c + (y2 + (e + s2)));
    CancelPrefix(c, y1 + (e + s1), y2 + (e + s2));
    IntTextSplit(y1, e + s1, y2, e + s2);
    CancelPrefix(e, s1, s2);
  }

  /** A successful answer of `get_display_at_point` determines the point
      that was asked for and the rendering of the display found there. */
  lemma PointAnswerDetermined(x1: I32, y1: I32, s1: string, x2: I32, y2: I32, s2: string)
    requires PointHeading(x1, y1) + s1 == PointHeading(x2, y2) + s2
    ensures x1 == x2 && y1 == y2 && s1 == s2
  {
    PairTextSplit("Display at (", ", ", "):\n", IntToString(x1), IntToString(y1), s1,
                  IntToString(x2), IntToString(y2), s2);
    IntToStringInjective(x1, x2);
    IntToStringInjective(y1, y2);
  }

  /** An error of `get_display_at_point` determines the point that was
      asked for and the facility's message. */
  lemma PointFailureDetermined(x1: I32, y1: I32, e1: string, x2: I32, y2: I32, e2: string)
    requires PointFailure(x1, y1) + e1 == PointFailure(x2, y2) + e2
    ensures x1 == x2 && y1 == y2 && e1 == e2
  {
    PairTextSplit("Failed to get display at (", ", ", "): ", IntToString(x1), IntToString(y1), e1,
                  IntToString(x2), IntToString(y2), e2);
    IntToStringInjective(x1, x2);
    IntToStringInjective(y1, y2);
  }

  /** An error of `get_display_by_name` determines the name and the
      facility's message when the names hold no quote; a quote in a name
      can make two errors read the same. */
  lemma NameFailureDetermined(n1: string, e1: string, n2: string, e2: string)
    requires '\'' !in n1 && '\'' !in n2
    requires NameFailure(n1) + e1 == NameFailure(n2) + e2
    ensures n1 == n2 && e1 == e2
  {
    var p := "Failed to get display '";
    assert p + n1 + "': " + e1 == p + (n1 + ("': " + e1));
    assert p + n2 + "': " + e2 == p + (n2 + ("': " + e2));
    CancelPrefix(p, n1 + ("': " + e1), n2 + ("': " + e2));
    QuoteFreeSplit(n1, "': " + e1, n2, "': " + e2);
    CancelPrefix("': ", e1, e2);
  }

  /** The index of the first quote of s at or after i (|s| if none). */
  function QuoteIndex(s: string, i: nat): (j: nat)
    requires i <= |s|
    ensures i <= j <= |s|
    decreases |s| - i
  {
    if i == |s| || s[i] == '\'' then i else QuoteIndex(s, i + 1)
  }

  lemma {:induction false} QuoteIndexAfter(n: string, r: string, i: nat)
    requires '\'' !in n && i <= |n|
    requires |r| > 0 && r[0] == '\''
    ensures QuoteIndex(n + r, i) == |n|
    decreases |n| - i
  {
    if i < |n| {
      assert (n + r)[i] == n[i];
      QuoteIndexAfter(n, r, i + 1);
    } else {
      assert (n + r)[i] == r[0];
    }
  }

  /** A quote-free text followed by a quote splits uniquely there. */
  lemma QuoteFreeSplit(n1: string, r1: string, n2: string, r2: string)
    requires '\'' !in n1 && '\'' !in n2
    requires |r1| > 0 && r1[0] == '\'' && |r2| > 0 && r2[0] == '\''
    requires n1 + r1 == n2 + r2
    ensures n1 == n2 && r1 == r2
  {
    var s := n1 + r1;
    QuoteIndexAfter(n1, r1, 0);
    QuoteIndexAfter(n2, r2, 0);
    assert n1 == s[..|n1|] == n2;
    assert r1 == s[|n1|..] == r2;
  }

  lemma IndexInPrefix(p: string, a: string, b: string, c: string, d: string, e: string, i: nat)
    requires i < |p|
    ensures |p + a + b + c + d + e| > i && (p + a + b + c + d + e)[i] == p[i]
  {
    assert p + a + b + c + d + e == p + (a + b + c + d + e);
  }

  /** The character right after "Failed to get display " in each tool's
      error message. */
  lemma FailureMarks(e: string, x: I32, y: I32, name: string)
    ensures |InfoFailure + e| > 22 && (InfoFailure + e)[22] == 'i'
    ensures |PointFailure(x, y) + e| > 22 && (PointFailure(x, y) + e)[22] == 'a'
    ensures |NameFailure(name) + e| > 22 && (NameFailure(name) + e)[22] == '\''
  {
    IndexInPrefix(InfoFailure, e, "", "", "", "", 22);
    IndexInPrefix("Failed to get display at (", IntToString(x), ", ", IntToString(y), "): ", e, 22);
    IndexInPrefix("Failed to get display '", name, "': ", e, "", "", 22);
    assert InfoFailure + e + "" + "" + "" + "" == InfoFailure + e;
    assert NameFailure(name) + e + "" + "" == NameFailure(name) + e;
  }

  /** The message of an error says which tool failed: the three messages
      differ in the character right after "Failed to get display ". */
  lemma FailuresDistinct(e1: string, e2: string, x: I32, y: I32, name: string)
    ensures InfoFailure + e1 != PointFailure(x, y) + e2
    ensures InfoFailure + e1 != NameFailure(name) + e2
    ensures PointFailure(x, y) + e1 != NameFailure(name) + e2
  {
    FailureMarks(e1, x, y, name);
    FailureMarks(e2, x, y, name);
  }
}

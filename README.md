# Display server renderer and tools, in Dafny

This project models the core of `rmcp-display`, a small server that answers
three tools about the connected displays:

- `get_display_info` lists every display;
- `get_display_at_point` returns the display that contains a screen point;
- `get_display_by_name` returns the display with a given name.

Each tool asks the platform's display-enumeration facility for display
records. It renders them as text with the server's two renderers and answers
with one text content. When the facility fails, the tool instead answers
with an internal error whose message names the request and carries the
facility's own message.

The model is split into five modules:

- `Primitives` holds Rust's `i32` and `u32` as subset types, powers of two,
  and two's-complement wrap-around.
- `Decimal` is Rust's `{}` rendering of an integer, proved to round-trip
  with a decimal parser. Distinct integers therefore render as distinct
  texts.
- `Float32` decodes an IEEE 754 binary32 bit pattern to its real value.
  It proves what the renderer's guards `> 0.0`, `!= 1.0` and `!= 0.0` mean
  on that value, including NaN and the infinities. It also models the cast
  `as i32`: it truncates toward zero, saturates at the `i32` bounds and sends
  NaN to 0.
- `Render` models `format_single_display` and `format_display_info`. Both
  build their text by appending to a mutable `String`, so each is a method
  proved equal to a specification function.
  - `SingleDisplay` is the text of a display's line layout. Its lemmas give:
    - which lines appear, and under which guard;
    - their fixed order;
    - the shape of the header;
    - the whole text, part by part.
  - `DisplayInfoText` is the listing: a banner, the numbered blocks and a
    total. Its lemmas give:
    - the exact empty-list text;
    - where each display's block sits in a listing.
- `Tools` models the three tool handlers as methods. Each one calls the
  renderers. The facility's answer is a parameter: a `Result` for the
  enumeration, and a function from the query to a `Result` for each of the
  two lookups.
  - The handlers' contracts state:
    - success exactly when the facility succeeds;
    - the exact success text;
    - the exact error message.
  - Further lemmas show that an answer determines what was asked:
    - the point's heading can be read back;
    - a point error can be read back;
    - a name error can be read back when the name holds no quote. A name
      that contains `'` can make two different errors read the same.
  - Finally, the three error messages can never coincide.

Floats are kept as their 32-bit patterns (`Float32.F32`). Three float-to-text
conversions are not reproduced: the diagonal in inches (`{:.1}`), the
refresh rate (`{:.0}`) and the scale percentage (`{:.0}`). They are the
three fields of the parameter `Render.FloatText`. Everything the renderer
writes around them is modelled exactly, with one deliberate correction: the
physical-size line hands the diagonal conversion the exact sum of the squared
sides (`Render.SquareSum`), where the source computes that sum in `i32` and
can overflow (see "## Findings"). The two agree whenever the exact sum fits
in an `i32` (`Render.SquareSumAgrees`). The rotation is rendered in full,
through the modelled cast `as i32` and `Decimal.IntToString`.

## Model

| member | source | states |
|---|---|---|
| Render.FormatSingleDisplay | crates/rmcp-display/src/lib.rs:44-85 | the appended text equals the specification `SingleDisplay`: the display's line layout, each line rendered |
| Render.SingleDisplayLines | crates/rmcp-display/src/lib.rs:44-85 | a rendering is the header, resolution and position lines, then the physical, refresh, scale and rotation lines in that order, each present exactly when its own guard holds |
| Render.HeaderOfRendering | crates/rmcp-display/src/lib.rs:48-53 | a rendering starts with the friendly name when it is non-empty, else with the name; " (primary)\n" follows exactly when the display is primary, "\n" otherwise |
| Render.LayoutLines | crates/rmcp-display/src/lib.rs:55-82 | the first three lines are header, resolution, position; each optional line is present if and only if its guard holds: both millimetre sides > 0, frequency > 0, scale != 1, rotation != 0 |
| Render.LinesShown | crates/rmcp-display/src/lib.rs:55-82 | for any choice of the four guards, the fixed lines come first and each optional line is present if and only if its guard is set |
| Render.LinesOrdered | crates/rmcp-display/src/lib.rs:59-82 | the lines of any rendering are strictly increasing in the fixed order, so none repeats and none is out of place |
| Render.FractionalRotationReadsZero | crates/rmcp-display/src/lib.rs:79-82 | a rotation of 0.5 passes the `!= 0.0` guard, so the rotation line is shown, and it reads "  Rotation: 0°" because the cast truncates |
| Render.WrappingSquareSum | crates/rmcp-display/src/lib.rs:61 | the `i32` sum of the squared millimetre sides, as written, equals the exact sum modulo 2^32 |
| Render.SquareSum | crates/rmcp-display/src/lib.rs:61 | the exact sum of squares is positive whenever a side is non-zero, and at least each square |
| Render.SquareSumAgrees | crates/rmcp-display/src/lib.rs:61 | whenever the exact sum of the squared sides fits in an `i32`, the source's `i32` sum equals it, so the corrected renderer departs from the source only on overflow |
| Render.SquareSumOverflows | crates/rmcp-display/src/lib.rs:60-61 | the sides 46341 mm x 1 mm pass the guard, yet the `i32` sum wraps below zero while the exact sum is positive |
| Render.FormatDisplayInfo | crates/rmcp-display/src/lib.rs:87-103 | the appended text equals the specification `DisplayInfoText`: banner plus notice for no displays, otherwise banner, blocks numbered from 1 in input order, and the total |
| Render.EmptyListRendering | crates/rmcp-display/src/lib.rs:88-93 | with no displays the text is exactly "Display Information:\n", "\n", "No displays detected.\n", with no total line |
| Render.ListRenderingBlock | crates/rmcp-display/src/lib.rs:95-101 | with N > 0 displays, display i is rendered as "Display {i+1}: " + its rendering + "\n" between the blocks of the displays before and after it, and the text ends with "Total displays: {N}\n" |
| Render.BlocksNumbering | crates/rmcp-display/src/lib.rs:95-99 | block k of a listing renders the k-th display (from 0) under the number k + 1 |
| Render.ConcatSplit | crates/rmcp-display/src/lib.rs:95-99 | each block sits in the listing between the concatenation of the blocks before it and of those after it |
| Tools.GetDisplayInfo | crates/rmcp-display/src/lib.rs:109-116 | success if and only if the enumeration succeeds; the success content is exactly the listing text; an error is "Failed to get display info: " followed by the facility's message |
| Tools.GetDisplayAtPoint | crates/rmcp-display/src/lib.rs:119-133 | success if and only if the lookup of the queried point succeeds; the content is "Display at ({x}, {y}):\n" with the queried x and y, followed by the rendering; an error is "Failed to get display at ({x}, {y}): " followed by the facility's message |
| Tools.GetDisplayByName | crates/rmcp-display/src/lib.rs:136-146 | success if and only if the lookup of the name succeeds; the content is exactly the single rendering; an error is "Failed to get display '{name}': " followed by the facility's message |
| Tools.PointAnswerDetermined | crates/rmcp-display/src/lib.rs:126-130 | the heading of a point answer determines the queried point and the rendering after it |
| Tools.PointFailureDetermined | crates/rmcp-display/src/lib.rs:123-124 | a point error determines the queried point and the facility's message |
| Tools.NameFailureDetermined | crates/rmcp-display/src/lib.rs:140-141 | for names without a quote, a name error determines the name and the facility's message |
| Tools.FailuresDistinct | crates/rmcp-display/src/lib.rs:109-141 | the three tools' error messages never coincide, whatever the facility's messages, the point or the name |
| Decimal.ParseIntToString | crates/rmcp-display/src/lib.rs:56-57 | parsing the `{}` text of any integer gives the integer back |
| Decimal.IntToStringInjective | crates/rmcp-display/src/lib.rs:56-57 | distinct integers are rendered as distinct texts |
| Decimal.IntTextSplit | crates/rmcp-display/src/lib.rs:57 | an integer's text followed by text that does not start with a digit splits uniquely |
| Primitives.WrapI32 | crates/rmcp-display/src/lib.rs:61 | release-build `i32` arithmetic: the result is congruent to the exact value modulo 2^32, and equals it when it fits |
| Float32.GreaterThanZeroMeaning | crates/rmcp-display/src/lib.rs:70 | `frequency > 0.0` holds if and only if the value is a positive finite number or +infinity |
| Float32.NotEqualOneMeaning | crates/rmcp-display/src/lib.rs:75 | `scale_factor != 1.0` holds if and only if the value is NaN, infinite or a finite number other than 1 |
| Float32.NotEqualZeroMeaning | crates/rmcp-display/src/lib.rs:80 | `rotation != 0.0` holds if and only if the value is NaN, infinite or a non-zero finite number (so -0.0 counts as zero) |
| Float32.TruncToI32Meaning | crates/rmcp-display/src/lib.rs:81 | `rotation as i32` truncates toward zero inside the `i32` range, saturates outside it, and maps NaN to 0 |
| Float32.HalfTruncatesToZero | crates/rmcp-display/src/lib.rs:80-81 | the pattern 0x3F000000 is 0.5: it is not equal to 0.0, yet it casts to 0 |

## Left out

- The platform's display-enumeration facility (`DisplayInfo::all`, `from_point`, `from_name`) is foreign code. Its answers are parameters of the tool methods.
- `Render.PhysicalText`: the diagonal is handed to the parameter `FloatText.diagonal` as the corrected, exact sum of squares (`Render.SquareSum`), not the source's `i32` sum. When the squares overflow an `i32`, the source's release build wraps the sum below zero and prints `(~NaN")`, and its debug build panics. The model's renderer reproduces neither; `Render.WrappingSquareSum` and `Render.SquareSumOverflows` model that sum as written. Three further steps are not modelled: the conversion `as f32`, which rounds sums above 2^24, the square root, and the division by 25.4.
- `Render.RefreshText`, `Render.ScaleText`: `{:.0}` of the frequency and of `scale_factor * 100.0` are the parameters `FloatText.refresh` and `FloatText.percent`. Float formatting and float multiplication are not modelled.
- `Render.WrappingSquareSum` models a release build. A debug build panics on the overflow instead, and that panic is not modelled.
- The tool macros (`tool_router`, `tool_handler`), request routing, `async` and the JSON schema derivation are framework code and are not modelled.
- The serde decoding of `PointParams` and `NameParams` is not modelled. The tools take the decoded parameters.
- `ServerHandler::get_info` returns static server metadata and is not modelled.
- `Tools.ToolResult` keeps only what the tools set. It holds one list of text contents, or an internal error's message. The error's empty data field and the other content kinds are left out.
- Fields of the `display_info` crate's record that the renderer never reads are not part of `Render.Display`. That crate is not part of this model.
- `DisplayServer::new` and `Default` only build the tool router, which is framework state, and are not modelled.
- `Tools.NameFailureDetermined` needs names without a quote. A quote inside a name can make two different error messages identical, so the source's message does not always identify the name.

## Findings

| source | as written | input that shows it | evidently intended | confidence | as-written member | corrected member |
|---|---|---|---|---|---|---|
| crates/rmcp-display/src/lib.rs:61 | `d.width_mm.pow(2) + d.height_mm.pow(2)` is computed in `i32`: it wraps in a release build and panics in a debug build | width_mm = 46341, height_mm = 1: the guard passes, and the exact sum 2147488282 exceeds `i32::MAX`, so it wraps to a negative value whose square root is NaN | the exact sum of the squares, positive for any positive sides, as the diagonal's square | not executed; low, because real monitors are far smaller | Render.WrappingSquareSum, Render.SquareSumOverflows | Render.SquareSum |

# Keypad viewport, flip animation and font embedder — a Dafny model

This project models the three pieces of decision-making logic in the keypad program:

- **The letterbox viewport of `main.py`.** The keypad is drawn on a fixed 750x1200 virtual
  canvas. Each frame, `Window.run` scales that canvas uniformly by
  `min(W / 750, H / 1200)` into the physical window of size W x H and centres it. It also
  maps a mouse position given in window pixels back into canvas coordinates and clamps it
  into the canvas (module `Viewport`, over exact `real`s).
- **The buttons of `main.py`.** Every `Button` is a 125x125 rectangle with a centred label.
  It is hovered when the mouse lies inside that rectangle, and clicked when the left
  button goes down while it is hovered. `Window.__init__` lays out twelve buttons on a
  grid with a 150-unit pitch, drawn over a backing panel (module `Buttons`, with the shared
  rectangle vocabulary in `Geometry`).
- **The flip demo of `test.py`.** One rectangle is driven by two flags, `flipping`
  (shrinking) and `expanding`. A space press starts a cycle only when both flags are
  clear. The rectangle then narrows about its fixed centre until its width reaches zero,
  and widens back until it is at least 200 wide (module `Flip`). The per-frame logic is
  the pure function `Next`. The class `FlipDemo` holds the module-level state and updates
  it in place with `Step`, one frame, and `Run`, the frame loop.
- **The hex encoder of `font_embedder.py`.** Every byte of the font becomes `0x` plus two
  lower-case hex digits. The items are joined with `", "` and wrapped as
  `font_hex_italic = [...]` (module `HexEmbed`). A decoder is defined beside the encoder.
  Decoding undoes encoding, so the encoding is injective. On texts made only of
  lower-case `0x` items, encoding also undoes decoding.

Inputs that come from raylib become parameters: the window size, the mouse position, the
"left button went down" and "space went down" booleans, the measured text size and the
frame time `dt`, one value per frame.

## Model

| member | source | states |
|---|---|---|
| `Viewport.Scale` | main.py:165 | the factor is non-negative; the scaled canvas fits the window on both axes and fills it exactly on at least one; it is positive exactly when both window sides are |
| `Viewport.Offset` | main.py:168-169 | both letterbox bars are non-negative and at least one is zero; each bar plus the scaled canvas plus the other bar spans the window side |
| `Viewport.Destination` | main.py:189-190 | the destination rectangle keeps the 750:1200 aspect ratio, lies inside the window, spans one full window side and is centred in the window |
| `Viewport.VirtualMouse` | main.py:165-170 | the mapped mouse exists exactly when the window has positive width and height (otherwise the source divides by zero); it always lies in [0,750]x[0,1200], also for mouse positions outside the letterboxed area |
| `Viewport.AxisToVirtual` | main.py:168-170 | one coordinate of the mapping, shifted, divided and clamped, always lies in [0, extent] |
| `Geometry.Clamp` | main.py:170 | the clamped value lies in [lo, hi]; it equals the input inside the range and the nearer bound outside it |
| `Viewport.ToPhysical` | main.py:189-190 | for a window of positive size, a point is in the canvas exactly when its drawn position is in the destination rectangle; `RoundTrip` and `InverseOnDestination` make it the inverse of `VirtualMouse` there |
| `Viewport.RoundTrip` | main.py:168-170 | a canvas point drawn at `offset + p * scale` and mapped back through the mouse transform is the same point |
| `Viewport.InverseOnDestination` | main.py:189-190 | a mouse position over the drawn canvas, mapped into the canvas and drawn again, is the same physical point, so no clamping happens there |
| `Viewport.OutsideClampsToEdge` | main.py:168-170 | each coordinate is mapped on its own: beyond an edge of the drawn canvas it resolves to that edge, and within the drawn span it is the exact inverse of drawing even when the other coordinate is in a letterbox bar, so every mouse position resolves to the nearest canvas point |
| `Buttons.Bounds` | main.py:83-95 | the rectangle drawn and hit-tested holds the button's top-left corner (for a positive size) and is centred at `position + size / 2`; `IsHovered` and `LabelOrigin` are stated against it |
| `Buttons.NewButton` | main.py:67-78 | a button's rectangle is `(pos.x, pos.y, 125, 125)`; it keeps its text and has a 70-point font |
| `Buttons.IsHovered` | main.py:92-95 | hovered exactly when the mouse's offset from the button's top-left corner lies in [0, width) x [0, height) |
| `Buttons.IsClicked` | main.py:98-100 | a click implies hover; a click happens exactly when the left button went down while hovered |
| `Buttons.DrawFill` | main.py:83-84 | the hovered colour is chosen exactly when the button is hovered |
| `Buttons.LabelOrigin` | main.py:86-88 | the label box's centre is the button's centre; a label no larger than the button lies inside it |
| `Buttons.Layout` | main.py:130-144 | the table has twelve buttons with one-character labels and 70-point fonts, in insertion order; `LayoutOnGrid`, `LayoutGeometry` and `AtMostOneHovered` give its geometry |
| `Buttons.LayoutOnGrid` | main.py:130-144 | the table has twelve 125x125 buttons at x in {88,238,388,538} and y in {400,550,700,850}; keys and grid cells are pairwise distinct |
| `Buttons.GridDisjoint` | main.py:130-144 | two grid buttons in different cells are 150 apart on some axis and so do not overlap |
| `Buttons.LayoutGeometry` | main.py:130-150 | the twelve buttons are pairwise disjoint and each lies inside the backing panel `(50, 75, 650, 1050)` |
| `Buttons.AtMostOneHovered` | main.py:148-153 | at any mouse position at most one key is hovered, at most one button is drawn with the hovered fill, and at most one button reports a click; a hovered mouse lies on the backing panel |
| `Flip.Press` | test.py:15-17 | a press changes the state exactly when space was pressed while both flags were clear; it can only set `flipping` and changes nothing else |
| `Flip.Shrink` | test.py:19-22 | while shrinking, the width drops by `1500 dt` and `x + width / 2` is preserved; nothing else changes, and nothing at all when not shrinking |
| `Flip.TurnAround` | test.py:24-27 | geometry is unchanged; afterwards `flipping` holds exactly when it held and the width is positive, and `expanding` exactly when it held or the width is at most 0 |
| `Flip.Expand` | test.py:29-32 | while expanding, the width grows by `1500 dt` and `x + width / 2` is preserved; nothing else changes, and nothing at all when not expanding |
| `Flip.Settle` | test.py:34-36 | only `expanding` can change, and it stays set exactly when the width is below 200 |
| `Flip.Next` | test.py:15-36 | one frame: with `dt >= 0` a positive width stays positive; `NextValid`, `CentreFixed`, `FlagsStayExclusive`, `TurnAroundFrame` and `ExpansionStops` state the rest |
| `Flip.Replay` | test.py:13-36 | the loop over any sequence of frames keeps the rectangle's centre, `y` and height; `ReplayValid` gives the invariant over a run |
| `Flip.FramesIsReplay` | test.py:13-36 | `n` frames of constant `dt` without a press are the loop run over `n` such inputs |
| `Flip.PressIgnoredWhenBusy` | test.py:15-17 | while shrinking or expanding, a frame with a space press equals the same frame without one |
| `Flip.InitialValid` | test.py:8-11 | the initial rectangle `(100, 100, 200, 200)` with both flags clear is idle and satisfies the invariant |
| `Flip.FlagsStayExclusive` | test.py:15-36 | a frame never ends with both flags set if they were not both set at its start |
| `Flip.CentreFixed` | test.py:19-32 | every frame moves `x` by minus half the width change, so `x + width / 2` is preserved; `y` and the height never change |
| `Flip.IdleFrameIsNoOp` | test.py:15-36 | an idle rectangle of positive width is unchanged by a frame without a press |
| `Flip.TurnAroundFrame` | test.py:19-32 | in the frame where the width drops to 0 or below, shrinking stops, the width ends where the frame began, and expanding is set exactly when that width is below 200 |
| `Flip.ExpansionStops` | test.py:29-36 | while expanding, a frame adds `1500 dt` to the width, and expanding ends exactly on the frame whose width reaches 200, without clamping |
| `Flip.OvershootExample` | test.py:29-36 | an expanding rectangle 190 wide, after a 0.1 s frame, is idle and 340 wide: the width can end a cycle above 200 |
| `Flip.NextValid` | test.py:13-36 | a frame with `dt >= 0` preserves the invariant: exclusive flags, centre at x = 200, fixed `y` and height, positive width, idle means at least 200 wide, expanding means narrower than 200 |
| `Flip.ReplayValid` | test.py:8-36 | every run of frames with non-negative frame times from a valid state (such as the initial one) ends in a valid state |
| `Flip.ShrinkTerminates` | test.py:19-32 | a shrinking rectangle whose width is covered by `k` steps of `1500 dt` reaches an idle frame |
| `Flip.ExpandTerminates` | test.py:29-36 | an expanding rectangle that `k` steps of `1500 dt` bring to 200 reaches an idle frame |
| `Flip.CycleReturnsToIdle` | test.py:19-36 | with a constant frame time `dt > 0` and no further presses, every valid state reaches an idle frame after finitely many frames, also stated for the frame loop run over that many such frames (what `FlipDemo.Run` computes) |
| `Flip.FlipDemo.constructor` | test.py:8-11 | the demo starts in the initial state, which is valid |
| `Flip.FlipDemo.Step` | test.py:15-36 | one pass of the loop body updates the fields as `Next` prescribes and keeps the invariant when `dt >= 0` |
| `Flip.FlipDemo.Run` | test.py:13-41 | the loop over a sequence of frames leaves the state that replaying them gives, and keeps the invariant when every `dt >= 0` |
| `HexEmbed.HexDigit` | font_embedder.py:4 | a digit below 16 becomes one lower-case hex character that reads back as that digit |
| `HexEmbed.FormatByte` | font_embedder.py:4 | each byte becomes `0x` followed by exactly two lower-case hex digits whose value is the byte |
| `HexEmbed.FormatAll` | font_embedder.py:4 | the items are the formatted bytes, one per byte, in input order |
| `HexEmbed.Join` | font_embedder.py:4 | `", ".join`: `n >= 1` items give their summed length plus `n - 1` separators, the first item opens the text, and no items give the empty text |
| `HexEmbed.HexArray` | font_embedder.py:4 | the joined array has `6n - 2` characters for `n >= 1` bytes and none for no bytes; `JoinLayout`, `RoundTrip` and `DecodeEncode` give its content |
| `HexEmbed.Output` | font_embedder.py:7 | the written text is the array plus 20 characters: it opens with `font_hex_italic = [` and closes with `]`; `OutputRoundTrip` reads it back |
| `HexEmbed.FormatParse` | font_embedder.py:4 | every formatted byte parses back to the byte and contains no comma |
| `HexEmbed.JoinLayout` | font_embedder.py:4 | the joined text has `6n - 2` characters for `n >= 1` bytes and none for no bytes; item `i` sits at characters `6i .. 6i+4`, followed by `", "` unless it is the last |
| `HexEmbed.SplitJoin` | font_embedder.py:4 | splitting the `", "`-join of comma-free items on `", "` gives the items back |
| `HexEmbed.JoinSplit` | font_embedder.py:4 | joining the pieces of any split on `", "` gives the text back |
| `HexEmbed.ParseFormatAll` | font_embedder.py:4 | parsing the formatted items gives the bytes back |
| `HexEmbed.RoundTrip` | font_embedder.py:4 | splitting the joined array on `", "` and parsing every item recovers the original bytes |
| `HexEmbed.DecodeEncode` | font_embedder.py:4 | the other direction: a text whose `", "`-separated pieces are all lower-case `0x` items is the encoding of the bytes it decodes to |
| `HexEmbed.Injective` | font_embedder.py:4 | different byte sequences have different encodings |
| `HexEmbed.OutputRoundTrip` | font_embedder.py:7 | the written content is `font_hex_italic = [` + the joined array + `]`, and reading it back gives the bytes |

## Left out

- GLSL shader sources and shader uniforms (main.py:7-52, 122-126, 163): GPU code driven by floating-point time.
- Window, render texture, font and shader creation and teardown, and the writes and deletes of temporary shader files (main.py:107-128, 174-202): raylib I/O with no decisions in it.
- idk.py is not part of this model. It only starts up raylib and draws one rectangle.
- `set_mouse_offset` and `set_mouse_scale` (main.py:171-172), with their `int()` truncation, are not modelled. `is_hovered` reads raylib's own transformed mouse, so `Buttons` takes the mouse as an input. `Viewport.VirtualMouse` models lines 165-170 as the mapping.
- `is_mouse_button_pressed` edge detection (main.py:100) is raylib's; the model takes its answer as the boolean `leftPressed`.
- Buttons.IsHovered: uses raylib's half-open rule: a point on the right or bottom edge of the rectangle is outside. Each button is 125 wide on a 150 pitch, so the disjointness results do not depend on this choice.
- Viewport.VirtualMouse: models lines 168-170 applied to a mouse position in window pixels. In the program that holds only on the first frame. From the end of that frame on, `get_mouse_position()` (main.py:166) returns raylib's mouse after the offset and scale set at lines 171-172. Lines 168-170 then transform an already mapped position a second time, and the resulting `virtual_mouse` is never read. The model does not capture that double mapping.
- IEEE floating-point rounding is not modelled: all geometry is exact `real` arithmetic. `get_frame_time()` is taken as a single input `dt` per frame, used in every update of that frame.
- Colours, fonts, `measure_text_ex` and all draw calls are left out. The measured text size is an input of `Buttons.LabelOrigin`, and the fill is reduced to hovered or idle.
- The frame loop of `Window.run` is modelled as the functions it computes each frame (`Scale`, `Offset`, `VirtualMouse`, `Destination`). It does not appear as a method, because each frame only computes values.
- The file reading and writing of font_embedder.py and its status message (lines 1-2, 6-9) are left out. `HexEmbed.Output` is the text written. `HexEmbed.Decode` is a strict decoder for exactly this format (`0x` or `0X` plus two hex digits of either case). It is narrower than Python's `int(_, 16)`. Because it also reads `0X` and upper-case digits, which the encoder never writes, `HexEmbed.DecodeEncode` needs lower-case items.
- Page switching between two key sets, mode-exclusive toggle groups, hover-highlight growth, press shrink and an expression buffer are absent from every modelled source file. The only shrink/expand code is test.py's single rectangle. It is modelled as written, so the width is not clamped to [0, 200].
- Flip.CycleReturnsToIdle: proves termination for a constant frame time only, and states no frame-count bound. Varying frame times, and `dt = 0` (which stalls the animation), are not covered.

# LED panel: grid addressing, colours and painting

A model of the core of an ESP32 LED-matrix panel and its browser control
page. The firmware (`src/main.cpp`) drives a 30 × 15 matrix wired as one
serpentine strip of 450 LEDs. It keeps the panel state (`on`, `color`,
`brightness`, `pattern`, a `led_buffer` of painted colours and the `leds`
frame) and updates it from WebSocket commands. The browser page
(`data/index.js`) converts colours between `#rrggbb` text and 24-bit
integers. It maps canvas pixels to on-screen cells and to strip indices, and
it collects a paint stroke while the mouse button is down, sending it as one
`"grid"` command on release.

Modules, one per concern:

- `Common` (common.dfy): the firmware's fixed-width integers (`u8`, `u16`, `u32`), `Option`, and a lemma that Euclidean division is unique.
- `Matrix` (matrix.dfy): the matrix constants, the firmware's `XY`, and its inverse (`StripColumn`, `StripRow`).
- `Firmware` (firmware.dfy): LED values, the patterns table, and the class `Panel` with its pattern methods and the command handler.
- `Colour` (colour.dfy): `hexToDec`, `decToHex` and the hex digit functions they rest on.
- `Cells` (cells.dfy): `GetCellNumber`, `GetCellNumberTransformed`, the `drawGridCells` index decomposition, and the corrected strip index `StripIndex`.
- `Canvas` (canvas.dfy): the class `PaintCanvas` holding `drawing`, `current_cells`, `current_color`, `grid_data` and the sent messages, with its mouse handlers.

Pixel positions are non-negative integers in backing-canvas pixels
(1200 × 600). LED values are opaque: `Rgb(code)` for a CRGB built from a
colour code and `Hsv(h, s, v)` for a CHSV. The one conversion modelled is
that a CRGB built from a 32-bit code keeps its low 24 bits. A decoded
WebSocket command is `Message(action, data)`. Here `data` carries the value
of `json["data"]` as each C++ type the handler reads it as.

In the code, the top-left on-screen cell is strip row 14, which runs
forwards. On its pixels below the top pixel row the browser sends index 420
for column 0 and 449 for column 29.

## Model

| member | source | states |
|---|---|---|
| `Matrix.XY` | src/main.cpp:73-88 | every cell (x < 30, y < 15) is addressed inside the 450-LED strip |
| `Matrix.XYRows` | src/main.cpp:76-86 | on the matrix, even rows address 30·y + x and odd rows 30·y + (29 − x) |
| `Matrix.XYInverse` | src/main.cpp:73-88 | the strip row and column functions recover (x, y) from XY(x, y) |
| `Matrix.XYInjective` | src/main.cpp:73-88 | distinct cells get distinct LEDs |
| `Matrix.XYOnto` | src/main.cpp:73-88 | every index below 450 is XY of some cell, so XY is a bijection onto the strip |
| `Firmware.FromCode` | src/main.cpp:130 | a CRGB made from a colour code is that code's low 24 bits: below 2^24 and congruent to the code modulo 2^24 |
| `Firmware.FadeFrame` | src/main.cpp:109-115 | the frame color_fade draws has one entry per LED, defined through XY's inverse |
| `Firmware.FadeFrameAt` | src/main.cpp:109-115 | in the fade frame, LED XY(x, y) has hue (hue + x + y) mod 256, full saturation and value |
| `Firmware.GridFrame` | src/main.cpp:127-133 | the frame grid() draws over a frame has the frame's length |
| `Firmware.GridFrameIdempotent` | src/main.cpp:127-133 | drawing the grid pattern twice gives the same frame as once |
| `Firmware.GridFrameOfEmptyBuffer` | src/main.cpp:127-133 | with an all-zero buffer the grid pattern leaves the frame unchanged |
| `Firmware.Paint` | src/main.cpp:231-234 | the buffer after the "grid" loop has written the listed cells in order keeps its length |
| `Firmware.PaintAt` | src/main.cpp:231-234 | after the "grid" loop, an entry holds the stroke colour if it is listed in the cells, else its old value |
| `Firmware.PaintedCellShows` | src/main.cpp:229-235 | a cell painted in a non-zero colour shows that colour once the grid pattern runs |
| `Firmware.Panel.constructor` | src/main.cpp:45-51 | boot state: off, colour 0xFF0000, brightness 32, pattern 0, hue 0, zero buffer, black frame |
| `Firmware.Panel.Clear` | src/main.cpp:213 | FastLED.clear() makes every LED black |
| `Firmware.Panel.ColorFill` | src/main.cpp:101-104 | every LED takes the panel colour |
| `Firmware.Panel.ColorFade` | src/main.cpp:106-116 | the frame is the fade frame: each LED XY(x, y) gets hue (hue + x + y) mod 256, and the loops reach all 450 LEDs |
| `Firmware.Panel.Grid` | src/main.cpp:127-133 | leds[i] becomes led_buffer[i] exactly where that entry is non-zero; every other LED is unchanged |
| `Firmware.Panel.ShowPattern` | src/main.cpp:296 | `patterns[pattern]()` runs entry 0, 1 or 3 of the table at src/main.cpp:135-136 (color_fill, color_fade, grid), which draw the fill, fade and grid frames |
| `Firmware.Panel.HandleMessage` | src/main.cpp:193-241 | a fragmented, non-text or undecodable frame changes nothing and notifies no one; otherwise "on", "color", "brightness", "pattern" set only their field, the "grid" loop paints only the buffer, "on", "pattern" and "clear" blank the frame, and exactly one snapshot is sent, holding the new on, color, brightness and pattern, as notifyClients reports them (src/main.cpp:178-191) |
| `Colour.ParseHex` | data/index.js:30 | parseInt of n hex digits is below 16^n |
| `Colour.ToHex` | data/index.js:34 | toString(16) writes at least one lower-case digit, with no leading zero ("0" for zero), and reads back as the same number |
| `Colour.HexToDec` | data/index.js:29-31 | a "#rrggbb" value converts to an integer below 2^24 |
| `Colour.DecToHex` | data/index.js:33-35 | the result is '#' followed by exactly six lower-case hex digits, the six lowest digits of the input |
| `Colour.PaddedSuffix` | data/index.js:34 | the last k characters of zeros followed by toString(16) are the k lowest hex digits |
| `Colour.ParseHexDigits` | data/index.js:30 | reading back the k lowest digits of n gives n mod 16^k |
| `Colour.HexDigitsOfParse` | data/index.js:30 | writing a digit string's value at the string's width gives the string in lower case |
| `Colour.DecToHexWraps` | data/index.js:33-35 | decToHex(v) equals decToHex(v mod 2^24) |
| `Colour.HexRoundTrip` | data/index.js:29-35 | hexToDec(decToHex(v)) is v mod 2^24, hence v for v below 2^24 |
| `Colour.TextRoundTrip` | data/index.js:29-35 | decToHex(hexToDec(h)) is h with its digits in lower case, hence h itself for a lower-case picker value |
| `Cells.GetCellNumber` | data/index.js:165-169 | a pixel on the canvas lands on a cell number below 450 |
| `Cells.CellNumberOfCell` | data/index.js:165-169 | every pixel (40x + dx, 40y + dy) of the cell in column x, row y has number x + 30y |
| `Cells.DecomposeInverse` | data/index.js:198-200 | for i below 450, (i % 30, floor(i / 30)) is a cell on the grid whose number is i |
| `Cells.ComposeInverse` | data/index.js:198-200 | the number x + 30y decomposes back into column x and row y |
| `Cells.GetCellNumberTransformed` | data/index.js:171-179 | on the canvas the transformed index lies in [0, 480); `TransformedInRange` and `TransformedTopEdge` say when it is past the strip's end |
| `Cells.TransformedIsXY` | data/index.js:171-179 | the browser's transformed index equals the firmware's XY at the column and the transformed row |
| `Cells.TransformedInRange` | data/index.js:171-179 | for 1 ≤ py ≤ 600 the transformed index lies in [0, 450) |
| `Cells.TransformedTopEdge` | data/index.js:172-173 | at py = 0 the transformed row is 15 and the index is at least 450 |
| `Cells.TransformedBoundaryCollision` | data/index.js:173 | pixel rows 39 and 40 are in different screen cells but both map to strip index 420 |
| `Cells.StripIndex` | data/index.js:171-179 | the corrected index lies in the strip and equals XY(column, 14 − screen row) |
| `Cells.StripIndexOfScreenCell` | data/index.js:171-179 | the corrected index is the firmware address of the pointer's screen cell, flipped vertically |
| `Cells.StripIndexMatchesScreenCell` | data/index.js:151-153 | two canvas positions share a corrected strip index if and only if they share a screen cell |
| `Cells.TransformedAgreesInsideCells` | data/index.js:173 | away from the pixel rows py = 40k, the transform as written equals the corrected one |
| `Canvas.Drawn` | data/index.js:196-204 | drawGridCells makes no more drawCell calls than grid_data has entries |
| `Canvas.DrawnSound` | data/index.js:196-204 | each drawn cell is a truthy grid_data entry (painted with a non-empty value, data/index.js:199), drawn at the column and row of its own index |
| `Canvas.DrawnIncreasing` | data/index.js:198-202 | the drawCell calls come in strictly increasing cell index (x + 30y), so no entry is drawn twice and they follow index order |
| `Canvas.DrawnComplete` | data/index.js:196-204 | each truthy grid_data entry (painted with a non-empty value; undefined and "" are falsy, data/index.js:199) is drawn at its column and row |
| `Canvas.DrawnOfCleared` | data/index.js:228-231 | a cleared grid draws no cell, so only grid lines remain |
| `Canvas.PaintedUnderPointer` | data/index.js:181-183 | the cell painted under the pointer is drawn at the pointer's column and row |
| `Canvas.PaintCanvas.constructor` | data/index.js:113-117 | after the script runs: not drawing, every cell empty, one "clear" message sent |
| `Canvas.PaintCanvas.ClearGrid` | data/index.js:228-232 | grid_data becomes a fresh all-empty array and one "clear" message is sent; nothing else changes |
| `Canvas.PaintCanvas.UpdateCell` | data/index.js:181-184 | only grid_data[cell] changes, to the picker's value |
| `Canvas.PaintCanvas.MouseHandler` | data/index.js:149-157 | a transformed index not yet in the stroke is appended and its screen cell painted; a repeated one changes nothing; the stroke stays duplicate-free and below 480 |
| `Canvas.PaintCanvas.MouseDown` | data/index.js:126-131 | starts drawing with the picker's colour, with a stroke of exactly the pointer's transformed index and its cell painted |
| `Canvas.PaintCanvas.MouseMove` | data/index.js:133-137 | while not drawing nothing changes; while drawing it acts as the mouse handler |
| `Canvas.PaintCanvas.MouseUp` | data/index.js:139-147 | if drawing, exactly one "grid" message with the captured colour and the stroke is sent, otherwise none; drawing is false afterwards |
| `Canvas.PaintCanvas.DrawGridCells` | data/index.js:196-204 | the drawCell calls are exactly those of `Drawn`; by `DrawnSound`, `DrawnComplete` and `DrawnIncreasing` that is one call per truthy entry, in index order |
| `Canvas.DragOverRepeatedCell` | data/index.js:126-157 | a drag over cell (2, 3) and then twice over (3, 3) records the two indices 357 and 356 and sends them in one message |
| `Canvas.DragAcrossRowBoundary` | data/index.js:149-157 | moving from pixel row 39 to 40 enters screen cell (0, 1) without painting it, as both give index 420 |

## Findings

| source | as written | input that shows it | evidently intended | confidence | as-written member | corrected member |
|---|---|---|---|---|---|---|
| data/index.js:173 | the strip row is floor(abs(py − 600) / 40), so the flip is made per pixel | py = 0, the top pixel row: the row is 15 and the index is 450 to 479, past the strip's end; the firmware then writes led_buffer out of bounds (src/main.cpp:233) | row 14 − floor(py / 40), the strip row of the pointer's screen cell | not executed; high | `Cells.TransformedTopEdge` | `Cells.StripIndex` |
| data/index.js:173 | the same per-pixel flip | py = 39 and py = 40 are in screen rows 0 and 1, but both give strip index 420: at py = 40 the cell is not painted, and the index sent for that pixel belongs to the screen row above | one strip index per screen cell | not executed; high | `Cells.TransformedBoundaryCollision` | `Cells.StripIndexMatchesScreenCell` |

`Cells.GetCellNumberTransformed` models the transform as written, and the
paint stroke in `Canvas` records it, as the code does;
`Canvas.DragAcrossRowBoundary` shows the second row's effect on a stroke.
`Cells.StripIndex` is the corrected definition.
`Cells.TransformedAgreesInsideCells` shows that the two differ only on the
pixel rows py = 40k.

## Left out

- Wi-Fi, SPIFFS, the HTTP server and the WebSocket transport are I/O: connecting, the 2 s reconnect, `ws.textAll`, and `websocket.send`. Messages are modelled as values. `HandleMessage` returns the snapshot it would send; `PaintCanvas` appends each message to `sent`.
- Sending before the socket is open is not modelled. The script calls `clearGrid` at data/index.js:117, before `onLoad` has created any socket (data/index.js:18-21). So `websocket.send` (data/index.js:68) is called on undefined, which throws. Read as text, the top-level script then stops: the canvas size (lines 119-120) is never set and the three mouse listeners (lines 126-147) are never registered. This was not executed, and the page's HTML (which might load the script differently) is not part of this model. The `clearGrid` in `onLoad` sends while the socket is still connecting, which also throws, so its `drawGrid` is not reached.
- Canvas.PaintCanvas.constructor: models the state as if the whole script had run and the mouse handlers had been registered. The handlers are modelled as the code writes them.
- JSON is not modelled. Neither is ArduinoJson's conversion of `json["data"]` to bool, unsigned long or byte. The decoded message carries those converted values.
- A command without an "action" member calls strcmp on a null pointer (src/main.cpp:209-211), which is undefined behaviour. The model's message always has an action.
- Firmware.Panel.HandleMessage: requires every index of a "grid" command to be below 450, because the firmware does not check them (src/main.cpp:233).
- Firmware.Panel.ShowPattern: requires pattern < 4, because `patterns[pattern]` is not bounds-checked (src/main.cpp:296). The "pattern" command stores any byte, so the firmware itself does not keep this.
- Firmware.Panel.ShowPattern: does not model `confetti` (src/main.cpp:119-125). It is random and built from FastLED's fading and colour addition.
- FastLED semantics are not modelled: the CHSV-to-RGB conversion, `setBrightness`, `show` and `delay`. Neither are the main `loop`, its frame rate, or the `EVERY_N_MILLISECONDS` hue increment (src/main.cpp:287-302). `hue` is a field that the patterns read.
- The `drawGrid` calls in `updateCell` and `clearGrid` and the canvas drawing (`fillRect`, the grid lines, `stroke`) are UI. For `drawGridCells`, only its sequence of `drawCell` arguments is modelled.
- The rescaling of CSS offsets to canvas pixels in `getMouesPosition` (data/index.js:159-163) is floating point. The model starts from integer canvas pixels inside the 1200 × 600 canvas.
- Colour.HexToDec: only takes '#' followed by six hex digits. `parseInt` on other text partially parses or returns NaN, and the colour picker never produces such text.
- `setData` and `rangeSlide` copy values into form controls. They are not part of this model, except that `setData` uses `decToHex`, which is modelled.

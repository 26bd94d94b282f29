/**
 * The panel state of the ESP32 firmware: the globals `on`, `color`,
 * `brightness`, `pattern`, `hue`, the `led_buffer` painted from the browser
 * and the `leds` frame, with the patterns that draw the frame and the
 * WebSocket command handler.
 */
module Firmware {
  import opened Common
  import opened Matrix

  /** An LED value. FastLED's colour conversions are not modelled: a value is the colour it was given. */
  datatype Led = Rgb(code: nat) | Hsv(hue: u8, saturation: u8, value: u8)

  /** CRGB(0, 0, 0), what FastLED.clear() writes. */
  const Black: Led := Rgb(0)

  /** A CRGB built from a 32-bit colour code keeps its low 24 bits (0xRRGGBB). */
  function FromCode(code: u32): (led: Led)
    ensures led.Rgb? && led.code < 0x100_0000
    ensures (code - led.code) % 0x100_0000 == 0
    ensures code < 0x100_0000 ==> led == Rgb(code)
  {
    Rgb(code % 0x100_0000)
  }

  /** The entries of the `patterns` table, in order. */
  datatype Pattern = ColorFill | ColorFade | Confetti | GridPattern

  /** `patterns[p]`; the firmware does not check the index, so p must be below 4. */
  function Patterns(p: u8): (r: Pattern)
    requires p < 4
  {
    [ColorFill, ColorFade, Confetti, GridPattern][p]
  }

  /** The frame after FastLED.clear(). */
  function Blank(): (f: seq<Led>)
  {
    seq(NumLeds, _ => Black)
  }

  /** The frame `color_fill` draws. */
  function Filled(color: u32): (f: seq<Led>)
  {
    seq(NumLeds, _ => FromCode(color))
  }

  /** The hue `color_fade` gives cell (x, y): the byte hue + x + y. */
  function FadeHue(hue: u8, x: nat, y: nat): (h: u8)
  {
    (hue + x + y) % 0x100
  }

  /** The frame `color_fade` draws, indexed by strip position. */
  function FadeFrame(hue: u8): (f: seq<Led>)
    ensures |f| == NumLeds
  {
    seq(NumLeds, i requires 0 <= i < NumLeds => Hsv(FadeHue(hue, StripColumn(i), StripRow(i)), 255, 255))
  }

  /** In the fade frame the LED of cell (x, y) has hue (hue + x + y) mod 256. */
  lemma FadeFrameAt(hue: u8, x: u8, y: u8)
    requires x < Width && y < Height
    ensures XY(x, y) < NumLeds && FadeFrame(hue)[XY(x, y)] == Hsv((hue + x + y) % 0x100, 255, 255)
  {
    XYInverse(x, y);
  }

  /** The frame `grid()` draws over `frame`: the non-zero buffer entries, and `frame` elsewhere. */
  function GridFrame(frame: seq<Led>, buffer: seq<u32>): (f: seq<Led>)
    requires |frame| == |buffer|
    ensures |f| == |frame|
  {
    seq(|frame|, i requires 0 <= i < |frame| => if buffer[i] != 0 then FromCode(buffer[i]) else frame[i])
  }

  /** Drawing the grid twice draws the same frame as drawing it once. */
  lemma GridFrameIdempotent(frame: seq<Led>, buffer: seq<u32>)
    requires |frame| == |buffer|
    ensures GridFrame(GridFrame(frame, buffer), buffer) == GridFrame(frame, buffer)
  {
  }

  /** An all-zero buffer leaves the frame as it was. */
  lemma GridFrameOfEmptyBuffer(frame: seq<Led>, buffer: seq<u32>)
    requires |frame| == |buffer|
    requires forall i :: 0 <= i < |buffer| ==> buffer[i] == 0
    ensures GridFrame(frame, buffer) == frame
  {
  }

  /** Every index of `cells` lies in the strip. */
  predicate CellsInStrip(cells: seq<int>, n: nat)
  {
    forall k :: 0 <= k < |cells| ==> 0 <= cells[k] < n
  }

  /** The buffer after the "grid" command's loop wrote `color` at each of `cells`, in order. */
  function Paint(buffer: seq<u32>, cells: seq<int>, color: u32): (b: seq<u32>)
    requires CellsInStrip(cells, |buffer|)
    ensures |b| == |buffer|
    decreases |cells|
  {
    if cells == [] then buffer
    else Paint(buffer, cells[..|cells| - 1], color)[cells[|cells| - 1] := color]
  }

  /** After painting, exactly the listed cells hold the colour; every other entry is unchanged. */
  lemma {:induction false} PaintAt(buffer: seq<u32>, cells: seq<int>, color: u32, i: nat)
    requires CellsInStrip(cells, |buffer|) && i < |buffer|
    ensures Paint(buffer, cells, color)[i] == if i in cells then color else buffer[i]
    decreases |cells|
  {
    if cells != [] {
      var init := cells[..|cells| - 1];
      assert cells == init + [cells[|cells| - 1]];
      PaintAt(buffer, init, color, i);
    }
  }

  /** A stroke painted in a non-zero colour shows in that colour once the grid pattern runs. */
  lemma PaintedCellShows(frame: seq<Led>, buffer: seq<u32>, cells: seq<int>, color: u32, c: int)
    requires |frame| == |buffer| && CellsInStrip(cells, |buffer|)
    requires color != 0 && c in cells
    ensures 0 <= c < |frame| && GridFrame(frame, Paint(buffer, cells, color))[c] == FromCode(color)
  {
    PaintAt(buffer, cells, color, c);
  }

  /** The WebSocket opcode of a frame. */
  datatype Opcode = TextFrame | BinaryFrame | ContinuationFrame | ControlFrame

  /** The fields of AwsFrameInfo the handler reads. */
  datatype FrameInfo = FrameInfo(final: bool, index: nat, len: nat, opcode: Opcode)

  /**
   * The value of json["data"] as each C++ type the handler reads it as
   * (ArduinoJson's conversions are not modelled).
   */
  datatype Data = Data(asBool: bool, asULong: u32, asByte: u8, cells: seq<int>, cellColor: u32)

  /** A decoded command: json["action"] and json["data"]. */
  datatype Message = Message(action: string, data: Data)

  /** The outcome of deserializeJson. */
  datatype Decoded = DecodeError | Json(msg: Message)

  /** What notifyClients sends to every client. */
  datatype Snapshot = Snapshot(on: bool, color: u32, brightness: u8, pattern: u8)

  /** The handler only acts on a complete, unfragmented text frame. */
  predicate Whole(info: FrameInfo, len: nat)
  {
    info.final && info.index == 0 && info.len == len && info.opcode == TextFrame
  }

  /** The actions after which the handler calls FastLED.clear(). */
  predicate ClearsFrame(action: string)
  {
    action == "on" || action == "pattern" || action == "clear"
  }

  class Panel {
    var on: bool
    var color: u32
    var brightness: u8
    var pattern: u8
    var hue: u8
    const ledBuffer: array<u32>
    const leds: array<Led>

    ghost predicate Valid()
    {
      ledBuffer.Length == NumLeds && leds.Length == NumLeds
    }

    /** The globals at boot: off, red, brightness 32, pattern 0, zeroed buffer and frame. */
    constructor ()
      ensures Valid() && fresh(ledBuffer) && fresh(leds)
      ensures !on && color == 0xFF0000 && brightness == 32 && pattern == 0 && hue == 0
      ensures forall i :: 0 <= i < NumLeds ==> ledBuffer[i] == 0
      ensures leds[..] == Blank()
    {
      on, color, brightness, pattern, hue := false, 0xFF0000, 32, 0, 0;
      ledBuffer := new u32[NumLeds](_ => 0);
      leds := new Led[NumLeds](_ => Black);
    }

    /** FastLED.clear(): every LED black. */
    method Clear()
      requires Valid()
      modifies leds
      ensures leds[..] == Blank()
    {
      forall i | 0 <= i < leds.Length {
        leds[i] := Black;
      }
    }

    /** `color_fill`: every LED in the panel colour. */
    method ColorFill()
      requires Valid()
      modifies leds
      ensures leds[..] == Filled(color)
    {
      forall i | 0 <= i < leds.Length {
        leds[i] := FromCode(color);
      }
    }

    /** `color_fade`: a diagonal rainbow, each cell written once through XY. */
    method ColorFade()
      requires Valid()
      modifies leds
      ensures leds[..] == FadeFrame(hue)
      ensures forall x: u8, y: u8 {:trigger XY(x, y)} :: x < Width && y < Height ==>
        XY(x, y) < NumLeds && leds[XY(x, y)] == Hsv(FadeHue(hue, x, y), 255, 255)
    {
      var y: u8 := 0;
      while y < Height
        invariant y <= Height
        invariant forall i :: 0 <= i < NumLeds && StripRow(i) < y ==> leds[i] == FadeFrame(hue)[i]
      {
        var x: u8 := 0;
        while x < Width
          invariant x <= Width
          invariant forall i :: 0 <= i < NumLeds && (StripRow(i) < y || (StripRow(i) == y && StripColumn(i) < x)) ==>
            leds[i] == FadeFrame(hue)[i]
        {
          XYInverse(x, y);
          leds[XY(x, y)] := Hsv(FadeHue(hue, x, y), 255, 255);
          x := x + 1;
        }
        forall i | 0 <= i < NumLeds && StripRow(i) == y
          ensures StripColumn(i) < Width
        {
          XYOnto(i);
        }
        y := y + 1;
      }
      forall i | 0 <= i < NumLeds
        ensures StripRow(i) < Height
      {
        XYOnto(i);
      }
      assert leds[..] == FadeFrame(hue);
      forall x: u8, y: u8 | x < Width && y < Height
        ensures XY(x, y) < NumLeds && leds[XY(x, y)] == Hsv(FadeHue(hue, x, y), 255, 255)
      {
        FadeFrameAt(hue, x, y);
      }
    }

    /** `grid()`: copy every non-zero buffer entry into the frame. */
    method Grid()
      requires Valid()
      modifies leds
      ensures leds[..] == GridFrame(old(leds[..]), ledBuffer[..])
    {
      var i := 0;
      while i < NumLeds
        invariant i <= NumLeds
        invariant forall k :: 0 <= k < i ==> leds[k] == GridFrame(old(leds[..]), ledBuffer[..])[k]
        invariant forall k :: i <= k < NumLeds ==> leds[k] == old(leds[k])
      {
        if ledBuffer[i] != 0 {
          leds[i] := FromCode(ledBuffer[i]);
        }
        i := i + 1;
      }
    }

    /** `patterns[pattern]()`: draw the current pattern into the frame. */
    method ShowPattern()
      requires Valid() && pattern < 4 && pattern != 2
      modifies leds
      ensures pattern == 0 ==> leds[..] == Filled(color)
      ensures pattern == 1 ==> leds[..] == FadeFrame(hue)
      ensures pattern == 3 ==> leds[..] == GridFrame(old(leds[..]), ledBuffer[..])
    {
      match Patterns(pattern)
      case ColorFill => ColorFill();
      case ColorFade => ColorFade();
      case GridPattern => Grid();
    }

    /** The state notifyClients reports. */
    function State(): (s: Snapshot)
      reads this
    {
      Snapshot(on, color, brightness, pattern)
    }

    /**
     * `handleWebSocketMessage` on an already decoded frame: apply the command
     * and notify the clients. A fragmented or non-text frame, or one that fails
     * to decode, changes nothing and notifies no one.
     */
    method HandleMessage(info: FrameInfo, len: nat, body: Decoded) returns (notified: Option<Snapshot>)
      requires Valid()
      requires Whole(info, len) && body.Json? && body.msg.action == "grid" ==>
        CellsInStrip(body.msg.data.cells, NumLeds)
      modifies this, ledBuffer, leds
      ensures !(Whole(info, len) && body.Json?) ==>
        notified == None && unchanged(this, ledBuffer, leds)
      ensures Whole(info, len) && body.Json? ==>
        var action, data := body.msg.action, body.msg.data;
        && on == (if action == "on" then data.asBool else old(on))
        && color == (if action == "color" then data.asULong else old(color))
        && brightness == (if action == "brightness" then data.asByte else old(brightness))
        && pattern == (if action == "pattern" then data.asByte else old(pattern))
        && hue == old(hue)
        && ledBuffer[..] == (if action == "grid" then Paint(old(ledBuffer[..]), data.cells, data.cellColor)
                             else old(ledBuffer[..]))
        && leds[..] == (if ClearsFrame(action) then Blank() else old(leds[..]))
        && notified == Some(Snapshot(on, color, brightness, pattern))
    {
      if !Whole(info, len) {
        return None;
      }
      if body.DecodeError? {
        return None;
      }
      var action, data := body.msg.action, body.msg.data;
      if action == "on" {
        Clear();
        on := data.asBool;
      }
      if action == "color" {
        color := data.asULong;
      }
      if action == "brightness" {
        brightness := data.asByte;
      }
      if action == "pattern" {
        Clear();
        pattern := data.asByte;
      }
      if action == "grid" {
        var cells := data.cells;
        var i := 0;
        while i < |cells|
          invariant i <= |cells|
          invariant ledBuffer[..] == Paint(old(ledBuffer[..]), cells[..i], data.cellColor)
          modifies ledBuffer
        {
          assert cells[..i + 1][..i] == cells[..i];
          ledBuffer[cells[i]] := data.cellColor;
          i := i + 1;
        }
        assert cells[..i] == cells;
      }
      if action == "clear" {
        Clear();
      }
      notified := Some(State());
    }
  }
}

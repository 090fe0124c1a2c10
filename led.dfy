/** The status LED controller (src/lib/led.js): colour parsing, the `run`/`stop` guards and
    the blink step of the Working state. The I2C register writes are not modelled; the
    brightness last written to the PWM registers is kept as `pwm` (0 is off, 0x55 is on). */
module Led {
  import opened Wrappers
  import opened JsStrings

  /** `parseHex` of a two-digit string. */
  function ParseHexPair(hi: char, lo: char): (v: nat)
    requires IsHexDigit(hi) && IsHexDigit(lo)
    ensures v < 256
  {
    16 * HexValue(hi) + HexValue(lo)
  }

  /** The pattern `^(#[0-9a-fA-F]{6}){1}$`. */
  predicate IsColor(color: string)
  {
    |color| == 7 && color[0] == '#' && forall i :: 1 <= i < 7 ==> IsHexDigit(color[i])
  }

  datatype Rgb = Rgb(r: nat, g: nat, b: nat)

  /** `convertColor`: rejects anything but `#` and six hex digits with "color is illegal",
      otherwise gives each channel's two-digit value. */
  function ConvertColor(color: string): (res: Result<Rgb>)
    ensures res.Ok? <==> IsColor(color)
    ensures res.Err? ==> res.msg == "color is illegal"
    ensures res.Ok? ==> res.value.r < 256 && res.value.g < 256 && res.value.b < 256
  {
    if !IsColor(color) then Err("color is illegal")
    else Ok(Rgb(ParseHexPair(color[1], color[2]), ParseHexPair(color[3], color[4]),
                ParseHexPair(color[5], color[6])))
  }

  /** The colour written `#rrggbb`. */
  function ColorText(c: Rgb): string
    requires c.r < 256 && c.g < 256 && c.b < 256
  {
    ['#', HexChar(c.r / 16), HexChar(c.r % 16), HexChar(c.g / 16), HexChar(c.g % 16),
     HexChar(c.b / 16), HexChar(c.b % 16)]
  }

  /** `convertColor` reads back every colour written `#rrggbb`. */
  lemma ConvertColorRoundTrip(c: Rgb)
    requires c.r < 256 && c.g < 256 && c.b < 256
    ensures ConvertColor(ColorText(c)) == Ok(c)
  {
    var t := ColorText(c);
    assert IsColor(t);
  }

  /** Upper- and lower-case digits denote the same colour. */
  lemma ConvertColorCaseInsensitive(color: string, other: string)
    requires IsColor(color) && |other| == 7 && other[0] == '#'
    requires forall i :: 1 <= i < 7 ==>
      (other[i] == color[i] || ('a' <= color[i] <= 'f' && other[i] as int == color[i] as int - 32))
    ensures ConvertColor(other) == ConvertColor(color)
  {
    assert IsColor(other);
  }

  datatype Mode = Init | StandBy | Working | Failed

  datatype BlinkType = AlwaysOn | Breath

  /** A JavaScript argument of `run`: a number, or any other value with its truthiness. */
  datatype Arg = Num(n: int) | Other(truthy: bool)

  /** How `run` reads `time`/`times`: a falsy non-number acts as 0 (its default, or a
      comparison and test that fail as 0 would). */
  function NumberOr0(a: Arg): int
  {
    if a.Num? then a.n else 0
  }

  const Brightness: int := 0x55

  /** The colour StandBy shows when the controller was given no default colour. */
  const FallbackColor: string := "#00ff00"

  class LedControl {
    /** The third constructor argument, `defaultColor`; the empty string stands for a falsy
        value. */
    const defaultColor: string
    var mode: Mode
    /** Whether `i2c1` is set: the bus has been opened. Every register write throws
        "Not initialized yet" before that. */
    var busOpen: bool
    var color: Rgb
    var blink: BlinkType
    var times: int
    var lightTimes: nat
    var light: bool
    /** The 500 ms blink timer and the `time` close timer of the Working state. */
    var nextArmed: bool
    var closeArmed: bool
    var pwm: int

    /** While the blink timer runs, the LED is lit exactly when `light` is set and, with a
        positive `times`, it is never lit again once `times` blinks are complete. */
    predicate Valid()
      reads this
    {
      && (mode != Working ==> !nextArmed && !closeArmed)
      && (mode == Working && nextArmed ==> busOpen && (light <==> pwm == Brightness))
      && (mode == Working && nextArmed && times > 0 ==> lightTimes <= times && (light ==> lightTimes < times))
    }

    /** `new LEDControl(BUS_NUMBER, AW2015FCR_ADDR, defaultColor)`: the Init state, which
        starts opening the bus. */
    constructor (defaultColor: string)
      ensures Valid() && mode == Init && !busOpen && this.defaultColor == defaultColor
      ensures pwm == 0 && !nextArmed && !closeArmed
    {
      this.defaultColor := defaultColor;
      mode := Init;
      busOpen := false;
      color := Rgb(0, 0, 0);
      blink := Breath;
      times := 0;
      lightTimes := 0;
      light := false;
      nextArmed := false;
      closeArmed := false;
      pwm := 0;
    }

    /** `this.ctx.defaultColor || '#00ff00'`. */
    function StandByColor(): string
    {
      if defaultColor != "" then defaultColor else FallbackColor
    }

    /** The callback of `i2c.open` while the controller is in Init: an error enters Err;
        otherwise `i2c1` is kept and the chip is being programmed. */
    method Opened(err: bool)
      requires Valid() && mode == Init && !busOpen
      modifies this
      ensures Valid() && color == old(color) && pwm == old(pwm)
      ensures err ==> mode == Failed && !busOpen
      ensures !err ==> mode == Init && busOpen
    {
      if err {
        mode := Failed;
      } else {
        busOpen := true;
      }
    }

    /** `initLed()` settles: its last write leaves the PWM registers at full brightness,
        then StandBy is entered, and a StandBy that throws is caught and turned into Err like
        a failed programming. */
    method Programmed(ok: bool)
      requires Valid() && mode == Init && busOpen
      modifies this
      ensures Valid() && busOpen && !nextArmed && !closeArmed
      ensures ok ==> pwm == Brightness
      ensures ok && ConvertColor(StandByColor()).Ok? ==>
                mode == StandBy && color == ConvertColor(StandByColor()).value
      ensures ok && ConvertColor(StandByColor()).Err? ==> mode == Failed && color == old(color)
      ensures !ok ==> mode == Failed && color == old(color) && pwm == old(pwm)
    {
      if ok {
        pwm := Brightness;
        var r := EnterStandBy();
        if r.Err? {
          mode := Failed;
        }
      } else {
        mode := Failed;
      }
    }

    /** What entering StandBy leaves: the state installed with no timer; then the default
        colour is parsed and written at full brightness, unless it is illegal or the bus is
        not open, which throw before anything is written. */
    ghost predicate StoodBy(r: Result<()>, color0: Rgb, pwm0: int)
      reads this
    {
      && mode == StandBy && !nextArmed && !closeArmed
      && if ConvertColor(StandByColor()).Err? then r == Err("color is illegal") && color == color0 && pwm == pwm0
         else if !busOpen then r == Err("Not initialized yet") && color == color0 && pwm == pwm0
         else r == Ok(()) && color == ConvertColor(StandByColor()).value && pwm == Brightness
    }

    /** `setState(StandBy)`: the current state's timers are cleared, StandBy is installed,
        and its `enter` shows the default colour at full brightness. */
    method EnterStandBy() returns (r: Result<()>)
      modifies this
      ensures Valid() && StoodBy(r, old(color), old(pwm)) && busOpen == old(busOpen)
    {
      nextArmed := false;
      closeArmed := false;
      mode := StandBy;
      var rgb := ConvertColor(StandByColor());
      if rgb.Err? {
        return Err(rgb.msg);
      }
      if !busOpen {
        return Err("Not initialized yet");
      }
      color := rgb.value;
      pwm := Brightness;
      r := Ok(());
    }

    /** `run`: refuses in Init and Err, refuses an unknown type and a truthy non-number
        `time` or `times`; otherwise the current state is left and Working entered. The
        state object is installed before its `enter` parses the colour and writes the
        registers, so an illegal colour or an unopened bus leaves a Working state with no
        timer and fails. */
    method Run(c: string, t: string, time: Arg, times': Arg) returns (r: Result<()>)
      requires Valid()
      modifies this
      ensures Valid()
      ensures old(mode) == Init ==> r == Err("Not initialized yet") && unchanged(this)
      ensures old(mode) == Failed ==> r == Err("Init failed") && unchanged(this)
      ensures old(mode) in {StandBy, Working} && t != "alwaysOn" && t != "breath" ==>
        r == Err("illegal type") && unchanged(this)
      ensures old(mode) in {StandBy, Working} && (t == "alwaysOn" || t == "breath") && time.Other? && time.truthy ==>
        r == Err("illegal time") && unchanged(this)
      ensures old(mode) in {StandBy, Working} && (t == "alwaysOn" || t == "breath") && !(time.Other? && time.truthy)
              && times'.Other? && times'.truthy ==>
        r == Err("illegal times") && unchanged(this)
      ensures old(mode) in {StandBy, Working} && (t == "alwaysOn" || t == "breath") && !(time.Other? && time.truthy)
              && !(times'.Other? && times'.truthy) ==>
        Entered(c, t, time, times', r, old(color), old(pwm)) && busOpen == old(busOpen)
    {
      if mode == Init {
        return Err("Not initialized yet");
      }
      if mode == Failed {
        return Err("Init failed");
      }
      if t != "alwaysOn" && t != "breath" {
        return Err("illegal type");
      }
      if time.Other? && time.truthy {
        return Err("illegal time");
      }
      if times'.Other? && times'.truthy {
        return Err("illegal times");
      }
      r := EnterWorking(c, t, time, times');
    }

    /** What entering Working leaves: a Working state with no timer and the error when the
        colour is illegal or the bus is not open; otherwise the parsed colour, the blink type,
        the number of blinks, the LED dark, the blink timer armed and the close timer armed
        exactly when `time` is not 0. */
    ghost predicate Entered(c: string, t: string, time: Arg, times': Arg, r: Result<()>, color0: Rgb, pwm0: int)
      reads this
    {
      if !IsColor(c) then
        r == Err("color is illegal") && mode == Working && !nextArmed && !closeArmed && color == color0 && pwm == pwm0
      else if !busOpen then
        r == Err("Not initialized yet") && mode == Working && !nextArmed && !closeArmed && color == color0 && pwm == pwm0
      else && r == Ok(()) && mode == Working && color == ConvertColor(c).value
           && blink == (if t == "alwaysOn" then AlwaysOn else Breath)
           && times == NumberOr0(times') && lightTimes == 0 && !light && pwm == 0
           && nextArmed && closeArmed == (NumberOr0(time) != 0)
    }

    /** `setState(Working, color, type, time, times)`: the state is installed, then its
        `enter` parses the colour, writes the registers and arms the timers. */
    method EnterWorking(c: string, t: string, time: Arg, times': Arg) returns (r: Result<()>)
      modifies this
      ensures Valid() && Entered(c, t, time, times', r, old(color), old(pwm)) && busOpen == old(busOpen)
    {
      nextArmed := false;
      closeArmed := false;
      mode := Working;
      var rgb := ConvertColor(c);
      if rgb.Err? {
        return Err(rgb.msg);
      }
      if !busOpen {
        return Err("Not initialized yet");
      }
      color := rgb.value;
      blink := if t == "alwaysOn" then AlwaysOn else Breath;
      times := NumberOr0(times');
      lightTimes := 0;
      light := false;
      pwm := 0;
      nextArmed := true;
      closeArmed := NumberOr0(time) != 0;
      r := Ok(());
    }

    /** `stop`: refuses in Err, otherwise enters StandBy, which in Init before the bus is
        open installs StandBy and then throws from the first register write. */
    method Stop() returns (r: Result<()>)
      requires Valid()
      modifies this
      ensures Valid()
      ensures old(mode) == Failed ==> r == Err("Init failed") && unchanged(this)
      ensures old(mode) != Failed ==> StoodBy(r, old(color), old(pwm)) && busOpen == old(busOpen)
    {
      if mode == Failed {
        return Err("Init failed");
      }
      r := EnterStandBy();
    }

    /** The 500 ms blink timer fires: a lit LED is switched off and counts one blink; an
        unlit one is switched on, then Working ends if `times` blinks are complete, and an
        alwaysOn LED stays lit without re-arming the timer. Entering StandBy can throw only
        for an illegal default colour. */
    method BlinkStep() returns (r: Result<()>)
      requires Valid() && mode == Working && nextArmed
      modifies this
      ensures Valid() && busOpen
      ensures old(light) ==>
        r == Ok(()) && mode == Working && pwm == 0 && !light && lightTimes == old(lightTimes) + 1 && nextArmed
      ensures !old(light) && old(times) > 0 && old(lightTimes) >= old(times) ==>
        StoodBy(r, old(color), Brightness)
      ensures !old(light) && !(old(times) > 0 && old(lightTimes) >= old(times)) ==>
        && r == Ok(()) && mode == Working && pwm == Brightness && lightTimes == old(lightTimes)
        && (if old(blink) == AlwaysOn then !nextArmed && !light else nextArmed && light)
    {
      pwm := if light then 0 else Brightness;
      if !light {
        if times > 0 && lightTimes >= times {
          r := EnterStandBy();
          return;
        }
        if blink == AlwaysOn {
          nextArmed := false;
          return Ok(());
        }
      } else {
        lightTimes := lightTimes + 1;
      }
      light := !light;
      nextArmed := true;
      r := Ok(());
    }

    /** The `time` timer of a Working state fires: back to StandBy. */
    method CloseTimerFires() returns (r: Result<()>)
      requires Valid() && mode == Working && closeArmed
      modifies this
      ensures Valid() && StoodBy(r, old(color), old(pwm)) && busOpen == old(busOpen)
    {
      r := EnterStandBy();
    }
  }
}

/**
  The display-mode strings stored per game, `"<w>x<h> @ <r>Hz"`: how the
  watchdog reads them back into a width, height and refresh rate, how the
  log line writes a mode out, and the fixed list of choices offered for
  them.
*/
module Resolution {
  import opened Wrappers
  import opened Text

  /** A display mode: pixels across, pixels down, refresh rate in hertz. */
  datatype Mode = Mode(width: nat, height: nat, refresh: nat)

  /** The Python exception a malformed string raises. */
  datatype ParseError =
    | ValueError   // a field is not an integer, or the size does not split into two fields
    | IndexError   // there is no " @ " separator, so the refresh field is missing

  /**
    The parse the watchdog runs on a running game's stored resolution: split
    on " @ ", split the size on "x" into exactly two integers, then drop every
    "Hz" from the second piece and read it as an integer. The size is read
    before the refresh piece is looked up, so a string that lacks " @ " fails
    on the size when that is malformed and on the missing piece otherwise.
  */
  function Parse(s: string): Result<Mode, ParseError>
  {
    var res := Split(s, " @ ");
    SplitNonEmpty(s, " @ ");
    var dims := Split(res[0], "x");
    if |dims| != 2 || !IsDecimal(dims[0]) || !IsDecimal(dims[1]) then Failure(ValueError)
    else if |res| < 2 then Failure(IndexError)
    else
      var rate := RemoveAll(res[1], "Hz");
      if !IsDecimal(rate) then Failure(ValueError)
      else Success(Mode(DecimalValue(dims[0]), DecimalValue(dims[1]), DecimalValue(rate)))
  }

  /** How the watchdog's log line renders a mode: width, "x", height, " @ ", refresh rate, "Hz". */
  function Format(m: Mode): string
  {
    NatToDecimal(m.width) + "x" + NatToDecimal(m.height) + " @ " + NatToDecimal(m.refresh) + "Hz"
  }

  lemma DigitsFree(s: string, c: char)
    requires IsDecimal(s) && !IsDigit(c)
    ensures c !in s
  {
    forall i | 0 <= i < |s| ensures s[i] != c {
      assert IsDigit(s[i]);
    }
  }

  /** A size and refresh written as plain decimals in the stored shape read back as their values. */
  lemma ParseRendered(ws: string, hs: string, rs: string)
    requires IsDecimal(ws) && IsDecimal(hs) && IsDecimal(rs)
    ensures Parse(ws + "x" + hs + " @ " + rs + "Hz") == Success(Mode(DecimalValue(ws), DecimalValue(hs), DecimalValue(rs)))
  {
    var s := ws + "x" + hs + " @ " + rs + "Hz";
    var size := ws + "x" + hs;
    DigitsFree(ws, ' '); DigitsFree(hs, ' '); DigitsFree(ws, 'x'); DigitsFree(hs, 'x');
    DigitsFree(rs, ' '); DigitsFree(rs, 'H');
    assert ' ' !in size by {
      assert size == ws + ['x'] + hs;
    }
    assert s == size + " @ " + (rs + "Hz");
    SplitAfterPrefix(size, " @ ", rs + "Hz");
    assert ' ' !in rs + "Hz";
    SplitFreeOfFirst(rs + "Hz", " @ ");
    assert Split(s, " @ ") == [size, rs + "Hz"];
    SplitAfterPrefix(ws, "x", hs);
    SplitFreeOfFirst(hs, "x");
    assert Split(size, "x") == [ws, hs];
    RemoveAllSuffix(rs, "Hz");
  }

  /** Reading back what the log line writes gives the same mode. */
  lemma ParseFormat(m: Mode)
    ensures Parse(Format(m)) == Success(m)
  {
    ParseRendered(NatToDecimal(m.width), NatToDecimal(m.height), NatToDecimal(m.refresh));
    DecimalRoundTrip(m.width);
    DecimalRoundTrip(m.height);
    DecimalRoundTrip(m.refresh);
  }

  /** Without a " @ " separator no mode can be read. */
  lemma ParseNeedsSeparator(s: string)
    requires !Contains(s, " @ ")
    ensures Parse(s).Failure?
  {
    SplitWithoutSeparator(s, " @ ");
  }

  /**
    When the size does not split on "x" into exactly two decimal integers,
    the parse raises ValueError, whether or not " @ " is present.
  */
  lemma ParseNeedsTwoDimensions(s: string)
    requires var dims := (SplitNonEmpty(s, " @ "); Split(Split(s, " @ ")[0], "x"));
      |dims| != 2 || !IsDecimal(dims[0]) || !IsDecimal(dims[1])
    ensures Parse(s) == Failure(ValueError)
  {
  }

  /** A well-formed size without a " @ " refresh piece raises IndexError. */
  lemma ParseMissingRefresh(s: string)
    requires !Contains(s, " @ ")
    requires var dims := Split(s, "x"); |dims| == 2 && IsDecimal(dims[0]) && IsDecimal(dims[1])
    ensures Parse(s) == Failure(IndexError)
  {
    SplitWithoutSeparator(s, " @ ");
  }

  /** A successful parse always came from a string holding " @ ". */
  lemma ParseSuccessShape(s: string)
    requires Parse(s).Success?
    ensures Contains(s, " @ ")
  {
    if !Contains(s, " @ ") {
      ParseNeedsSeparator(s);
    }
  }

  /** The choices the resolution picker offers, in order. */
  const Options: seq<string> := [
    "3840x2160 @ 165Hz",
    "3440x1440 @ 165Hz",
    "2560x1440 @ 165Hz",
    "1920x1080 @ 165Hz",
    "1680x1050 @ 165Hz",
    "1600x900 @ 165Hz",
    "1440x900 @ 165Hz",
    "1366x768 @ 165Hz",
    "1280x1024 @ 165Hz",
    "1280x800 @ 165Hz",
    "1280x720 @ 165Hz",
    "1024x768 @ 165Hz",
    "800x600 @ 165Hz",
    "640x480 @ 165Hz"
  ]

  /** The resolution a newly added game starts with. */
  const DefaultResolution: string := "1920x1080 @ 165Hz"

  lemma ThreeDigits(n: nat)
    requires 100 <= n < 1000
    ensures NatToDecimal(n) == [DigitChar(n / 100), DigitChar(n / 10 % 10), DigitChar(n % 10)]
  {
    assert NatToDecimal(n / 10) == [DigitChar(n / 100), DigitChar(n / 10 % 10)];
  }

  /** A stored string of the picker's shape, `<w>x<h> @ 165Hz`, reads back as a 165 Hz mode. */
  lemma ParsesAt165(s: string, ws: string, hs: string)
    requires IsDecimal(ws) && IsDecimal(hs)
    requires s == ws + "x" + hs + " @ 165Hz"
    ensures Parse(s) == Success(Mode(DecimalValue(ws), DecimalValue(hs), 165))
  {
    var rs := NatToDecimal(165);
    ThreeDigits(165);
    DecimalRoundTrip(165);
    assert s == ws + "x" + hs + " @ " + rs + "Hz";
    ParseRendered(ws, hs, rs);
  }

  /** `s` is `<w>x<h> @ 165Hz` with the "x" at position `k` and both sizes plain decimals. */
  predicate PickerShapeAt(s: string, k: int)
  {
    0 <= k < |s| - 8 && s[k] == 'x' && IsDecimal(s[..k]) && IsDecimal(s[k + 1..|s| - 8])
    && s[|s| - 8..] == " @ 165Hz"
  }

  predicate PickerShape(s: string)
  {
    exists k :: 0 <= k < |s| && PickerShapeAt(s, k)
  }

  /** Every string of the picker's shape reads back as a 165 Hz mode. */
  lemma ParsePickerShape(s: string)
    requires PickerShape(s)
    ensures Parse(s).Success? && Parse(s).value.refresh == 165
  {
    var k :| 0 <= k < |s| && PickerShapeAt(s, k);
    var ws, hs := s[..k], s[k + 1..|s| - 8];
    assert s == ws + "x" + hs + " @ 165Hz" by {
      assert s == s[..k] + [s[k]] + s[k + 1..|s| - 8] + s[|s| - 8..];
    }
    ParsesAt165(s, ws, hs);
  }

  lemma OptionsShapedFrom0()
    ensures forall i :: 0 <= i < 2 ==> PickerShape(Options[i])
  {
    assert PickerShapeAt(Options[0], 4);
    assert PickerShapeAt(Options[1], 4);
  }

  lemma OptionsShapedFrom2()
    ensures forall i :: 2 <= i < 4 ==> PickerShape(Options[i])
  {
    assert PickerShapeAt(Options[2], 4);
    assert PickerShapeAt(Options[3], 4);
  }

  lemma OptionsShapedFrom4()
    ensures forall i :: 4 <= i < 6 ==> PickerShape(Options[i])
  {
    assert PickerShapeAt(Options[4], 4);
    assert PickerShapeAt(Options[5], 4);
  }

  lemma OptionsShapedFrom6()
    ensures forall i :: 6 <= i < 8 ==> PickerShape(Options[i])
  {
    assert PickerShapeAt(Options[6], 4);
    assert PickerShapeAt(Options[7], 4);
  }

  lemma OptionsShapedFrom8()
    ensures forall i :: 8 <= i < 10 ==> PickerShape(Options[i])
  {
    assert PickerShapeAt(Options[8], 4);
    assert PickerShapeAt(Options[9], 4);
  }

  lemma OptionsShapedFrom10()
    ensures forall i :: 10 <= i < 12 ==> PickerShape(Options[i])
  {
    assert PickerShapeAt(Options[10], 4);
    assert PickerShapeAt(Options[11], 4);
  }

  lemma OptionsShapedFrom12()
    ensures forall i :: 12 <= i < 14 ==> PickerShape(Options[i])
  {
    assert PickerShapeAt(Options[12], 3);
    assert PickerShapeAt(Options[13], 3);
  }

  /** Every choice, the default among them, reads back as a 165 Hz mode. */
  lemma OptionsParse()
    ensures DefaultResolution in Options
    ensures forall i :: 0 <= i < |Options| ==> Parse(Options[i]).Success? && Parse(Options[i]).value.refresh == 165
  {
    assert Options[3] == DefaultResolution;
    OptionsShapedFrom0();
    OptionsShapedFrom2();
    OptionsShapedFrom4();
    OptionsShapedFrom6();
    OptionsShapedFrom8();
    OptionsShapedFrom10();
    OptionsShapedFrom12();
    forall i | 0 <= i < |Options| ensures Parse(Options[i]).Success? && Parse(Options[i]).value.refresh == 165 {
      ParsePickerShape(Options[i]);
    }
  }

  /** The mode a newly added game starts in. */
  const DefaultMode: Mode := Mode(1920, 1080, 165)

  lemma DefaultIsFormatted()
    ensures Format(DefaultMode) == DefaultResolution
  {
    assert NatToDecimal(1920) == "1920";
    assert NatToDecimal(1080) == "1080";
    assert NatToDecimal(165) == "165";
  }

  /** The default reads back as 1920x1080 at 165 Hz, and writing that mode out gives the default again. */
  lemma DefaultRoundTrip()
    ensures Parse(DefaultResolution) == Success(DefaultMode)
    ensures Format(DefaultMode) == DefaultResolution
  {
    DefaultIsFormatted();
    ParseFormat(DefaultMode);
  }
}

/** The frame rate a legacy IMG MSVDX decoder is told, in thousandths of a frame per second where
    other decoders get a Q16 number. Floats are reals; the cast to OMX_U32 truncates. */
module FrameRate {

  function Legacy(frameRate: real): int {
    if frameRate <= 0.0 then 0
    else ((if frameRate > 60.0 then 60.0 else frameRate) * 1000.0 + 0.5).Floor
  }

  function Q16(frameRate: real): int {
    (frameRate * 65536.0).Floor
  }

  /** makeVideoPortFramerate() */
  function MakeVideoPortFramerate(isLegacy: bool, frameRate: real): int {
    if isLegacy then Legacy(frameRate) else Q16(frameRate)
  }

  /** convertQ16FramerateToLegacyMillifps() */
  function ConvertQ16(xFramerate: int): int {
    var frameRate := xFramerate as real / 65536.0;
    ((if frameRate > 60.0 then 60.0 else frameRate) * 1000.0 + 0.5).Floor
  }

  /** The value that reaches the decoder through setVideoPortFormatType(). */
  function Guarded(isLegacyInput: bool, xFramerate: int): int {
    if isLegacyInput && xFramerate > 60000 then ConvertQ16(xFramerate) else xFramerate
  }

  /** Nothing is converted twice: what either route produces is not taken for Q16 again. */
  lemma NeverConvertedTwice(frameRate: real, xFramerate: int)
    ensures var millifps := MakeVideoPortFramerate(true, frameRate);
            Guarded(true, millifps) == millifps
    ensures Guarded(true, Guarded(true, xFramerate)) == Guarded(true, xFramerate)
  {
  }

  /** The two routes to a legacy decoder agree up to one thousandth of a frame exactly when the Q16
      number is above the guard's threshold or at most 1. A rate below about 0.9 frames per second is
      passed on in the wrong unit. */
  lemma RoutesAgree(frameRate: real)
    requires frameRate >= 0.0
    ensures var q16 := MakeVideoPortFramerate(false, frameRate);
            -1 <= Guarded(true, q16) - MakeVideoPortFramerate(true, frameRate) <= 1
            <==> q16 > 60000 || q16 <= 1
  {
  }

  /** A Q16 rate in thousandths of a frame, capped at 60 frames per second. */
  function Thousandths(xFramerate: int): real {
    var frameRate := xFramerate as real / 65536.0;
    (if frameRate > 60.0 then 60.0 else frameRate) * 1000.0
  }

  /** Other decoders are told the Q16 number of the rate, whatever the rate, to the precision of that
      format; legacy ones the nearest thousandth of the rate capped at 60 frames per second. */
  lemma RatesAreNear(frameRate: real)
    requires frameRate >= 0.0
    ensures var q16 := MakeVideoPortFramerate(false, frameRate) as real;
            q16 / 65536.0 <= frameRate < (q16 + 1.0) / 65536.0
    ensures var millifps := MakeVideoPortFramerate(true, frameRate) as real;
            var capped := if frameRate > 60.0 then 60.0 else frameRate;
            capped * 1000.0 - 0.5 < millifps <= capped * 1000.0 + 0.5
  {
  }

  class VideoPortFormat {
    var xFramerate: int

    constructor (xFramerate: int)
      ensures this.xFramerate == xFramerate
    {
      this.xFramerate := xFramerate;
    }

    /** The hunk in setVideoPortFormatType(). A legacy decoder's input is never told more than 60 frames
        per second; a Q16 number is told as the nearest thousandth; any other value is left alone. */
    method ConvertForLegacyInput(isLegacy: bool, isInputPort: bool)
      modifies this
      ensures isLegacy && isInputPort ==> xFramerate <= 60000
      ensures isLegacy && isInputPort && old(xFramerate) > 60000 ==>
                var rate := Thousandths(old(xFramerate));
                rate - 0.5 < xFramerate as real <= rate + 0.5
      ensures !(isLegacy && isInputPort && old(xFramerate) > 60000) ==> xFramerate == old(xFramerate)
      ensures xFramerate == Guarded(isLegacy && isInputPort, old(xFramerate))
    {
      if isLegacy && isInputPort && xFramerate > 60000 {
        xFramerate := ConvertQ16(xFramerate);
      }
    }
  }
}

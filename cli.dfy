/**
  The command line's rule for recognising which of three forms its argument
  is in (src/main.rs:66-79): text with a `.` is a dotted-decimal engine ID,
  otherwise text of 24 bytes is a hex serial number, and anything else is
  taken to be a hex engine ID.  Only the dotted form is converted.
*/
module Cli {
  import opened RustStr
  import opened HexFormat
  import opened EngineId

  datatype InputFormat = DottedDecimalEngineId | SerialNumber | HexEngineId

  /** `incoming.contains('.')`, then `incoming.len() == 24`, in that order. */
  function ClassifyInput(incoming: string): InputFormat {
    if '.' in incoming then DottedDecimalEngineId
    else if Utf8Length(incoming) == 24 then SerialNumber
    else HexEngineId
  }

  /**
    An argument is taken as dotted exactly when it splits into two parts or
    more, which is exactly when the converter returns something.
  */
  lemma ClassifyDottedExactly(incoming: string)
    ensures ClassifyInput(incoming) == DottedDecimalEngineId <==> |Split(incoming, '.')| >= 2
    ensures ClassifyInput(incoming) == DottedDecimalEngineId <==> DottedToHex(incoming) != []
  {
    SplitHasTwoParts(incoming, '.');
    EmptyExactlyWithoutDot(incoming);
  }

  /** Lowercase hex text is ASCII: its byte count is its length. */
  lemma LowerHexUtf8Length(s: string)
    requires IsLowerHex(s)
    ensures Utf8Length(s) == |s|
  {
    assert forall i :: 0 <= i < |s| ==> IsLowerHexDigit(s[i]);
    Utf8LengthOfAscii(s);
  }

  /**
    Fed back to the command line, a converter output is never taken as dotted;
    it is taken as a serial number exactly when it is 24 digits long, as it
    is for a payload of eleven octets.
  */
  lemma ClassifyConverterOutput(dotted: string)
    ensures ClassifyInput(DottedToHex(dotted)) != DottedDecimalEngineId
    ensures ClassifyInput(DottedToHex(dotted)) == SerialNumber <==> |DottedToHex(dotted)| == 24
  {
    var h := DottedToHex(dotted);
    OutputIsLowerHex(dotted);
    assert '.' !in h by {
      assert forall i :: 0 <= i < |h| ==> IsLowerHexDigit(h[i]);
    }
    LowerHexUtf8Length(h);
  }
}

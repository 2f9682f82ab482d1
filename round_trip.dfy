/**
  What the converter's output means.  A decoder for length-prefixed engine
  IDs, which the source does not have, reads the hex text back into arcs; the
  lemmas show that it recovers the parsed parts from the converter's output,
  and that every engine ID it accepts whose arcs have at most nineteen
  digits is the output for the arcs written in decimal.
*/
module EngineIdDecoding {
  import opened Wrappers
  import opened RustStr
  import opened HexFormat
  import opened Subidentifier
  import opened OidCodec
  import opened EngineId

  /**
    Hex text to arcs: pairs of digits to octets, the first octet the number
    of those that follow, and the rest the content octets of an OID.
  */
  function DecodeEngineId(h: string): (r: Option<seq<nat>>)
    ensures r.Some? ==> |r.value| >= 2
  {
    match HexToBytes(h)
    case None => None
    case Some(bytes) =>
      if bytes == [] || bytes[0] != |bytes| - 1 then None
      else DecodeOid(bytes[1..])
  }

  /** No part of `ps` is skipped. */
  predicate NoneSkipped(ps: seq<PartInfo>) {
    forall i :: 0 <= i < |ps| ==> !ps[i].skipped
  }

  /** The arcs a decoder reads back: the first two, then the handled later ones. */
  function Arcs(ps: seq<PartInfo>): (arcs: seq<nat>)
    requires |ps| >= 2
    ensures |arcs| >= 2 && arcs[0] == ps[0].value && arcs[1] == ps[1].value
  {
    [ps[0].value, ps[1].value] + LaterArcs(ps, |ps|)
  }

  /** With no part skipped among indices 2 .. n-1, those parts' values, in order. */
  lemma {:induction false} LaterArcsOfHandled(ps: seq<PartInfo>, n: nat)
    requires 2 <= n <= |ps|
    requires forall i :: 2 <= i < n ==> !ps[i].skipped
    ensures |LaterArcs(ps, n)| == n - 2
    ensures forall j :: 0 <= j < n - 2 ==> LaterArcs(ps, n)[j] == ps[j + 2].value
    decreases n
  {
    if n > 2 {
      LaterArcsOfHandled(ps, n - 1);
      var prev := LaterArcs(ps, n - 1);
      assert LaterArcs(ps, n) == prev + [ps[n - 1].value];
    }
  }

  /** Without skipped parts, the arcs are exactly the values read, part by part. */
  lemma ArcsOfHandled(ps: seq<PartInfo>)
    requires |ps| >= 2 && NoneSkipped(ps)
    ensures |Arcs(ps)| == |ps|
    ensures forall i :: 0 <= i < |ps| ==> Arcs(ps)[i] == ps[i].value
  {
    LaterArcsOfHandled(ps, |ps|);
  }

  /**
    The payload is the content octets of the OID made of the arcs: the
    folded first two, then each later arc's subidentifier.
  */
  lemma PayloadIsEncodeOid(ps: seq<PartInfo>)
    requires |ps| >= 2 && !ps[1].skipped
    ensures Payload(ps) == EncodeOid(Arcs(ps))
  {
    var arcs := Arcs(ps);
    PayloadShape(ps);
    assert arcs[2..] == LaterArcs(ps, |ps|);
  }

  /** The decoder reads a length field and an OID's content octets back as the arcs. */
  lemma DecodeLengthPrefixed(payload: seq<nat>, arcs: seq<nat>)
    requires |arcs| >= 2 && FoldsIntoOneOctet(arcs[0], arcs[1])
    requires payload == EncodeOid(arcs) && AllOctets(payload) && |payload| < 256
    ensures DecodeEngineId(Format02x(|payload|) + HexOf(payload)) == Some(arcs)
  {
    var bytes := [|payload|] + payload;
    assert AllOctets(bytes);
    HexOfPrepend(|payload|, payload);
    HexToBytesOfHexOf(bytes);
    assert bytes[1..] == payload;
    OidRoundTrip(arcs);
  }

  /**
    Round trip: when part 1 is handled, the first two arcs fold into one
    octet as X.690 requires, and the payload has fewer than 256 octets, the
    decoder reads the converter's output back as the arcs.
  */
  lemma EngineIdRoundTrip(ps: seq<PartInfo>)
    requires |ps| >= 2 && !ps[1].skipped
    requires FoldsIntoOneOctet(ps[0].value, ps[1].value)
    requires |Payload(ps)| < 256
    ensures DecodeEngineId(EngineIdHex(ps)) == Some(Arcs(ps))
  {
    PayloadIsEncodeOid(ps);
    UnfoldFold(ps[0].value, ps[1].value);
    PayloadOctets(ps);
    LengthPrefix(ps);
    DecodeLengthPrefixed(Payload(ps), Arcs(ps));
  }

  /**
    The same round trip from the dotted text: when every part has at most 19
    bytes, the first two arcs fold into one octet and the payload has fewer
    than 256 octets, decoding the converter's output gives one arc per part,
    each the number the part parses to.
  */
  lemma DottedRoundTrip(dotted: string)
    requires ConvertDoesNotPanic(dotted)
    requires var parts := Split(dotted, '.');
      && |parts| >= 2
      && (forall i :: 0 <= i < |parts| ==> !IsSkipped(parts[i]))
      && FoldsIntoOneOctet(ReadPart(parts[0]).value, ReadPart(parts[1]).value)
    requires |Payload(ReadParts(Split(dotted, '.')))| < 256
    ensures var parts := Split(dotted, '.');
      var r := DecodeEngineId(DottedToHex(dotted));
      && r.Some? && |r.value| == |parts|
      && forall i :: 0 <= i < |parts| ==> ParseU64(parts[i]) == Some(r.value[i])
  {
    var parts := Split(dotted, '.');
    var ps := ReadParts(parts);
    forall i | 0 <= i < |ps|
      ensures ps[i] == ReadPart(parts[i])
    {
      ReadPartsAt(parts, i);
    }
    EngineIdRoundTrip(ps);
    ArcsOfHandled(ps);
  }

  // ------------------------------------------------------- the converse

  /** Each arc written in decimal, `arc.to_string()`. */
  function DecimalStrings(arcs: seq<nat>): (ds: seq<string>)
    ensures |ds| == |arcs|
  {
    if arcs == [] then [] else [DecimalString(arcs[0])] + DecimalStrings(arcs[1..])
  }

  /** The dotted text of the arcs. */
  function Dotted(arcs: seq<nat>): string
    requires |arcs| >= 1
  {
    Join(DecimalStrings(arcs), '.')
  }

  lemma {:induction false} DecimalStringsAt(arcs: seq<nat>, i: nat)
    requires i < |arcs|
    ensures DecimalStrings(arcs)[i] == DecimalString(arcs[i])
    decreases i
  {
    if i > 0 {
      DecimalStringsAt(arcs[1..], i - 1);
    }
  }

  /** Decimal renderings hold no `.`, so splitting the dotted text gives them back. */
  lemma SplitDotted(arcs: seq<nat>)
    requires |arcs| >= 1
    ensures Split(Dotted(arcs), '.') == DecimalStrings(arcs)
  {
    var ds := DecimalStrings(arcs);
    forall i | 0 <= i < |ds|
      ensures '.' !in ds[i]
    {
      DecimalStringsAt(arcs, i);
      assert IsDigits(ds[i]);
    }
    SplitJoin(ds, '.');
  }

  /** A rendering of an arc below 10^19 is handled and parses back to the arc. */
  lemma ReadDecimalString(arcs: seq<nat>, i: nat)
    requires i < |arcs| && arcs[i] < Pow10(19)
    ensures ReadParts(DecimalStrings(arcs))[i] == PartInfo(false, arcs[i])
    ensures ParseU64(DecimalStrings(arcs)[i]) == Some(arcs[i])
  {
    var d := DecimalString(arcs[i]);
    DecimalStringsAt(arcs, i);
    ReadPartsAt(DecimalStrings(arcs), i);
    DecimalStringLength(arcs[i], 19);
    NineteenDigitsParse(d);
    DecimalStringValue(arcs[i]);
  }

  /**
    The converter does not panic on the renderings of arcs below 10^19 whose
    first two fold into one octet: every part parses, and the first octet is
    far from overflowing.
  */
  lemma DecimalStringsDoNotPanic(arcs: seq<nat>)
    requires |arcs| >= 2 && FoldsIntoOneOctet(arcs[0], arcs[1])
    requires forall i :: 0 <= i < |arcs| ==> arcs[i] < Pow10(19)
    ensures PartsDoNotPanic(DecimalStrings(arcs))
  {
    var ds := DecimalStrings(arcs);
    forall i | 0 <= i < |arcs|
      ensures ParseU64(ds[i]) == Some(arcs[i])
    {
      ReadDecimalString(arcs, i);
    }
    UnfoldFold(arcs[0], arcs[1]);
  }

  /** Reading the renderings of arcs below 10^19 gives every arc back. */
  lemma ReadDecimalStrings(arcs: seq<nat>)
    requires |arcs| >= 2
    requires forall i :: 0 <= i < |arcs| ==> arcs[i] < Pow10(19)
    ensures var ps := ReadParts(DecimalStrings(arcs)); !ps[1].skipped && Arcs(ps) == arcs
  {
    var ps := ReadParts(DecimalStrings(arcs));
    forall i | 0 <= i < |arcs|
      ensures ps[i] == PartInfo(false, arcs[i])
    {
      ReadDecimalString(arcs, i);
    }
    ArcsOfHandled(ps);
  }

  /** Text that reads as octets is the rendering of its first octet followed by the rest's. */
  lemma HexOfFirstAndRest(h: string)
    requires HexToBytes(h).Some? && HexToBytes(h).value != []
    ensures var bytes := HexToBytes(h).value;
      h == Format02x(bytes[0]) + HexOf(bytes[1..])
  {
    var bytes := HexToBytes(h).value;
    HexOfHexToBytes(h);
    assert bytes == [bytes[0]] + bytes[1..];
    HexOfPrepend(bytes[0], bytes[1..]);
  }

  /**
    What the decoder accepts is a length field holding the number of content
    octets that follow, and the content octets of an OID whose first two arcs
    fold into one octet.
  */
  lemma DecodedIsLengthPrefixed(h: string)
    requires DecodeEngineId(h).Some?
    ensures var arcs := DecodeEngineId(h).value;
      var payload := EncodeOid(arcs);
      && FoldsIntoOneOctet(arcs[0], arcs[1])
      && AllOctets(payload)
      && h == Format02x(|payload|) + HexOf(payload)
  {
    var bytes := HexToBytes(h).value;
    HexOfFirstAndRest(h);
    OidReencode(bytes[1..]);
  }

  /**
    Converse of the round trip: every engine ID the decoder accepts whose arcs
    are below 10^19 (at most nineteen digits, the longest part the converter
    handles) is what the converter returns for those arcs written in decimal.
  */
  lemma EngineIdReencode(h: string)
    requires DecodeEngineId(h).Some?
    requires forall i :: 0 <= i < |DecodeEngineId(h).value| ==> DecodeEngineId(h).value[i] < Pow10(19)
    ensures ConvertDoesNotPanic(Dotted(DecodeEngineId(h).value))
    ensures DottedToHex(Dotted(DecodeEngineId(h).value)) == h
  {
    var arcs := DecodeEngineId(h).value;
    DecodedIsLengthPrefixed(h);
    SplitDotted(arcs);
    DecimalStringsDoNotPanic(arcs);
    ReadDecimalStrings(arcs);
    var ps := ReadParts(DecimalStrings(arcs));
    PayloadIsEncodeOid(ps);
    LengthPrefix(ps);
  }
}

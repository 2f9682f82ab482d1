/**
  `convert_objid_dotted_decimal_to_hex` (src/main.rs:11-55): a dotted-decimal
  engine ID to its length-prefixed hex form.

  The input is split on `.`.  Part 0 emits nothing by itself; part 1 emits the
  folded first octet `part0 * 40 + part1`; every later part emits its base-128
  subidentifier.  A part longer than 19 bytes is skipped.  Each emitted value
  is rendered with `{:02x}`, and the rendering of `hex.len() / 2` is put in
  front.  Fewer than two parts give the empty string.

  The functions below state that result in two layers: what the source reads
  from each part (`PartInfo`), and the values it emits for what it read (the
  payload).  `ConvertObjidDottedDecimalToHex` computes it the way the source
  does, by appending and prepending hex text in loops.
*/
module EngineId {
  import opened Wrappers
  import opened RustStr
  import opened HexFormat
  import opened Subidentifier
  import opened OidCodec
  import opened Seqs

  // ------------------------------------------------------- reading the parts

  /** `part.len() > 19`: the part goes to the "Unhandled part" branch and emits nothing. */
  predicate IsSkipped(part: string) {
    Utf8Length(part) > 19
  }

  /**
    The source runs to completion on `parts`: with two parts or more, every
    part it parses with `unwrap` parses, and when part 1 is handled, part 0
    parses too (even if it was itself skipped) and `part0 * 40 + part1`
    does not overflow a `u64`.
  */
  predicate PartsDoNotPanic(parts: seq<string>) {
    |parts| >= 2 ==>
      && (forall i :: 0 <= i < |parts| && !IsSkipped(parts[i]) ==> ParseU64(parts[i]).Some?)
      && (!IsSkipped(parts[1]) ==>
            && ParseU64(parts[0]).Some? && ParseU64(parts[1]).Some?
            && ParseU64(parts[0]).value * 40 + ParseU64(parts[1]).value < U64_LIMIT)
  }

  predicate ConvertDoesNotPanic(dotted: string) {
    PartsDoNotPanic(Split(dotted, '.'))
  }

  /**
    What the source reads from one part: whether it is skipped, and
    `part.parse::<u64>().unwrap()`.  Where that `unwrap` would panic the value
    is taken to be 0; the converter's precondition rules those inputs out, so
    the stand-in never reaches its output.
  */
  datatype PartInfo = PartInfo(skipped: bool, value: nat)

  function ReadPart(part: string): PartInfo {
    PartInfo(IsSkipped(part), if ParseU64(part).Some? then ParseU64(part).value else 0)
  }

  function ReadParts(parts: seq<string>): (ps: seq<PartInfo>)
    ensures |ps| == |parts|
  {
    if parts == [] then [] else [ReadPart(parts[0])] + ReadParts(parts[1..])
  }

  // ------------------------------------------------------- what is emitted

  /** The first octet the source emits when it reaches part 1. */
  function FirstOctet(ps: seq<PartInfo>): nat
    requires |ps| >= 2
  {
    ps[0].value * 40 + ps[1].value
  }

  /** The values part `i` hands to `{:02x}`, in order. */
  function PartOctets(ps: seq<PartInfo>, i: nat): seq<nat>
    requires i < |ps|
  {
    if ps[i].skipped || i == 0 then []
    else if i == 1 then [FirstOctet(ps)]
    else EncodeArc(ps[i].value)
  }

  /** The values emitted for the first `n` parts. */
  function PayloadPrefix(ps: seq<PartInfo>, n: nat): seq<nat>
    requires n <= |ps|
  {
    if n == 0 then [] else PayloadPrefix(ps, n - 1) + PartOctets(ps, n - 1)
  }

  function Payload(ps: seq<PartInfo>): seq<nat> {
    PayloadPrefix(ps, |ps|)
  }

  /** The returned string, for what was read from the parts. */
  function EngineIdHex(ps: seq<PartInfo>): string {
    if |ps| < 2 then ""
    else
      var body := HexOf(Payload(ps));
      Format02x(|body| / 2) + body
  }

  function DottedToHex(dotted: string): string {
    EngineIdHex(ReadParts(Split(dotted, '.')))
  }

  // ------------------------------------------------------- the converter

  /** What was read from part `i`, in the terms the converter tests. */
  lemma {:induction false} ReadPartsAt(parts: seq<string>, i: nat)
    requires i < |parts|
    ensures ReadParts(parts)[i] == ReadPart(parts[i])
    ensures ReadParts(parts)[i].skipped <==> Utf8Length(parts[i]) > 19
    ensures ParseU64(parts[i]).Some? ==> ReadParts(parts)[i].value == ParseU64(parts[i]).value
    decreases i
  {
    if i > 0 {
      ReadPartsAt(parts[1..], i - 1);
    }
  }

  /** Appending part `i`'s hex to the hex of the parts before it. */
  lemma AppendPartHex(hex: string, piece: string, ps: seq<PartInfo>, i: nat)
    requires i < |ps|
    requires hex == HexOf(PayloadPrefix(ps, i)) && piece == HexOf(PartOctets(ps, i))
    ensures hex + piece == HexOf(PayloadPrefix(ps, i + 1))
  {
    HexOfAppend(PayloadPrefix(ps, i), PartOctets(ps, i));
  }

  /** What part `i` appends to the hex text, branch by branch. */
  lemma HexOfPartOctets(ps: seq<PartInfo>, i: nat)
    requires i < |ps|
    ensures ps[i].skipped || i == 0 ==> HexOf(PartOctets(ps, i)) == []
    ensures !ps[i].skipped && i == 1 ==> HexOf(PartOctets(ps, i)) == Format02x(FirstOctet(ps))
    ensures !ps[i].skipped && i >= 2 && ps[i].value < 128 ==>
      HexOf(PartOctets(ps, i)) == Format02x(ps[i].value)
    ensures !ps[i].skipped && i >= 2 ==> HexOf(PartOctets(ps, i)) == HexOf(EncodeArc(ps[i].value))
  {
    if !ps[i].skipped && i >= 1 {
      if i == 1 {
        HexOfSingleton(FirstOctet(ps));
      } else if ps[i].value < 128 {
        HexOfSingleton(ps[i].value);
      }
    }
  }

  /**
    The text the source's `while value > 0` loop leaves in `largenum` when it
    starts from shifted value `rest` with `acc` already built: each pass
    prepends `{:02x}` of the low seven bits with bit 8 set, then shifts.
  */
  function PrependGroups(rest: nat, acc: string): string
    decreases rest
  {
    if rest == 0 then acc else PrependGroups(rest / 128, Format02x(rest % 128 + 128) + acc)
  }

  lemma {:induction false} PrependGroupsIsHexOf(w: nat, low: seq<nat>)
    ensures PrependGroups(w, HexOf(low)) == HexOf(HighGroups(w) + low)
    decreases w
  {
    if w == 0 {
      assert HighGroups(w) + low == low;
    } else {
      var b := w % 128 + 128;
      assert HighGroups(w) == HighGroups(w / 128) + [b];
      assert HighGroups(w) + low == HighGroups(w / 128) + ([b] + low);
      calc {
        PrependGroups(w, HexOf(low));
        PrependGroups(w / 128, Format02x(b) + HexOf(low));
        { HexOfPrepend(b, low); }
        PrependGroups(w / 128, HexOf([b] + low));
        { PrependGroupsIsHexOf(w / 128, [b] + low); }
        HexOf(HighGroups(w / 128) + ([b] + low));
      }
    }
  }

  /**
    The `value >= 128` branch of the converter: `largenum` starts with the
    least significant group (bit 8 clear) and each pass of the loop prepends
    the next group with bit 8 set, until the shifted value is zero.
  */
  method EncodeLargeArcHex(value: nat) returns (largenum: string)
    requires 128 <= value < U64_LIMIT
    ensures largenum == HexOf(EncodeArc(value))
  {
    largenum := Format02x(value % 128);
    var rest: nat := value / 128;
    while rest > 0
      invariant PrependGroups(rest, largenum) == PrependGroups(value / 128, Format02x(value % 128))
    {
      var b := rest % 128 + 128;
      largenum := Format02x(b) + largenum;
      rest := rest / 128;
    }
    HexOfSingleton(value % 128);
    PrependGroupsIsHexOf(value / 128, [value % 128]);
  }

  /**
    One pass of the converter's `for` loop: the text part `i` appends to
    `hex`.  A skipped part and part 0 append nothing (the source's
    `continue` and its empty `i == 0` branch); part 1 appends the folded
    first octet; a later part appends its subidentifier, built in `largenum`
    when it takes more than one octet.
  */
  method PartHex(parts: seq<string>, i: nat) returns (piece: string)
    requires 2 <= |parts| && i < |parts| && PartsDoNotPanic(parts)
    ensures piece == HexOf(PartOctets(ReadParts(parts), i))
  {
    ghost var ps := ReadParts(parts);
    HexOfPartOctets(ps, i);
    ReadPartsAt(parts, i);
    var part := parts[i];
    if Utf8Length(part) > 19 {
      return "";
    }
    var value := ParseU64(part).value;
    if i == 0 {
      // part 0 only takes part in the first octet, emitted at part 1
      piece := "";
    } else if i == 1 {
      var part0 := ParseU64(parts[0]).value;
      ReadPartsAt(parts, 0);
      piece := Format02x(part0 * 40 + value);
    } else if value < 128 {
      piece := Format02x(value);
    } else {
      piece := EncodeLargeArcHex(value);
    }
  }

  /** After the loop has handled the first `i` parts, `hex` holds what they emitted. */
  predicate Emitted(parts: seq<string>, i: nat, hex: string) {
    i <= |parts| && hex == HexOf(PayloadPrefix(ReadParts(parts), i))
  }

  /**
    One pass of the source's `for part in parts` loop over text that already
    holds the hex of the parts before `i`: afterwards it holds the hex of
    the parts up to and including `i`.
  */
  method PushPart(parts: seq<string>, i: nat, hex: string) returns (hex': string)
    requires 2 <= |parts| && i < |parts| && PartsDoNotPanic(parts)
    requires Emitted(parts, i, hex)
    ensures Emitted(parts, i + 1, hex')
  {
    var piece := PartHex(parts, i);
    hex' := hex + piece;
    AppendPartHex(hex, piece, ReadParts(parts), i);
  }

  /** Before the first part nothing is emitted; after the last, all of the payload is. */
  lemma EmittedBounds(parts: seq<string>, hex: string)
    ensures Emitted(parts, 0, "")
    ensures Emitted(parts, |parts|, hex) ==> hex == HexOf(Payload(ReadParts(parts)))
  {
    assert PayloadPrefix(ReadParts(parts), 0) == [];
  }

  /** The source's `for part in parts` loop: the payload's hex, part by part. */
  method PayloadHex(parts: seq<string>) returns (hex: string)
    requires 2 <= |parts| && PartsDoNotPanic(parts)
    ensures hex == HexOf(Payload(ReadParts(parts)))
  {
    hex := "";
    EmittedBounds(parts, "");
    for i := 0 to |parts|
      invariant Emitted(parts, i, hex)
    {
      hex := PushPart(parts, i, hex);
    }
    EmittedBounds(parts, hex);
  }

  /**
    The converter, as the source runs it: split on `.`, nothing for fewer
    than two parts, otherwise the payload's hex with the rendering of its
    octet count put in front.
  */
  method ConvertObjidDottedDecimalToHex(dotted: string) returns (hex: string)
    requires ConvertDoesNotPanic(dotted)
    ensures hex == DottedToHex(dotted)
  {
    var parts := Split(dotted, '.');
    if |parts| < 2 {
      return "";
    }
    hex := PayloadHex(parts);
    var length := Format02x(|hex| / 2);
    hex := length + hex;
  }


  // ------------------------------------------------------- what the payload is

  /** Part 1's contribution: the folded first octet, unless part 1 is skipped. */
  function FirstOctets(ps: seq<PartInfo>): seq<nat>
    requires |ps| >= 2
  {
    if ps[1].skipped then [] else [FirstOctet(ps)]
  }

  /** The values of the handled parts among indices 2 .. n-1, in order. */
  function LaterArcs(ps: seq<PartInfo>, n: nat): seq<nat>
    requires n <= |ps|
  {
    if n <= 2 then []
    else LaterArcs(ps, n - 1) + (if ps[n - 1].skipped then [] else [ps[n - 1].value])
  }

  /** A later part appends its octets to the encoding of the later arcs. */
  lemma LaterArcsStep(ps: seq<PartInfo>, n: nat)
    requires 2 < n <= |ps|
    ensures EncodeArcs(LaterArcs(ps, n)) == EncodeArcs(LaterArcs(ps, n - 1)) + PartOctets(ps, n - 1)
  {
    var prev := LaterArcs(ps, n - 1);
    if ps[n - 1].skipped {
      assert LaterArcs(ps, n) == prev;
    } else {
      EncodeArcsSnoc(prev, ps[n - 1].value);
    }
  }

  lemma PayloadPrefixShapeStep(ps: seq<PartInfo>, n: nat)
    requires 2 < n <= |ps|
    requires PayloadPrefix(ps, n - 1) == FirstOctets(ps) + EncodeArcs(LaterArcs(ps, n - 1))
    ensures PayloadPrefix(ps, n) == FirstOctets(ps) + EncodeArcs(LaterArcs(ps, n))
  {
    LaterArcsStep(ps, n);
    AppendBoth(PayloadPrefix(ps, n - 1), PayloadPrefix(ps, n), FirstOctets(ps),
      EncodeArcs(LaterArcs(ps, n - 1)), EncodeArcs(LaterArcs(ps, n)), PartOctets(ps, n - 1));
  }

  lemma PayloadPrefixShapeBase(ps: seq<PartInfo>)
    requires 2 <= |ps|
    ensures PayloadPrefix(ps, 2) == FirstOctets(ps) + EncodeArcs(LaterArcs(ps, 2))
  {
    assert PayloadPrefix(ps, 1) == [];
    assert PayloadPrefix(ps, 2) == PartOctets(ps, 1) == FirstOctets(ps);
    assert EncodeArcs(LaterArcs(ps, 2)) == [];
  }

  lemma {:induction false} PayloadPrefixShape(ps: seq<PartInfo>, n: nat)
    requires 2 <= n <= |ps|
    ensures PayloadPrefix(ps, n) == FirstOctets(ps) + EncodeArcs(LaterArcs(ps, n))
    decreases n
  {
    if n == 2 {
      PayloadPrefixShapeBase(ps);
    } else {
      PayloadPrefixShape(ps, n - 1);
      PayloadPrefixShapeStep(ps, n);
    }
  }

  /**
    The payload is the folded first octet (when part 1 is handled) followed by
    the subidentifiers of the handled later parts, in order: part 0 emits
    nothing of its own, and a part longer than 19 bytes emits nothing and
    does not stop the parts after it.
  */
  lemma PayloadShape(ps: seq<PartInfo>)
    requires |ps| >= 2
    ensures Payload(ps) == FirstOctets(ps) + EncodeArcs(LaterArcs(ps, |ps|))
    ensures !ps[1].skipped ==> Payload(ps)[0] == ps[0].value * 40 + ps[1].value
  {
    PayloadPrefixShape(ps, |ps|);
  }

  /**
    The payload's values are all octets exactly when the first octet is, or
    is not emitted: every subidentifier octet is below 256.
  */
  lemma PayloadOctets(ps: seq<PartInfo>)
    requires |ps| >= 2
    ensures AllOctets(Payload(ps)) <==> ps[1].skipped || FirstOctet(ps) < 256
  {
    PayloadShape(ps);
    var head := FirstOctets(ps);
    var tail := EncodeArcs(LaterArcs(ps, |ps|));
    EncodeArcsAreOctets(LaterArcs(ps, |ps|));
    assert forall i :: 0 <= i < |tail| ==> (head + tail)[|head| + i] == tail[i];
  }

  // ------------------------------------------------------- the length prefix

  /**
    When every emitted value is an octet, the output is the length field
    followed by two digits per payload octet, and the length field holds the
    number of payload octets.  When that number is also below 256, reading
    the output back two digits at a time gives the length octet and then the
    payload.
  */
  lemma LengthPrefix(ps: seq<PartInfo>)
    requires |ps| >= 2 && AllOctets(Payload(ps))
    ensures EngineIdHex(ps) == Format02x(|Payload(ps)|) + HexOf(Payload(ps))
    ensures |Payload(ps)| < 256 ==>
      && |EngineIdHex(ps)| == 2 + 2 * |Payload(ps)|
      && HexToBytes(EngineIdHex(ps)) == Some([|Payload(ps)|] + Payload(ps))
  {
    var payload := Payload(ps);
    HexOfLength(payload);
    assert |HexOf(payload)| / 2 == |payload|;
    if |payload| < 256 {
      LengthPrefixedOctets(payload);
    }
  }

  /** A length octet and the payload octets, rendered, read back as those octets. */
  lemma LengthPrefixedOctets(payload: seq<nat>)
    requires AllOctets(payload) && |payload| < 256
    ensures |Format02x(|payload|) + HexOf(payload)| == 2 + 2 * |payload|
    ensures HexToBytes(Format02x(|payload|) + HexOf(payload)) == Some([|payload|] + payload)
  {
    var n := |payload|;
    assert AllOctets([n] + payload);
    HexOfLength(payload);
    HexOfPrepend(n, payload);
    HexToBytesOfHexOf([n] + payload);
    Format02xLength(n);
  }

  /** Whatever the input, the output is lowercase hex digits only. */
  lemma OutputIsLowerHex(dotted: string)
    ensures IsLowerHex(DottedToHex(dotted))
  {
    var ps := ReadParts(Split(dotted, '.'));
    if |ps| >= 2 {
      var body := HexOf(Payload(ps));
      var length := Format02x(|body| / 2);
      HexOfIsLowerHex(Payload(ps));
      Format02xIsLowerHex(|body| / 2);
      assert forall i :: 0 <= i < |body| ==> (length + body)[|length| + i] == body[i];
    }
  }

  /** The output is empty exactly when the input has no `.`, that is, fewer than two parts. */
  lemma EmptyExactlyWithoutDot(dotted: string)
    ensures DottedToHex(dotted) == [] <==> '.' !in dotted
  {
    SplitHasTwoParts(dotted, '.');
    var ps := ReadParts(Split(dotted, '.'));
    if |ps| >= 2 {
      Format02xLength(|HexOf(Payload(ps))| / 2);
    }
  }
}

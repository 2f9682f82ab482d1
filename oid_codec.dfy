/**
  Object identifiers as arc sequences, their content octets under section
  8.19 of ITU-T X.690, and a decoder for those octets.  The converter never
  decodes; the decoder is here to state what its output means and to prove
  that nothing is lost.
*/
module OidCodec {
  import opened Wrappers
  import opened Subidentifier
  import opened Seqs

  /**
    The first two arcs fold into one subidentifier `arc0 * 40 + arc1`
    (section 8.19.4).  X.690 allows arc0 in {0, 1, 2}, and arc1 < 40 unless
    arc0 is 2; the converter emits the folded value as a single octet, which
    it can only be when it is below 256.
  */
  predicate FoldsIntoOneOctet(arc0: nat, arc1: nat) {
    (arc0 <= 1 && arc1 < 40) || (arc0 == 2 && arc1 < 176)
  }

  /** The inverse of the folding, for a first octet read back. */
  function UnfoldFirstOctet(b: nat): (arcs: (nat, nat))
    requires b < 256
    ensures FoldsIntoOneOctet(arcs.0, arcs.1)
    ensures arcs.0 * 40 + arcs.1 == b
  {
    if b < 40 then (0, b) else if b < 80 then (1, b - 40) else (2, b - 80)
  }

  lemma UnfoldFold(arc0: nat, arc1: nat)
    requires FoldsIntoOneOctet(arc0, arc1)
    ensures arc0 * 40 + arc1 < 256
    ensures UnfoldFirstOctet(arc0 * 40 + arc1) == (arc0, arc1)
  {
  }

  /** The arcs from index two on, each as its subidentifier, one after the other. */
  function EncodeArcs(arcs: seq<nat>): (bs: seq<nat>)
    ensures |bs| >= |arcs|
  {
    if arcs == [] then [] else EncodeArc(arcs[0]) + EncodeArcs(arcs[1..])
  }

  /** One more arc appends its subidentifier. */
  lemma {:induction false} EncodeArcsSnoc(arcs: seq<nat>, x: nat)
    ensures EncodeArcs(arcs + [x]) == EncodeArcs(arcs) + EncodeArc(x)
    decreases |arcs|
  {
    var ax := arcs + [x];
    if arcs == [] {
      assert ax[1..] == [];
    } else {
      var head := EncodeArc(arcs[0]);
      assert ax[0] == arcs[0] && ax[1..] == arcs[1..] + [x];
      assert EncodeArcs(ax) == head + EncodeArcs(arcs[1..] + [x]);
      EncodeArcsSnoc(arcs[1..], x);
      AppendAssoc(head, EncodeArcs(arcs[1..]), EncodeArc(x));
    }
  }

  /** Every octet of the later arcs is below 256. */
  lemma {:induction false} EncodeArcsAreOctets(arcs: seq<nat>)
    ensures forall i :: 0 <= i < |EncodeArcs(arcs)| ==> EncodeArcs(arcs)[i] < 256
    decreases |arcs|
  {
    if arcs != [] {
      EncodeArcsAreOctets(arcs[1..]);
      var e := EncodeArc(arcs[0]);
      var rest := EncodeArcs(arcs[1..]);
      EncodeArcShape(arcs[0]);
      assert forall i :: 0 <= i < |e| ==> e[i] < 256;
      assert forall i :: 0 <= i < |rest| ==> (e + rest)[|e| + i] == rest[i];
    }
  }

  /** The content octets of an OID with at least two arcs. */
  function EncodeOid(arcs: seq<nat>): (bs: seq<nat>)
    requires |arcs| >= 2
    ensures |bs| >= 1 && bs[0] == arcs[0] * 40 + arcs[1]
  {
    [arcs[0] * 40 + arcs[1]] + EncodeArcs(arcs[2..])
  }

  /** Where the subidentifier that starts `bs` ends: the first octet below 128, or `|bs|`. */
  function SubidentifierEnd(bs: seq<nat>): (j: nat)
    ensures j <= |bs|
  {
    if bs == [] then 0 else if bs[0] < 128 then 0 else 1 + SubidentifierEnd(bs[1..])
  }

  /** The end is the first octet with bit 8 clear: every octet before it has bit 8 set. */
  lemma {:induction false} SubidentifierEndIsFirstFinal(bs: seq<nat>)
    ensures var j := SubidentifierEnd(bs);
      && (j < |bs| ==> bs[j] < 128)
      && (forall i :: 0 <= i < j ==> bs[i] >= 128)
    decreases |bs|
  {
    if bs != [] && bs[0] >= 128 {
      var t := bs[1..];
      SubidentifierEndIsFirstFinal(t);
      assert forall i :: 0 <= i < |t| ==> bs[i + 1] == t[i];
    }
  }

  /**
    Reads subidentifiers until the octets run out; `None` when the last one is
    cut short (its final octet still has bit 8 set), when an octet is 256 or
    more, or when a subidentifier starts with the padding octet 0x80.
  */
  function DecodeArcs(bs: seq<nat>): (r: Option<seq<nat>>)
    decreases |bs|
  {
    if bs == [] then Some([])
    else
      var j := SubidentifierEnd(bs);
      if j == |bs| || !IsCanonical(bs[..j + 1]) then None
      else match DecodeArcs(bs[j + 1..])
        case None => None
        case Some(rest) => Some([DecodeArc(bs[..j + 1])] + rest)
  }

  lemma SubidentifierEndOfEncoding(v: nat, rest: seq<nat>)
    ensures SubidentifierEnd(EncodeArc(v) + rest) == |EncodeArc(v)| - 1
  {
    var e := EncodeArc(v);
    var bs := e + rest;
    EncodeArcShape(v);
    SubidentifierEndIsFirstFinal(bs);
    assert forall i :: 0 <= i < |e| ==> bs[i] == e[i];
  }

  /** Round trip over the arcs from index two on. */
  lemma {:induction false} DecodeEncodeArcs(arcs: seq<nat>)
    ensures DecodeArcs(EncodeArcs(arcs)) == Some(arcs)
    decreases |arcs|
  {
    if arcs != [] {
      var e := EncodeArc(arcs[0]);
      var rest := EncodeArcs(arcs[1..]);
      var bs := e + rest;
      SubidentifierEndOfEncoding(arcs[0], rest);
      assert bs[..|e|] == e && bs[|e|..] == rest;
      EncodeArcIsCanonical(arcs[0]);
      DecodeEncodeArc(arcs[0]);
      DecodeEncodeArcs(arcs[1..]);
      assert [arcs[0]] + arcs[1..] == arcs;
    }
  }

  /** Encoding one arc in front of others puts its subidentifier in front. */
  lemma EncodeArcsCons(x: nat, rest: seq<nat>)
    ensures EncodeArcs([x] + rest) == EncodeArc(x) + EncodeArcs(rest)
  {
    assert ([x] + rest)[0] == x && ([x] + rest)[1..] == rest;
  }

  /** What decoding non-empty octets reads first, and what it goes on with. */
  lemma DecodeArcsCons(bs: seq<nat>)
    requires bs != [] && DecodeArcs(bs).Some?
    ensures var j := SubidentifierEnd(bs);
      && j < |bs| && IsCanonical(bs[..j + 1]) && DecodeArcs(bs[j + 1..]).Some?
      && DecodeArcs(bs).value == [DecodeArc(bs[..j + 1])] + DecodeArcs(bs[j + 1..]).value
  {
  }

  /** Conversely, octets that decode are the encoding of what they decode to. */
  lemma {:induction false} EncodeDecodeArcs(bs: seq<nat>)
    requires DecodeArcs(bs).Some?
    ensures EncodeArcs(DecodeArcs(bs).value) == bs
    decreases |bs|
  {
    if bs != [] {
      var j := SubidentifierEnd(bs);
      DecodeArcsCons(bs);
      var head := bs[..j + 1];
      var tail := bs[j + 1..];
      EncodeDecodeArc(head);
      EncodeDecodeArcs(tail);
      EncodeArcsCons(DecodeArc(head), DecodeArcs(tail).value);
      TakeDrop(bs, j + 1);
    }
  }

  /** Content octets back to arcs: the first octet unfolds into two arcs. */
  function DecodeOid(bs: seq<nat>): (r: Option<seq<nat>>)
    ensures r.Some? ==> |r.value| >= 2
  {
    if bs == [] || bs[0] >= 256 then None
    else
      var (arc0, arc1) := UnfoldFirstOctet(bs[0]);
      match DecodeArcs(bs[1..])
      case None => None
      case Some(rest) => Some([arc0, arc1] + rest)
  }

  /** Round trip for whole OIDs whose first two arcs fold into one octet. */
  lemma OidRoundTrip(arcs: seq<nat>)
    requires |arcs| >= 2 && FoldsIntoOneOctet(arcs[0], arcs[1])
    ensures DecodeOid(EncodeOid(arcs)) == Some(arcs)
  {
    var bs := EncodeOid(arcs);
    var first := arcs[0] * 40 + arcs[1];
    UnfoldFold(arcs[0], arcs[1]);
    assert bs[0] == first && bs[1..] == EncodeArcs(arcs[2..]);
    DecodeEncodeArcs(arcs[2..]);
    assert UnfoldFirstOctet(bs[0]) == (arcs[0], arcs[1]);
    assert DecodeArcs(bs[1..]) == Some(arcs[2..]);
    assert [arcs[0], arcs[1]] + arcs[2..] == arcs;
  }

  /** And every octet string that decodes is the encoding of its arcs. */
  lemma OidReencode(bs: seq<nat>)
    requires DecodeOid(bs).Some?
    ensures FoldsIntoOneOctet(DecodeOid(bs).value[0], DecodeOid(bs).value[1])
    ensures EncodeOid(DecodeOid(bs).value) == bs
  {
    var arcs := DecodeOid(bs).value;
    EncodeDecodeArcs(bs[1..]);
    assert arcs[2..] == DecodeArcs(bs[1..]).value;
    assert [bs[0]] + bs[1..] == bs;
  }
}

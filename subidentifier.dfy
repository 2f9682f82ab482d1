/**
  One subidentifier of an object identifier, encoded in base 128 as section
  8.19.2 of ITU-T X.690 prescribes: seven value bits per octet, most
  significant group first, bit 8 set on every octet except the last, and no
  leading octet 0x80.

  An octet is an integer in [0, 256).  The source masks with `& 0x7F` and
  shifts with `>> 7` on a `u64`; on non-negative values these are `% 128` and
  `/ 128`, which is how they are written here.
*/
module Subidentifier {

  function Pow128(n: nat): (p: nat)
    ensures p >= 1
  {
    if n == 0 then 1 else 128 * Pow128(n - 1)
  }

  /**
    The octets the source's `while value > 0` loop prepends for `w`, the arc
    shifted right by seven: the base-128 digits of `w`, most significant
    first, each with bit 8 set.  Empty when `w` is zero.
  */
  function HighGroups(w: nat): seq<nat>
    decreases w
  {
    if w == 0 then [] else HighGroups(w / 128) + [w % 128 + 128]
  }

  /**
    Every shifted group is an octet with bit 8 set; there is one exactly when
    `w` is not zero, and the first is never the padding octet 0x80.
  */
  lemma {:induction false} HighGroupsShape(w: nat)
    ensures forall i :: 0 <= i < |HighGroups(w)| ==> 128 <= HighGroups(w)[i] < 256
    ensures HighGroups(w) == [] <==> w == 0
    ensures HighGroups(w) != [] ==> HighGroups(w)[0] > 128
    decreases w
  {
    if w != 0 {
      var g := HighGroups(w);
      var init := HighGroups(w / 128);
      HighGroupsShape(w / 128);
      assert g == init + [w % 128 + 128];
      assert forall i :: 0 <= i < |init| ==> g[i] == init[i];
    }
  }

  /**
    The octets the source emits for an arc at index two or later: the arc
    itself when it is below 128, otherwise the shifted groups followed by
    `value & 0x7F`.
  */
  function EncodeArc(v: nat): seq<nat> {
    if v < 128 then [v] else HighGroups(v / 128) + [v % 128]
  }

  /**
    The layout of a subidentifier: bit 8 set on every octet but the last,
    the last is `v & 0x7F`, one octet exactly for arcs below 128, and no
    leading 0x80.
  */
  lemma EncodeArcShape(v: nat)
    ensures |EncodeArc(v)| >= 1
    ensures forall i :: 0 <= i < |EncodeArc(v)| - 1 ==> 128 <= EncodeArc(v)[i] < 256
    ensures EncodeArc(v)[|EncodeArc(v)| - 1] == v % 128
    ensures v < 128 <==> |EncodeArc(v)| == 1
    ensures |EncodeArc(v)| > 1 ==> EncodeArc(v)[0] != 128
  {
    if v >= 128 {
      var g := HighGroups(v / 128);
      var e := EncodeArc(v);
      HighGroupsShape(v / 128);
      assert e == g + [v % 128];
      assert forall i :: 0 <= i < |g| ==> e[i] == g[i];
    }
  }

  /**
    The two branches of the source agree: below 128 the loop would emit no
    continuation octet, so the arc is one group in every case.
  */
  lemma EncodeArcIsGroups(v: nat)
    ensures EncodeArc(v) == HighGroups(v / 128) + [v % 128]
  {
  }

  /** The value of a run of octets: `acc * 128 + (b & 0x7F)` folded left to right. */
  function DecodeArc(bs: seq<nat>): nat {
    if bs == [] then 0 else DecodeArc(bs[..|bs| - 1]) * 128 + bs[|bs| - 1] % 128
  }

  /** One more octet shifts the value so far left by seven bits and adds its low bits. */
  lemma DecodeArcSnoc(p: seq<nat>, x: nat)
    ensures DecodeArc(p + [x]) == DecodeArc(p) * 128 + x % 128
  {
    var s := p + [x];
    assert s[..|s| - 1] == p && s[|s| - 1] == x;
  }

  lemma {:induction false} DecodeHighGroups(w: nat)
    ensures DecodeArc(HighGroups(w)) == w
    decreases w
  {
    if w != 0 {
      DecodeHighGroups(w / 128);
      DecodeArcSnoc(HighGroups(w / 128), w % 128 + 128);
      SplitHighGroup(w);
    }
  }

  /** Round trip: folding the emitted octets recovers the arc. */
  lemma DecodeEncodeArc(v: nat)
    ensures DecodeArc(EncodeArc(v)) == v
  {
    var g := HighGroups(v / 128);
    EncodeArcIsGroups(v);
    DecodeHighGroups(v / 128);
    DecodeArcSnoc(g, v % 128);
    SplitLowGroup(v);
  }

  /** A value is its shifted value times 128 plus the low bits of its group with bit 8 set. */
  lemma SplitHighGroup(w: nat)
    ensures (w / 128) * 128 + (w % 128 + 128) % 128 == w
  {
  }

  /** Shifting `a * 128 + x` right by seven bits gives `a` back, and masking gives `x`. */
  lemma ShiftGroup(a: nat, x: nat)
    requires x < 128
    ensures (a * 128 + x) / 128 == a && (a * 128 + x) % 128 == x && x % 128 == x
  {
  }

  /** An arc is its shifted value times 128 plus its low seven bits. */
  lemma SplitLowGroup(v: nat)
    ensures (v / 128) * 128 + (v % 128) % 128 == v
  {
  }

  /**
    Minimal length: `n` octets are used exactly when `128^(n-1) <= v < 128^n`
    (or `v == 0` and `n == 1`), so the count is the number of 7-bit groups
    of `v`, that is, its bit length divided by 7 and rounded up.
  */
  lemma {:induction false} HighGroupsLength(w: nat)
    ensures w < Pow128(|HighGroups(w)|)
    ensures w != 0 ==> Pow128(|HighGroups(w)| - 1) <= w
    decreases w
  {
    if w != 0 {
      HighGroupsLength(w / 128);
      var n := |HighGroups(w / 128)|;
      assert |HighGroups(w)| == n + 1;
      assert w / 128 < Pow128(n);
      assert w < 128 * Pow128(n);
      if w / 128 != 0 {
        assert Pow128(n - 1) <= w / 128;
        assert 128 * Pow128(n - 1) <= w;
      }
    }
  }

  lemma EncodeArcLength(v: nat)
    ensures v < Pow128(|EncodeArc(v)|)
    ensures |EncodeArc(v)| > 1 ==> Pow128(|EncodeArc(v)| - 1) <= v
  {
    EncodeArcIsGroups(v);
    HighGroupsLength(v / 128);
    var n := |HighGroups(v / 128)|;
    assert v / 128 < Pow128(n);
    assert v < 128 * Pow128(n);
    if n > 0 {
      assert Pow128(n - 1) <= v / 128;
      assert 128 * Pow128(n - 1) <= v;
    }
  }

  /**
    A well-formed subidentifier: octets, bit 8 set on all but the last, clear
    on the last, and no leading 0x80.
  */
  predicate IsCanonical(bs: seq<nat>) {
    && |bs| >= 1
    && (forall i :: 0 <= i < |bs| - 1 ==> 128 <= bs[i] < 256)
    && bs[|bs| - 1] < 128
    && (|bs| > 1 ==> bs[0] != 128)
  }

  lemma EncodeArcIsCanonical(v: nat)
    ensures IsCanonical(EncodeArc(v))
  {
    EncodeArcShape(v);
  }

  lemma {:induction false} DecodeArcPositive(bs: seq<nat>)
    requires bs != [] && bs[0] % 128 != 0
    ensures DecodeArc(bs) > 0
    decreases |bs|
  {
    if |bs| > 1 {
      DecodeArcPositive(bs[..|bs| - 1]);
    }
  }

  /** Octets that can precede the last one of a subidentifier: bit 8 set, and no leading 0x80. */
  predicate IsContinuation(p: seq<nat>) {
    && (forall i :: 0 <= i < |p| ==> 128 <= p[i] < 256)
    && (p != [] ==> p[0] != 128)
  }

  /** Dropping the last of them leaves continuation octets. */
  lemma ContinuationSplit(p: seq<nat>)
    requires IsContinuation(p) && p != []
    ensures IsContinuation(p[..|p| - 1])
    ensures 128 <= p[|p| - 1] < 256 && p[|p| - 1] % 128 == p[|p| - 1] - 128
    ensures p == p[..|p| - 1] + [p[|p| - 1]]
  {
  }

  /** The groups of `a * 128 + g` are those of `a`, then `g` with bit 8 set. */
  lemma HighGroupsSnoc(a: nat, g: nat)
    requires g < 128 && a * 128 + g != 0
    ensures HighGroups(a * 128 + g) == HighGroups(a) + [g + 128]
  {
    ShiftGroup(a, g);
  }

  lemma {:induction false} HighGroupsOfDecode(p: seq<nat>)
    requires IsContinuation(p)
    ensures HighGroups(DecodeArc(p)) == p
    decreases |p|
  {
    if p != [] {
      var q := p[..|p| - 1];
      var y := p[|p| - 1];
      ContinuationSplit(p);
      DecodeArcPositive(p);
      DecodeArcSnoc(q, y);
      HighGroupsOfDecode(q);
      HighGroupsSnoc(DecodeArc(q), y - 128);
    }
  }

  /** A well-formed subidentifier is continuation octets followed by a final one. */
  lemma CanonicalSplit(bs: seq<nat>)
    requires IsCanonical(bs)
    ensures IsContinuation(bs[..|bs| - 1])
    ensures bs[|bs| - 1] < 128
    ensures bs == bs[..|bs| - 1] + [bs[|bs| - 1]]
  {
  }

  /**
    Conversely, every well-formed subidentifier is the encoding of the value
    it denotes: the encoding is onto the canonical octet runs.
  */
  lemma EncodeDecodeArc(bs: seq<nat>)
    requires IsCanonical(bs)
    ensures EncodeArc(DecodeArc(bs)) == bs
  {
    var p := bs[..|bs| - 1];
    var x := bs[|bs| - 1];
    var a := DecodeArc(p);
    CanonicalSplit(bs);
    DecodeArcSnoc(p, x);
    ShiftGroup(a, x);
    HighGroupsOfDecode(p);
    EncodeArcIsGroups(a * 128 + x);
  }
}

/**
  Rust's `format!("{:02x}", v)` on an unsigned integer, and the string of
  concatenated renderings that the converter builds.

  `{:02x}` writes the lowercase base-16 digits of `v` and pads them on the left
  with `0` up to a width of two.  The width is a minimum: a value of 256 or more
  gets three or more digits, never a truncated pair.
*/
module HexFormat {
  import opened Wrappers
  import opened Seqs

  predicate IsLowerHexDigit(c: char) {
    '0' <= c <= '9' || 'a' <= c <= 'f'
  }

  predicate IsLowerHex(s: string) {
    forall i :: 0 <= i < |s| ==> IsLowerHexDigit(s[i])
  }

  function DigitValue(c: char): (d: nat)
    requires IsLowerHexDigit(c)
    ensures d < 16
  {
    if c <= '9' then c as int - '0' as int else c as int - 'a' as int + 10
  }

  function HexDigit(d: nat): (c: char)
    requires d < 16
    ensures IsLowerHexDigit(c) && DigitValue(c) == d
  {
    if d < 10 then ('0' as int + d) as char else ('a' as int + d - 10) as char
  }

  lemma HexDigitOfValue(c: char)
    requires IsLowerHexDigit(c)
    ensures HexDigit(DigitValue(c)) == c
  {
  }

  /** The number a string of lowercase hex digits denotes, most significant digit first. */
  function HexValue(s: string): nat
    requires IsLowerHex(s)
  {
    if s == [] then 0 else HexValue(s[..|s| - 1]) * 16 + DigitValue(s[|s| - 1])
  }

  /** `format!("{:x}", v)`: the digits of `v` in base 16, without leading zeros. */
  function LowerHex(v: nat): string {
    if v < 16 then [HexDigit(v)] else LowerHex(v / 16) + [HexDigit(v % 16)]
  }

  /** `format!("{:02x}", v)`: padded to two digits, never truncated. */
  function Format02x(v: nat): string {
    if v < 16 then ['0'] + LowerHex(v) else LowerHex(v)
  }

  /** One digit below 16, at most two below 256, and no leading zero. */
  lemma {:induction false} LowerHexLength(v: nat)
    ensures 1 <= |LowerHex(v)|
    ensures |LowerHex(v)| == 1 <==> v < 16
    ensures |LowerHex(v)| <= 2 <==> v < 256
    ensures |LowerHex(v)| > 1 ==> LowerHex(v)[0] != '0'
    decreases v
  {
    if v >= 16 {
      LowerHexLength(v / 16);
      assert LowerHex(v)[0] == LowerHex(v / 16)[0];
    }
  }

  /** The padded rendering is two digits exactly for the octets, and never shorter. */
  lemma Format02xLength(v: nat)
    ensures |Format02x(v)| >= 2
    ensures |Format02x(v)| == 2 <==> v < 256
  {
    LowerHexLength(v);
  }

  lemma {:induction false} LowerHexIsLowerHex(v: nat)
    ensures IsLowerHex(LowerHex(v))
    decreases v
  {
    if v >= 16 {
      LowerHexIsLowerHex(v / 16);
    }
  }

  /** `{:02x}` writes lowercase hex digits only, whatever the value. */
  lemma Format02xIsLowerHex(v: nat)
    ensures IsLowerHex(Format02x(v))
  {
    LowerHexIsLowerHex(v);
  }

  /** The digits of `LowerHex(v)` denote `v`. */
  lemma {:induction false} LowerHexValue(v: nat)
    ensures IsLowerHex(LowerHex(v)) && HexValue(LowerHex(v)) == v
    decreases v
  {
    LowerHexIsLowerHex(v);
    var s := LowerHex(v);
    if v >= 16 {
      LowerHexValue(v / 16);
      assert s[..|s| - 1] == LowerHex(v / 16);
    }
  }

  /** Padding does not change the value: `{:02x}` renders `v` exactly. */
  lemma Format02xValue(v: nat)
    ensures IsLowerHex(Format02x(v)) && HexValue(Format02x(v)) == v
  {
    LowerHexValue(v);
    Format02xIsLowerHex(v);
    if v < 16 {
      var s := Format02x(v);
      assert s[..1] == ['0'];
      assert s[..|s| - 1] == ['0'];
    }
  }

  /** Two lowercase hex digits are the padded rendering of the value they denote. */
  lemma {:induction false} Format02xOfPair(s: string)
    requires |s| == 2 && IsLowerHex(s)
    ensures HexValue(s) < 256 && Format02x(HexValue(s)) == s
  {
    var v := HexValue(s);
    assert s[..1] == [s[0]];
    assert HexValue(s[..1]) == DigitValue(s[0]);
    assert v == DigitValue(s[0]) * 16 + DigitValue(s[1]);
    Format02xValue(v);
    Format02xLength(v);
    HexDigitOfValue(s[0]);
    HexDigitOfValue(s[1]);
    if DigitValue(s[0]) == 0 {
      assert s[0] == '0';
      assert Format02x(v) == ['0', HexDigit(DigitValue(s[1]))];
    } else {
      assert v / 16 == DigitValue(s[0]) && v % 16 == DigitValue(s[1]);
      assert LowerHex(v / 16) == [s[0]];
    }
  }

  /** The concatenated `{:02x}` renderings of a sequence of emitted values. */
  function HexOf(vals: seq<nat>): string {
    if vals == [] then [] else HexOf(vals[..|vals| - 1]) + Format02x(vals[|vals| - 1])
  }

  /** Whatever the values, the rendering holds lowercase hex digits only. */
  lemma {:induction false} HexOfIsLowerHex(vals: seq<nat>)
    ensures IsLowerHex(HexOf(vals))
    decreases |vals|
  {
    if vals != [] {
      HexOfIsLowerHex(vals[..|vals| - 1]);
      Format02xIsLowerHex(vals[|vals| - 1]);
    }
  }

  predicate AllOctets(vals: seq<nat>) {
    forall i :: 0 <= i < |vals| ==> vals[i] < 256
  }

  /** One more value appends its rendering. */
  lemma HexOfSnoc(vals: seq<nat>, x: nat)
    ensures HexOf(vals + [x]) == HexOf(vals) + Format02x(x)
  {
    var s := vals + [x];
    assert s[..|s| - 1] == vals && s[|s| - 1] == x;
  }

  lemma {:induction false} HexOfAppend(a: seq<nat>, b: seq<nat>)
    ensures HexOf(a + b) == HexOf(a) + HexOf(b)
    decreases |b|
  {
    if b == [] {
      assert a + b == a;
    } else {
      var b' := b[..|b| - 1];
      var x := b[|b| - 1];
      assert a + b == (a + b') + [x] && b == b' + [x];
      HexOfAppend(a, b');
      HexOfSnoc(a + b', x);
      HexOfSnoc(b', x);
      AppendBoth(HexOf(a + b'), HexOf(a + b), HexOf(a), HexOf(b'), HexOf(b), Format02x(x));
    }
  }

  lemma HexOfSingleton(x: nat)
    ensures HexOf([x]) == Format02x(x)
  {
    assert [x][..0] == [];
  }

  lemma HexOfPrepend(x: nat, vals: seq<nat>)
    ensures HexOf([x] + vals) == Format02x(x) + HexOf(vals)
  {
    HexOfAppend([x], vals);
    HexOfSingleton(x);
  }

  /** When every value is an octet, each takes exactly two digits. */
  lemma {:induction false} HexOfLength(vals: seq<nat>)
    requires AllOctets(vals)
    ensures |HexOf(vals)| == 2 * |vals|
    decreases |vals|
  {
    if vals != [] {
      HexOfLength(vals[..|vals| - 1]);
      Format02xLength(vals[|vals| - 1]);
    }
  }

  /** Reads a hex string two digits at a time; `None` on odd length or a non-digit. */
  function HexToBytes(s: string): (r: Option<seq<nat>>)
    ensures r.Some? ==> AllOctets(r.value) && |s| == 2 * |r.value|
  {
    if s == [] then Some([])
    else if |s| < 2 || !IsLowerHex(s[|s| - 2..]) then None
    else match HexToBytes(s[..|s| - 2])
      case None => None
      case Some(init) =>
        Format02xOfPair(s[|s| - 2..]);
        Some(init + [HexValue(s[|s| - 2..])])
  }

  /** Reading `t` followed by one more pair of digits. */
  lemma HexToBytesSnoc(t: string, pair: string)
    requires |pair| == 2 && IsLowerHex(pair)
    ensures HexToBytes(t + pair) ==
      if HexToBytes(t).None? then None else Some(HexToBytes(t).value + [HexValue(pair)])
  {
    var s := t + pair;
    assert s[..|s| - 2] == t && s[|s| - 2..] == pair;
  }

  /** One more octet, rendered and read back. */
  lemma HexToBytesOfHexOfStep(init: seq<nat>, last: nat)
    requires last < 256 && HexToBytes(HexOf(init)) == Some(init)
    ensures HexToBytes(HexOf(init + [last])) == Some(init + [last])
  {
    var pair := Format02x(last);
    HexOfSnoc(init, last);
    Format02xValue(last);
    Format02xLength(last);
    HexToBytesSnoc(HexOf(init), pair);
  }

  /** Reading back the rendering of octets gives the octets. */
  lemma {:induction false} HexToBytesOfHexOf(vals: seq<nat>)
    requires AllOctets(vals)
    ensures HexToBytes(HexOf(vals)) == Some(vals)
    decreases |vals|
  {
    if vals != [] {
      var init := vals[..|vals| - 1];
      var last := vals[|vals| - 1];
      assert init + [last] == vals;
      HexToBytesOfHexOf(init);
      HexToBytesOfHexOfStep(init, last);
    }
  }

  /** Conversely, a string that reads as octets is their rendering: the reading is injective. */
  lemma {:induction false} HexOfHexToBytes(s: string)
    requires HexToBytes(s).Some?
    ensures HexOf(HexToBytes(s).value) == s
    decreases |s|
  {
    if s != [] {
      var init := s[..|s| - 2];
      var pair := s[|s| - 2..];
      HexOfHexToBytes(init);
      Format02xOfPair(pair);
      var vals := HexToBytes(s).value;
      assert vals[..|vals| - 1] == HexToBytes(init).value;
      assert init + pair == s;
    }
  }
}

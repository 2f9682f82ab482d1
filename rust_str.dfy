/**
  The three pieces of Rust's standard library the converter leans on, stated
  as functions: `str::split` on one character, `str::len` (a count of UTF-8
  bytes, not of characters) and `u64::from_str`.
*/
module RustStr {
  import opened Wrappers
  import opened Seqs

  /** One more than the largest `u64`. */
  const U64_LIMIT: nat := 0x1_0000_0000_0000_0000

  // ---------------------------------------------------------------- split

  /** Index of the first occurrence of `sep` in `s`. */
  function IndexOf(s: string, sep: char): (k: nat)
    requires sep in s
    ensures k < |s| && s[k] == sep && sep !in s[..k]
  {
    if s[0] == sep then 0 else 1 + IndexOf(s[1..], sep)
  }

  /**
    `s.split(sep).collect()`: the maximal runs between separators, empty runs
    included; a string without `sep` is one part.
  */
  function Split(s: string, sep: char): (parts: seq<string>)
    ensures |parts| >= 1
    ensures forall i :: 0 <= i < |parts| ==> sep !in parts[i]
    decreases |s|
  {
    if sep !in s then [s]
    else
      var k := IndexOf(s, sep);
      [s[..k]] + Split(s[k + 1..], sep)
  }

  /** The parts with `sep` between neighbours: the inverse of `Split`. */
  function Join(parts: seq<string>, sep: char): string
    requires |parts| >= 1
  {
    if |parts| == 1 then parts[0] else parts[0] + [sep] + Join(parts[1..], sep)
  }

  /** Splitting loses nothing: joining the parts back gives the input. */
  lemma {:induction false} JoinSplit(s: string, sep: char)
    ensures Join(Split(s, sep), sep) == s
    decreases |s|
  {
    if sep in s {
      var k := IndexOf(s, sep);
      var rest := Split(s[k + 1..], sep);
      var parts := Split(s, sep);
      assert parts == [s[..k]] + rest;
      assert parts[0] == s[..k] && parts[1..] == rest;
      JoinSplit(s[k + 1..], sep);
      assert Join(parts, sep) == s[..k] + [sep] + Join(rest, sep);
      assert s == s[..k] + [sep] + s[k + 1..];
    }
  }

  /** The first separator of `head + [sep] + tail` is the one after `head`. */
  lemma IndexOfAfterHead(head: string, sep: char, tail: string)
    requires sep !in head
    ensures sep in head + [sep] + tail
    ensures IndexOf(head + [sep] + tail, sep) == |head|
  {
    var s := head + [sep] + tail;
    assert s[|head|] == sep;
    var k := IndexOf(s, sep);
    assert forall j :: 0 <= j < |head| ==> s[j] == head[j];
    assert k >= |head|;
    assert k <= |head| by {
      assert forall j :: 0 <= j < k ==> s[..k][j] == s[j];
    }
  }

  /** Splitting a separator-free head, the separator and the rest. */
  lemma SplitAfterHead(head: string, sep: char, tail: string)
    requires sep !in head
    ensures Split(head + [sep] + tail, sep) == [head] + Split(tail, sep)
  {
    var s := head + [sep] + tail;
    IndexOfAfterHead(head, sep, tail);
    assert s[..|head|] == head && s[|head| + 1..] == tail;
  }

  lemma JoinCons(parts: seq<string>, sep: char)
    requires |parts| > 1
    ensures Join(parts, sep) == parts[0] + [sep] + Join(parts[1..], sep)
  {
  }

  /** Splitting a join of separator-free parts gives the parts back. */
  lemma {:induction false} SplitJoin(parts: seq<string>, sep: char)
    requires |parts| >= 1
    requires forall i :: 0 <= i < |parts| ==> sep !in parts[i]
    ensures Split(Join(parts, sep), sep) == parts
    decreases |parts|
  {
    if |parts| > 1 {
      var rest := parts[1..];
      JoinCons(parts, sep);
      SplitAfterHead(parts[0], sep, Join(rest, sep));
      SplitJoin(rest, sep);
      assert [parts[0]] + rest == parts;
    }
  }

  /** There are at least two parts exactly when the separator occurs. */
  lemma SplitHasTwoParts(s: string, sep: char)
    ensures |Split(s, sep)| >= 2 <==> sep in s
  {
  }

  // ---------------------------------------------------------------- len

  /** Bytes that the UTF-8 encoding of one Unicode scalar value takes. */
  function Utf8Width(c: char): (w: nat)
    ensures 1 <= w <= 4 && (w == 1 <==> c as int < 0x80)
  {
    if c as int < 0x80 then 1
    else if c as int < 0x800 then 2
    else if c as int < 0x1_0000 then 3
    else 4
  }

  /** `s.len()`: the length of `s` in UTF-8 bytes. */
  function Utf8Length(s: string): (n: nat)
    ensures n >= |s|
  {
    if s == [] then 0 else Utf8Width(s[0]) + Utf8Length(s[1..])
  }

  /** For ASCII text the byte count is the character count. */
  lemma {:induction false} Utf8LengthOfAscii(s: string)
    requires forall i :: 0 <= i < |s| ==> s[i] as int < 0x80
    ensures Utf8Length(s) == |s|
    decreases |s|
  {
    if s != [] {
      Utf8LengthOfAscii(s[1..]);
    }
  }

  // ---------------------------------------------------------------- parse

  predicate IsDigit(c: char) {
    '0' <= c <= '9'
  }

  predicate IsDigits(s: string) {
    forall i :: 0 <= i < |s| ==> IsDigit(s[i])
  }

  /** The number a string of decimal digits denotes, most significant first. */
  function DecimalValue(s: string): nat
    requires IsDigits(s)
  {
    if s == [] then 0 else DecimalValue(s[..|s| - 1]) * 10 + (s[|s| - 1] as int - '0' as int)
  }

  function Pow10(n: nat): (p: nat)
    ensures p >= 1
  {
    if n == 0 then 1 else 10 * Pow10(n - 1)
  }

  lemma {:induction false} Pow10Monotone(m: nat, n: nat)
    requires m <= n
    ensures Pow10(m) <= Pow10(n)
    decreases n
  {
    if m < n {
      Pow10Monotone(m, n - 1);
    }
  }

  /** A run of `n` digits denotes less than `10^n`. */
  lemma {:induction false} DecimalValueBound(s: string)
    requires IsDigits(s)
    ensures DecimalValue(s) < Pow10(|s|)
    decreases |s|
  {
    if s != [] {
      DecimalValueBound(s[..|s| - 1]);
    }
  }

  /**
    `s.parse::<u64>()`: an optional leading `+`, then one or more decimal
    digits (leading zeros allowed) whose value fits in 64 bits; anything else
    (empty, a lone `+`, a `-`, any other character, overflow) is an error.
  */
  function ParseU64(s: string): (r: Option<nat>)
    ensures r.Some? ==> r.value < U64_LIMIT
  {
    var digits := if |s| >= 1 && s[0] == '+' then s[1..] else s;
    if digits != [] && IsDigits(digits) && DecimalValue(digits) < U64_LIMIT
    then Some(DecimalValue(digits))
    else None
  }

  /**
    Every string of one to nineteen digits parses: the largest `u64`,
    18446744073709551615, has twenty digits, so nineteen never overflow.
  */
  lemma NineteenDigitsParse(s: string)
    requires 1 <= |s| <= 19 && IsDigits(s)
    ensures ParseU64(s) == Some(DecimalValue(s))
    ensures Utf8Length(s) == |s|
  {
    DecimalValueBound(s);
    Utf8LengthOfAscii(s);
    Pow10Monotone(|s|, 19);
    Pow10Of19();
  }

  lemma Pow10Of19()
    ensures Pow10(19) == 10_000_000_000_000_000_000
  {
    assert Pow10(4) == 10_000;
    assert Pow10(8) == 100_000_000;
    assert Pow10(12) == 1_000_000_000_000;
    assert Pow10(16) == 10_000_000_000_000_000;
  }

  /** `v.to_string()`: the decimal digits of `v`, without leading zeros. */
  function DecimalString(v: nat): (s: string)
    ensures 1 <= |s| && IsDigits(s)
    ensures |s| > 1 ==> s[0] != '0'
  {
    if v < 10 then [('0' as int + v) as char]
    else DecimalString(v / 10) + [('0' as int + v % 10) as char]
  }

  lemma {:induction false} DecimalStringValue(v: nat)
    ensures DecimalValue(DecimalString(v)) == v
    decreases v
  {
    if v >= 10 {
      var s := DecimalString(v);
      DecimalStringValue(v / 10);
      assert s[..|s| - 1] == DecimalString(v / 10);
    }
  }

  /** Rendering then parsing is the identity on `u64` values. */
  lemma ParseDecimalString(v: nat)
    requires v < U64_LIMIT
    ensures ParseU64(DecimalString(v)) == Some(v)
  {
    DecimalStringValue(v);
  }

  /** The rendering is no longer than the number of digits that the bound allows. */
  lemma {:induction false} DecimalStringLength(v: nat, n: nat)
    requires v < Pow10(n)
    ensures |DecimalString(v)| <= n || (v == 0 && n == 0)
    decreases v
  {
    if v >= 10 {
      assert n >= 1;
      DecimalStringLength(v / 10, n - 1);
    }
  }
}

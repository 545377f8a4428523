/**
 * The self-terminating, text-safe varint used for permutation identities
 * (`leb16_print` and `leb16_parse` in runners/bench_runner.c).
 *
 * Each character carries one tagged nibble: 4 value bits plus the
 * continuation bit 0x10. The 32 tagged nibbles are written '0'..'9','a'..'v',
 * least significant nibble first. A leading 'w' marks a value that is
 * negative when read as `intmax_t`; the magnitude then follows.
 */
module Leb16 {
  import opened Base

  /** The character for a tagged nibble 0..31. */
  function NibbleChar(n: nat): (c: char)
    requires n < 32
    ensures '0' <= c <= '9' || 'a' <= c <= 'v'
  {
    if n < 10 then ('0' as int + n) as char else ('a' as int + n - 10) as char
  }

  /** The tagged nibble a character stands for, or None outside the alphabet. */
  function CharNibble(c: char): (r: Option<nat>)
    ensures r.Some? <==> ('0' <= c <= '9' || 'a' <= c <= 'v')
    ensures r.Some? ==> r.value < 32
  {
    if '0' <= c <= '9' then Some(c as int - '0' as int)
    else if 'a' <= c <= 'v' then Some(c as int - 'a' as int + 10)
    else None
  }

  lemma NibbleCharInverse(n: nat)
    requires n < 32
    ensures CharNibble(NibbleChar(n)) == Some(n)
  {
  }

  /**
   * The magnitude part of the output: one character per nibble, every
   * nibble except the last tagged with 0x10.
   */
  function Digits(x: nat): (s: string)
    ensures |s| >= 1 && CharNibble(s[0]).Some?
    decreases x
  {
    if x <= 15 then [NibbleChar(x)]
    else [NibbleChar(x % 16 + 16)] + Digits(x / 16)
  }

  /** The characters `leb16_print(x)` writes for a `uintmax_t` x, never none. */
  function Print(x: nat): (s: string)
    requires IsU64(x)
    ensures |s| >= 1
  {
    if x > I64Max then "w" + Digits(NegU64(x)) else Digits(x)
  }

  /** A character of a NUL-terminated string; reading past its end yields NUL. */
  function At(s: string, i: nat): char
  {
    if i < |s| then s[i] else '\0'
  }

  datatype Parsed = Parsed(value: nat, tail: nat)

  /**
   * The nibble loop of `leb16_parse` from position q, where i nibbles have
   * been read and acc holds their value so far. None stands for the early
   * `return 0` on a character outside the alphabet. A nibble at position i
   * lands on bits 4i..4i+3; positions past bit 63 contribute nothing.
   */
  function DigitsFrom(s: string, q: nat, i: nat, acc: nat): (r: Option<Parsed>)
    ensures r.Some? ==> IsU64(r.value.value) && q < r.value.tail <= |s|
    decreases |s| - q
  {
    match CharNibble(At(s, q))
    case None => None
    case Some(n) =>
      var acc' := (acc + Placed(n, i)) % U64;
      if n < 16 then Some(Parsed(acc', q + 1)) else DigitsFrom(s, q + 1, i + 1, acc')
  }

  /** `(nibble & 0xf) << 4*i`: the low nibble of n moved up to nibble position i. */
  function Placed(n: nat, i: nat): nat
  {
    if i == 0 then n % 16 else 16 * Placed(n, i - 1)
  }

  lemma {:induction false} PlacedValue(n: nat, i: nat)
    ensures Placed(n, i) == (n % 16) * Pow16(i)
  {
    if i > 0 {
      PlacedValue(n, i - 1);
      assert 16 * ((n % 16) * Pow16(i - 1)) == (n % 16) * (16 * Pow16(i - 1));
    }
  }

  /** `leb16_parse(s + pos, &tail)`: the value it returns and where it leaves `tail`. */
  function Parse(s: string, pos: nat): (r: Parsed)
    ensures IsU64(r.value)
    ensures r.tail == pos || (pos < r.tail <= |s|)
  {
    var neg := At(s, pos) == 'w';
    var start := if neg then pos + 1 else pos;
    match DigitsFrom(s, start, 0, 0)
    case None => Parsed(0, pos)
    case Some(p) => Parsed(if neg then NegU64(p.value) else p.value, p.tail)
  }

  /** The loop of `leb16_parse`, proved to compute Parse. */
  method ParseLeb16(s: string, pos: nat) returns (x: nat, tail: nat)
    ensures Parsed(x, tail) == Parse(s, pos)
  {
    tail := pos;
    var neg := false;
    var start := pos;
    if At(s, start) == 'w' {
      neg := true;
      start := start + 1;
    }
    x := 0;
    var i: nat := 0;
    while true
      invariant IsU64(x)
      invariant DigitsFrom(s, start + i, i, x) == DigitsFrom(s, start, 0, 0)
      invariant (if neg then pos + 1 else pos) == start
      invariant neg <==> At(s, pos) == 'w'
      decreases |s| - (start + i)
    {
      var nibble := CharNibble(At(s, start + i));
      if nibble.None? {
        // invalid character: value 0, tail left at the original start
        x := 0;
        return;
      }
      x := (x + Placed(nibble.value, i)) % U64;
      i := i + 1;
      if nibble.value < 16 {
        break;
      }
    }
    tail := start + i;
    if neg {
      x := NegU64(x);
    }
  }

  /** One step of the nibble loop: adding the low nibble now and the rest later adds x. */
  lemma AccStep(acc: nat, x: nat, p: nat)
    ensures ((acc + (x % 16) * p) % U64 + (x / 16) * (16 * p)) % U64 == (acc + x * p) % U64
  {
    ModAddAbsorb(acc + (x % 16) * p, (x / 16) * (16 * p), U64);
    assert (x % 16) * p + (x / 16) * (16 * p) == (x % 16 + 16 * (x / 16)) * p;
    assert x % 16 + 16 * (x / 16) == x;
  }

  /**
   * What the nibble loop accumulates reading the nibbles of x from position
   * i on, starting from acc: each low nibble weighted by its position, modulo 2^64.
   */
  function Accumulated(acc: nat, x: nat, i: nat): nat
    decreases x
  {
    if x <= 15 then (acc + x * Pow16(i)) % U64
    else Accumulated((acc + (x % 16) * Pow16(i)) % U64, x / 16, i + 1)
  }

  /** The accumulated value is x placed at nibble position i, added to acc modulo 2^64. */
  lemma {:induction false} AccumulatedValue(acc: nat, x: nat, i: nat)
    ensures Accumulated(acc, x, i) == (acc + x * Pow16(i)) % U64
    decreases x
  {
    if x > 15 {
      AccumulatedValue((acc + (x % 16) * Pow16(i)) % U64, x / 16, i + 1);
      AccNext(acc, x, i);
    }
  }

  /** Reading the characters Digits(x) at position q accumulates x's nibbles at position i onward. */
  lemma {:induction false} DigitsFromDigits(s: string, q: nat, x: nat, i: nat, acc: nat)
    requires q + |Digits(x)| <= |s| && s[q..q + |Digits(x)|] == Digits(x)
    ensures DigitsFrom(s, q, i, acc) == Some(Parsed(Accumulated(acc, x, i), q + |Digits(x)|))
    decreases x
  {
    if x <= 15 {
      DigitsLast(s, q, x, i, acc);
    } else {
      var acc' := DigitsHead(s, q, x, i, acc);
      DigitsFromDigits(s, q + 1, x / 16, i + 1, acc');
    }
  }

  /** Nibble i and the ones above it, accumulated in two steps. */
  lemma AccNext(acc: nat, x: nat, i: nat)
    ensures ((acc + (x % 16) * Pow16(i)) % U64 + (x / 16) * Pow16(i + 1)) % U64 == (acc + x * Pow16(i)) % U64
  {
    assert Pow16(i + 1) == 16 * Pow16(i);
    AccStep(acc, x, Pow16(i));
  }

  /** A single nibble: it carries all of x and ends the number. */
  lemma DigitsLast(s: string, q: nat, x: nat, i: nat, acc: nat)
    requires x <= 15 && q + |Digits(x)| <= |s| && s[q..q + |Digits(x)|] == Digits(x)
    ensures DigitsFrom(s, q, i, acc) == Some(Parsed((acc + x * Pow16(i)) % U64, q + |Digits(x)|))
  {
    assert At(s, q) == Digits(x)[0];
    NibbleCharInverse(x);
    assert x % 16 == x;
    PlacedValue(x, i);
  }

  /**
   * The first of several nibbles: it carries x's low nibble, the loop goes on
   * with the characters of x / 16, and both the loop and Accumulated go on
   * from the same value acc'.
   */
  lemma DigitsHead(s: string, q: nat, x: nat, i: nat, acc: nat) returns (acc': nat)
    requires x > 15 && q + |Digits(x)| <= |s| && s[q..q + |Digits(x)|] == Digits(x)
    ensures DigitsFrom(s, q, i, acc) == DigitsFrom(s, q + 1, i + 1, acc')
    ensures Accumulated(acc, x, i) == Accumulated(acc', x / 16, i + 1)
    ensures |Digits(x)| == 1 + |Digits(x / 16)|
    ensures q + 1 + |Digits(x / 16)| <= |s| && s[q + 1..q + 1 + |Digits(x / 16)|] == Digits(x / 16)
  {
    var d := Digits(x);
    var n := x % 16 + 16;
    assert At(s, q) == d[0];
    NibbleCharInverse(n);
    assert CharNibble(At(s, q)) == Some(n);
    assert n % 16 == x % 16;
    var d' := Digits(x / 16);
    assert d == [NibbleChar(n)] + d';
    assert s[q + 1..q + 1 + |d'|] == d[1..];
    PlacedValue(n, i);
    acc' := (acc + (x % 16) * Pow16(i)) % U64;
  }

  /**
   * Round trip: parsing the characters `leb16_print(x)` emits, wherever they
   * stand and whatever follows them, gives back x and leaves `tail` just past them.
   */
  lemma PrintParse(prefix: string, x: nat, rest: string)
    requires IsU64(x)
    ensures Parse(prefix + Print(x) + rest, |prefix|) == Parsed(x, |prefix| + |Print(x)|)
  {
    if x > I64Max {
      NegativeParse(prefix, x, rest);
    } else {
      MagnitudeAt(prefix, x, rest);
      assert At(prefix + Print(x) + rest, |prefix|) == Digits(x)[0];
    }
  }

  /** The round trip for a value negative as an `intmax_t`: the 'w', then the magnitude. */
  lemma NegativeParse(prefix: string, x: nat, rest: string)
    requires IsU64(x) && x > I64Max
    ensures Parse(prefix + Print(x) + rest, |prefix|) == Parsed(x, |prefix| + |Print(x)|)
  {
    var s := prefix + Print(x) + rest;
    var m := NegU64(x);
    assert s == (prefix + "w") + Digits(m) + rest;
    MagnitudeAt(prefix + "w", m, rest);
    assert At(s, |prefix|) == 'w';
    assert NegU64(m) == x;
  }

  lemma MagnitudeAt(prefix: string, m: nat, rest: string)
    requires IsU64(m)
    ensures DigitsFrom(prefix + Digits(m) + rest, |prefix|, 0, 0) == Some(Parsed(m, |prefix| + |Digits(m)|))
  {
    var s := prefix + Digits(m) + rest;
    var p := |prefix|;
    assert s[p..p + |Digits(m)|] == Digits(m);
    DigitsFromDigits(s, p, m, 0, 0);
    AccumulatedWhole(m);
  }

  /** Read from nibble 0 with nothing accumulated, the nibbles of a `uintmax_t` give it back. */
  lemma AccumulatedWhole(m: nat)
    requires IsU64(m)
    ensures Accumulated(0, m, 0) == m
  {
    AccumulatedValue(0, m, 0);
    assert Pow16(0) == 1;
    assert m * Pow16(0) == m;
  }

  /** The output starts with 'w' exactly when x is negative as an `intmax_t`. */
  lemma PrintSign(x: nat)
    requires IsU64(x)
    ensures |Print(x)| >= 1
    ensures Print(x)[0] == 'w' <==> ToI64(x) < 0
  {
    if x <= I64Max {
      assert CharNibble(Print(x)[0]).Some?;
    }
  }

  /**
   * A character outside the alphabet where a nibble belongs, after any
   * number of continuation nibbles and after an optional 'w', makes
   * `leb16_parse` return 0 with `tail` left at the original start.
   */
  lemma {:induction false} InvalidNibble(s: string, pos: nat, j: nat)
    requires
      var start := if At(s, pos) == 'w' then pos + 1 else pos;
      && (forall k :: start <= k < start + j ==> CharNibble(At(s, k)).Some? && CharNibble(At(s, k)).value >= 16)
      && CharNibble(At(s, start + j)).None?
    ensures Parse(s, pos) == Parsed(0, pos)
  {
    var start := if At(s, pos) == 'w' then pos + 1 else pos;
    InvalidNibbleFrom(s, start, 0, 0, j);
  }

  lemma {:induction false} InvalidNibbleFrom(s: string, q: nat, i: nat, acc: nat, j: nat)
    requires forall k :: q <= k < q + j ==> CharNibble(At(s, k)).Some? && CharNibble(At(s, k)).value >= 16
    requires CharNibble(At(s, q + j)).None?
    ensures DigitsFrom(s, q, i, acc) == None
    decreases j
  {
    if j > 0 {
      var n := CharNibble(At(s, q)).value;
      InvalidNibbleFrom(s, q + 1, i + 1, (acc + Placed(n, i)) % U64, j - 1);
    }
  }

  /** When `tail` does not move, the value returned is 0. */
  lemma StuckTailMeansZero(s: string, pos: nat)
    ensures Parse(s, pos).tail == pos ==> Parse(s, pos).value == 0
  {
  }
}

/** Byte strings as the pipeline handles them. Go's `[]byte` and `string` are both
    immutable-in-use byte sequences here, and the standard-library routines the pipeline
    calls are given their Go meaning: `strings.HasPrefix`, `strings.Split` and
    `strings.Join` on a one-byte separator, `strconv.Atoi` and `strconv.Itoa`. */
module Bytes {

  newtype byte = x: int | 0 <= x < 256

  const NEWLINE: byte := 10  // '\n'
  const TAB: byte := 9       // '\t'
  const HASH: byte := 35     // '#'
  const PLUS: byte := 43     // '+'
  const MINUS: byte := 45    // '-'
  const ZERO: byte := 48     // '0'

  predicate HasPrefix(s: seq<byte>, prefix: seq<byte>) {
    |prefix| <= |s| && s[..|prefix|] == prefix
  }

  /** `strings.Join(parts, sep)`: the parts with one separator between neighbours. */
  function Join(parts: seq<seq<byte>>, sep: byte): seq<byte>
    requires |parts| > 0
    decreases |parts|
  {
    if |parts| == 1 then parts[0] else parts[0] + [sep] + Join(parts[1..], sep)
  }

  /** `strings.Split(s, sep)`: the maximal separator-free pieces of `s`, in order. There is
      always at least one piece, and `Join` puts them back together. */
  function Split(s: seq<byte>, sep: byte): (parts: seq<seq<byte>>)
    ensures |parts| > 0
    ensures forall i :: 0 <= i < |parts| ==> sep !in parts[i]
    ensures Join(parts, sep) == s
    decreases |s|
  {
    if |s| == 0 then [[]]
    else
      var rest := Split(s[1..], sep);
      if s[0] == sep then
        assert ([[]] + rest)[1..] == rest;
        [[]] + rest
      else
        var parts := [[s[0]] + rest[0]] + rest[1..];
        assert parts[1..] == rest[1..];
        assert s == [s[0]] + s[1..];
        parts
  }

  lemma {:induction false} SplitPrefix(p: seq<byte>, sep: byte, rest: seq<byte>)
    requires sep !in p
    ensures Split(p + [sep] + rest, sep) == [p] + Split(rest, sep)
    decreases |p|
  {
    if |p| == 0 {
      assert p + [sep] + rest == [sep] + rest;
      assert ([sep] + rest)[1..] == rest;
    } else {
      assert (p + [sep] + rest)[1..] == p[1..] + [sep] + rest;
      SplitPrefix(p[1..], sep, rest);
      assert [p[0]] + p[1..] == p;
    }
  }

  lemma {:induction false} SplitNoSep(p: seq<byte>, sep: byte)
    requires sep !in p
    ensures Split(p, sep) == [p]
    decreases |p|
  {
    if |p| > 0 {
      SplitNoSep(p[1..], sep);
      assert [p[0]] + p[1..] == p;
    }
  }

  /** Splitting a joined sequence of separator-free parts gives the parts back. */
  lemma {:induction false} SplitJoin(parts: seq<seq<byte>>, sep: byte)
    requires |parts| > 0
    requires forall i :: 0 <= i < |parts| ==> sep !in parts[i]
    ensures Split(Join(parts, sep), sep) == parts
    decreases |parts|
  {
    if |parts| == 1 {
      SplitNoSep(parts[0], sep);
    } else {
      SplitJoin(parts[1..], sep);
      SplitPrefix(parts[0], sep, Join(parts[1..], sep));
      assert [parts[0]] + parts[1..] == parts;
    }
  }

  /** A byte that is neither the separator nor in any part is not in the joined bytes. */
  lemma {:induction false} JoinAvoids(parts: seq<seq<byte>>, sep: byte, b: byte)
    requires |parts| > 0 && b != sep
    requires forall i :: 0 <= i < |parts| ==> b !in parts[i]
    ensures b !in Join(parts, sep)
    decreases |parts|
  {
    if |parts| > 1 {
      JoinAvoids(parts[1..], sep, b);
    }
  }

  /** A string ending in the separator splits into at least two pieces, the last empty. */
  lemma {:induction false} SplitTrailing(s: seq<byte>, sep: byte)
    requires |s| > 0 && s[|s| - 1] == sep
    ensures |Split(s, sep)| >= 2 && Split(s, sep)[|Split(s, sep)| - 1] == []
    decreases |s|
  {
    if |s| == 1 {
      assert s[1..] == [];
    } else {
      SplitTrailing(s[1..], sep);
    }
  }

  predicate IsDigit(b: byte) {
    ZERO <= b <= ZERO + 9
  }

  predicate AllDigits(s: seq<byte>) {
    forall i :: 0 <= i < |s| ==> IsDigit(s[i])
  }

  /** The value of a string of decimal digits, most significant first. */
  function DigitsValue(s: seq<byte>): nat
    requires AllDigits(s)
    decreases |s|
  {
    if |s| == 0 then 0 else 10 * DigitsValue(s[..|s| - 1]) + (s[|s| - 1] as int - ZERO as int)
  }

  predicate IsSign(b: byte) {
    b == PLUS || b == MINUS
  }

  /** `strconv.Atoi` with the error discarded: an optional sign followed by at least one
      decimal digit gives its value, anything else (the empty string, `-`, `12a`) gives 0.
      The range error for values beyond 64 bits is not modelled. */
  function Atoi(s: seq<byte>): (n: int)
    ensures n != 0 ==> |s| > 0
    ensures n < 0 ==> s[0] == MINUS
  {
    if |s| > 0 && AllDigits(s) then DigitsValue(s)
    else if |s| > 1 && IsSign(s[0]) && AllDigits(s[1..]) then
      var magnitude: int := DigitsValue(s[1..]);
      if s[0] == MINUS then -magnitude else magnitude
    else 0
  }

  /** Every field `strconv.Atoi` rejects reads as 0: the empty field, a lone sign, a field
      that starts with neither a digit nor a sign, and a field with a non-digit after its
      first byte. */
  lemma AtoiRejects(s: seq<byte>)
    requires || |s| == 0
             || (|s| == 1 && IsSign(s[0]))
             || (|s| > 0 && !IsDigit(s[0]) && !IsSign(s[0]))
             || (exists i :: 1 <= i < |s| && !IsDigit(s[i]))
    ensures Atoi(s) == 0
  {
    if exists i :: 1 <= i < |s| && !IsDigit(s[i]) {
      var i :| 1 <= i < |s| && !IsDigit(s[i]);
      assert !AllDigits(s);
      assert s[1..][i - 1] == s[i];
      assert !AllDigits(s[1..]);
    }
  }

  /** A field of digits only reads as its decimal value. */
  lemma AtoiDigits(s: seq<byte>)
    requires |s| > 0 && AllDigits(s)
    ensures Atoi(s) == DigitsValue(s)
  {
  }

  /** A sign followed by digits reads as the digits' value, negated for `-`. */
  lemma AtoiSigned(s: seq<byte>)
    requires |s| > 1 && IsSign(s[0]) && AllDigits(s[1..])
    ensures var magnitude: int := DigitsValue(s[1..]);
      Atoi(s) == if s[0] == MINUS then -magnitude else magnitude
  {
    assert !IsDigit(s[0]);
  }

  /** The shortest decimal numeral of `n`. */
  function Decimal(n: nat): (s: seq<byte>)
    decreases n
  {
    if n < 10 then [(ZERO as int + n) as byte]
    else Decimal(n / 10) + [(ZERO as int + n % 10) as byte]
  }

  /** `strconv.Itoa`: a minus sign for negative numbers, then the decimal numeral. */
  function Itoa(n: int): seq<byte> {
    if n < 0 then [MINUS] + Decimal(-n) else Decimal(n)
  }

  lemma {:induction false} DecimalDigits(n: nat)
    ensures |Decimal(n)| > 0
    ensures AllDigits(Decimal(n))
    ensures DigitsValue(Decimal(n)) == n
    decreases n
  {
    if n >= 10 {
      DecimalDigits(n / 10);
      var s := Decimal(n);
      assert s[..|s| - 1] == Decimal(n / 10);
    }
  }

  /** `strconv.Atoi` reads back what `strconv.Itoa` writes. */
  lemma AtoiItoa(n: int)
    ensures Atoi(Itoa(n)) == n
  {
    if n < 0 {
      DecimalDigits(-n);
      var s := Itoa(n);
      assert s[1..] == Decimal(-n);
      assert !IsDigit(s[0]);
    } else {
      DecimalDigits(n);
    }
  }

  /** Bytes of `Itoa(n)` are digits or a minus sign, so never a tab or a newline. */
  lemma ItoaBytes(n: int)
    ensures forall i :: 0 <= i < |Itoa(n)| ==> IsDigit(Itoa(n)[i]) || Itoa(n)[i] == MINUS
  {
    if n < 0 {
      DecimalDigits(-n);
      assert Itoa(n) == [MINUS] + Decimal(-n);
    } else {
      DecimalDigits(n);
    }
  }
}

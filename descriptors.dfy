/**
 * Fingerprint descriptors: the key "anchorFrequency,frequency,deltaTime"
 * written by `_fingerprint_descriptor` with `"{},{},{}".format(...)`, and its
 * inverse, the `[int(i) for i in descriptor.split(",")]` parse used when
 * target zones are rebuilt from a fingerprint.
 */
module Descriptors {
  import opened Wrappers

  // ---------------------------------------------------------------------
  // Decimal numerals, as Python's str() writes them and int() reads them
  // ---------------------------------------------------------------------

  predicate IsDigit(c: char) {
    '0' <= c <= '9'
  }

  predicate AllDigits(s: string) {
    forall i :: 0 <= i < |s| ==> IsDigit(s[i])
  }

  function DigitChar(d: nat): (c: char)
    requires d < 10
    ensures IsDigit(c)
  {
    (('0' as int) + d) as char
  }

  function DigitValue(c: char): (d: nat)
    requires IsDigit(c)
    ensures d < 10
  {
    (c as int) - ('0' as int)
  }

  /** str(n) for n >= 0: the shortest numeral, without leading zeros. */
  function NatToString(n: nat): (s: string)
    ensures |s| >= 1 && AllDigits(s)
    ensures s[0] == '0' ==> n == 0 && |s| == 1
  {
    if n < 10 then [DigitChar(n)] else NatToString(n / 10) + [DigitChar(n % 10)]
  }

  /** str(i): a minus sign in front of negative numbers. */
  function IntToString(i: int): (s: string)
    ensures ',' !in s
    ensures |s| >= 1
  {
    if i < 0 then "-" + NatToString(-i) else NatToString(i)
  }

  /** The value of a non-empty string of decimal digits, most significant first. */
  function DigitsValue(s: string): nat
    requires |s| >= 1 && AllDigits(s)
  {
    if |s| == 1 then DigitValue(s[0])
    else 10 * DigitsValue(s[..|s| - 1]) + DigitValue(s[|s| - 1])
  }

  /**
   * int(s) on an optionally signed decimal numeral; None where int() raises
   * ValueError.
   */
  function ParseInt(s: string): Option<int> {
    if |s| >= 2 && (s[0] == '-' || s[0] == '+') && AllDigits(s[1..]) then
      Some(if s[0] == '-' then -(DigitsValue(s[1..]) as int) else DigitsValue(s[1..]))
    else if |s| >= 1 && AllDigits(s) then
      Some(DigitsValue(s))
    else
      None
  }

  lemma {:induction false} DigitsValueOfNatToString(n: nat)
    ensures DigitsValue(NatToString(n)) == n
  {
    if n >= 10 {
      var s := NatToString(n);
      assert s[..|s| - 1] == NatToString(n / 10);
      DigitsValueOfNatToString(n / 10);
    }
  }

  lemma ParseDigits(n: string)
    requires |n| >= 1 && AllDigits(n)
    ensures ParseInt(n) == Some(DigitsValue(n))
  {
    assert IsDigit(n[0]);
  }

  lemma ParseNegative(n: string)
    requires |n| >= 1 && AllDigits(n)
    ensures ParseInt("-" + n) == Some(-(DigitsValue(n) as int))
  {
    var s := "-" + n;
    assert s[0] == '-' && s[1..] == n;
  }

  lemma ParseNatString(n: nat)
    ensures ParseInt(NatToString(n)) == Some(n)
  {
    DigitsValueOfNatToString(n);
    ParseDigits(NatToString(n));
  }

  lemma ParseNegativeString(n: nat)
    ensures ParseInt("-" + NatToString(n)) == Some(-(n as int))
  {
    DigitsValueOfNatToString(n);
    ParseNegative(NatToString(n));
  }

  /** int(str(i)) == i, negative numbers included. */
  lemma ParseIntToString(i: int)
    ensures ParseInt(IntToString(i)) == Some(i)
  {
    if i < 0 {
      assert IntToString(i) == "-" + NatToString(-i);
      ParseNegativeString(-i);
    } else {
      assert IntToString(i) == NatToString(i);
      ParseNatString(i);
    }
  }

  // ---------------------------------------------------------------------
  // str.split and its inverse str.join
  // ---------------------------------------------------------------------

  /** s.split(sep): the pieces between the separators, in order. */
  function Split(s: string, sep: char): (parts: seq<string>)
    ensures |parts| >= 1
    ensures forall i :: 0 <= i < |parts| ==> sep !in parts[i]
  {
    if |s| == 0 then [""]
    else if s[0] == sep then [""] + Split(s[1..], sep)
    else
      var rest := Split(s[1..], sep);
      [[s[0]] + rest[0]] + rest[1..]
  }

  /** sep.join(parts) */
  function Join(parts: seq<string>, sep: char): string
    requires |parts| >= 1
  {
    if |parts| == 1 then parts[0] else parts[0] + [sep] + Join(parts[1..], sep)
  }

  /** Joining the pieces of a split gives the original string back. */
  lemma {:induction false} JoinSplit(s: string, sep: char)
    ensures Join(Split(s, sep), sep) == s
  {
    if |s| > 0 {
      JoinSplit(s[1..], sep);
      if s[0] != sep {
        var rest := Split(s[1..], sep);
        if |rest| > 1 {
          assert ([[s[0]] + rest[0]] + rest[1..])[1..] == rest[1..];
        }
      }
    }
  }

  /** A piece free of the separator splits off in front. */
  lemma {:induction false} SplitPrefix(x: string, sep: char, y: string)
    requires sep !in x
    ensures Split(x + [sep] + y, sep) == [x] + Split(y, sep)
  {
    if |x| > 0 {
      assert (x + [sep] + y)[1..] == x[1..] + [sep] + y;
      SplitPrefix(x[1..], sep, y);
      assert [x[0]] + x[1..] == x;
    } else {
      assert x + [sep] + y == [sep] + y;
    }
  }

  lemma {:induction false} SplitNoSeparator(x: string, sep: char)
    requires sep !in x
    ensures Split(x, sep) == [x]
  {
    if |x| > 0 {
      SplitNoSeparator(x[1..], sep);
      assert [x[0]] + x[1..] == x;
    }
  }

  // ---------------------------------------------------------------------
  // Descriptors
  // ---------------------------------------------------------------------

  /** The geometric relation of one anchor to one target-zone point. */
  datatype Descriptor = Descriptor(anchorFrequency: int, frequency: int, deltaTime: int)

  /** "{},{},{}".format(anchor_frequency, frequency, delta_time) */
  function Format(d: Descriptor): string {
    IntToString(d.anchorFrequency) + "," + IntToString(d.frequency) + "," + IntToString(d.deltaTime)
  }

  /**
   * `_fingerprint_descriptor(time, frequency, anchor_frequency, anchor_time)`:
   * the key of the relation from the anchor to the point.
   */
  function FingerprintDescriptor(time: int, frequency: int, anchorFrequency: int, anchorTime: int): string {
    Format(Descriptor(anchorFrequency, frequency, time - anchorTime))
  }

  /**
   * `values = [int(i) for i in descriptor.split(",")]` followed by reading
   * values[0], values[1] and values[2]: None where a piece is not a numeral
   * (ValueError) or there are fewer than three pieces (IndexError).
   */
  function ParseDescriptor(s: string): (r: Option<Descriptor>)
    ensures r.Some? ==> |Split(s, ',')| >= 3
  {
    var parts := Split(s, ',');
    if (forall i :: 0 <= i < |parts| ==> ParseInt(parts[i]).Some?) && |parts| >= 3 then
      Some(Descriptor(ParseInt(parts[0]).value, ParseInt(parts[1]).value, ParseInt(parts[2]).value))
    else
      None
  }

  /** Three numerals joined by commas split back into the three numerals. */
  lemma SplitThree(a: string, f: string, t: string)
    requires ',' !in a && ',' !in f && ',' !in t
    ensures Split(a + "," + f + "," + t, ',') == [a, f, t]
  {
    assert a + "," + f + "," + t == a + [','] + (f + [','] + t);
    SplitPrefix(a, ',', f + [','] + t);
    SplitPrefix(f, ',', t);
    SplitNoSeparator(t, ',');
  }

  /** Parsing inverts formatting, for every triple of integers. */
  lemma FormatParse(d: Descriptor)
    ensures ParseDescriptor(Format(d)) == Some(d)
  {
    var a, f, t := IntToString(d.anchorFrequency), IntToString(d.frequency), IntToString(d.deltaTime);
    SplitThree(a, f, t);
    var parts := Split(Format(d), ',');
    assert parts == [a, f, t];
    ParseIntToString(d.anchorFrequency);
    ParseIntToString(d.frequency);
    ParseIntToString(d.deltaTime);
    assert forall i :: 0 <= i < |parts| ==> ParseInt(parts[i]).Some?;
  }

  /** Distinct relations get distinct keys. */
  lemma FormatInjective(d1: Descriptor, d2: Descriptor)
    ensures Format(d1) == Format(d2) <==> d1 == d2
  {
    FormatParse(d1);
    FormatParse(d2);
  }
}

/** Decimal text: the integer reading of `std::stoi`, decimal printing of
    counters (`std::to_string`) and comma-separated fields (`std::getline`
    with a ',' delimiter), with the round trips between them. */
module Decimal {
  import opened ScampTypes

  predicate IsDigit(c: char) {
    '0' <= c <= '9'
  }

  /** The characters `isspace` accepts in the "C" locale. */
  predicate IsSpace(c: char) {
    c == ' ' || c == '\t' || c == '\n' || c == '\U{0B}' || c == '\U{0C}' || c == '\r'
  }

  predicate AllDigits(s: string) {
    forall i :: 0 <= i < |s| ==> IsDigit(s[i])
  }

  function DigitValue(c: char): (d: nat)
    requires IsDigit(c)
    ensures d < 10
  {
    (c as int) - ('0' as int)
  }

  function DigitChar(d: nat): (c: char)
    requires d < 10
    ensures IsDigit(c) && DigitValue(c) == d
  {
    (('0' as int) + d) as char
  }

  /** The number a run of decimal digits denotes, most significant first. */
  function DigitsValue(s: string): nat
    requires AllDigits(s)
  {
    if |s| == 0 then 0 else DigitsValue(s[..|s| - 1]) * 10 + DigitValue(s[|s| - 1])
  }

  /** Decimal rendering of a natural number, without leading zeros. */
  function NatToString(n: nat): (s: string)
    ensures 1 <= |s|
    ensures AllDigits(s)
    ensures DigitsValue(s) == n
    ensures |s| == 1 || s[0] != '0'
    decreases n
  {
    if n < 10 then [DigitChar(n)]
    else
      var prefix := NatToString(n / 10);
      var s := prefix + [DigitChar(n % 10)];
      assert s[..|s| - 1] == prefix;
      s
  }

  /** Decimal rendering of an integer, with a leading '-' when negative. */
  function IntToString(x: int): (s: string)
    ensures 1 <= |s|
    ensures x < 0 <==> s[0] == '-'
  {
    if x < 0 then "-" + NatToString(-x) else NatToString(x)
  }

  /** Two different numbers never print the same. */
  lemma NatToStringInjective(m: nat, n: nat)
    requires NatToString(m) == NatToString(n)
    ensures m == n
  {
    assert DigitsValue(NatToString(m)) == m;
  }

  /** The first position at or after `i` that is not white space. */
  function SkipSpaces(s: string, i: nat): (j: nat)
    requires i <= |s|
    ensures i <= j <= |s|
    ensures forall k :: i <= k < j ==> IsSpace(s[k])
    ensures j == |s| || !IsSpace(s[j])
    decreases |s| - i
  {
    if i == |s| || !IsSpace(s[i]) then i else SkipSpaces(s, i + 1)
  }

  /** The end of the run of digits starting at `i`. */
  function DigitRunEnd(s: string, i: nat): (j: nat)
    requires i <= |s|
    ensures i <= j <= |s|
    ensures AllDigits(s[i..j])
    ensures j == |s| || !IsDigit(s[j])
    decreases |s| - i
  {
    if i == |s| || !IsDigit(s[i]) then i else DigitRunEnd(s, i + 1)
  }

  const MinInt32: int := -0x8000_0000
  const MaxInt32: int := 0x7FFF_FFFF

  /** `std::stoi` in base 10: leading white space is skipped, one optional
      sign is read, then the longest run of digits; whatever follows is
      ignored. No digit at all is an invalid argument, and a value outside
      the 32-bit range is out of range. */
  function Stoi(s: string): (r: Result<int>)
    ensures r.Ok? ==> MinInt32 <= r.value <= MaxInt32
    ensures r.Err? ==> r.error == InvalidArgument || r.error == OutOfRange
    ensures (forall k :: 0 <= k < |s| ==> !IsDigit(s[k])) ==> r == Err(InvalidArgument)
    ensures var i := SkipSpaces(s, 0);
            var j := if i < |s| && (s[i] == '-' || s[i] == '+') then i + 1 else i;
            r == Err(InvalidArgument) <==> j == |s| || !IsDigit(s[j])
  {
    var i := SkipSpaces(s, 0);
    var negative := i < |s| && s[i] == '-';
    var j := if i < |s| && (s[i] == '-' || s[i] == '+') then i + 1 else i;
    var k := DigitRunEnd(s, j);
    if k == j then Err(InvalidArgument)
    else
      var magnitude: int := DigitsValue(s[j..k]);
      var v := if negative then -magnitude else magnitude;
      if v < MinInt32 || MaxInt32 < v then Err(OutOfRange) else Ok(v)
  }

  /** Reading back a printed 32-bit integer gives the integer. */
  lemma StoiIntToString(x: int)
    requires MinInt32 <= x <= MaxInt32
    ensures Stoi(IntToString(x)) == Ok(x)
  {
    assert "" + "" + IntToString(x) + "" == IntToString(x);
    StoiReadsNumber("", "", x, "");
  }

  /** `std::stoi` reads a number after leading white space and an optional
      '+', and stops at the first character that is not a digit. */
  lemma StoiReadsNumber(spaces: string, sign: string, x: int, suffix: string)
    requires forall k :: 0 <= k < |spaces| ==> IsSpace(spaces[k])
    requires sign == "" || (sign == "+" && 0 <= x)
    requires MinInt32 <= x <= MaxInt32
    requires |suffix| == 0 || !IsDigit(suffix[0])
    ensures Stoi(spaces + sign + IntToString(x) + suffix) == Ok(x)
  {
    if x < 0 {
      assert sign == "";
      StoiReadsNegative(spaces, x, suffix);
    } else {
      StoiReadsDigits(spaces + sign + IntToString(x) + suffix, spaces, sign, NatToString(x), suffix);
    }
  }

  /** The negative case of StoiReadsNumber: the printed '-' is the sign. */
  lemma StoiReadsNegative(spaces: string, x: int, suffix: string)
    requires forall k :: 0 <= k < |spaces| ==> IsSpace(spaces[k])
    requires MinInt32 <= x < 0
    requires |suffix| == 0 || !IsDigit(suffix[0])
    ensures Stoi(spaces + "" + IntToString(x) + suffix) == Ok(x)
  {
    var s := spaces + "" + IntToString(x) + suffix;
    NegativeLayout(spaces, x, suffix);
    StoiReadsDigits(s, spaces, "-", NatToString(-x), suffix);
  }

  /** A printed negative number is a '-' followed by the digits of its
      magnitude, wherever it stands in a text. */
  lemma NegativeLayout(spaces: string, x: int, suffix: string)
    requires x < 0
    ensures spaces + "" + IntToString(x) + suffix == spaces + "-" + NatToString(-x) + suffix
  {
    assert IntToString(x) == "-" + NatToString(-x);
    assert spaces + "" == spaces;
  }

  /** `std::stoi` on a text `s` made of white space, an optional sign, a
      run of digits and a rest that does not continue the run: the value
      of the digits, negated after a '-', when it lies in the 32-bit range,
      and out of range otherwise. Leading zeros and the rest play no part. */
  lemma StoiReadsDigits(s: string, spaces: string, sign: string, digits: string, suffix: string)
    requires s == spaces + sign + digits + suffix
    requires forall k :: 0 <= k < |spaces| ==> IsSpace(spaces[k])
    requires sign == "" || sign == "+" || sign == "-"
    requires 0 < |digits| && AllDigits(digits)
    requires |suffix| == 0 || !IsDigit(suffix[0])
    ensures var magnitude: int := DigitsValue(digits);
            var v := if sign == "-" then -magnitude else magnitude;
            Stoi(s) == if v < MinInt32 || MaxInt32 < v then Err(OutOfRange) else Ok(v)
  {
    SignedHead(spaces, sign, digits, suffix);
    DigitRunOfParts(spaces + sign, digits, suffix);
    StoiOfLayout(s, |spaces|, |spaces| + |sign|, digits, sign == "-");
  }

  /** White space, then a sign or nothing, then a digit: `std::stoi`
      skips exactly the white space and reads the sign. */
  lemma SignedHead(spaces: string, sign: string, digits: string, suffix: string)
    requires forall k :: 0 <= k < |spaces| ==> IsSpace(spaces[k])
    requires sign == "" || sign == "+" || sign == "-"
    requires 0 < |digits| && IsDigit(digits[0])
    ensures var s := spaces + sign + digits + suffix;
            var i := |spaces|;
            && i < |s| && SkipSpaces(s, 0) == i
            && (s[i] == '-' <==> sign == "-")
            && i + |sign| == (if s[i] == '-' || s[i] == '+' then i + 1 else i)
  {
    var s := spaces + sign + digits + suffix;
    assert s[..|spaces|] == spaces;
    assert s[|spaces|] == if sign == "" then digits[0] else sign[0];
    SkipSpacesOver(s, 0, |spaces|);
  }

  /** `std::stoi` once the white space, the sign and the digit run of `s`
      are located. */
  lemma StoiOfLayout(s: string, i: nat, start: nat, digits: string, negative: bool)
    requires i < |s| && SkipSpaces(s, 0) == i
    requires start == (if s[i] == '-' || s[i] == '+' then i + 1 else i)
    requires negative == (s[i] == '-')
    requires 0 < |digits| && start + |digits| <= |s|
    requires DigitRunEnd(s, start) == start + |digits| && s[start..start + |digits|] == digits
    ensures AllDigits(digits)
    ensures var magnitude: int := DigitsValue(digits);
            var v := if negative then -magnitude else magnitude;
            Stoi(s) == if v < MinInt32 || MaxInt32 < v then Err(OutOfRange) else Ok(v)
  {
    StoiDigitsAt(s, i, start, start + |digits|);
  }

  /** The digit run of `head + digits + suffix` that starts after `head`
      is exactly `digits`. */
  lemma DigitRunOfParts(head: string, digits: string, suffix: string)
    requires AllDigits(digits)
    requires |suffix| == 0 || !IsDigit(suffix[0])
    ensures var s := head + digits + suffix;
            && |head| + |digits| <= |s|
            && DigitRunEnd(s, |head|) == |head| + |digits|
            && s[|head|..|head| + |digits|] == digits
  {
    DigitsAndSuffix(head, digits, suffix);
    DigitRunOver(head + digits + suffix, |head|, |head| + |digits|);
  }

  /** The digits of `head + digits + suffix` sit in one run, which the
      suffix does not continue. */
  lemma DigitsAndSuffix(head: string, digits: string, suffix: string)
    requires AllDigits(digits)
    requires |suffix| == 0 || !IsDigit(suffix[0])
    ensures var s := head + digits + suffix;
            var end := |head| + |digits|;
            && s[|head|..end] == digits
            && (forall k :: |head| <= k < end ==> IsDigit(s[k]))
            && (end == |s| || !IsDigit(s[end]))
  {
    var s := head + digits + suffix;
    var end := |head| + |digits|;
    assert s[|head|..end] == digits;
    DigitsInside(s, |head|, end);
    if end < |s| {
      assert s[end] == suffix[0];
    }
  }

  /** What `std::stoi` returns once the white space, the sign and the
      digit run are located. */
  lemma StoiDigitsAt(s: string, i: nat, start: nat, end: nat)
    requires i < |s| && SkipSpaces(s, 0) == i
    requires start == (if s[i] == '-' || s[i] == '+' then i + 1 else i)
    requires start < end && DigitRunEnd(s, start) == end
    ensures var v: int := DigitsValue(s[start..end]);
            var signed := if s[i] == '-' then -v else v;
            Stoi(s) == if signed < MinInt32 || MaxInt32 < signed then Err(OutOfRange) else Ok(signed)
  {
  }

  /** A slice that is all digits has a digit at every position inside. */
  lemma DigitsInside(s: string, start: nat, end: nat)
    requires start <= end <= |s| && AllDigits(s[start..end])
    ensures forall k :: start <= k < end ==> IsDigit(s[k])
  {
    forall k | start <= k < end
      ensures IsDigit(s[k])
    {
      assert s[start..end][k - start] == s[k];
    }
  }

  /** A run of white space ending before a non-space is skipped whole. */
  lemma {:induction false} SkipSpacesOver(s: string, i: nat, e: nat)
    requires i <= e < |s|
    requires forall k :: i <= k < e ==> IsSpace(s[k])
    requires !IsSpace(s[e])
    ensures SkipSpaces(s, i) == e
    decreases e - i
  {
    if i < e {
      SkipSpacesOver(s, i + 1, e);
    }
  }

  /** A run of digits ending at a non-digit (or at the end) is read whole. */
  lemma {:induction false} DigitRunOver(s: string, i: nat, e: nat)
    requires i <= e <= |s|
    requires forall k :: i <= k < e ==> IsDigit(s[k])
    requires e == |s| || !IsDigit(s[e])
    ensures DigitRunEnd(s, i) == e
    decreases e - i
  {
    if i < e {
      DigitRunOver(s, i + 1, e);
    }
  }

  /** Number of occurrences of `c` in `s`. */
  function Count(s: string, c: char): nat
    decreases |s|
  {
    if |s| == 0 then 0 else (if s[0] == c then 1 else 0) + Count(s[1..], c)
  }

  /** The fields `std::getline` extracts from `s` with delimiter `sep`, read
      until the stream is exhausted: a trailing separator yields a final
      empty field. */
  function Split(s: string, sep: char): (r: seq<string>)
    ensures |r| == Count(s, sep) + 1
    ensures forall i :: 0 <= i < |r| ==> sep !in r[i]
    decreases |s|
  {
    if |s| == 0 then [""]
    else
      var rest := Split(s[1..], sep);
      assert s == [s[0]] + s[1..];
      if s[0] == sep then [""] + rest
      else [[s[0]] + rest[0]] + rest[1..]
  }

  /** The fields separated by `sep`. */
  function Join(fields: seq<string>, sep: char): string
    decreases |fields|
  {
    if |fields| == 0 then ""
    else if |fields| == 1 then fields[0]
    else fields[0] + [sep] + Join(fields[1..], sep)
  }

  /** Splitting and joining again gives back the text. */
  lemma {:induction false} JoinSplit(s: string, sep: char)
    ensures Join(Split(s, sep), sep) == s
    decreases |s|
  {
    if |s| > 0 {
      var tail := s[1..];
      var rest := Split(tail, sep);
      JoinSplit(tail, sep);
      assert Join(rest, sep) == tail;
      assert s == [s[0]] + tail;
      if s[0] == sep {
        var r := [""] + rest;
        assert Split(s, sep) == r;
        assert r[1..] == rest;
        assert Join(r, sep) == "" + [sep] + Join(rest, sep);
      } else {
        var r := [[s[0]] + rest[0]] + rest[1..];
        assert Split(s, sep) == r;
        if |rest| == 1 {
          assert Join(rest, sep) == rest[0];
          assert Join(r, sep) == [s[0]] + rest[0];
        } else {
          assert r[1..] == rest[1..];
          assert Join(rest, sep) == rest[0] + [sep] + Join(rest[1..], sep);
          assert Join(r, sep) == ([s[0]] + rest[0]) + [sep] + Join(rest[1..], sep);
        }
      }
    }
  }

  /** Joining fields free of the separator and splitting again gives back
      the fields. */
  lemma {:induction false} SplitJoin(fields: seq<string>, sep: char)
    requires 1 <= |fields|
    requires forall i :: 0 <= i < |fields| ==> sep !in fields[i]
    ensures Split(Join(fields, sep), sep) == fields
    decreases |fields|
  {
    if |fields| == 1 {
      SplitSingleField(fields[0], sep);
    } else {
      SplitJoin(fields[1..], sep);
      SplitField(fields[0], Join(fields[1..], sep), sep);
      assert fields == [fields[0]] + fields[1..];
    }
  }

  /** A field free of the separator splits into itself. */
  lemma {:induction false} SplitSingleField(f: string, sep: char)
    requires sep !in f
    ensures Split(f, sep) == [f]
    decreases |f|
  {
    if |f| > 0 {
      SplitSingleField(f[1..], sep);
      assert f == [f[0]] + f[1..];
    }
  }

  /** A separator-free field in front of `[sep] + t` becomes a field of its
      own. */
  lemma {:induction false} SplitField(f: string, t: string, sep: char)
    requires sep !in f
    ensures Split(f + [sep] + t, sep) == [f] + Split(t, sep)
    decreases |f|
  {
    var s := f + [sep] + t;
    if |f| == 0 {
      assert s == [sep] + t;
      assert s[1..] == t;
    } else {
      assert s[0] == f[0];
      assert s[1..] == f[1..] + [sep] + t;
      SplitField(f[1..], t, sep);
      var rest := Split(s[1..], sep);
      assert rest == [f[1..]] + Split(t, sep);
      assert rest[0] == f[1..];
      assert rest[1..] == Split(t, sep);
      assert [f[0]] + f[1..] == f;
    }
  }
}

/**
 * The string operations the parking lot leans on, stated over `seq<char>`:
 *  - an ASCII case fold, standing in for `StringComparison.OrdinalIgnoreCase`;
 *  - `Split` on one separator character, as `String.Split(char)` does it;
 *  - a signed decimal parser for 32-bit integers, standing in for `int.TryParse`.
 */
module Text {
  import opened Options

  // ---------------------------------------------------------------------
  // Case-insensitive comparison
  // ---------------------------------------------------------------------

  predicate IsUpper(c: char) { 'A' <= c <= 'Z' }

  function LowerChar(c: char): char
  {
    if IsUpper(c) then (c as int + 32) as char else c
  }

  /** `s` with every ASCII capital replaced by its small letter. */
  function Lower(s: string): (r: string)
    ensures |r| == |s|
    ensures forall i :: 0 <= i < |r| ==> !IsUpper(r[i])
    ensures forall i :: 0 <= i < |r| ==> r[i] == s[i] || (IsUpper(s[i]) && r[i] as int == s[i] as int + 32)
  {
    seq(|s|, i requires 0 <= i < |s| => LowerChar(s[i]))
  }

  /**
   * Equality up to ASCII case, the model of `OrdinalIgnoreCase`: equal
   * strings match, and matching strings have one length.
   */
  predicate EqualsIgnoreCase(a: string, b: string)
    ensures a == b ==> EqualsIgnoreCase(a, b)
    ensures EqualsIgnoreCase(a, b) ==> |a| == |b|
  {
    Lower(a) == Lower(b)
  }

  /**
   * Two strings match case-insensitively exactly when they have one length
   * and agree character by character once both are folded to small letters.
   */
  lemma EqualsIgnoreCaseCharwise(a: string, b: string)
    ensures EqualsIgnoreCase(a, b) <==>
      |a| == |b| && forall i :: 0 <= i < |a| ==> LowerChar(a[i]) == LowerChar(b[i])
  {
    assert forall i :: 0 <= i < |a| ==> Lower(a)[i] == LowerChar(a[i]);
    assert forall i :: 0 <= i < |b| ==> Lower(b)[i] == LowerChar(b[i]);
  }

  /** Case-insensitive equality is an equivalence that only relates strings of one length. */
  lemma EqualsIgnoreCaseIsEquivalence(a: string, b: string, c: string)
    ensures EqualsIgnoreCase(a, a)
    ensures EqualsIgnoreCase(a, b) ==> EqualsIgnoreCase(b, a) && |a| == |b|
    ensures EqualsIgnoreCase(a, b) && EqualsIgnoreCase(b, c) ==> EqualsIgnoreCase(a, c)
  {
  }

  // ---------------------------------------------------------------------
  // Splitting on a separator
  // ---------------------------------------------------------------------

  /**
   * The pieces of `s` between occurrences of `sep`, empty pieces kept, as
   * `String.Split(char)` returns them: there is always at least one piece,
   * no piece holds the separator, and a string without the separator is
   * its own single piece.
   */
  function Split(s: string, sep: char): (parts: seq<string>)
    ensures |parts| >= 1
    ensures forall k :: 0 <= k < |parts| ==> sep !in parts[k]
    ensures sep !in s ==> parts == [s]
    decreases |s|
  {
    if s == [] then [""]
    else
      var rest := Split(s[1..], sep);
      if s[0] == sep then [""] + rest
      else
        assert sep !in s ==> [s[0]] + rest[0] == s;
        [[s[0]] + rest[0]] + rest[1..]
  }

  /** The pieces put back together with `sep` between neighbours. */
  function Join(parts: seq<string>, sep: char): string
    requires |parts| >= 1
    decreases |parts|
  {
    if |parts| == 1 then parts[0] else parts[0] + [sep] + Join(parts[1..], sep)
  }

  /** Splitting loses nothing: joining the pieces gives the string back. */
  lemma {:induction false} JoinSplit(s: string, sep: char)
    ensures Join(Split(s, sep), sep) == s
    decreases |s|
  {
    if s != [] {
      var rest := Split(s[1..], sep);
      JoinSplit(s[1..], sep);
      if s[0] == sep {
        assert Split(s, sep) == [""] + rest;
        assert ([""] + rest)[1..] == rest;
      } else {
        var parts := Split(s, sep);
        assert parts == [[s[0]] + rest[0]] + rest[1..];
        if |rest| == 1 {
          assert parts == [[s[0]] + rest[0]];
        } else {
          assert parts[1..] == rest[1..];
          assert Join(rest, sep) == rest[0] + [sep] + Join(rest[1..], sep);
        }
      }
    }
  }

  /** Joining separator-free pieces and splitting again gives the pieces back. */
  lemma {:induction false} SplitJoin(parts: seq<string>, sep: char)
    requires |parts| >= 1
    requires forall k :: 0 <= k < |parts| ==> sep !in parts[k]
    ensures Split(Join(parts, sep), sep) == parts
    decreases |parts|
  {
    if |parts| > 1 {
      SplitJoin(parts[1..], sep);
      SplitAfterPiece(parts[0], Join(parts[1..], sep), sep);
      assert [parts[0]] + parts[1..] == parts;
    }
  }

  /** A separator-free piece followed by the separator splits off as the first part. */
  lemma {:induction false} SplitAfterPiece(a: string, b: string, sep: char)
    requires sep !in a
    ensures Split(a + [sep] + b, sep) == [a] + Split(b, sep)
    decreases |a|
  {
    if a == [] {
      assert [] + [sep] + b == [sep] + b;
      assert ([sep] + b)[1..] == b;
    } else {
      SplitAfterPiece(a[1..], b, sep);
      assert (a + [sep] + b)[1..] == a[1..] + [sep] + b;
      assert [a[0]] + a[1..] == a;
    }
  }

  // ---------------------------------------------------------------------
  // Decimal integers
  // ---------------------------------------------------------------------

  const Int32Min: int := -0x8000_0000
  const Int32Max: int := 0x7FFF_FFFF

  predicate IsDigit(c: char) { '0' <= c <= '9' }

  predicate AllDigits(t: string) { forall i :: 0 <= i < |t| ==> IsDigit(t[i]) }

  /** The value of a string of decimal digits, most significant first. */
  function DigitsValue(t: string): nat
    requires AllDigits(t)
    decreases |t|
  {
    if t == [] then 0 else DigitsValue(t[..|t| - 1]) * 10 + (t[|t| - 1] as int - '0' as int)
  }

  /** The shortest decimal spelling of `n`: no leading zero, and reading it back gives `n`. */
  function NatDigits(n: nat): (t: string)
    ensures |t| >= 1 && AllDigits(t)
    ensures |t| > 1 ==> t[0] != '0'
    ensures DigitsValue(t) == n
    decreases n
  {
    var last := ('0' as int + n % 10) as char;
    if n < 10 then [last]
    else
      var t := NatDigits(n / 10) + [last];
      assert t[..|t| - 1] == NatDigits(n / 10);
      t
  }

  /** The decimal spelling of `n`, with a leading `-` when negative. */
  function FormatInt(n: int): string
  {
    if n < 0 then "-" + NatDigits(-n) else NatDigits(n)
  }

  predicate IsSign(c: char) { c == '+' || c == '-' }

  /**
   * `int.TryParse` on an integer token: an optional `+` or `-`, then one or
   * more decimal digits, whose value must fit in 32 bits; anything else fails.
   * Leading zeros are accepted. A token without `-` never yields a negative value.
   */
  function TryParseInt32(s: string): (r: Option<int>)
    ensures r.Some? ==> Int32Min <= r.value <= Int32Max
    ensures r.Some? ==> |s| > 0 && (IsDigit(s[0]) || (IsSign(s[0]) && |s| > 1))
    ensures r.Some? ==> forall i :: 0 < i < |s| ==> IsDigit(s[i])
    ensures r.Some? && '-' !in s ==> r.value >= 0
  {
    var signed := |s| > 0 && IsSign(s[0]);
    var digits := if signed then s[1..] else s;
    if digits == [] || !AllDigits(digits) then None
    else
      var magnitude: int := DigitsValue(digits);
      var v: int := if signed && s[0] == '-' then -magnitude else magnitude;
      assert forall i :: 0 < i < |s| ==> IsDigit(s[i]) by {
        assert signed ==> forall i :: 0 < i < |s| ==> s[i] == digits[i - 1];
      }
      if Int32Min <= v <= Int32Max then Some(v) else None
  }

  /** An unsigned token is read as the value of its digits. */
  lemma ParseUnsigned(s: string)
    requires |s| > 0 && AllDigits(s)
    ensures TryParseInt32(s) == if DigitsValue(s) <= Int32Max then Some(DigitsValue(s) as int) else None
  {
    assert !IsSign(s[0]) by { assert IsDigit(s[0]); }
  }

  /** A signed token is read as the value of the digits after the sign, negated for `-`. */
  lemma ParseSigned(s: string)
    requires |s| > 1 && IsSign(s[0]) && AllDigits(s[1..])
    ensures var m: int := DigitsValue(s[1..]);
      var v := if s[0] == '-' then -m else m;
      TryParseInt32(s) == if Int32Min <= v <= Int32Max then Some(v) else None
  {
  }

  /**
   * A sign (or none) followed by digits parses to the signed value of the
   * digits when it fits in 32 bits, and fails when it does not.
   */
  lemma ParseSignedDigits(sign: string, digits: string)
    requires sign == "" || sign == "+" || sign == "-"
    requires |digits| > 0 && AllDigits(digits)
    ensures var v: int := if sign == "-" then -(DigitsValue(digits) as int) else DigitsValue(digits);
      TryParseInt32(sign + digits) == if Int32Min <= v <= Int32Max then Some(v) else None
  {
    var s := sign + digits;
    if sign == "" {
      assert s == digits;
      ParseUnsigned(digits);
    } else {
      assert s[0] == sign[0] && s[1..] == digits;
      ParseSigned(s);
    }
  }


  /** Tokens `int.TryParse` accepts: a leading `+`, leading zeros, a leading `-`. */
  lemma ParseAcceptsExamples()
    ensures TryParseInt32("+7") == Some(7)
    ensures TryParseInt32("007") == Some(7)
    ensures TryParseInt32("-12") == Some(-12)
  {
    assert TryParseInt32("+7") == Some(7) by {
      ParseSignedDigits("+", "7");
      assert "+" + "7" == "+7";
    }
    assert TryParseInt32("007") == Some(7) by {
      assert "007"[..2] == "00" && "00"[..1] == "0";
      ParseSignedDigits("", "007");
    }
    assert TryParseInt32("-12") == Some(-12) by {
      assert "12"[..1] == "1";
      ParseSignedDigits("-", "12");
      assert "-" + "12" == "-12";
    }
  }

  /** Tokens `int.TryParse` refuses: a sign alone, a non-digit, a value past the 32-bit range. */
  lemma ParseRefusesExamples()
    ensures TryParseInt32("+") == None
    ensures TryParseInt32("1A") == None
  {
    assert !IsDigit("1A"[1]);
  }

  /**
   * Every digit string whose value lies above the 32-bit range is refused,
   * and so is its negation once it lies below the range.
   */
  lemma ParseRefusesOutOfRange(n: nat)
    requires n > Int32Max
    ensures TryParseInt32(NatDigits(n)) == None
    ensures n > -Int32Min ==> TryParseInt32("-" + NatDigits(n)) == None
  {
    ParseSignedDigits("", NatDigits(n));
    assert "" + NatDigits(n) == NatDigits(n);
    ParseSignedDigits("-", NatDigits(n));
  }



  /** Formatting then parsing gives back every 32-bit value. */
  lemma FormatThenParse(n: int)
    requires Int32Min <= n <= Int32Max
    ensures TryParseInt32(FormatInt(n)) == Some(n)
  {
    var s := FormatInt(n);
    if n < 0 {
      assert s[0] == '-' && s[1..] == NatDigits(-n);
    } else {
      assert IsDigit(s[0]);
    }
  }
}

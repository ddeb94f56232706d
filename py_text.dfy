/** The few Python text builtins the heat-map code relies on: `str` of an int and of a tuple
    of ints, `str.replace(c, "")`, `str.split(",")`, `str.strip()` and `int(s)` on an ASCII
    decimal literal. */
module PyText {
  import opened Common

  // ---------------------------------------------------------------------------------------
  // str(int)

  function DigitChar(d: nat): char
    requires d < 10
  {
    "0123456789"[d]
  }

  predicate IsDigit(c: char)
  {
    '0' <= c <= '9'
  }

  function DigitValue(c: char): nat
    requires IsDigit(c)
  {
    (c as int - '0' as int) as nat
  }

  /** The decimal digits of `n`, most significant first, without leading zeros. */
  function NatRepr(n: nat): (s: string)
    ensures |s| > 0
    decreases n
  {
    if n < 10 then [DigitChar(n)] else NatRepr(n / 10) + [DigitChar(n % 10)]
  }

  /** `str(i)` for a Python int. */
  function IntRepr(i: int): string
  {
    if i < 0 then "-" + NatRepr(-i) else NatRepr(i)
  }

  /** The value of a string of decimal digits. */
  function DigitsValue(s: string): nat
    requires forall k :: 0 <= k < |s| ==> IsDigit(s[k])
  {
    if |s| == 0 then 0 else DigitsValue(s[..|s| - 1]) * 10 + DigitValue(s[|s| - 1])
  }

  predicate AllDigits(s: string)
  {
    forall k :: 0 <= k < |s| ==> IsDigit(s[k])
  }

  /** The representation consists of digits and reads back as `n`. */
  lemma {:induction false} NatReprValue(n: nat)
    ensures AllDigits(NatRepr(n))
    ensures DigitsValue(NatRepr(n)) == n
    decreases n
  {
    if n >= 10 {
      NatReprValue(n / 10);
      var s := NatRepr(n);
      assert s[..|s| - 1] == NatRepr(n / 10);
    }
  }

  // ---------------------------------------------------------------------------------------
  // str(tuple)

  /** `str(t)` for a tuple of ints: `()`, `(x,)`, or the elements joined by ", " in
      parentheses. */
  function TupleRepr(t: seq<int>): string
  {
    if |t| == 0 then "()"
    else if |t| == 1 then "(" + IntRepr(t[0]) + ",)"
    else "(" + Joined(t) + ")"
  }

  /** The elements of a non-empty tuple, separated by ", ". */
  function Joined(t: seq<int>): string
    requires |t| > 0
  {
    if |t| == 1 then IntRepr(t[0]) else IntRepr(t[0]) + ", " + Joined(t[1..])
  }

  // ---------------------------------------------------------------------------------------
  // str.replace(c, ""), str.split(sep), str.strip()

  /** `s.replace(c, "")`: every occurrence of `c` removed. */
  function Remove(s: string, c: char): (r: string)
    ensures c !in r
  {
    if |s| == 0 then "" else (if s[0] == c then "" else [s[0]]) + Remove(s[1..], c)
  }

  /** `s.split(sep)`: the pieces between separators, an empty piece wherever two separators
      meet or one stands at an end; never an empty list. */
  function Split(s: string, sep: char): (r: seq<string>)
    ensures |r| > 0
  {
    if |s| == 0 then [""]
    else
      var rest := Split(s[1..], sep);
      if s[0] == sep then [""] + rest else [[s[0]] + rest[0]] + rest[1..]
  }

  /** The whitespace `str.strip()` removes (its ASCII part). */
  predicate IsSpace(c: char)
  {
    c == ' ' || c == '\t' || c == '\n' || c == '\r' || c as int == 11 || c as int == 12
  }

  function LStrip(s: string): string
  {
    if |s| > 0 && IsSpace(s[0]) then LStrip(s[1..]) else s
  }

  function RStrip(s: string): string
  {
    if |s| > 0 && IsSpace(s[|s| - 1]) then RStrip(s[..|s| - 1]) else s
  }

  function Strip(s: string): string
  {
    RStrip(LStrip(s))
  }

  // ---------------------------------------------------------------------------------------
  // int(s)

  /** `int(s)` raised ValueError on the given text. */
  datatype ParseError = InvalidLiteral(text: string)

  /** `int(s)` on a decimal literal: surrounding whitespace is ignored, then an optional
      sign and at least one ASCII digit; anything else raises ValueError. */
  function ParseInt(s: string): Result<int, ParseError>
  {
    var t := Strip(s);
    if |t| > 0 && (t[0] == '-' || t[0] == '+') && |t| > 1 && AllDigits(t[1..]) then
      var magnitude: int := DigitsValue(t[1..]);
      Ok(if t[0] == '-' then -magnitude else magnitude)
    else if |t| > 0 && AllDigits(t) then
      Ok(DigitsValue(t))
    else
      Err(InvalidLiteral(s))
  }

  /** `int` reads back what `str` wrote, also with the blank that follows a comma. */
  lemma ParseIntRepr(i: int, pad: string)
    requires pad == "" || pad == " "
    ensures ParseInt(pad + IntRepr(i)) == Ok(i)
  {
    StripRepr(i, pad);
    var n: nat := if i < 0 then -i else i;
    NatReprValue(n);
    if i < 0 {
      assert IntRepr(i)[1..] == NatRepr(n);
    }
  }

  /** Stripping a blank-padded representation gives the representation. */
  lemma StripRepr(i: int, pad: string)
    requires pad == "" || pad == " "
    ensures Strip(pad + IntRepr(i)) == IntRepr(i)
  {
    var s := IntRepr(i);
    IntReprChars(i);
    NoSpaceEnds(s);
    if pad == " " {
      assert (pad + s)[1..] == s;
    } else {
      assert pad + s == s;
    }
  }

  /** The representation of an int starts and ends with a non-blank, so strip keeps it. */
  lemma NoSpaceEnds(s: string)
    requires |s| > 0 && !IsSpace(s[0]) && !IsSpace(s[|s| - 1])
    ensures LStrip(s) == s && RStrip(s) == s
  {
  }

  // ---------------------------------------------------------------------------------------
  // Characters of the representations

  /** The characters `str` of an int can contain. */
  predicate IntChar(c: char)
  {
    IsDigit(c) || c == '-'
  }

  lemma IntReprChars(i: int)
    ensures |IntRepr(i)| > 0
    ensures forall k :: 0 <= k < |IntRepr(i)| ==> IntChar(IntRepr(i)[k])
    ensures !IsSpace(IntRepr(i)[0]) && !IsSpace(IntRepr(i)[|IntRepr(i)| - 1])
  {
    NatReprValue(if i < 0 then -i else i);
  }

  // ---------------------------------------------------------------------------------------
  // Laws of Remove and Split

  lemma {:induction false} RemoveAppend(a: string, b: string, c: char)
    ensures Remove(a + b, c) == Remove(a, c) + Remove(b, c)
  {
    if |a| > 0 {
      RemoveAppend(a[1..], b, c);
      assert (a + b)[1..] == a[1..] + b;
    } else {
      assert a + b == b;
    }
  }

  lemma {:induction false} RemoveAbsent(s: string, c: char)
    requires c !in s
    ensures Remove(s, c) == s
  {
    if |s| > 0 {
      RemoveAbsent(s[1..], c);
    }
  }

  lemma {:induction false} SplitAbsent(s: string, sep: char)
    requires sep !in s
    ensures Split(s, sep) == [s]
  {
    if |s| > 0 {
      SplitAbsent(s[1..], sep);
      assert [s[0]] + s[1..] == s;
    }
  }

  /** A piece without the separator, then the separator, then the rest. */
  lemma {:induction false} SplitAt(a: string, b: string, sep: char)
    requires sep !in a
    ensures Split(a + [sep] + b, sep) == [a] + Split(b, sep)
  {
    if |a| == 0 {
      assert a + [sep] + b == [sep] + b;
      assert ([sep] + b)[1..] == b;
    } else {
      SplitAt(a[1..], b, sep);
      assert (a + [sep] + b)[1..] == a[1..] + [sep] + b;
      assert [a[0]] + a[1..] == a;
    }
  }
}

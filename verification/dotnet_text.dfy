/** The pieces of the .NET string runtime the IGES reader relies on:
    `char.IsWhiteSpace` and the `Trim` family, `Substring`, `Split` on one
    character, and `int.Parse` with its default `NumberStyles.Integer`. */
module DotNetText {
  import opened Wrappers

  // ---------------------------------------------------------------------
  // Characters
  // ---------------------------------------------------------------------

  /** `char.IsWhiteSpace`: the Unicode space, line and paragraph separators
      plus the control characters U+0009 to U+000D, U+0085 and U+00A0. */
  predicate IsWhiteSpace(c: char) {
    c == ' ' || ('\t' <= c <= '\r') || c == '\U{0085}' || c == '\U{00A0}' ||
    c == '\U{1680}' || ('\U{2000}' <= c <= '\U{200A}') || c == '\U{2028}' ||
    c == '\U{2029}' || c == '\U{202F}' || c == '\U{205F}' || c == '\U{3000}'
  }

  /** The decimal digits `int.Parse` accepts. */
  predicate IsDigit(c: char) {
    '0' <= c <= '9'
  }

  predicate AllDigits(s: string) {
    forall i :: 0 <= i < |s| ==> IsDigit(s[i])
  }

  function DigitValue(c: char): nat
    requires IsDigit(c)
  {
    (c as int) - ('0' as int)
  }

  function DigitChar(d: nat): (c: char)
    requires d < 10
    ensures IsDigit(c) && DigitValue(c) == d
  {
    (('0' as int) + d) as char
  }

  // ---------------------------------------------------------------------
  // Trimming
  // ---------------------------------------------------------------------

  /** `TrimStart()`: drops the leading white space. */
  function TrimStart(s: string): (r: string)
    ensures |r| <= |s|
    decreases |s|
  {
    if |s| > 0 && IsWhiteSpace(s[0]) then TrimStart(s[1..]) else s
  }

  /** `TrimEnd()`: drops the trailing white space. */
  function TrimEnd(s: string): (r: string)
    ensures |r| <= |s|
    decreases |s|
  {
    if |s| > 0 && IsWhiteSpace(s[|s| - 1]) then TrimEnd(s[..|s| - 1]) else s
  }

  /** `Trim()`: drops white space at both ends. */
  function Trim(s: string): (r: string)
    ensures |r| <= |s|
  {
    TrimEnd(TrimStart(s))
  }

  /** TrimStart drops exactly the white space in front: what is left is a
      suffix that starts with something else. */
  lemma {:induction false} TrimStartShape(s: string)
    ensures var r := TrimStart(s);
      r == s[|s| - |r|..] && (|r| == 0 || !IsWhiteSpace(r[0])) &&
      forall i :: 0 <= i < |s| - |r| ==> IsWhiteSpace(s[i])
    decreases |s|
  {
    if |s| > 0 && IsWhiteSpace(s[0]) {
      TrimStartShape(s[1..]);
    }
  }

  /** TrimEnd drops exactly the white space at the end: what is left is a
      prefix that ends with something else. */
  lemma {:induction false} TrimEndShape(s: string)
    ensures var r := TrimEnd(s);
      r == s[..|r|] && (|r| == 0 || !IsWhiteSpace(r[|r| - 1])) &&
      forall i :: |r| <= i < |s| ==> IsWhiteSpace(s[i])
    decreases |s|
  {
    if |s| > 0 && IsWhiteSpace(s[|s| - 1]) {
      TrimEndShape(s[..|s| - 1]);
    }
  }

  /** Trim leaves a slice of the text with no white space at either end. */
  lemma TrimShape(s: string)
    ensures var r := Trim(s);
      var k := |s| - |TrimStart(s)|;
      (|r| == 0 || (!IsWhiteSpace(r[0]) && !IsWhiteSpace(r[|r| - 1]))) &&
      k + |r| <= |s| && r == s[k..k + |r|]
  {
    TrimStartShape(s);
    TrimEndShape(TrimStart(s));
  }

  /** Trimming leaves a string that has no white space at either end as it
      is, so every trim is idempotent. */
  lemma TrimKeepsTrimmed(s: string)
    requires |s| == 0 || (!IsWhiteSpace(s[0]) && !IsWhiteSpace(s[|s| - 1]))
    ensures TrimStart(s) == s && TrimEnd(s) == s && Trim(s) == s
  {
  }

  lemma {:induction false} TrimStartPadding(pad: string, s: string)
    requires forall i :: 0 <= i < |pad| ==> IsWhiteSpace(pad[i])
    requires |s| == 0 || !IsWhiteSpace(s[0])
    ensures TrimStart(pad + s) == s
    decreases |pad|
  {
    if |pad| > 0 {
      assert (pad + s)[1..] == pad[1..] + s;
      TrimStartPadding(pad[1..], s);
    }
  }

  lemma {:induction false} TrimEndPadding(s: string, pad: string)
    requires forall i :: 0 <= i < |pad| ==> IsWhiteSpace(pad[i])
    requires |s| == 0 || !IsWhiteSpace(s[|s| - 1])
    ensures TrimEnd(s + pad) == s
    decreases |pad|
  {
    if |pad| > 0 {
      assert (s + pad)[..|s + pad| - 1] == s + pad[..|pad| - 1];
      TrimEndPadding(s, pad[..|pad| - 1]);
    }
  }

  /** Trimming a value padded with white space on both sides gives back the
      value. */
  lemma TrimPadding(left: string, s: string, right: string)
    requires forall i :: 0 <= i < |left| ==> IsWhiteSpace(left[i])
    requires forall i :: 0 <= i < |right| ==> IsWhiteSpace(right[i])
    requires |s| == 0 || (!IsWhiteSpace(s[0]) && !IsWhiteSpace(s[|s| - 1]))
    ensures Trim(left + s + right) == s
  {
    if |s| == 0 {
      assert left + s + right == left + right;
      TrimStartPadding(left + right, "");
      assert left + right + "" == left + right;
    } else {
      assert left + s + right == left + (s + right);
      TrimStartPadding(left, s + right);
      TrimEndPadding(s, right);
    }
  }

  // ---------------------------------------------------------------------
  // Substring and Split
  // ---------------------------------------------------------------------

  /** `Substring(start, length)`, which throws when the range does not lie
      within the string. */
  function Substring(s: string, start: int, length: int): (r: Result<string>)
    ensures r.Success? <==> 0 <= start && 0 <= length && start + length <= |s|
    ensures r.Success? ==> r.value == s[start..start + length]
    ensures r.Failure? ==> r.error == ArgumentOutOfRangeException
  {
    if start < 0 || length < 0 || start + length > |s| then Failure(ArgumentOutOfRangeException)
    else Success(s[start..start + length])
  }

  /** `Split(sep)`: the pieces between the separators, always at least one,
      empty pieces included. */
  function Split(s: string, sep: char): (r: seq<string>)
    ensures |r| >= 1
    decreases |s|
  {
    if |s| == 0 then [""]
    else
      var rest := Split(s[1..], sep);
      if s[0] == sep then [""] + rest else [[s[0]] + rest[0]] + rest[1..]
  }

  /** The inverse of `Split`: the pieces glued back with the separator. */
  function Join(parts: seq<string>, sep: char): string
    requires |parts| >= 1
    decreases |parts|
  {
    if |parts| == 1 then parts[0] else parts[0] + [sep] + Join(parts[1..], sep)
  }

  /** Splitting then joining gives back the text, and no piece holds the
      separator. */
  lemma {:induction false} SplitJoin(s: string, sep: char)
    ensures Join(Split(s, sep), sep) == s
    ensures forall i :: 0 <= i < |Split(s, sep)| ==> sep !in Split(s, sep)[i]
    decreases |s|
  {
    if |s| > 0 {
      SplitJoin(s[1..], sep);
      var rest := Split(s[1..], sep);
      if s[0] == sep {
        assert Split(s, sep)[1..] == rest;
        assert s == [s[0]] + s[1..];
      } else {
        var parts := Split(s, sep);
        assert parts[1..] == rest[1..];
        if |rest| == 1 {
          assert s == [s[0]] + rest[0];
        } else {
          assert Join(rest, sep) == rest[0] + [sep] + Join(rest[1..], sep);
          assert s == [s[0]] + s[1..];
        }
        forall i | 1 <= i < |parts|
          ensures sep !in parts[i]
        {
          assert parts[i] == rest[i];
        }
      }
    }
  }

  /** Splitting text that has no separator up to `tail` extends the first
      piece of `tail`'s split. */
  lemma {:induction false} SplitPrefix(s: string, tail: string, sep: char)
    requires sep !in s
    ensures Split(s + tail, sep) == [s + Split(tail, sep)[0]] + Split(tail, sep)[1..]
    decreases |s|
  {
    if |s| == 0 {
      assert s + tail == tail;
      var parts := Split(tail, sep);
      assert s + parts[0] == parts[0];
      assert [parts[0]] + parts[1..] == parts;
    } else {
      assert (s + tail)[0] == s[0] && (s + tail)[1..] == s[1..] + tail;
      SplitPrefix(s[1..], tail, sep);
      assert [s[0]] + (s[1..] + Split(tail, sep)[0]) == s + Split(tail, sep)[0];
    }
  }

  /** Joining pieces that do not hold the separator and splitting again
      gives back the pieces. */
  lemma {:induction false} JoinSplit(parts: seq<string>, sep: char)
    requires |parts| >= 1
    requires forall i :: 0 <= i < |parts| ==> sep !in parts[i]
    ensures Split(Join(parts, sep), sep) == parts
    decreases |parts|
  {
    if |parts| == 1 {
      SplitPrefix(parts[0], "", sep);
      assert parts[0] + "" == parts[0];
    } else {
      var rest := Join(parts[1..], sep);
      JoinSplit(parts[1..], sep);
      assert Join(parts, sep) == parts[0] + ([sep] + rest);
      SplitPrefix(parts[0], [sep] + rest, sep);
      assert ([sep] + rest)[1..] == rest;
      assert Split([sep] + rest, sep) == [""] + Split(rest, sep);
      assert parts[0] + "" == parts[0];
    }
  }

  // ---------------------------------------------------------------------
  // int.Parse
  // ---------------------------------------------------------------------

  const Int32Min: int := -0x8000_0000
  const Int32Max: int := 0x7FFF_FFFF

  /** The white space `NumberStyles.AllowLeadingWhite` and
      `AllowTrailingWhite` accept: U+0009 to U+000D and U+0020. */
  predicate IsNumberWhite(c: char) {
    c == ' ' || ('\t' <= c <= '\r')
  }

  function DropNumberWhite(s: string): (r: string)
    ensures |r| <= |s|
    decreases |s|
  {
    if |s| > 0 && IsNumberWhite(s[0]) then DropNumberWhite(s[1..]) else s
  }

  function DropTrailingNumberWhite(s: string): (r: string)
    ensures |r| <= |s|
    decreases |s|
  {
    if |s| > 0 && IsNumberWhite(s[|s| - 1]) then DropTrailingNumberWhite(s[..|s| - 1]) else s
  }

  /** The value of a string of decimal digits, most significant first. */
  function DigitsValue(s: string): nat
    requires AllDigits(s)
    decreases |s|
  {
    if |s| == 0 then 0 else DigitsValue(s[..|s| - 1]) * 10 + DigitValue(s[|s| - 1])
  }

  /** `int.Parse(s)`: optional white space, an optional sign, one or more
      decimal digits, optional white space; anything else is a
      `FormatException`, a value outside Int32 an `OverflowException`. */
  function IntParse(s: string): (r: Result<int>)
    ensures r.Success? ==> Int32Min <= r.value <= Int32Max
    ensures r.Failure? ==> r.error == FormatException || r.error == OverflowException
  {
    ParseSignedDigits(DropTrailingNumberWhite(DropNumberWhite(s)))
  }

  /** The number between the white space: a sign and at least one digit. */
  function ParseSignedDigits(body: string): (r: Result<int>)
    ensures r.Success? ==> Int32Min <= r.value <= Int32Max
    ensures r.Failure? ==> r.error == FormatException || r.error == OverflowException
  {
    var negative := |body| > 0 && body[0] == '-';
    var digits := if |body| > 0 && (body[0] == '-' || body[0] == '+') then body[1..] else body;
    match UnsignedValue(digits)
    case None => Failure(FormatException)
    case Some(n) =>
      var v: int := if negative then 0 - n else n;
      if v < Int32Min || v > Int32Max then Failure(OverflowException) else Success(v)
  }

  /** The value of one or more decimal digits, read left to right; `None`
      when `s` is empty or holds anything but digits. */
  function UnsignedValue(s: string): (r: Option<nat>)
    decreases |s|
  {
    if |s| == 0 || !IsDigit(s[|s| - 1]) then None
    else if |s| == 1 then Some(DigitValue(s[0]))
    else match UnsignedValue(s[..|s| - 1])
      case None => None
      case Some(n) => Some(n * 10 + DigitValue(s[|s| - 1]))
  }

  /** UnsignedValue accepts exactly the non-empty digit strings, and reads
      their decimal value. */
  lemma {:induction false} UnsignedValueOfDigits(s: string)
    ensures UnsignedValue(s) == if |s| > 0 && AllDigits(s) then Some(DigitsValue(s)) else None
    decreases |s|
  {
    if |s| > 1 {
      var p := s[..|s| - 1];
      UnsignedValueOfDigits(p);
      if AllDigits(s) {
        assert AllDigits(p);
      } else if IsDigit(s[|s| - 1]) {
        var j :| 0 <= j < |s| && !IsDigit(s[j]);
        assert p[j] == s[j];
      }
    } else if |s| == 1 {
      assert DigitsValue(s[..0]) == 0;
    }
  }

  /** The decimal representation of a natural number, without leading
      zeros. */
  function DecimalString(n: nat): (s: string)
    ensures |s| >= 1 && AllDigits(s)
    decreases n
  {
    if n < 10 then [DigitChar(n)] else DecimalString(n / 10) + [DigitChar(n % 10)]
  }

  lemma {:induction false} DecimalStringValue(n: nat)
    ensures DigitsValue(DecimalString(n)) == n
    decreases n
  {
    if n >= 10 {
      DecimalStringValue(n / 10);
      var s := DecimalString(n);
      assert s[..|s| - 1] == DecimalString(n / 10);
    }
  }

  /** A number of at most `k` digits is written in at most `k` characters. */
  lemma {:induction false} DecimalStringLength(n: nat, k: nat)
    requires n < Pow10(k)
    ensures |DecimalString(n)| <= k || (n == 0 && k == 0)
    decreases n
  {
    if n >= 10 {
      assert k >= 1;
      DecimalStringLength(n / 10, k - 1);
    } else if k == 0 {
      assert n == 0;
    }
  }

  function Pow10(k: nat): nat {
    if k == 0 then 1 else 10 * Pow10(k - 1)
  }

  lemma NoNumberWhiteInDigits(s: string)
    requires AllDigits(s)
    ensures DropNumberWhite(s) == s && DropTrailingNumberWhite(s) == s
  {
  }

  /** `int.Parse` reads back every non-negative Int32 written in decimal. */
  lemma IntParseDecimal(n: nat)
    requires n <= Int32Max
    ensures IntParse(DecimalString(n)) == Success(n)
  {
    DecimalStringValue(n);
    UnsignedValueOfDigits(DecimalString(n));
    NoNumberWhiteInDigits(DecimalString(n));
  }

  /** ... and a negative one written with a minus sign. */
  lemma IntParseNegative(n: nat)
    requires 0 < n <= -Int32Min
    ensures IntParse(['-'] + DecimalString(n)) == Success(0 - n)
  {
    var digits := DecimalString(n);
    DecimalStringValue(n);
    UnsignedValueOfDigits(digits);
    NegativeDigits(digits, n);
  }

  lemma NegativeDigits(digits: string, n: nat)
    requires 0 < n <= -Int32Min && |digits| > 0 && AllDigits(digits) && UnsignedValue(digits) == Some(n)
    ensures IntParse(['-'] + digits) == Success(0 - n)
  {
    var s := ['-'] + digits;
    assert s[0] == '-' && s[1..] == digits;
    assert DropNumberWhite(s) == s;
    assert IsDigit(s[|s| - 1]) by {
      assert s[|s| - 1] == digits[|digits| - 1];
    }
    assert DropTrailingNumberWhite(s) == s;
    assert ParseSignedDigits(s) == Success(0 - n);
  }

  /** Leading white space does not change what `int.Parse` reads. */
  lemma {:induction false} IntParseSkipsLeadingWhite(pad: string, s: string)
    requires forall i :: 0 <= i < |pad| ==> IsNumberWhite(pad[i])
    ensures IntParse(pad + s) == IntParse(s)
  {
    DropNumberWhitePadding(pad, s);
  }

  lemma {:induction false} DropNumberWhitePadding(pad: string, s: string)
    requires forall i :: 0 <= i < |pad| ==> IsNumberWhite(pad[i])
    ensures DropNumberWhite(pad + s) == DropNumberWhite(s)
    decreases |pad|
  {
    if |pad| > 0 {
      assert (pad + s)[0] == pad[0] && IsNumberWhite(pad[0]);
      assert (pad + s)[1..] == pad[1..] + s;
      assert DropNumberWhite(pad + s) == DropNumberWhite(pad[1..] + s);
      DropNumberWhitePadding(pad[1..], s);
    } else {
      assert pad + s == s;
    }
  }

  /** A string holding a character that is neither white space, a sign nor
      a digit is never a number. */
  lemma IntParseRejects(s: string, i: nat)
    requires i < |s| && !IsNumberWhite(s[i]) && !IsDigit(s[i]) && s[i] != '-' && s[i] != '+'
    ensures IntParse(s) == Failure(FormatException)
  {
    var t := DropNumberWhite(s);
    var body := DropTrailingNumberWhite(t);
    var k := |s| - |t|;
    DropNumberWhitePrefix(s);
    assert k <= i;
    assert t[i - k] == s[i];
    DropTrailingWhiteSuffix(t);
    assert i - k < |body|;
    assert body[i - k] == s[i];
    SignedDigitsReject(body, i - k);
  }

  lemma SignedDigitsReject(body: string, j: nat)
    requires j < |body| && !IsDigit(body[j]) && body[j] != '-' && body[j] != '+'
    ensures ParseSignedDigits(body) == Failure(FormatException)
  {
    var digits := if body[0] == '-' || body[0] == '+' then body[1..] else body;
    UnsignedValueOfDigits(digits);
    if body[0] == '-' || body[0] == '+' {
      assert digits[j - 1] == body[j];
    }
  }

  lemma {:induction false} DropNumberWhitePrefix(s: string)
    ensures var r := DropNumberWhite(s);
      r == s[|s| - |r|..] && (|r| == 0 || !IsNumberWhite(r[0])) &&
      forall j :: 0 <= j < |s| - |r| ==> IsNumberWhite(s[j])
    decreases |s|
  {
    if |s| > 0 && IsNumberWhite(s[0]) {
      DropNumberWhitePrefix(s[1..]);
    }
  }

  lemma {:induction false} DropTrailingWhiteSuffix(s: string)
    ensures var r := DropTrailingNumberWhite(s);
      r == s[..|r|] && (|r| == 0 || !IsNumberWhite(r[|r| - 1])) &&
      forall j :: |r| <= j < |s| ==> IsNumberWhite(s[j])
    decreases |s|
  {
    if |s| > 0 && IsNumberWhite(s[|s| - 1]) {
      DropTrailingWhiteSuffix(s[..|s| - 1]);
    }
  }
}

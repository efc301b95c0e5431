/** What the IGES scanners read back: each is paired with the writer of the
    form it expects (a Hollerith string, an unsigned integer, a delimited
    record) and shown to return exactly what was written, and to fail on the
    inputs the format rules out. */
module IgesTextFacts {
  import opened Wrappers
  import opened DotNetText
  import opened IgesReader

  // ---------------------------------------------------------------------
  // Section letters
  // ---------------------------------------------------------------------

  /** The section letters and the section types are inverse maps. */
  lemma SectionLettersInverse(t: SectionType, c: char)
    ensures SectionTypeFromCharacter(SectionTypeChar(t)) == Success(t)
    ensures SectionTypeFromCharacter(c).Success? ==> SectionTypeChar(SectionTypeFromCharacter(c).value) == c
    ensures c !in "SGDPT" ==> SectionTypeFromCharacter(c).Failure?
  {
  }

  // ---------------------------------------------------------------------
  // Hollerith strings
  // ---------------------------------------------------------------------

  /** The IGES form of a string value: its length, 'H', its characters. */
  function Hollerith(s: string): string {
    DecimalString(|s|) + "H" + s
  }

  lemma {:induction false} ScanLengthReadsDigits(str: string, i: nat, digits: string)
    requires AllDigits(digits) && i + |digits| < |str|
    requires str[i..i + |digits|] == digits && str[i + |digits|] == 'H'
    ensures ScanLength(str, i) == Success((digits, i + |digits| + 1))
    decreases |digits|
  {
    if |digits| > 0 {
      assert str[i] == digits[0];
      assert str[i + 1..i + 1 + |digits[1..]|] == digits[1..];
      ScanLengthReadsDigits(str, i + 1, digits[1..]);
      assert [str[i]] + digits[1..] == digits;
    }
  }

  /** The digits of a Hollerith length must run up to the 'H'. */
  lemma {:induction false} ScanLengthRejects(str: string, i: nat, j: nat)
    requires i <= j < |str| && AllDigits(str[i..j]) && !IsDigit(str[j]) && str[j] != 'H'
    ensures ScanLength(str, i) == Failure(IgesException("Expected digit"))
    decreases j - i
  {
    if i < j {
      assert str[i..j][0] == str[i];
      assert str[i + 1..j] == str[i..j][1..];
      ScanLengthRejects(str, i + 1, j);
    }
  }

  lemma DigitIsNotSpecial(c: char, d: Delimiters)
    requires IsDigit(c) && !IsDigit(d.field) && !IsDigit(d.record)
    ensures !IsWhiteSpace(c) && !d.Has(c) && c != 'H'
  {
  }

  /** ParseString at `i` on a length `digits`, 'H' and the `length`
      characters of the value `str[h..e]`: the character after the value
      decides the outcome. */
  lemma ParseStringAt(d: Delimiters, str: string, i: nat, digits: string, length: nat, default: Option<string>)
    requires !IsDigit(d.field) && !IsDigit(d.record)
    requires |digits| >= 1 && AllDigits(digits) && IntParse(digits) == Success(length)
    requires i + |digits| + 1 + length <= |str| && str[i..i + |digits|] == digits
    requires str[i + |digits|] == 'H'
    ensures var h := i + |digits| + 1;
      var e := h + length;
      var delim := if e == |str| - 1 then d.record else d.field;
      ParseString(d, str, i, default) ==
        if e >= |str| then Failure(IgesException("Unexpected end of string"))
        else if str[e] != delim then Failure(IgesException("Expected delimiter"))
        else Success((Some(str[h..e]), e + 1))
  {
    assert str[i] == digits[0];
    DigitIsNotSpecial(digits[0], d);
    assert SwallowWhitespace(str, i) == i;
    ScanLengthReadsDigits(str, i, digits);
    assert !IsNullOrWhiteSpace(digits);
  }

  /** ... so a value followed by the delimiter its position calls for is
      read back, and the scan stops just after that delimiter. */
  lemma ParseStringReadsAt(d: Delimiters, str: string, i: nat, digits: string, length: nat, default: Option<string>)
    requires !IsDigit(d.field) && !IsDigit(d.record)
    requires |digits| >= 1 && AllDigits(digits) && IntParse(digits) == Success(length)
    requires i + |digits| + 1 + length < |str| && str[i..i + |digits|] == digits
    requires str[i + |digits|] == 'H'
    requires str[i + |digits| + 1 + length] == if i + |digits| + 1 + length == |str| - 1 then d.record else d.field
    ensures ParseString(d, str, i, default)
      == Success((Some(str[i + |digits| + 1..i + |digits| + 1 + length]), i + |digits| + 1 + length + 1))
  {
    ParseStringAt(d, str, i, digits, length, default);
  }

  lemma ParseStringReadsValue(d: Delimiters, str: string, i: nat, digits: string, v: string, next: nat,
                              default: Option<string>)
    requires !IsDigit(d.field) && !IsDigit(d.record) && next == i + |digits| + 1 + |v| + 1
    requires |digits| >= 1 && AllDigits(digits) && IntParse(digits) == Success(|v|)
    requires i + |digits| + 1 + |v| < |str| && str[i..i + |digits|] == digits
    requires str[i + |digits|] == 'H' && str[i + |digits| + 1..i + |digits| + 1 + |v|] == v
    requires str[i + |digits| + 1 + |v|] == if i + |digits| + 1 + |v| == |str| - 1 then d.record else d.field
    ensures ParseString(d, str, i, default) == Success((Some(v), next))
  {
    ParseStringReadsAt(d, str, i, digits, |v|, default);
  }

  /** ... and a value followed by any other character is rejected. */
  lemma ParseStringRejectsAt(d: Delimiters, str: string, i: nat, digits: string, length: nat, default: Option<string>)
    requires !IsDigit(d.field) && !IsDigit(d.record)
    requires |digits| >= 1 && AllDigits(digits) && IntParse(digits) == Success(length)
    requires i + |digits| + 1 + length < |str| && str[i..i + |digits|] == digits
    requires str[i + |digits|] == 'H'
    requires str[i + |digits| + 1 + length] != if i + |digits| + 1 + length == |str| - 1 then d.record else d.field
    ensures ParseString(d, str, i, default) == Failure(IgesException("Expected delimiter"))
  {
    ParseStringAt(d, str, i, digits, length, default);
  }

  /** The layout of a Hollerith string inside a text. */
  lemma HollerithLayout(pre: string, v: string, post: string)
    ensures var str := pre + Hollerith(v) + post;
      var digits := DecimalString(|v|);
      var h := |pre| + |digits| + 1;
      |str| == h + |v| + |post| && str[|pre|..h - 1] == digits && str[h - 1] == 'H' &&
      str[h..h + |v|] == v && str[h + |v|..] == post
  {
    var str := pre + Hollerith(v) + post;
    var digits := DecimalString(|v|);
    assert str == pre + digits + "H" + v + post;
  }

  /** ParseString reads back a Hollerith string followed by the delimiter
      its position calls for, and stops just after that delimiter. */
  lemma ParseStringReadsHollerith(d: Delimiters, pre: string, v: string, post: string, default: Option<string>)
    requires !IsDigit(d.field) && !IsDigit(d.record) && |v| <= Int32Max
    ensures var delim := if post == [] then d.record else d.field;
      var str := pre + Hollerith(v) + [delim] + post;
      ParseString(d, str, |pre|, default) == Success((Some(v), |pre| + |Hollerith(v)| + 1))
  {
    var delim := if post == [] then d.record else d.field;
    var str := pre + Hollerith(v) + [delim] + post;
    HollerithAt(d, pre, v, delim, post);
    IntParseDecimal(|v|);
    ParseStringReadsValue(d, str, |pre|, DecimalString(|v|), v, |pre| + |Hollerith(v)| + 1, default);
  }

  /** ... and rejects the wrong delimiter after it. */
  lemma ParseStringRejectsWrongDelimiter(d: Delimiters, pre: string, v: string, c: char, post: string,
                                         default: Option<string>)
    requires !IsDigit(d.field) && !IsDigit(d.record) && |v| <= Int32Max
    requires c != (if post == [] then d.record else d.field)
    ensures ParseString(d, pre + Hollerith(v) + [c] + post, |pre|, default)
      == Failure(IgesException("Expected delimiter"))
  {
    var str := pre + Hollerith(v) + [c] + post;
    HollerithAt(d, pre, v, c, post);
    IntParseDecimal(|v|);
    ParseStringRejectsAt(d, str, |pre|, DecimalString(|v|), |v|, default);
  }

  /** The columns of a Hollerith string followed by `c`: the value ends
      right before `c`, which is the last character exactly when nothing
      follows it. */
  lemma HollerithAt(d: Delimiters, pre: string, v: string, c: char, post: string)
    ensures var str := pre + Hollerith(v) + [c] + post;
      var digits := DecimalString(|v|);
      var h := |pre| + |digits| + 1;
      var e := h + |v|;
      e + 1 == |pre| + |Hollerith(v)| + 1 && e < |str| && str[e] == c &&
      (e == |str| - 1 <==> post == []) && str[h..e] == v &&
      str[|pre|..|pre| + |digits|] == digits && str[|pre| + |digits|] == 'H'
  {
    var str := pre + Hollerith(v) + [c] + post;
    var digits := DecimalString(|v|);
    HollerithLayout(pre, v, [c] + post);
    assert str == pre + Hollerith(v) + ([c] + post);
  }

  /** ... and a Hollerith string that ends the text with no delimiter. */
  lemma ParseStringRejectsMissingDelimiter(d: Delimiters, pre: string, v: string, default: Option<string>)
    requires !IsDigit(d.field) && !IsDigit(d.record) && |v| <= Int32Max
    ensures ParseString(d, pre + Hollerith(v), |pre|, default)
      == Failure(IgesException("Unexpected end of string"))
  {
    HollerithLayout(pre, v, "");
    IntParseDecimal(|v|);
    assert pre + Hollerith(v) + "" == pre + Hollerith(v);
    ParseStringAt(d, pre + Hollerith(v), |pre|, DecimalString(|v|), |v|, default);
  }

  /** A length running past the end of the text is out of range. */
  lemma ParseStringRejectsShortText(d: Delimiters, pre: string, n: nat, text: string, default: Option<string>)
    requires !IsDigit(d.field) && !IsDigit(d.record) && |text| < n <= Int32Max
    ensures ParseString(d, pre + DecimalString(n) + "H" + text, |pre|, default)
      == Failure(ArgumentOutOfRangeException)
  {
    var str := pre + DecimalString(n) + "H" + text;
    var digits := DecimalString(n);
    assert str[|pre|] == digits[0];
    assert str[|pre|..|pre| + |digits|] == digits;
    assert str[|pre| + |digits|] == 'H';
    ScanLengthReadsDigits(str, |pre|, digits);
    IntParseDecimal(n);
  }

  /** A delimiter right at the index is an omitted value: the default, one
      character consumed, whatever follows. */
  lemma OmittedValues(d: Delimiters, str: string, index: nat, defaultString: Option<string>, defaultInt: int)
    requires index < |str| && d.Has(str[index])
    ensures ParseString(d, str, index, defaultString) == Success((defaultString, index + 1))
    ensures ParseInt(d, str, index, defaultInt) == Success((defaultInt, index + 1))
  {
  }

  // ---------------------------------------------------------------------
  // Integers
  // ---------------------------------------------------------------------

  lemma {:induction false} ScanDigitsReads(d: Delimiters, str: string, i: nat, digits: string)
    requires AllDigits(digits) && i + |digits| < |str|
    requires forall k :: 0 <= k < |digits| ==> !d.Has(digits[k])
    requires str[i..i + |digits|] == digits && d.Has(str[i + |digits|])
    ensures ScanDigits(d, str, i) == Success((digits, i + |digits| + 1))
    decreases |digits|
  {
    if |digits| > 0 {
      assert str[i] == digits[0];
      assert str[i + 1..i + 1 + |digits[1..]|] == digits[1..];
      ScanDigitsReads(d, str, i + 1, digits[1..]);
      assert [str[i]] + digits[1..] == digits;
    }
  }

  /** ParseInt at `i` on digits followed by a delimiter. */
  lemma ParseIntAt(d: Delimiters, str: string, i: nat, digits: string, default: int, v: int)
    requires !IsDigit(d.field) && !IsDigit(d.record) && |digits| >= 1 && AllDigits(digits)
    requires i + |digits| < |str| && str[i..i + |digits|] == digits && d.Has(str[i + |digits|])
    requires IntParse(digits) == Success(v)
    ensures ParseInt(d, str, i, default) == Success((v, i + |digits| + 1))
  {
    assert str[i] == digits[0];
    DigitIsNotSpecial(digits[0], d);
    assert SwallowWhitespace(str, i) == i;
    forall k | 0 <= k < |digits|
      ensures !d.Has(digits[k])
    {
      DigitIsNotSpecial(digits[k], d);
    }
    ScanDigitsReads(d, str, i, digits);
  }

  /** ParseInt reads a run of digits followed by a delimiter as int.Parse
      reads it, and stops just after the delimiter. */
  lemma ParseIntReadsDigits(d: Delimiters, pre: string, digits: string, delim: char, post: string, default: int, v: int)
    requires !IsDigit(d.field) && !IsDigit(d.record) && d.Has(delim)
    requires |digits| >= 1 && AllDigits(digits) && IntParse(digits) == Success(v)
    ensures ParseInt(d, pre + digits + [delim] + post, |pre|, default) == Success((v, |pre| + |digits| + 1))
  {
    var str := pre + digits + [delim] + post;
    assert str[|pre|..|pre| + |digits|] == digits && str[|pre| + |digits|] == delim by {
      assert str == (pre + digits) + ([delim] + post);
    }
    ParseIntAt(d, str, |pre|, digits, default, v);
  }

  /** ParseInt reads back an unsigned Int32 written in decimal and followed
      by a delimiter, and stops just after the delimiter. */
  lemma ParseIntReadsDecimal(d: Delimiters, pre: string, n: nat, delim: char, post: string, default: int)
    requires !IsDigit(d.field) && !IsDigit(d.record) && d.Has(delim) && n <= Int32Max
    ensures var str := pre + DecimalString(n) + [delim] + post;
      ParseInt(d, str, |pre|, default) == Success((n, |pre| + |DecimalString(n)| + 1))
  {
    IntParseDecimal(n);
    ParseIntReadsDigits(d, pre, DecimalString(n), delim, post, default, n);
  }

  /** A sign, or any other character that is neither a digit, white space
      nor a delimiter, is rejected: ParseInt reads unsigned numbers only. */
  lemma ParseIntRejectsNonDigit(d: Delimiters, str: string, index: nat, default: int)
    requires index < |str| && !IsDigit(str[index]) && !IsWhiteSpace(str[index]) && !d.Has(str[index])
    ensures ParseInt(d, str, index, default) == Failure(IgesException("Expected digit"))
  {
  }

  lemma ParseIntRejectsMinus(d: Delimiters, pre: string, n: nat, default: int)
    requires !d.Has('-')
    ensures ParseInt(d, pre + ['-'] + DecimalString(n), |pre|, default)
      == Failure(IgesException("Expected digit"))
  {
    var str := pre + ['-'] + DecimalString(n);
    assert str[|pre|] == '-';
    ParseIntRejectsNonDigit(d, str, |pre|, default);
  }

  /** White space alone before a delimiter is not an omitted value: the empty
      digit string is not a number. */
  lemma ParseIntRejectsBlank(d: Delimiters, pre: string, w: string, delim: char, post: string, default: int)
    requires |w| > 0 && forall k :: 0 <= k < |w| ==> IsWhiteSpace(w[k]) && !d.Has(w[k])
    requires d.Has(delim) && !IsWhiteSpace(delim)
    ensures ParseInt(d, pre + w + [delim] + post, |pre|, default) == Failure(FormatException)
  {
    var str := pre + w + [delim] + post;
    var end := |pre| + |w|;
    assert str[end] == delim;
    assert str[|pre|] == w[0];
    SwallowsRun(str, |pre|, |w|) by {
      forall k | |pre| <= k < end ensures IsWhiteSpace(str[k]) {
        assert str[k] == w[k - |pre|];
      }
    }
    assert ScanDigits(d, str, end) == Success(("", end + 1));
  }

  /** SwallowWhitespace steps over a run of `n` white-space characters and
      stops at the first character after it. */
  lemma SwallowsRun(str: string, index: nat, n: nat)
    requires index + n < |str| && !IsWhiteSpace(str[index + n])
    requires forall k :: index <= k < index + n ==> IsWhiteSpace(str[k])
    ensures SwallowWhitespace(str, index) == index + n
  {
  }

  // ---------------------------------------------------------------------
  // Records and fields
  // ---------------------------------------------------------------------

  /** The IGES form of a record: its fields separated by the field
      delimiter and closed by the record delimiter. */
  function FormatRecord(fields: seq<string>, d: Delimiters): string
    requires |fields| >= 1
  {
    Join(fields, d.field) + [d.record]
  }

  lemma {:induction false} FieldCharacters(s: string, tail: string, d: Delimiters, current: string)
    requires NoDelimiter(s, d)
    ensures FieldsFrom(s + tail, d, current) == FieldsFrom(tail, d, current + s)
    decreases |s|
  {
    if |s| == 0 {
      assert s + tail == tail && current + s == current;
    } else {
      assert (s + tail)[0] == s[0] && (s + tail)[1..] == s[1..] + tail;
      FieldCharacters(s[1..], tail, d, current + [s[0]]);
      assert current + [s[0]] + s[1..] == current + s;
    }
  }

  /** Splitting a formatted record gives back its fields, whatever text
      follows the record delimiter. */
  lemma {:induction false} FieldsOfRecord(fields: seq<string>, d: Delimiters, rest: string)
    requires |fields| >= 1 && d.field != d.record
    requires forall k :: 0 <= k < |fields| ==> NoDelimiter(fields[k], d)
    ensures FieldsFrom(FormatRecord(fields, d) + rest, d, "") == fields
    decreases |fields|
  {
    var tail := if |fields| == 1 then [d.record] + rest
                else [d.field] + (FormatRecord(fields[1..], d) + rest);
    assert FormatRecord(fields, d) + rest == fields[0] + tail;
    FieldCharacters(fields[0], tail, d, "");
    assert "" + fields[0] == fields[0];
    if |fields| > 1 {
      FieldsOfRecord(fields[1..], d, rest);
      assert tail[1..] == FormatRecord(fields[1..], d) + rest;
    }
  }

  /** The text of `s` up to and including its first record delimiter (all
      of it when there is none). */
  function ThroughRecord(s: string, d: Delimiters): string
    decreases |s|
  {
    if |s| == 0 then ""
    else if s[0] == d.record then [s[0]]
    else [s[0]] + ThroughRecord(s[1..], d)
  }

  /** How many characters of `s` are delimiters. */
  function DelimiterCount(s: string, d: Delimiters): nat
    decreases |s|
  {
    if |s| == 0 then 0 else (if d.Has(s[0]) then 1 else 0) + DelimiterCount(s[1..], d)
  }

  /** SplitFields emits one field per delimiter up to and including the
      first record delimiter, none of them holding a delimiter. */
  lemma {:induction false} OneFieldPerDelimiter(s: string, d: Delimiters, current: string)
    requires NoDelimiter(current, d)
    ensures |FieldsFrom(s, d, current)| == DelimiterCount(ThroughRecord(s, d), d)
    ensures forall k :: 0 <= k < |FieldsFrom(s, d, current)| ==> NoDelimiter(FieldsFrom(s, d, current)[k], d)
    decreases |s|
  {
    if |s| > 0 {
      if s[0] == d.record {
        assert ThroughRecord(s, d)[1..] == "";
      } else if s[0] == d.field {
        OneFieldPerDelimiter(s[1..], d, "");
        assert ThroughRecord(s, d)[1..] == ThroughRecord(s[1..], d);
        var fs := FieldsFrom(s, d, current);
        forall k | 1 <= k < |fs|
          ensures NoDelimiter(fs[k], d)
        {
          assert fs[k] == FieldsFrom(s[1..], d, "")[k - 1];
        }
      } else {
        OneFieldPerDelimiter(s[1..], d, current + [s[0]]);
        assert ThroughRecord(s, d)[1..] == ThroughRecord(s[1..], d);
      }
    }
  }

  /** Text after the first record delimiter is never read. */
  lemma {:induction false} FieldsStopAtRecord(s: string, rest: string, d: Delimiters, current: string)
    requires d.record in s
    ensures FieldsFrom(s + rest, d, current) == FieldsFrom(s, d, current)
    decreases |s|
  {
    assert (s + rest)[0] == s[0] && (s + rest)[1..] == s[1..] + rest;
    if s[0] != d.record {
      FieldsStopAtRecord(s[1..], rest, d, if s[0] == d.field then "" else current + [s[0]]);
    }
  }

  /** Text with no delimiter, before or after the fields, adds no field. */
  lemma {:induction false} UndelimitedTextIsDropped(s: string, d: Delimiters, current: string)
    requires NoDelimiter(s, d)
    ensures FieldsFrom(s, d, current) == []
    decreases |s|
  {
    if |s| > 0 {
      UndelimitedTextIsDropped(s[1..], d, current + [s[0]]);
    }
  }
}

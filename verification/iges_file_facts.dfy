/** What the IGES reader makes of a whole file. A writer lays the four
    sections out in 80-column lines numbered from 1 within each section and
    closes them with a Terminate line carrying the four counts; reading that
    file gives back the sections. The parameter records are keyed by their
    first line, and the directory entries read back what a writer puts in
    their fields. */
module IgesFileFacts {
  import opened Wrappers
  import opened DotNetText
  import opened IgesReader

  /** The largest sequence number seven columns hold. */
  const MaxSequence: nat := 9_999_999

  // ---------------------------------------------------------------------
  // Writing lines
  // ---------------------------------------------------------------------

  function Spaces(n: nat): (s: string)
    ensures |s| == n && forall i :: 0 <= i < n ==> s[i] == ' '
  {
    seq(n, _ => ' ')
  }

  /** A number in seven columns, filled with zeros on the left. */
  function SequenceField(n: nat): string {
    var digits := DecimalString(n);
    if |digits| >= 7 then digits else seq(7 - |digits|, _ => '0') + digits
  }

  /** An 80-column line: 72 columns of data, the section letter, the
      sequence number. */
  function FormatLine(data: string, t: SectionType, n: nat): string {
    data + [SectionTypeChar(t)] + SequenceField(n)
  }

  /** The lines of one section whose first line is number `count` + 1. */
  function FormatSection(data: seq<string>, t: SectionType, count: nat): (lines: seq<string>)
    ensures |lines| == |data|
  {
    seq(|data|, k requires 0 <= k < |data| => FormatLine(data[k], t, count + k + 1))
  }

  /** Parameter data fills columns 1-64; columns 65-72 are left blank. */
  function ParameterColumns(lines: seq<string>): seq<string> {
    seq(|lines|, k requires 0 <= k < |lines| => lines[k] + Spaces(8))
  }

  /** The data of the Terminate line: each section's letter and count. */
  function TerminateData(s: Sections): string {
    "S" + SequenceField(|s.start|) + "G" + SequenceField(|s.global|) +
    "D" + SequenceField(|s.directory|) + "P" + SequenceField(|s.parameter|) + Spaces(40)
  }

  function WriteSections(s: Sections): seq<string> {
    FormatSection(s.start, Start, 0) + FormatSection(s.global, Global, 0) +
    FormatSection(s.directory, Directory, 0) + FormatSection(ParameterColumns(s.parameter), Parameter, 0) +
    [FormatLine(TerminateData(s), Terminate, 1)]
  }

  /** Sections a file can hold: full data lines and counts that fit in seven
      columns. */
  predicate Writable(s: Sections) {
    (forall k :: 0 <= k < |s.start| ==> |s.start[k]| == MaxDataLength) &&
    (forall k :: 0 <= k < |s.global| ==> |s.global[k]| == MaxDataLength) &&
    (forall k :: 0 <= k < |s.directory| ==> |s.directory[k]| == MaxDataLength) &&
    (forall k :: 0 <= k < |s.parameter| ==> |s.parameter[k]| == ParameterDataLength) &&
    |s.start| <= MaxSequence && |s.global| <= MaxSequence &&
    |s.directory| <= MaxSequence && |s.parameter| <= MaxSequence
  }

  // ---------------------------------------------------------------------
  // Reading a sequence number back
  // ---------------------------------------------------------------------

  lemma {:induction false} ZerosValue(z: string)
    requires forall i :: 0 <= i < |z| ==> z[i] == '0'
    ensures AllDigits(z) && DigitsValue(z) == 0
    decreases |z|
  {
    if |z| > 0 {
      ZerosValue(z[..|z| - 1]);
    }
  }

  /** Leading zeros do not change the value of a digit string. */
  lemma {:induction false} LeadingZerosValue(z: string, s: string)
    requires forall i :: 0 <= i < |z| ==> z[i] == '0'
    requires AllDigits(s)
    ensures AllDigits(z + s) && DigitsValue(z + s) == DigitsValue(s)
    decreases |s|
  {
    ZerosValue(z);
    if |s| == 0 {
      assert z + s == z;
    } else {
      LeadingZerosValue(z, s[..|s| - 1]);
      assert (z + s)[..|z + s| - 1] == z + s[..|s| - 1];
    }
  }

  lemma SequenceFieldLength(n: nat)
    requires n <= MaxSequence
    ensures |SequenceField(n)| == 7
  {
    assert Pow10(7) == 10_000_000;
    DecimalStringLength(n, 7);
  }

  /** Seven digits whose value is the number. */
  lemma SequenceFieldValue(n: nat)
    requires n <= MaxSequence
    ensures |SequenceField(n)| == 7 && AllDigits(SequenceField(n)) && DigitsValue(SequenceField(n)) == n
  {
    var digits := DecimalString(n);
    SequenceFieldLength(n);
    DecimalStringValue(n);
    if |digits| < 7 {
      var z := seq(7 - |digits|, _ => '0');
      LeadingZerosValue(z, digits);
      assert SequenceField(n) == z + digits;
    }
  }

  /** A sequence number in seven columns reads back as itself, with or
      without the TrimStart the reader applies first. */
  lemma SequenceFieldReads(n: nat)
    requires n <= MaxSequence
    ensures |SequenceField(n)| == 7 && AllDigits(SequenceField(n))
    ensures TrimStart(SequenceField(n)) == SequenceField(n)
    ensures IntParse(SequenceField(n)) == Success(n)
  {
    SequenceFieldValue(n);
    var f := SequenceField(n);
    assert IsDigit(f[0]) && !IsWhiteSpace(f[0]);
    NoNumberWhiteInDigits(f);
    UnsignedValueOfDigits(f);
  }

  /** The columns of a formatted line. */
  lemma FormatLineColumns(data: string, t: SectionType, n: nat)
    requires |data| == MaxDataLength && n <= MaxSequence
    ensures var line := FormatLine(data, t, n);
      |line| == LineLength && line[..MaxDataLength] == data && line[MaxDataLength] == SectionTypeChar(t) &&
      IntParse(TrimStart(line[MaxDataLength + 1..])) == Success(n)
  {
    SequenceFieldReads(n);
    var line := FormatLine(data, t, n);
    assert line[MaxDataLength + 1..] == SequenceField(n);
  }

  // ---------------------------------------------------------------------
  // Reading sections back
  // ---------------------------------------------------------------------

  /** What the reader keeps of a data line of section `t`. */
  function Kept(t: SectionType, data: string): string
    requires t == Parameter ==> |data| >= ParameterDataLength
  {
    if t == Parameter then data[..ParameterDataLength] else data
  }

  function KeptLines(t: SectionType, data: seq<string>): seq<string>
    requires forall k :: 0 <= k < |data| ==> |data[k]| == MaxDataLength
  {
    seq(|data|, k requires 0 <= k < |data| => Kept(t, data[k]))
  }

  lemma KeptLinesCons(t: SectionType, data: seq<string>)
    requires |data| > 0 && forall k :: 0 <= k < |data| ==> |data[k]| == MaxDataLength
    ensures KeptLines(t, data) == [Kept(t, data[0])] + KeptLines(t, data[1..])
  {
  }

  /** `acc` with `more` lines appended to section `t`. */
  function Extend(acc: Sections, t: SectionType, more: seq<string>): (r: Sections)
    requires t != Terminate
  {
    match t
    case Start => acc.(start := acc.start + more)
    case Global => acc.(global := acc.global + more)
    case Directory => acc.(directory := acc.directory + more)
    case Parameter => acc.(parameter := acc.parameter + more)
  }

  lemma ExtendAfterAdd(acc: Sections, t: SectionType, line: string, more: seq<string>)
    requires t != Terminate
    ensures Extend(acc.Add(t, line), t, more) == Extend(acc, t, [line] + more)
  {
    match t
    case Start => assert acc.start + [line] + more == acc.start + ([line] + more);
    case Global => assert acc.global + [line] + more == acc.global + ([line] + more);
    case Directory => assert acc.directory + [line] + more == acc.directory + ([line] + more);
    case Parameter => assert acc.parameter + [line] + more == acc.parameter + ([line] + more);
  }

  /** An 80-column line of data section `t` whose sequence field, after
      the TrimStart the reader applies, parses as `n`: zero-padded,
      space-padded or any other form `int.Parse` accepts. */
  predicate DataLine(line: string, t: SectionType, n: int) {
    t != Terminate && |line| == LineLength &&
    SectionTypeFromCharacter(line[MaxDataLength]) == Success(t) &&
    IntParse(TrimStart(line[MaxDataLength + 1..])) == Success(n)
  }

  /** A data line numbered right after the lines already read in its
      section is appended to it (parameter lines cut to 64 columns) and
      reading goes on. */
  lemma ReadOneLine(line: string, t: SectionType, acc: Sections, tail: seq<string>)
    requires t != Terminate && DataLine(line, t, |acc.Lines(t)| + 1)
    ensures ReadSections([line] + tail, acc)
      == ReadSections(tail, acc.Add(t, Kept(t, line[..MaxDataLength])))
  {
    var lines := [line] + tail;
    assert lines[0] == line && lines[1..] == tail;
  }

  /** Lines of section `t` numbered `count` + 1, `count` + 2, ... in order. */
  predicate NumberedFrom(lines: seq<string>, t: SectionType, count: int) {
    forall k :: 0 <= k < |lines| ==> DataLine(lines[k], t, count + k + 1)
  }

  /** The data columns of 80-column lines. */
  function DataOf(lines: seq<string>): (data: seq<string>)
    requires forall k :: 0 <= k < |lines| ==> |lines[k]| == LineLength
    ensures |data| == |lines| && forall k :: 0 <= k < |data| ==> |data[k]| == MaxDataLength
  {
    seq(|lines|, k requires 0 <= k < |lines| => lines[k][..MaxDataLength])
  }

  /** A block of lines of one section, numbered on from the lines already
      read, has all its data appended to that section in order. */
  lemma {:induction false} ReadSectionBlock(lines: seq<string>, t: SectionType, acc: Sections, rest: seq<string>)
    requires t != Terminate && NumberedFrom(lines, t, |acc.Lines(t)|)
    ensures ReadSections(lines + rest, acc) == ReadSections(rest, Extend(acc, t, KeptLines(t, DataOf(lines))))
    decreases |lines|
  {
    if |lines| == 0 {
      assert lines + rest == rest;
      assert KeptLines(t, DataOf(lines)) == [];
      assert Extend(acc, t, []) == acc by {
        assert acc.Lines(t) + [] == acc.Lines(t);
      }
    } else {
      var line := lines[0];
      var acc' := acc.Add(t, Kept(t, line[..MaxDataLength]));
      ReadBlockHead(lines, t, acc, rest);
      NumberedTail(lines, t, |acc.Lines(t)|);
      ReadSectionBlock(lines[1..], t, acc', rest);
      DataOfCons(lines);
      KeptLinesCons(t, DataOf(lines));
      ExtendAfterAdd(acc, t, Kept(t, line[..MaxDataLength]), KeptLines(t, DataOf(lines[1..])));
    }
  }

  lemma ReadBlockHead(lines: seq<string>, t: SectionType, acc: Sections, rest: seq<string>)
    requires |lines| > 0 && t != Terminate && NumberedFrom(lines, t, |acc.Lines(t)|)
    ensures ReadSections(lines + rest, acc)
      == ReadSections(lines[1..] + rest, acc.Add(t, Kept(t, lines[0][..MaxDataLength])))
    ensures |acc.Add(t, Kept(t, lines[0][..MaxDataLength])).Lines(t)| == |acc.Lines(t)| + 1
  {
    assert DataLine(lines[0], t, |acc.Lines(t)| + 0 + 1);
    assert lines + rest == [lines[0]] + (lines[1..] + rest);
    ReadOneLine(lines[0], t, acc, lines[1..] + rest);
  }

  lemma NumberedTail(lines: seq<string>, t: SectionType, count: int)
    requires |lines| > 0 && NumberedFrom(lines, t, count)
    ensures NumberedFrom(lines[1..], t, count + 1)
  {
    forall k | 0 <= k < |lines[1..]| ensures DataLine(lines[1..][k], t, count + 1 + k + 1) {
      assert lines[1..][k] == lines[k + 1];
      assert DataLine(lines[k + 1], t, count + (k + 1) + 1);
    }
  }

  lemma DataOfCons(lines: seq<string>)
    requires |lines| > 0 && forall k :: 0 <= k < |lines| ==> |lines[k]| == LineLength
    ensures DataOf(lines)[0] == lines[0][..MaxDataLength] && DataOf(lines)[1..] == DataOf(lines[1..])
  {
  }

  lemma SectionLettersAgree(t: SectionType)
    ensures SectionTypeFromCharacter(SectionTypeChar(t)) == Success(t)
  {
  }

  /** A formatted section is a block of numbered data lines holding its data. */
  lemma FormatSectionNumbered(data: seq<string>, t: SectionType, count: nat)
    requires t != Terminate
    requires forall k :: 0 <= k < |data| ==> |data[k]| == MaxDataLength
    requires count + |data| <= MaxSequence
    ensures NumberedFrom(FormatSection(data, t, count), t, count)
    ensures DataOf(FormatSection(data, t, count)) == data
  {
    var lines := FormatSection(data, t, count);
    SectionLettersAgree(t);
    forall k | 0 <= k < |lines|
      ensures DataLine(lines[k], t, count + k + 1) && lines[k][..MaxDataLength] == data[k]
    {
      FormatLineColumns(data[k], t, count + k + 1);
    }
  }

  /** A whole formatted section, numbered on from the lines already read,
      is appended to that section. */
  lemma ReadFormattedBlock(data: seq<string>, t: SectionType, acc: Sections, rest: seq<string>)
    requires t != Terminate
    requires forall k :: 0 <= k < |data| ==> |data[k]| == MaxDataLength
    requires |acc.Lines(t)| + |data| <= MaxSequence
    ensures ReadSections(FormatSection(data, t, |acc.Lines(t)|) + rest, acc)
      == ReadSections(rest, Extend(acc, t, KeptLines(t, data)))
  {
    FormatSectionNumbered(data, t, |acc.Lines(t)|);
    ReadSectionBlock(FormatSection(data, t, |acc.Lines(t)|), t, acc, rest);
  }

  /** Where the four counts sit in the Terminate line's data. */
  lemma TerminateColumns(a: string, b: string, c: string, d: string)
    requires |a| == 7 && |b| == 7 && |c| == 7 && |d| == 7
    ensures var data := "S" + a + "G" + b + "D" + c + "P" + d + Spaces(40);
      |data| == MaxDataLength && data[1..8] == a && data[9..16] == b && data[17..24] == c && data[25..32] == d
  {
  }

  /** The four counts a writer puts on the Terminate line read back as the
      sizes of the sections. */
  lemma TerminateCountsRead(s: Sections)
    requires Writable(s)
    ensures |TerminateData(s)| == MaxDataLength
    ensures IntParse(TerminateData(s)[1..8]) == Success(|s.start|)
    ensures IntParse(TerminateData(s)[9..16]) == Success(|s.global|)
    ensures IntParse(TerminateData(s)[17..24]) == Success(|s.directory|)
    ensures IntParse(TerminateData(s)[25..32]) == Success(|s.parameter|)
  {
    SequenceFieldReads(|s.start|);
    SequenceFieldReads(|s.global|);
    SequenceFieldReads(|s.directory|);
    SequenceFieldReads(|s.parameter|);
    TerminateColumns(SequenceField(|s.start|), SequenceField(|s.global|),
      SequenceField(|s.directory|), SequenceField(|s.parameter|));
  }

  /** A Terminate line numbered 1 ends the reading with the verdict of
      its counts, whatever lines follow it. */
  lemma ReadTerminate(line: string, data: string, rest: seq<string>, acc: Sections)
    requires |line| == LineLength && line[..MaxDataLength] == data && line[MaxDataLength] == 'T'
    requires line[MaxDataLength + 1..] == SequenceField(1)
    ensures ReadSections([line] + rest, acc) == CheckTerminate(data, acc)
  {
    SequenceFieldReads(1);
    assert ([line] + rest)[0] == line;
  }

  /** Both sets of sections have the same number of lines in each section. */
  predicate SameCounts(c: Sections, s: Sections) {
    |c.start| == |s.start| && |c.global| == |s.global| &&
    |c.directory| == |s.directory| && |c.parameter| == |s.parameter|
  }

  /** The counts are compared in the order S, G, D, P; the first that
      disagrees names the error, and when all agree the lines read are the
      result. */
  lemma CountsChecked(data: string, acc: Sections, c: Sections)
    requires |data| == MaxDataLength
    requires IntParse(data[1..8]) == Success(|c.start|)
    requires IntParse(data[9..16]) == Success(|c.global|)
    requires IntParse(data[17..24]) == Success(|c.directory|)
    requires IntParse(data[25..32]) == Success(|c.parameter|)
    ensures var r := CheckTerminate(data, acc);
      (r.Success? <==> SameCounts(c, acc)) && (r.Success? ==> r.value == acc) &&
      (|c.start| != |acc.start| ==>
        r == Failure(IgesException("Incorrect number of start lines reported"))) &&
      (|c.start| == |acc.start| && |c.global| != |acc.global| ==>
        r == Failure(IgesException("Incorrect number of global lines reported"))) &&
      (|c.start| == |acc.start| && |c.global| == |acc.global| && |c.directory| != |acc.directory| ==>
        r == Failure(IgesException("Incorrect number of directory lines reported"))) &&
      (|c.start| == |acc.start| && |c.global| == |acc.global| && |c.directory| == |acc.directory| &&
        |c.parameter| != |acc.parameter| ==>
        r == Failure(IgesException("Incorrect number of parameter lines reported")))
  {
  }

  /** The columns of the written Terminate line. */
  lemma TerminateLineColumns(s: Sections)
    requires Writable(s)
    ensures var line := FormatLine(TerminateData(s), Terminate, 1);
      |line| == LineLength && line[..MaxDataLength] == TerminateData(s) && line[MaxDataLength] == 'T' &&
      line[MaxDataLength + 1..] == SequenceField(1)
  {
    SequenceFieldLength(|s.start|);
    SequenceFieldLength(|s.global|);
    SequenceFieldLength(|s.directory|);
    SequenceFieldLength(|s.parameter|);
    SequenceFieldLength(1);
    var data := TerminateData(s);
    assert |data| == MaxDataLength;
    var line := FormatLine(data, Terminate, 1);
    assert line[..MaxDataLength] == data;
    assert line[MaxDataLength + 1..] == SequenceField(1);
  }

  /** A Terminate line written for sections `c`, read after sections
      `acc`: reading succeeds with `acc` exactly when every count agrees,
      and otherwise fails on the first count that does not. */
  lemma ReadClaimedCounts(c: Sections, acc: Sections, rest: seq<string>)
    requires Writable(c)
    ensures var r := ReadSections([FormatLine(TerminateData(c), Terminate, 1)] + rest, acc);
      (r.Success? <==> SameCounts(c, acc)) && (r.Success? ==> r.value == acc) &&
      (|c.start| != |acc.start| ==>
        r == Failure(IgesException("Incorrect number of start lines reported"))) &&
      (|c.start| == |acc.start| && |c.global| != |acc.global| ==>
        r == Failure(IgesException("Incorrect number of global lines reported"))) &&
      (|c.start| == |acc.start| && |c.global| == |acc.global| && |c.directory| != |acc.directory| ==>
        r == Failure(IgesException("Incorrect number of directory lines reported"))) &&
      (|c.start| == |acc.start| && |c.global| == |acc.global| && |c.directory| == |acc.directory| &&
        |c.parameter| != |acc.parameter| ==>
        r == Failure(IgesException("Incorrect number of parameter lines reported")))
  {
    TerminateCountsRead(c);
    TerminateLineColumns(c);
    ReadTerminate(FormatLine(TerminateData(c), Terminate, 1), TerminateData(c), rest, acc);
    CountsChecked(TerminateData(c), acc, c);
  }

  /** The written Terminate line ends the reading with the sections read. */
  lemma ReadTerminateLine(s: Sections, rest: seq<string>)
    requires Writable(s)
    ensures ReadSections([FormatLine(TerminateData(s), Terminate, 1)] + rest, s) == Success(s)
  {
    ReadClaimedCounts(s, s, rest);
  }

  lemma KeptIdentity(t: SectionType, data: seq<string>)
    requires t != Parameter
    requires forall k :: 0 <= k < |data| ==> |data[k]| == MaxDataLength
    ensures KeptLines(t, data) == data
  {
  }

  lemma KeptParameters(p: seq<string>)
    requires forall k :: 0 <= k < |p| ==> |p[k]| == ParameterDataLength
    ensures forall k :: 0 <= k < |ParameterColumns(p)| ==> |ParameterColumns(p)[k]| == MaxDataLength
    ensures KeptLines(Parameter, ParameterColumns(p)) == p
  {
    var cols := ParameterColumns(p);
    forall k | 0 <= k < |p|
      ensures |cols[k]| == MaxDataLength && cols[k][..ParameterDataLength] == p[k]
    {
      assert cols[k] == p[k] + Spaces(8);
    }
  }

  /** Reading a written file gives back its sections, whatever follows the
      Terminate line. */
  lemma {:induction false} ReadWhatIsWritten(s: Sections, rest: seq<string>)
    requires Writable(s)
    ensures ReadSections(WriteSections(s) + rest, NoSections) == Success(s)
  {
    var t := [FormatLine(TerminateData(s), Terminate, 1)];
    WrittenLayout(s, rest);
    ReadDataSections(s, t + rest);
    ReadTerminateLine(s, rest);
  }

  /** The written file is its four sections and the Terminate line. */
  lemma WrittenLayout(s: Sections, rest: seq<string>)
    ensures WriteSections(s) + rest ==
      FormatSection(s.start, Start, 0) + (FormatSection(s.global, Global, 0) +
      (FormatSection(s.directory, Directory, 0) + (FormatSection(ParameterColumns(s.parameter), Parameter, 0) +
      ([FormatLine(TerminateData(s), Terminate, 1)] + rest))))
  {
    Regroup(FormatSection(s.start, Start, 0), FormatSection(s.global, Global, 0),
      FormatSection(s.directory, Directory, 0), FormatSection(ParameterColumns(s.parameter), Parameter, 0),
      [FormatLine(TerminateData(s), Terminate, 1)], rest);
  }

  lemma Regroup<T>(a: seq<T>, b: seq<T>, c: seq<T>, d: seq<T>, e: seq<T>, rest: seq<T>)
    ensures a + b + c + d + e + rest == a + (b + (c + (d + (e + rest))))
  {
  }

  /** The four data sections, read one after the other from nothing. */
  lemma ReadDataSections(s: Sections, rest: seq<string>)
    requires Writable(s)
    ensures ReadSections(FormatSection(s.start, Start, 0) + (FormatSection(s.global, Global, 0) +
      (FormatSection(s.directory, Directory, 0) + (FormatSection(ParameterColumns(s.parameter), Parameter, 0) +
      rest))), NoSections) == ReadSections(rest, s)
  {
    var b := FormatSection(s.global, Global, 0);
    var c := FormatSection(s.directory, Directory, 0);
    var p := ParameterColumns(s.parameter);
    var e := FormatSection(p, Parameter, 0);
    var acc1 := Sections(s.start, [], [], []);
    var acc2 := Sections(s.start, s.global, [], []);
    var acc3 := Sections(s.start, s.global, s.directory, []);
    KeptIdentity(Start, s.start);
    KeptIdentity(Global, s.global);
    KeptIdentity(Directory, s.directory);
    KeptParameters(s.parameter);
    assert Extend(NoSections, Start, KeptLines(Start, s.start)) == acc1;
    assert Extend(acc1, Global, KeptLines(Global, s.global)) == acc2;
    assert Extend(acc2, Directory, KeptLines(Directory, s.directory)) == acc3;
    assert Extend(acc3, Parameter, KeptLines(Parameter, p)) == s;
    assert |NoSections.Lines(Start)| == 0 && |acc1.Lines(Global)| == 0;
    assert |acc2.Lines(Directory)| == 0 && |acc3.Lines(Parameter)| == 0;
    ReadFormattedBlock(s.start, Start, NoSections, b + (c + (e + rest)));
    ReadFormattedBlock(s.global, Global, acc1, c + (e + rest));
    ReadFormattedBlock(s.directory, Directory, acc2, e + rest);
    ReadFormattedBlock(p, Parameter, acc3, rest);
  }

  /** The same through the text of the file: its lines joined with '\n'
      and read by Load's splitting and trimming. */
  lemma LoadWhatIsWritten(s: Sections)
    requires Writable(s)
    requires forall k :: 0 <= k < |s.start| ==> '\n' !in s.start[k]
    requires forall k :: 0 <= k < |s.global| ==> '\n' !in s.global[k]
    requires forall k :: 0 <= k < |s.directory| ==> '\n' !in s.directory[k]
    requires forall k :: 0 <= k < |s.parameter| ==> '\n' !in s.parameter[k]
    ensures LoadSections(Join(WriteSections(s), '\n')) == Success(s)
  {
    var lines := WriteSections(s);
    WrittenLinesClean(s);
    JoinSplit(lines, '\n');
    assert FileLines(Join(lines, '\n')) == lines;
    ReadWhatIsWritten(s, []);
    assert lines + [] == lines;
  }

  /** Lines that Load's splitting and trimming leave as they are. */
  predicate CleanLines(lines: seq<string>) {
    forall i :: 0 <= i < |lines| ==> '\n' !in lines[i] && TrimEnd(lines[i]) == lines[i]
  }

  lemma CleanConcat(a: seq<string>, b: seq<string>)
    requires CleanLines(a) && CleanLines(b)
    ensures CleanLines(a + b)
  {
    forall i | 0 <= i < |a + b|
      ensures '\n' !in (a + b)[i] && TrimEnd((a + b)[i]) == (a + b)[i]
    {
      if i >= |a| {
        assert (a + b)[i] == b[i - |a|];
      }
    }
  }

  /** Every written line is free of '\n' and ends in a digit, so Load's
      splitting and trimming leave it as it is. */
  lemma WrittenLinesClean(s: Sections)
    requires Writable(s)
    requires forall k :: 0 <= k < |s.start| ==> '\n' !in s.start[k]
    requires forall k :: 0 <= k < |s.global| ==> '\n' !in s.global[k]
    requires forall k :: 0 <= k < |s.directory| ==> '\n' !in s.directory[k]
    requires forall k :: 0 <= k < |s.parameter| ==> '\n' !in s.parameter[k]
    ensures CleanLines(WriteSections(s))
  {
    var p := ParameterColumns(s.parameter);
    forall k | 0 <= k < |p|
      ensures '\n' !in p[k]
    {
      assert p[k] == s.parameter[k] + Spaces(8);
    }
    var a := FormatSection(s.start, Start, 0);
    var b := FormatSection(s.global, Global, 0);
    var c := FormatSection(s.directory, Directory, 0);
    var e := FormatSection(p, Parameter, 0);
    var data := TerminateData(s);
    var t := [FormatLine(data, Terminate, 1)];
    SectionClean(s.start, Start, 0);
    SectionClean(s.global, Global, 0);
    SectionClean(s.directory, Directory, 0);
    SectionClean(p, Parameter, 0);
    TerminateDataClean(s);
    LineClean(data, Terminate, 1);
    assert CleanLines(t);
    CleanConcat(a, b);
    CleanConcat(a + b, c);
    CleanConcat(a + b + c, e);
    CleanConcat(a + b + c + e, t);
  }

  lemma TerminateDataClean(s: Sections)
    ensures '\n' !in TerminateData(s)
  {
    var f := SequenceField(|s.start|);
    var g := SequenceField(|s.global|);
    var d := SequenceField(|s.directory|);
    var q := SequenceField(|s.parameter|);
    SequenceFieldDigits(|s.start|);
    SequenceFieldDigits(|s.global|);
    SequenceFieldDigits(|s.directory|);
    SequenceFieldDigits(|s.parameter|);
    assert TerminateData(s) == "S" + f + "G" + g + "D" + d + "P" + q + Spaces(40);
  }

  lemma SequenceFieldDigits(n: nat)
    ensures '\n' !in SequenceField(n)
    ensures |SequenceField(n)| > 0 && IsDigit(SequenceField(n)[|SequenceField(n)| - 1])
  {
    var digits := DecimalString(n);
    var f := SequenceField(n);
    assert f[|f| - 1] == digits[|digits| - 1];
    assert forall i :: 0 <= i < |f| ==> IsDigit(f[i]);
  }

  lemma LineClean(data: string, t: SectionType, n: nat)
    requires '\n' !in data
    ensures CleanLines([FormatLine(data, t, n)])
  {
    SequenceFieldDigits(n);
    var f := SequenceField(n);
    var line := FormatLine(data, t, n);
    assert line[|line| - 1] == f[|f| - 1];
    assert !IsWhiteSpace(line[|line| - 1]);
    assert TrimEnd(line) == line;
    assert [line][0] == line;
  }

  lemma SectionClean(data: seq<string>, t: SectionType, count: nat)
    requires forall k :: 0 <= k < |data| ==> '\n' !in data[k]
    ensures CleanLines(FormatSection(data, t, count))
  {
    var lines := FormatSection(data, t, count);
    forall k | 0 <= k < |lines| ensures '\n' !in lines[k] && TrimEnd(lines[k]) == lines[k] {
      LineClean(data[k], t, count + k + 1);
    }
  }

  // ---------------------------------------------------------------------
  // What the reader rejects
  // ---------------------------------------------------------------------

  /** A line that is not 80 characters long stops the reading with an
      error. */
  lemma RejectsLineLength(line: string, rest: seq<string>, acc: Sections)
    requires |line| != LineLength
    ensures ReadSections([line] + rest, acc) == Failure(IgesException("Expected line length of 80 characters."))
  {
  }

  /** A data line whose sequence number is not its section's next one
      stops the reading with an error. */
  lemma RejectsUnorderedLine(line: string, t: SectionType, n: int, acc: Sections, rest: seq<string>)
    requires DataLine(line, t, n) && n != |acc.Lines(t)| + 1
    ensures ReadSections([line] + rest, acc) == Failure(IgesException("Unordered line number"))
  {
    assert ([line] + rest)[0] == line;
  }

  /** Nothing after the first Terminate line is read, so a second one is
      never seen. */
  lemma StopsAtTerminate(line: string, rest: seq<string>, acc: Sections)
    requires |line| == LineLength && line[MaxDataLength] == 'T'
    ensures ReadSections([line] + rest, acc) == ReadSections([line], acc)
  {
    assert ([line] + rest)[0] == line;
  }
}

/** The fixed-column reader of the ASCII form of IGES 5.3: every line is 80
    characters, columns 1-72 hold data, column 73 the section letter and
    columns 74-80 the line's sequence number within its section. The
    `ref int index` parsers become functions from a start index to the value
    read and the index after it. */
module IgesReader {
  import opened Wrappers
  import opened DotNetText

  const LineLength: nat := 80
  /** Columns 1-72 of a line hold data. */
  const MaxDataLength: nat := 72
  /** Parameter lines keep only 64 columns: 65-72 hold a directory pointer. */
  const ParameterDataLength: nat := 64
  /** Directory fields are 8 columns wide. */
  const FieldSize: nat := 8

  // ---------------------------------------------------------------------
  // Section letters
  // ---------------------------------------------------------------------

  datatype SectionType = Start | Global | Directory | Parameter | Terminate

  function SectionTypeChar(t: SectionType): (c: char)
    ensures c in "SGDPT"
  {
    match t
    case Start => 'S'
    case Global => 'G'
    case Directory => 'D'
    case Parameter => 'P'
    case Terminate => 'T'
  }

  /** The section a letter in column 73 names; any other letter is an
      error. */
  function SectionTypeFromCharacter(c: char): (r: Result<SectionType>)
    ensures r.Success? <==> c in "SGDPT"
    ensures r.Success? ==> SectionTypeChar(r.value) == c
    ensures r.Failure? ==> r.error == IgesException("Invalid section type " + [c])
  {
    match c
    case 'S' => Success(Start)
    case 'G' => Success(Global)
    case 'D' => Success(Directory)
    case 'P' => Success(Parameter)
    case 'T' => Success(Terminate)
    case _ => Failure(IgesException("Invalid section type " + [c]))
  }

  // ---------------------------------------------------------------------
  // Splitting a file into its sections (Load)
  // ---------------------------------------------------------------------

  /** The data lines collected for the four data-bearing sections. */
  datatype Sections = Sections(start: seq<string>, global: seq<string>,
                               directory: seq<string>, parameter: seq<string>)
  {
    function Lines(t: SectionType): seq<string>
      requires t != Terminate
    {
      match t
      case Start => start
      case Global => global
      case Directory => directory
      case Parameter => parameter
    }

    function Add(t: SectionType, data: string): (r: Sections)
      requires t != Terminate
      ensures r.Lines(t) == Lines(t) + [data]
      ensures forall u :: u != Terminate && u != t ==> r.Lines(u) == Lines(u)
    {
      match t
      case Start => this.(start := start + [data])
      case Global => this.(global := global + [data])
      case Directory => this.(directory := directory + [data])
      case Parameter => this.(parameter := parameter + [data])
    }
  }

  const NoSections := Sections([], [], [], [])

  /** The text cut at each '\n', each piece without trailing white space. */
  function FileLines(text: string): (lines: seq<string>)
    ensures |lines| == |Split(text, '\n')|
    ensures forall i :: 0 <= i < |lines| ==> lines[i] == TrimEnd(Split(text, '\n')[i])
  {
    var parts := Split(text, '\n');
    seq(|parts|, i requires 0 <= i < |parts| => TrimEnd(parts[i]))
  }

  /** The Terminate line's four counts, in columns 2-8, 10-16, 18-24 and
      26-32, against the lines collected. */
  function CheckTerminate(data: string, acc: Sections): (r: Result<Sections>)
    requires |data| == MaxDataLength
    ensures r.Success? ==> r.value == acc
  {
    var startCount :- IntParse(data[1..8]);
    var globalCount :- IntParse(data[9..16]);
    var directoryCount :- IntParse(data[17..24]);
    var parameterCount :- IntParse(data[25..32]);
    if |acc.start| != startCount then Failure(IgesException("Incorrect number of start lines reported"))
    else if |acc.global| != globalCount then Failure(IgesException("Incorrect number of global lines reported"))
    else if |acc.directory| != directoryCount then Failure(IgesException("Incorrect number of directory lines reported"))
    else if |acc.parameter| != parameterCount then Failure(IgesException("Incorrect number of parameter lines reported"))
    else Success(acc)
  }

  /** Reads lines in order into `acc` until the Terminate line, which ends
      the reading; running out of lines without one is not an error. */
  function ReadSections(lines: seq<string>, acc: Sections): (r: Result<Sections>)
    decreases |lines|, 1
  {
    if |lines| == 0 then Success(acc) else ReadFirstLine(lines, acc)
  }

  /** The first line's columns are checked, its data kept, and reading
      goes on with the next line. */
  function ReadFirstLine(lines: seq<string>, acc: Sections): (r: Result<Sections>)
    requires |lines| > 0
    decreases |lines|, 0
  {
    var line := lines[0];
    if |line| != LineLength then Failure(IgesException("Expected line length of 80 characters."))
    else
      var data := line[..MaxDataLength];
      var sectionType :- SectionTypeFromCharacter(line[MaxDataLength]);
      var lineNumber :- IntParse(TrimStart(line[MaxDataLength + 1..]));
      if sectionType == Terminate then CheckTerminate(data, acc)
      else
        var kept := if sectionType == Parameter then data[..ParameterDataLength] else data;
        var acc' := acc.Add(sectionType, kept);
        if |acc'.Lines(sectionType)| != lineNumber then Failure(IgesException("Unordered line number"))
        else ReadSections(lines[1..], acc')
  }

  /** The sections of a whole file. */
  function LoadSections(text: string): Result<Sections> {
    ReadSections(FileLines(text), NoSections)
  }

  // ---------------------------------------------------------------------
  // Scanning helpers
  // ---------------------------------------------------------------------

  /** The field and record delimiters the Global section declares. */
  datatype Delimiters = Delimiters(field: char, record: char)
  {
    predicate Has(c: char) {
      c == field || c == record
    }
  }

  /** The first index at or after `index` that does not hold white space. */
  function SwallowWhitespace(str: string, index: nat): (r: nat)
    ensures index <= r && (index <= |str| ==> r <= |str|)
    ensures forall i :: index <= i < r ==> i < |str| && IsWhiteSpace(str[i])
    ensures r < |str| ==> !IsWhiteSpace(str[r])
    decreases |str| - index
  {
    if index < |str| && IsWhiteSpace(str[index]) then SwallowWhitespace(str, index + 1) else index
  }

  /** Steps over `delim` at `index`; the end of the string or another
      character there is an error. */
  function SwallowDelimiter(str: string, delim: char, index: nat): (r: Result<nat>)
    ensures r.Success? <==> index < |str| && str[index] == delim
    ensures r.Success? ==> r.value == index + 1
    ensures r.Failure? ==> r.error == IgesException(
      if index >= |str| then "Unexpected end of string" else "Expected delimiter")
  {
    if index >= |str| then Failure(IgesException("Unexpected end of string"))
    else if str[index] != delim then Failure(IgesException("Expected delimiter"))
    else Success(index + 1)
  }

  predicate IsNullOrWhiteSpace(s: string) {
    forall i :: 0 <= i < |s| ==> IsWhiteSpace(s[i])
  }

  /** The digits of a Hollerith length from `i` up to the 'H', and the index
      after the 'H' (or the end of the string). */
  function ScanLength(str: string, i: nat): (r: Result<(string, nat)>)
    ensures r.Success? ==> AllDigits(r.value.0) && i + |r.value.0| <= r.value.1
    ensures r.Failure? ==> r.error == IgesException("Expected digit")
    decreases |str| - i
  {
    if i >= |str| then Success(("", i))
    else if str[i] == 'H' then Success(("", i + 1))
    else if !IsDigit(str[i]) then Failure(IgesException("Expected digit"))
    else
      var rest :- ScanLength(str, i + 1);
      Success(([str[i]] + rest.0, rest.1))
  }

  /** Reads a Hollerith string `nHxxx` at `index` followed by its delimiter:
      a delimiter right at `index` is an omitted value. */
  function ParseString(d: Delimiters, str: string, index: nat, default: Option<string>)
    : (r: Result<(Option<string>, nat)>)
    ensures r.Success? ==> (index < r.value.1 || (index >= |str| && r.value == (default, index)))
  {
    if index < |str| && d.Has(str[index]) then Success((default, index + 1))
    else
      var scanned :- ScanLength(str, SwallowWhitespace(str, index));
      var lengthString := scanned.0;
      if IsNullOrWhiteSpace(lengthString) then Success((default, scanned.1))
      else
        var length :- IntParse(lengthString);
        var value :- Substring(str, scanned.1, length);
        var end := scanned.1 + length;
        var after :- SwallowDelimiter(str, if end == |str| - 1 then d.record else d.field, end);
        Success((Some(value), after))
  }

  /** The digits from `i` up to a delimiter, and the index after that
      delimiter (or the end of the string). */
  function ScanDigits(d: Delimiters, str: string, i: nat): (r: Result<(string, nat)>)
    ensures r.Success? ==> AllDigits(r.value.0) && i + |r.value.0| <= r.value.1
    ensures r.Failure? ==> r.error == IgesException("Expected digit")
    decreases |str| - i
  {
    if i >= |str| then Success(("", i))
    else if d.Has(str[i]) then Success(("", i + 1))
    else if !IsDigit(str[i]) then Failure(IgesException("Expected digit"))
    else
      var rest :- ScanDigits(d, str, i + 1);
      Success(([str[i]] + rest.0, rest.1))
  }

  /** Reads an unsigned integer at `index` followed by its delimiter: a
      delimiter right at `index` is an omitted value. */
  function ParseInt(d: Delimiters, str: string, index: nat, default: int): (r: Result<(int, nat)>)
    ensures r.Success? ==> r.value.0 >= 0 || r.value == (default, index + 1)
  {
    if index < |str| && d.Has(str[index]) then Success((default, index + 1))
    else
      var scanned :- ScanDigits(d, str, SwallowWhitespace(str, index));
      var value :- IntParse(scanned.0);
      Success((value, scanned.1))
  }

  // ---------------------------------------------------------------------
  // Fields
  // ---------------------------------------------------------------------

  /** The 8-column field `field` (counted from 1), trimmed; a blank field is
      the default. */
  function GetField(str: string, field: int, default: Option<string>): (r: Result<Option<string>>)
    ensures r.Success? <==> 1 <= field && field * FieldSize <= |str|
    ensures r.Failure? ==> r.error == ArgumentOutOfRangeException
    ensures r.Success? && r.value.Some? && r.value != default ==> |r.value.value| > 0
  {
    var raw :- Substring(str, (field - 1) * FieldSize, FieldSize);
    var value := Trim(raw);
    if |value| == 0 then Success(default) else Success(Some(value))
  }

  /** The integer in a field, a blank field reading as 0. */
  function FieldInt(str: string, field: int): Result<int> {
    var value :- GetField(str, field, Some("0"));
    IntParse(value.GetOr("0"))
  }

  /** The fields of `input` after `current`: the text between delimiters,
      up to and including the first record delimiter. Text after it, or
      text with no delimiter after it, is not a field. */
  function FieldsFrom(input: string, d: Delimiters, current: string): seq<string>
    decreases |input|
  {
    if |input| == 0 then []
    else if input[0] == d.record then [current]
    else if input[0] == d.field then [current] + FieldsFrom(input[1..], d, "")
    else FieldsFrom(input[1..], d, current + [input[0]])
  }

  predicate NoDelimiter(s: string, d: Delimiters) {
    forall i :: 0 <= i < |s| ==> !d.Has(s[i])
  }

  /** The record's fields, collected character by character. */
  method SplitFields(input: string, d: Delimiters) returns (fields: seq<string>)
    ensures fields == FieldsFrom(input, d, "")
    ensures forall k :: 0 <= k < |fields| ==> NoDelimiter(fields[k], d)
  {
    fields := [];
    var sb := "";
    var i := 0;
    while i < |input|
      invariant 0 <= i <= |input|
      invariant fields + FieldsFrom(input[i..], d, sb) == FieldsFrom(input, d, "")
      invariant NoDelimiter(sb, d)
      invariant forall k :: 0 <= k < |fields| ==> NoDelimiter(fields[k], d)
    {
      var c := input[i];
      if d.Has(c) {
        assert input[i..][0] == c && input[i..][1..] == input[i + 1..];
        fields := fields + [sb];
        sb := "";
        if c == d.record {
          return;
        }
      } else {
        assert input[i..][0] == c && input[i..][1..] == input[i + 1..];
        sb := sb + [c];
      }
      i := i + 1;
    }
    assert input[i..] == [];
  }

  // ---------------------------------------------------------------------
  // Parameter records
  // ---------------------------------------------------------------------

  /** One parameter record: the 1-based number of its first line, its entity
      type and its remaining fields. */
  datatype ParameterRecord = ParameterRecord(pointer: int, entityType: int, fields: seq<string>)

  /** A parameter line whose 64 data columns end, before trailing white
      space, in the record delimiter closes a record. */
  predicate ClosesRecord(line: string, d: Delimiters)
    requires |line| >= ParameterDataLength
  {
    var t := TrimEnd(line[..ParameterDataLength]);
    |t| > 0 && t[|t| - 1] == d.record
  }

  /** Groups the parameter lines from `i` on into records; `pointer` is the
      number of the open record's first line and `pending` its text so far.
      Lines after the last closed record are dropped. */
  function GroupFrom(lines: seq<string>, d: Delimiters, i: nat, pointer: int, pending: string)
    : (r: Result<seq<ParameterRecord>>)
    requires i <= |lines|
    decreases |lines| - i
  {
    if i == |lines| then Success([])
    else
      var line :- Substring(lines[i], 0, ParameterDataLength);
      var text := pending + line;
      if ClosesRecord(lines[i], d) then
        var fields := FieldsFrom(text, d, "");
        if |fields| < 2 then Failure(IgesException("At least two fields necessary"))
        else
          var entityType :- IntParse(fields[0]);
          var rest :- GroupFrom(lines, d, i + 1, i + 2, "");
          Success([ParameterRecord(pointer, entityType, fields[1..])] + rest)
      else GroupFrom(lines, d, i + 1, pointer, text)
  }

  function ParseParameterLines(lines: seq<string>, d: Delimiters): Result<seq<ParameterRecord>> {
    GroupFrom(lines, d, 0, 1, "")
  }

  // ---------------------------------------------------------------------
  // Directory entries
  // ---------------------------------------------------------------------

  /** The fields of one two-line directory entry. */
  datatype DirectoryEntry = DirectoryEntry(
    lineNumber: int,
    entityType: int,
    parameterPointer: int,
    structure: int,
    lineFontPattern: int,
    level: int,
    view: int,
    transformationMatrixPointer: int,
    labelDisplay: int,
    statusNumber: int,
    lineWeight: int,
    color: int,
    lineCount: int,
    formNumber: int,
    entityLabel: Option<string>,
    entitySubscript: int)

  /** The integers in the given fields of a line, read in order; the first
      field that does not read is the error. */
  function FieldInts(line: string, fields: seq<int>): (r: Result<seq<int>>)
    ensures r.Success? ==> |r.value| == |fields|
    decreases |fields|
  {
    if |fields| == 0 then Success([])
    else
      var v :- FieldInt(line, fields[0]);
      var rest :- FieldInts(line, fields[1..]);
      Success([v] + rest)
  }

  /** The entry on `line1` and `line2` at `lineNumber`, or None for entity
      type 0; a transformation matrix must be defined by an earlier entry.
      Line 1 holds nine integer fields; line 2 repeats the entity type in
      field 1, holds integers in fields 2-5 and 9, and the entity label in
      field 8. */
  function ReadDirectoryEntry(line1: string, line2: string, lineNumber: int)
    : (r: Result<Option<DirectoryEntry>>)
    ensures r.Success? && r.value.Some? ==>
      r.value.value.lineNumber == lineNumber && r.value.value.entityType != 0 &&
      r.value.value.transformationMatrixPointer < lineNumber
  {
    var entityType :- FieldInt(line1, 1);
    if entityType == 0 then Success(None)
    else
      var a :- FieldInts(line1, [2, 3, 4, 5, 6, 7, 8, 9]);
      var b :- FieldInts(line2, [2, 3, 4, 5]);
      var entityLabel :- GetField(line2, 8, None);
      var c :- FieldInts(line2, [9]);
      if a[5] >= lineNumber then Failure(IgesException("Pointer must point back"))
      else Success(Some(DirectoryEntry(lineNumber, entityType, a[0], a[1], a[2], a[3], a[4], a[5], a[6], a[7],
        b[0], b[1], b[2], b[3], entityLabel, c[0])))
  }

  /** How one line pair of the directory section is read: its two lines and
      the number of the first of them. */
  type PairReader = (string, string, int) -> Result<Option<DirectoryEntry>>

  /** The entries of the line pairs in `lines`, whose first line is line
      `first` of the section, that have parameter data, in order; each pair
      is read with `read`, and the first pair that fails to read ends the
      walk with its error. */
  function DirectoryFrom(read: PairReader, lines: seq<string>, parameterPointers: set<int>, first: int)
    : (r: Result<seq<DirectoryEntry>>)
    requires |lines| % 2 == 0
    decreases |lines|
  {
    if |lines| == 0 then Success([])
    else
      assert |lines| >= 2 && |lines[2..]| % 2 == 0;
      var entry :- read(lines[0], lines[1], first);
      var rest :- DirectoryFrom(read, lines[2..], parameterPointers, first + 2);
      if entry.Some? && entry.value.parameterPointer in parameterPointers
      then Success([entry.value] + rest)
      else Success(rest)
  }

  /** The directory entries an entity is built from: those with a non-zero
      entity type whose parameter pointer names a parameter record. */
  function ParseDirectoryLines(lines: seq<string>, parameterPointers: set<int>)
    : (r: Result<seq<DirectoryEntry>>)
    ensures |lines| % 2 != 0 ==> r == Failure(IgesException("Expected an even number of lines"))
  {
    if |lines| % 2 != 0 then Failure(IgesException("Expected an even number of lines"))
    else DirectoryFrom(ReadDirectoryEntry, lines, parameterPointers, 1)
  }
}

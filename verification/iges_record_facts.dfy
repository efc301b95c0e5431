/** What the record-level IGES readers promise: parameter records are keyed
    by the number of their first line, directory entries come from line
    pairs in order and point back, and fixed 8-column fields read back the
    values right-justified into them. */
module IgesRecordFacts {
  import opened Wrappers
  import opened DotNetText
  import opened IgesReader
  import IgesFileFacts

  // ---------------------------------------------------------------------
  // Parameter records
  // ---------------------------------------------------------------------

  /** A parameter line that closes a record (a short line never does). */
  predicate Closes(line: string, d: Delimiters) {
    |line| >= ParameterDataLength && ClosesRecord(line, d)
  }

  /** The indices, from `i` on, of the lines that close a record. */
  function ClosingFrom(lines: seq<string>, d: Delimiters, i: nat): (r: seq<nat>)
    requires i <= |lines|
    decreases |lines| - i
  {
    if i == |lines| then []
    else if Closes(lines[i], d) then [i] + ClosingFrom(lines, d, i + 1)
    else ClosingFrom(lines, d, i + 1)
  }

  /** The closing lines are listed in rising order, each at or after `i`. */
  lemma {:induction false} ClosingFromBounds(lines: seq<string>, d: Delimiters, i: nat)
    requires i <= |lines|
    ensures forall k :: 0 <= k < |ClosingFrom(lines, d, i)| ==>
      i <= ClosingFrom(lines, d, i)[k] < |lines| && Closes(lines[ClosingFrom(lines, d, i)[k]], d)
    ensures forall k, j :: 0 <= k < j < |ClosingFrom(lines, d, i)| ==>
      ClosingFrom(lines, d, i)[k] < ClosingFrom(lines, d, i)[j]
    decreases |lines| - i
  {
    if i < |lines| {
      ClosingFromBounds(lines, d, i + 1);
      var rest := ClosingFrom(lines, d, i + 1);
      if Closes(lines[i], d) {
        assert ClosingFrom(lines, d, i) == [i] + rest;
      }
    }
  }

  /** GroupFrom makes one record per closing line; the first record starts
      at `pointer` and every later one at the line after the previous
      record's closing line. */
  lemma {:induction false} GroupFromPointers(lines: seq<string>, d: Delimiters, i: nat, pointer: int, pending: string)
    requires i <= |lines|
    ensures var r := GroupFrom(lines, d, i, pointer, pending);
      var c := ClosingFrom(lines, d, i);
      r.Success? ==> (|r.value| == |c| &&
        forall k :: 0 <= k < |r.value| ==> r.value[k].pointer == if k == 0 then pointer else c[k - 1] + 2)
    decreases |lines| - i
  {
    if i < |lines| && Substring(lines[i], 0, ParameterDataLength).Success? {
      var text := pending + lines[i][..ParameterDataLength];
      if ClosesRecord(lines[i], d) {
        GroupFromPointers(lines, d, i + 1, i + 2, "");
      } else {
        GroupFromPointers(lines, d, i + 1, pointer, text);
      }
    }
  }

  /** Every parameter record is keyed by the 1-based number of its first
      line: line 1 for the first, and for every later one the line right
      after the line that closed the record before it. So the keys are
      distinct and rise, and there is one record per closing line. */
  lemma ParameterRecordPointers(lines: seq<string>, d: Delimiters, records: seq<ParameterRecord>)
    requires ParseParameterLines(lines, d) == Success(records)
    ensures |records| == |ClosingFrom(lines, d, 0)|
    ensures forall k :: 0 <= k < |records| ==>
      1 <= records[k].pointer <= |lines| && (k == 0 <==> records[k].pointer == 1) &&
      (k > 0 ==> Closes(lines[records[k].pointer - 2], d))
    ensures forall k :: 0 < k < |records| ==> records[k].pointer == ClosingFrom(lines, d, 0)[k - 1] + 2
    ensures forall k, j :: 0 <= k < j < |records| ==> records[k].pointer < records[j].pointer
  {
    GroupFromPointers(lines, d, 0, 1, "");
    ClosingFromBounds(lines, d, 0);
    var c := ClosingFrom(lines, d, 0);
    forall k | 0 < k < |records|
      ensures records[k].pointer == c[k - 1] + 2 && c[k - 1] + 2 <= |lines|
    {
      assert c[k - 1] < c[k];
    }
  }

  // ---------------------------------------------------------------------
  // Directory entries
  // ---------------------------------------------------------------------

  /** What the line pair at offset `i` of `lines` reads as, the first line
      being line `first + i` of the section. */
  function EntryAt(read: PairReader, lines: seq<string>, first: int, i: nat): Result<Option<DirectoryEntry>>
    requires i + 1 < |lines|
  {
    read(lines[i], lines[i + 1], first + i)
  }

  /** The line pair at offset `i` reads as an entry with parameter data. */
  predicate Listed(read: PairReader, lines: seq<string>, pointers: set<int>, first: int, i: nat)
    requires i + 1 < |lines|
  {
    var e := EntryAt(read, lines, first, i);
    e.Success? && e.value.Some? && e.value.value.parameterPointer in pointers
  }

  /** An offset at which a line pair starts. */
  predicate PairStart(lines: seq<string>, i: int) {
    0 <= i < |lines| - 1 && i % 2 == 0
  }

  /** `e` is what the pair at its own line reads as, and has parameter data. */
  predicate ReadFrom(read: PairReader, lines: seq<string>, pointers: set<int>, first: int, e: DirectoryEntry) {
    var i := e.lineNumber - first;
    PairStart(lines, i) && EntryAt(read, lines, first, i) == Success(Some(e)) && e.parameterPointer in pointers
  }

  /** The reader gives every entry it reads the line number it was handed,
      a non-zero entity type, and a transformation matrix pointer before
      that line. */
  ghost predicate ChecksEntries(read: PairReader) {
    forall line1, line2, n :: read(line1, line2, n).Success? && read(line1, line2, n).value.Some? ==>
      read(line1, line2, n).value.value.lineNumber == n &&
      read(line1, line2, n).value.value.entityType != 0 &&
      read(line1, line2, n).value.value.transformationMatrixPointer < n
  }

  /** The IGES directory entry reader makes those checks. */
  lemma ReadDirectoryEntryChecks()
    ensures ChecksEntries(ReadDirectoryEntry)
  {
  }

  lemma EvenShift(i: int)
    ensures i % 2 == 0 <==> (i + 2) % 2 == 0
  {
  }

  /** Offset `i - 2` of the tail is offset `i` of the whole, both ways. */
  lemma TailPairs(read: PairReader, lines: seq<string>, first: int, i: nat)
    requires |lines| >= 2 && i >= 2
    ensures PairStart(lines[2..], i - 2) <==> PairStart(lines, i)
    ensures PairStart(lines, i) ==> EntryAt(read, lines[2..], first + 2, i - 2) == EntryAt(read, lines, first, i)
  {
    EvenShift(i - 2);
    if PairStart(lines, i) {
      assert lines[2..][i - 2] == lines[i] && lines[2..][i - 1] == lines[i + 1];
    }
  }

  /** An entry read from a pair of the tail is read from the same pair of
      the whole, two lines further on. */
  lemma ReadFromTail(read: PairReader, lines: seq<string>, pointers: set<int>, first: int, e: DirectoryEntry)
    requires |lines| >= 2 && ReadFrom(read, lines[2..], pointers, first + 2, e)
    ensures ReadFrom(read, lines, pointers, first, e) && first + 2 <= e.lineNumber
  {
    TailPairs(read, lines, first, e.lineNumber - first);
  }

  /** When DirectoryFrom succeeds, every line pair read. */
  lemma {:induction false} DirectoryFromReadsAll(read: PairReader, lines: seq<string>, pointers: set<int>, first: int, i: nat)
    requires |lines| % 2 == 0 && PairStart(lines, i) && DirectoryFrom(read, lines, pointers, first).Success?
    ensures EntryAt(read, lines, first, i).Success?
    decreases i
  {
    if i > 0 {
      TailPairs(read, lines, first, i);
      DirectoryFromReadsAll(read, lines[2..], pointers, first + 2, i - 2);
    }
  }

  /** When every line pair reads, DirectoryFrom succeeds. */
  lemma {:induction false} DirectoryFromReadsEach(read: PairReader, lines: seq<string>, pointers: set<int>, first: int)
    requires |lines| % 2 == 0
    requires forall i :: PairStart(lines, i) ==> EntryAt(read, lines, first, i).Success?
    ensures DirectoryFrom(read, lines, pointers, first).Success?
    decreases |lines|
  {
    if |lines| > 0 {
      assert PairStart(lines, 0);
      forall i | PairStart(lines[2..], i) ensures EntryAt(read, lines[2..], first + 2, i).Success? {
        TailPairs(read, lines, first, i + 2);
      }
      DirectoryFromReadsEach(read, lines[2..], pointers, first + 2);
    }
  }

  /** DirectoryFrom succeeds exactly when every line pair reads. */
  lemma DirectoryFromSucceeds(read: PairReader, lines: seq<string>, pointers: set<int>, first: int)
    requires |lines| % 2 == 0
    ensures DirectoryFrom(read, lines, pointers, first).Success? <==>
      forall i :: PairStart(lines, i) ==> EntryAt(read, lines, first, i).Success?
  {
    if DirectoryFrom(read, lines, pointers, first).Success? {
      forall i | PairStart(lines, i) ensures EntryAt(read, lines, first, i).Success? {
        DirectoryFromReadsAll(read, lines, pointers, first, i);
      }
    } else if forall i :: PairStart(lines, i) ==> EntryAt(read, lines, first, i).Success? {
      DirectoryFromReadsEach(read, lines, pointers, first);
    }
  }

  /** Every entry DirectoryFrom lists is what its own line pair reads, has
      parameter data, and the entries come in line order. */
  lemma {:induction false} DirectoryFromSound(read: PairReader, lines: seq<string>, pointers: set<int>, first: int)
    requires |lines| % 2 == 0 && ChecksEntries(read)
    ensures var r := DirectoryFrom(read, lines, pointers, first);
      r.Success? ==>
        (forall k :: 0 <= k < |r.value| ==> ReadFrom(read, lines, pointers, first, r.value[k])) &&
        (forall k, j :: 0 <= k < j < |r.value| ==> r.value[k].lineNumber < r.value[j].lineNumber)
    decreases |lines|
  {
    if |lines| > 0 {
      var tail := lines[2..];
      DirectoryFromSound(read, tail, pointers, first + 2);
      var r := DirectoryFrom(read, lines, pointers, first);
      if r.Success? {
        var rest := DirectoryFrom(read, tail, pointers, first + 2).value;
        forall k | 0 <= k < |rest| ensures ReadFrom(read, lines, pointers, first, rest[k]) && first + 2 <= rest[k].lineNumber {
          ReadFromTail(read, lines, pointers, first, rest[k]);
        }
        if |r.value| > |rest| {
          var e := EntryAt(read, lines, first, 0).value.value;
          assert r.value == [e] + rest;
          assert e.lineNumber == first;
        } else {
          assert r.value == rest;
        }
      }
    }
  }

  /** Every line pair that reads as an entry with parameter data is listed. */
  lemma {:induction false} DirectoryFromComplete(read: PairReader, lines: seq<string>, pointers: set<int>, first: int, i: int)
    requires |lines| % 2 == 0 && PairStart(lines, i) && Listed(read, lines, pointers, first, i)
    ensures var r := DirectoryFrom(read, lines, pointers, first);
      r.Success? ==> exists k :: 0 <= k < |r.value| && r.value[k] == EntryAt(read, lines, first, i).value.value
    decreases |lines|
  {
    var r := DirectoryFrom(read, lines, pointers, first);
    if r.Success? {
      var tail := lines[2..];
      var head := EntryAt(read, lines, first, 0).value;
      var listedHead := head.Some? && head.value.parameterPointer in pointers;
      var rest := DirectoryFrom(read, tail, pointers, first + 2).value;
      assert r.value == if listedHead then [head.value] + rest else rest;
      if i == 0 {
        assert r.value[0] == head.value;
      } else {
        TailPairs(read, lines, first, i);
        DirectoryFromComplete(read, tail, pointers, first + 2, i - 2);
        var k :| 0 <= k < |rest| && rest[k] == EntryAt(read, tail, first + 2, i - 2).value.value;
        if listedHead {
          assert r.value[k + 1] == rest[k];
        } else {
          assert r.value[k] == rest[k];
        }
      }
    }
  }

  lemma OddAfterEven(i: int)
    requires i % 2 == 0
    ensures (i + 1) % 2 == 1
  {
  }

  /** The walk from line 1 with a reader that checks its entries: every
      entry is what the pair on its own line reads as, so it sits on an odd
      line before the end, names a parameter record, has a non-zero entity
      type and a transformation matrix defined earlier. */
  lemma DirectoryFromEntries(read: PairReader, lines: seq<string>, pointers: set<int>)
    requires |lines| % 2 == 0 && ChecksEntries(read)
    ensures var r := DirectoryFrom(read, lines, pointers, 1);
      r.Success? ==> forall k :: 0 <= k < |r.value| ==>
        ReadFrom(read, lines, pointers, 1, r.value[k]) &&
        r.value[k].lineNumber % 2 == 1 && 1 <= r.value[k].lineNumber < |lines| &&
        r.value[k].entityType != 0 && r.value[k].transformationMatrixPointer < r.value[k].lineNumber
  {
    DirectoryFromSound(read, lines, pointers, 1);
    var r := DirectoryFrom(read, lines, pointers, 1);
    if r.Success? {
      forall k | 0 <= k < |r.value|
        ensures r.value[k].lineNumber % 2 == 1 && r.value[k].entityType != 0 &&
          r.value[k].transformationMatrixPointer < r.value[k].lineNumber
      {
        var e := r.value[k];
        assert ReadFrom(read, lines, pointers, 1, e);
        var i := e.lineNumber - 1;
        assert PairStart(lines, i) && read(lines[i], lines[i + 1], 1 + i) == Success(Some(e));
        OddAfterEven(i);
      }
    }
  }

  /** The directory section read as a whole: an odd number of lines is an
      error; otherwise the entries are those of DirectoryFromEntries. */
  lemma ParseDirectoryLinesEntries(lines: seq<string>, pointers: set<int>)
    ensures var r := ParseDirectoryLines(lines, pointers);
      (|lines| % 2 != 0 ==> r == Failure(IgesException("Expected an even number of lines"))) &&
      (r.Success? ==> forall k :: 0 <= k < |r.value| ==>
        ReadFrom(ReadDirectoryEntry, lines, pointers, 1, r.value[k]) &&
        r.value[k].lineNumber % 2 == 1 && 1 <= r.value[k].lineNumber < |lines| &&
        r.value[k].entityType != 0 && r.value[k].transformationMatrixPointer < r.value[k].lineNumber)
  {
    if |lines| % 2 == 0 {
      ReadDirectoryEntryChecks();
      DirectoryFromEntries(ReadDirectoryEntry, lines, pointers);
    }
  }

  /** The directory section reads exactly when it has an even number of
      lines and every line pair reads. */
  lemma ParseDirectoryLinesSucceeds(lines: seq<string>, pointers: set<int>)
    ensures ParseDirectoryLines(lines, pointers).Success? <==>
      |lines| % 2 == 0 && forall i :: PairStart(lines, i) ==> EntryAt(ReadDirectoryEntry, lines, 1, i).Success?
  {
    if |lines| % 2 == 0 {
      DirectoryFromSucceeds(ReadDirectoryEntry, lines, pointers, 1);
    }
  }

  /** Every line pair of the directory section that reads as an entry with
      parameter data is among the entries read. */
  lemma ParseDirectoryLinesComplete(lines: seq<string>, pointers: set<int>, i: int)
    ensures var r := ParseDirectoryLines(lines, pointers);
      r.Success? && PairStart(lines, i) && Listed(ReadDirectoryEntry, lines, pointers, 1, i) ==>
        exists k :: 0 <= k < |r.value| && r.value[k] == EntryAt(ReadDirectoryEntry, lines, 1, i).value.value
  {
    if |lines| % 2 == 0 && PairStart(lines, i) && Listed(ReadDirectoryEntry, lines, pointers, 1, i) {
      DirectoryFromComplete(ReadDirectoryEntry, lines, pointers, 1, i);
    }
  }

  // ---------------------------------------------------------------------
  // Fixed 8-column fields
  // ---------------------------------------------------------------------

  /** A value right-justified in an 8-column field. */
  function RightJustified(v: string): (f: string)
    requires |v| <= FieldSize
    ensures |f| == FieldSize && f[FieldSize - |v|..] == v
  {
    IgesFileFacts.Spaces(FieldSize - |v|) + v
  }

  /** Field `field` of a line whose earlier fields are `pre` reads back the
      value right-justified into it, or the default when the value is
      blank. */
  lemma GetFieldReadsBack(pre: string, v: string, post: string, field: int, default: Option<string>)
    requires field >= 1 && |pre| == (field - 1) * FieldSize && |v| <= FieldSize
    requires |v| == 0 || (!IsWhiteSpace(v[0]) && !IsWhiteSpace(v[|v| - 1]))
    ensures GetField(pre + RightJustified(v) + post, field, default) ==
      Success(if |v| == 0 then default else Some(v))
  {
    var pad := IgesFileFacts.Spaces(FieldSize - |v|);
    var line := pre + RightJustified(v) + post;
    assert line[|pre|..|pre| + FieldSize] == pad + v + "";
    TrimPadding(pad, v, "");
  }

  /** A number of at most eight digits written into a field reads back as
      that number. */
  lemma FieldIntReadsBack(pre: string, n: nat, post: string, field: int)
    requires field >= 1 && |pre| == (field - 1) * FieldSize && n < Pow10(FieldSize)
    ensures |DecimalString(n)| <= FieldSize
    ensures FieldInt(pre + RightJustified(DecimalString(n)) + post, field) == Success(n)
  {
    DecimalStringLength(n, FieldSize);
    var v := DecimalString(n);
    GetFieldReadsBack(pre, v, post, field, Some("0"));
    IntParseDecimal(n);
  }

  /** A blank field reads as 0. */
  lemma FieldIntBlank(pre: string, post: string, field: int)
    requires field >= 1 && |pre| == (field - 1) * FieldSize
    ensures FieldInt(pre + IgesFileFacts.Spaces(FieldSize) + post, field) == Success(0)
  {
    assert RightJustified("") == IgesFileFacts.Spaces(FieldSize);
    GetFieldReadsBack(pre, "", post, field, Some("0"));
    IntParseDecimal(0);
    assert DecimalString(0) == "0";
  }
}

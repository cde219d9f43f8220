/** The fixed-width-to-CSV transformer: a line callback that finds a data
    block in a report (it opens at a line starting with `---` and closes at
    a line containing `record(s) selected.`) and turns every line inside
    the block into one `;`-terminated record, cutting the line into
    columns whose widths come from the dash runs of a ruler line. */
module TransformTxtToCsv {
  import opened JavaLang
  import opened Seqs

  const StartMarker: string := "---"
  const EndMarker: string := "record(s) selected."

  /** The lengths of the dash runs of the ruler line LAENGENMA, split on
      single spaces: 29 columns, 696 characters wide including separators. */
  const ColumnWidths: seq<nat> :=
    [7, 14, 10, 12, 45, 6, 12, 13, 16, 8, 13, 13, 46, 14, 14, 17, 46, 19, 19, 34,
     8, 23, 22, 16, 4, 4, 6, 6, 200]

  // ---------------------------------------------------------------------
  // Fixed-width slicing

  /** Where column `k` would start on an unbounded line: each column takes
      its width plus one separating blank. */
  function Span(widths: seq<nat>, k: nat): nat
    requires k <= |widths|
  {
    if k == 0 then 0 else Span(widths, k - 1) + widths[k - 1] + 1
  }

  /** The position `startPos` holds before column `k` (and `endPos` after
      column `k - 1`) on a line of length `len`: the span, clamped. */
  function Cut(widths: seq<nat>, k: nat, len: nat): nat
    requires k <= |widths|
  {
    Min(len, Span(widths, k))
  }

  /** The untrimmed text of column `k`. */
  function Slice(widths: seq<nat>, line: string, k: nat): string
    requires k < |widths|
  {
    line[Cut(widths, k, |line|)..Cut(widths, k + 1, |line|)]
  }

  /** The untrimmed slices of the first `n` columns. */
  function SlicesUpTo(widths: seq<nat>, line: string, n: nat): (r: seq<string>)
    requires n <= |widths|
    ensures |r| == n
  {
    if n == 0 then [] else SlicesUpTo(widths, line, n - 1) + [Slice(widths, line, n - 1)]
  }

  /** The trimmed fields of the first `n` columns. */
  function FieldsUpTo(widths: seq<nat>, line: string, n: nat): (r: seq<string>)
    requires n <= |widths|
    ensures |r| == n
  {
    if n == 0 then [] else FieldsUpTo(widths, line, n - 1) + [Trim(Slice(widths, line, n - 1))]
  }

  /** The trimmed fields of `line`, one per column. */
  function Fields(widths: seq<nat>, line: string): (r: seq<string>)
    ensures |r| == |widths|
  {
    FieldsUpTo(widths, line, |widths|)
  }

  /** Field `k` is column `k`'s slice, trimmed. */
  lemma {:induction false} FieldAt(widths: seq<nat>, line: string, n: nat, k: nat)
    requires k < n <= |widths|
    ensures FieldsUpTo(widths, line, n)[k] == Trim(Slice(widths, line, k))
    ensures SlicesUpTo(widths, line, n)[k] == Slice(widths, line, k)
  {
    if k < n - 1 {
      FieldAt(widths, line, n - 1, k);
    }
  }

  /** Every field followed by `;`. */
  function Terminate(fields: seq<string>): string
  {
    if fields == [] then "" else fields[0] + ";" + Terminate(fields[1..])
  }

  /** The CSV record `accept` appends for a data line. */
  function Record(widths: seq<nat>, line: string): string
  {
    Terminate(Fields(widths, line))
  }

  /** Spans grow with the column index. */
  lemma {:induction false} SpanMonotone(widths: seq<nat>, i: nat, j: nat)
    requires i <= j <= |widths|
    ensures Span(widths, i) + (j - i) <= Span(widths, j)
    decreases j - i
  {
    if i < j {
      SpanMonotone(widths, i, j - 1);
    }
  }

  /** Every substring bound the loop uses lies within the line and the
      bounds never go backwards, so `substring` cannot fail. */
  lemma CutsInRange(widths: seq<nat>, len: nat, i: nat, j: nat)
    requires i <= j <= |widths|
    ensures 0 <= Cut(widths, i, len) <= Cut(widths, j, len) <= len
  {
    SpanMonotone(widths, i, j);
  }

  /** The ruler has 29 columns, none wider than 200. */
  lemma RulerSize()
    ensures |ColumnWidths| == 29
    ensures forall k :: 0 <= k < |ColumnWidths| ==> ColumnWidths[k] <= 200
  {
  }

  /** With no column wider than `m`, column `k` starts at most `k * (m + 1)`
      chars in. */
  lemma {:induction false} SpanBound(widths: seq<nat>, k: nat, m: nat)
    requires k <= |widths|
    requires forall j :: 0 <= j < |widths| ==> widths[j] <= m
    ensures Span(widths, k) <= k * (m + 1)
  {
    if k > 0 {
      SpanBound(widths, k - 1, m);
    }
  }

  /** `endPos + laengeFeld` never overflows a Java `int`, whatever the
      line's length: before column `k` the clamped `endPos` is at most
      28 * 201, and one more column adds at most 201. */
  lemma EndPosFitsInt(k: nat, len: nat)
    requires k < |ColumnWidths|
    ensures Cut(ColumnWidths, k, len) <= 5628
    ensures Cut(ColumnWidths, k, len) + ColumnWidths[k] + 1 <= 5829 < 0x7FFF_FFFF
  {
    RulerSize();
    SpanBound(ColumnWidths, k, 200);
  }

  /** The untrimmed slices of the first `n` columns, in order, put back
      together give exactly the first `Cut(n)` characters of the line:
      nothing is skipped or read twice. */
  lemma {:induction false} SlicesPartition(widths: seq<nat>, line: string, n: nat)
    requires n <= |widths|
    ensures Flatten(SlicesUpTo(widths, line, n)) == line[..Cut(widths, n, |line|)]
  {
    if n > 0 {
      var prev := SlicesUpTo(widths, line, n - 1);
      SlicesPartition(widths, line, n - 1);
      FlattenSnoc(prev, Slice(widths, line, n - 1));
      CutsInRange(widths, |line|, n - 1, n);
      assert line[..Cut(widths, n - 1, |line|)] + Slice(widths, line, n - 1)
             == line[..Cut(widths, n, |line|)];
    }
  }

  /** The slices of all columns cover the first min(len, total width)
      characters; whatever lies beyond the last column is dropped. */
  lemma SlicesCoverPrefix(widths: seq<nat>, line: string)
    ensures Flatten(SlicesUpTo(widths, line, |widths|))
            == line[..Min(|line|, Span(widths, |widths|))]
  {
    SlicesPartition(widths, line, |widths|);
  }

  /** A column lying wholly at or past the end of a short line yields an
      empty field: once the spans reach the line's length, every later
      field is empty. */
  lemma TrailingFieldsEmpty(widths: seq<nat>, line: string, m: nat)
    requires m <= |widths| && |line| <= Span(widths, m)
    ensures forall k :: m <= k < |widths| ==> Fields(widths, line)[k] == ""
  {
    forall k | m <= k < |widths|
      ensures Fields(widths, line)[k] == ""
    {
      SpanMonotone(widths, m, k);
      SpanMonotone(widths, k, k + 1);
      FieldAt(widths, line, |widths|, k);
      assert Slice(widths, line, k) == "";
    }
  }

  /** Appending a field to a terminated list appends the field and `;`. */
  lemma {:induction false} TerminateSnoc(fields: seq<string>, f: string)
    ensures Terminate(fields + [f]) == Terminate(fields) + f + ";"
  {
    if fields == [] {
      assert Terminate([f]) == f + ";" + Terminate([]);
    } else {
      assert (fields + [f])[1..] == fields[1..] + [f];
      TerminateSnoc(fields[1..], f);
    }
  }

  /** With at least one column the record is non-empty and ends with `;`. */
  lemma RecordEndsWithSeparator(widths: seq<nat>, line: string)
    requires |widths| > 0
    ensures |Record(widths, line)| > 0
    ensures Record(widths, line)[|Record(widths, line)| - 1] == ';'
  {
    var n := |widths|;
    TerminateSnoc(FieldsUpTo(widths, line, n - 1), Trim(Slice(widths, line, n - 1)));
  }

  // ---------------------------------------------------------------------
  // Reading a record back

  /** The index of the first `c` in `s`. */
  function IndexOf(s: string, c: char): (r: nat)
    requires c in s
    ensures r < |s| && s[r] == c && c !in s[..r]
  {
    if s[0] == c then 0 else 1 + IndexOf(s[1..], c)
  }

  /** Splits a text at every `;`, dropping an unterminated tail: the
      inverse of `Terminate` for fields free of `;`. */
  function SplitFields(s: string): seq<string>
    decreases |s|
  {
    if ';' !in s then [] else
    var i := IndexOf(s, ';');
    [s[..i]] + SplitFields(s[i + 1..])
  }

  lemma SplitFieldsCons(f: string, rest: string)
    requires ';' !in f
    ensures SplitFields(f + ";" + rest) == [f] + SplitFields(rest)
  {
    var s := f + ";" + rest;
    assert s[|f|] == ';';
    assert s[..|f|] == f;
    var i := IndexOf(s, ';');
    assert i == |f|;
    assert s[..i] == f;
    assert s[i + 1..] == rest;
  }

  /** Splitting a terminated list of `;`-free fields gives the fields back. */
  lemma {:induction false} SplitTerminate(fields: seq<string>)
    requires forall k :: 0 <= k < |fields| ==> ';' !in fields[k]
    ensures SplitFields(Terminate(fields)) == fields
  {
    if fields == [] {
    } else {
      SplitTerminate(fields[1..]);
      SplitFieldsCons(fields[0], Terminate(fields[1..]));
    }
  }

  /** For a line without `;`, the record reads back as exactly the trimmed
      columns: one field per column, in column order. */
  lemma RecordRoundTrip(widths: seq<nat>, line: string)
    requires ';' !in line
    ensures SplitFields(Record(widths, line)) == Fields(widths, line)
  {
    var fs := Fields(widths, line);
    forall k | 0 <= k < |fs|
      ensures ';' !in fs[k]
    {
      var sl := Slice(widths, line, k);
      FieldAt(widths, line, |widths|, k);
      assert forall x :: x in sl ==> x in line;
      TrimKeepsAbsence(sl, ';');
    }
    SplitTerminate(fs);
  }

  // ---------------------------------------------------------------------
  // The block state machine

  /** What the consumer holds: whether it is inside a data block
      (`breakLineGefunden`) and the records so far. */
  datatype CsvState = CsvState(inside: bool, data: seq<string>)

  /** One `accept` call. */
  function Step(widths: seq<nat>, st: CsvState, line: string): CsvState
  {
    if st.inside then
      if Contains(line, EndMarker) then CsvState(false, st.data)
      else CsvState(true, st.data + [Record(widths, line)])
    else
      CsvState(StartsWith(line, StartMarker), st.data)
  }

  /** The state after `accept` has been called with each of `lines`. */
  function Run(widths: seq<nat>, st: CsvState, lines: seq<string>): CsvState
    decreases |lines|
  {
    if lines == [] then st
    else Step(widths, Run(widths, st, lines[..|lines| - 1]), lines[|lines| - 1])
  }

  /** Feeding two batches of lines one after the other is feeding their
      concatenation. */
  lemma {:induction false} RunConcat(widths: seq<nat>, st: CsvState, a: seq<string>, b: seq<string>)
    ensures Run(widths, st, a + b) == Run(widths, Run(widths, st, a), b)
    decreases |b|
  {
    if b == [] {
      assert a + b == a;
    } else {
      assert (a + b)[..|a + b| - 1] == a + b[..|b| - 1];
      RunConcat(widths, st, a, b[..|b| - 1]);
    }
  }

  /** `x` is the record of one of `lines`. */
  predicate IsRecordOf(widths: seq<nat>, lines: seq<string>, x: string)
  {
    exists l :: l in lines && x == Record(widths, l)
  }

  /** The records are append-only: earlier records never change, each line
      adds at most one record, and every added record is the record of one
      of the lines fed. */

  lemma {:induction false} RunAppendOnly(widths: seq<nat>, st: CsvState, lines: seq<string>)
    ensures st.data <= Run(widths, st, lines).data
    ensures |Run(widths, st, lines).data| <= |st.data| + |lines|
    ensures forall k :: |st.data| <= k < |Run(widths, st, lines).data| ==>
              IsRecordOf(widths, lines, Run(widths, st, lines).data[k])
    decreases |lines|
  {
    if lines != [] {
      var init := lines[..|lines| - 1];
      RunAppendOnly(widths, st, init);
      var mid := Run(widths, st, init);
      var last := lines[|lines| - 1];
      forall k | |st.data| <= k < |Run(widths, st, lines).data|
        ensures IsRecordOf(widths, lines, Run(widths, st, lines).data[k])
      {
        if k < |mid.data| {
          assert IsRecordOf(widths, init, mid.data[k]);
          var l :| l in init && mid.data[k] == Record(widths, l);
          assert l in lines;
        } else {
          assert Run(widths, st, lines).data[k] == Record(widths, last);
          assert last in lines;
        }
      }
    }
  }

  /** The record of the worked example's data line. */
  lemma ThreeColumnRecord()
    ensures Record([3, 3, 3], "AAA BBB CCC") == "AAA;BBB;CCC;"
  {
    var w: seq<nat> := [3, 3, 3];
    var a, b, c := "AAA ", "BBB ", "CCC";
    var line := a + b + c;
    assert line == "AAA BBB CCC";
    assert Span(w, 1) == 4 && Span(w, 2) == 8 && Span(w, 3) == 12;
    assert Cut(w, 0, |line|) == 0 && Cut(w, 1, |line|) == 4;
    assert Cut(w, 2, |line|) == 8 && Cut(w, 3, |line|) == 11;
    assert line[0..4] == a by { assert line[..|a|] == a; }
    assert line[4..8] == b by { assert (a + b)[|a|..] == b; assert line[..8] == a + b; }
    assert line[8..11] == c by { assert line[|a + b|..] == c; }
    assert Slice(w, line, 0) == "AAA ";
    assert Slice(w, line, 1) == "BBB ";
    assert Slice(w, line, 2) == "CCC";
    assert TrimStart("AAA ") == "AAA ";
    assert TrimEnd("AAA ") == "AAA" by { assert "AAA "[..3] == "AAA"; }
    assert TrimStart("BBB ") == "BBB ";
    assert TrimEnd("BBB ") == "BBB" by { assert "BBB "[..3] == "BBB"; }
    assert TrimStart("CCC") == "CCC";
    assert TrimEnd("CCC") == "CCC";
    assert FieldsUpTo(w, line, 1) == ["AAA"];
    assert FieldsUpTo(w, line, 2) == ["AAA", "BBB"];
    assert Fields(w, line) == ["AAA", "BBB", "CCC"];
    assert Terminate(["CCC"]) == "CCC;";
    assert Terminate(["BBB", "CCC"]) == "BBB;CCC;";
  }

  /** How the worked example's lines match the two markers. */
  lemma ExampleMarkers()
    ensures !StartsWith("noise", StartMarker)
    ensures StartsWith("--- header ---", StartMarker)
    ensures !Contains("AAA BBB CCC", EndMarker)
    ensures Contains("record(s) selected.", EndMarker)
  {
    assert "noise"[..3][0] == 'n';
    assert "--- header ---"[..3] == "---";
    ContainsIffOccurs("AAA BBB CCC", EndMarker);
    assert StartsWith("record(s) selected.", EndMarker);
  }

  /** The worked example: noise before the block is ignored, the header
      opens the block, the data line becomes one record of three 3-wide
      columns, and the end marker closes the block. */
  lemma ThreeColumnExample(w: seq<nat>, lines: seq<string>)
    requires w == [3, 3, 3]
    requires lines == ["noise", "--- header ---", "AAA BBB CCC", "record(s) selected."]
    ensures Run(w, CsvState(false, []), lines) == CsvState(false, ["AAA;BBB;CCC;"])
  {
    var st0 := CsvState(false, []);
    ExampleMarkers();
    ThreeColumnRecord();
    var a := ["noise"];
    assert a[..0] == [];
    assert Run(w, st0, a) == st0;
    var b := a + ["--- header ---"];
    assert b[..1] == a;
    assert Run(w, st0, b) == CsvState(true, []);
    var c := b + ["AAA BBB CCC"];
    assert c[..2] == b;
    assert Run(w, st0, c) == CsvState(true, ["AAA;BBB;CCC;"]);
    var d := c + ["record(s) selected."];
    assert d[..3] == c;
    assert d == lines;
  }

  /** The column loop of `accept`: `startPos` and `endPos` walk over the
      columns, `endPos` clamped to the line's length, and each slice is
      trimmed and followed by `;`. The result is the line's record. */
  method CsvLine(widths: seq<nat>, input: string) returns (csv: string)
    ensures csv == Record(widths, input)
  {
    csv := "";
    var startPos, endPos := 0, 0;
    var dataStringLength := |input|;
    for i := 0 to |widths|
      invariant startPos == endPos == Cut(widths, i, dataStringLength)
      invariant csv == Terminate(FieldsUpTo(widths, input, i))
    {
      var laengeFeld := widths[i] + 1;
      endPos := endPos + laengeFeld;
      if endPos > dataStringLength {
        endPos := dataStringLength;
      }
      var feld := input[startPos..endPos];
      assert feld == Slice(widths, input, i);
      TerminateSnoc(FieldsUpTo(widths, input, i), Trim(feld));
      csv := csv + Trim(feld) + ";";
      startPos := endPos;
    }
  }

  // ---------------------------------------------------------------------
  // The consumer object

  /** TransformTxtToCsvConsumer. The ghost fields record the lines accepted
      since the list was last replaced and the state at that moment, so that
      the object invariant can say what the list holds. */
  class TxtToCsvConsumer {
    var data: seq<string>
    var exceptions: seq<string>
    var breakLineFound: bool
    ghost var seen: seq<string>
    ghost var origin: CsvState

    ghost function State(): CsvState
      reads this
    {
      CsvState(breakLineFound, data)
    }

    ghost predicate Valid()
      reads this
    {
      && exceptions == []
      && State() == Run(ColumnWidths, origin, seen)
    }

    constructor ()
      ensures Valid()
      ensures data == [] && !breakLineFound && seen == []
    {
      data := [];
      exceptions := [];
      breakLineFound := false;
      seen := [];
      origin := CsvState(false, []);
    }

    /** `accept`: the block state machine; a data line is cut column by
        column, each slice trimmed and followed by `;`. */
    method Accept(input: string)
      requires Valid()
      modifies this
      ensures Valid()
      ensures seen == old(seen) + [input] && origin == old(origin)
      ensures State() == Step(ColumnWidths, old(State()), input)
      ensures old(breakLineFound) && Contains(input, EndMarker) ==>
                !breakLineFound && data == old(data)
      ensures old(breakLineFound) && !Contains(input, EndMarker) ==>
                breakLineFound && data == old(data) + [Record(ColumnWidths, input)]
      ensures !old(breakLineFound) ==>
                breakLineFound == StartsWith(input, StartMarker) && data == old(data)
    {
      if breakLineFound {
        if Contains(input, EndMarker) {
          breakLineFound := false;
        } else {
          var csv := CsvLine(ColumnWidths, input);
          data := data + [csv];
        }
      } else if StartsWith(input, StartMarker) {
        breakLineFound := true;
      }
      seen := seen + [input];
      assert seen[..|seen| - 1] == old(seen);
    }

    /** `getData`: the records, a prefix of which is whatever the list held
        when it was last replaced; every later record is the record of an
        accepted line. */
    function GetData(): (r: seq<string>)
      reads this
      requires Valid()
      ensures origin.data <= r && |r| <= |origin.data| + |seen|
      ensures forall k :: |origin.data| <= k < |r| ==> IsRecordOf(ColumnWidths, seen, r[k])
    {
      RunAppendOnly(ColumnWidths, origin, seen);
      assert data == Run(ColumnWidths, origin, seen).data;
      data
    }

    /** `setData`: replaces the record list; the block state is kept. */
    method SetData(newData: seq<string>)
      requires Valid()
      modifies this
      ensures Valid()
      ensures data == newData && breakLineFound == old(breakLineFound)
      ensures seen == [] && origin == old(State()).(data := newData)
    {
      data := newData;
      seen := [];
      origin := State();
    }

    /** `getExceptions`: a copy of the exception list, which nothing ever
        writes to. */
    method GetExceptions() returns (r: seq<string>)
      requires Valid()
      ensures r == exceptions && r == []
    {
      r := exceptions;
    }
  }
}

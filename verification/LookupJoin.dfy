/**
 * The nested-loop join of command.go. The right input is indexed by its
 * join field as raw lines (lines too short for the field are skipped); the
 * left input is then walked in order, each left line producing one row per
 * right line with the same key, in right-input order, or itself verbatim when
 * unpaired left lines are requested; finally the right lines whose key no
 * left line has are written verbatim when unpaired right lines are requested.
 * There is no case folding. Field positions are 0-based here (Field - 1).
 */
module LookupJoin {
  import opened Text
  import opened Rows
  import opened Options

  /** Index of right lines: join key to the raw lines carrying it, in input order. */
  type LineIndex = map<string, seq<string>>

  /** The line has a field at 0-based position f. */
  predicate HasField(line: string, f: int) {
    0 <= f < |Fields(line)|
  }

  /** The join key of a line that has the field. */
  function KeyOf(line: string, f: int): string
    requires HasField(line, f)
  {
    Fields(line)[f]
  }

  // ---------------------------------------------------------------------
  // Specification functions

  /** The index the first loop builds over the right lines. */
  function RightIndex(lines: seq<string>, f: int): LineIndex {
    if |lines| == 0 then map[]
    else
      var n := |lines| - 1;
      var idx := RightIndex(lines[..n], f);
      if HasField(lines[n], f) then
        var k := KeyOf(lines[n], f);
        idx[k := (if k in idx then idx[k] else []) + [lines[n]]]
      else idx
  }

  /** The lines with key k, in input order. */
  function KeyedLines(lines: seq<string>, f: int, k: string): seq<string> {
    if |lines| == 0 then []
    else
      var n := |lines| - 1;
      KeyedLines(lines[..n], f, k)
        + (if HasField(lines[n], f) && KeyOf(lines[n], f) == k then [lines[n]] else [])
  }

  /** One joined row: the key, the left fields but the key, the right fields but theirs. */
  function Row(line: string, f1: int, partner: string, f2: int): string
    requires HasField(line, f1)
  {
    JoinWith(JoinedFields(KeyOf(line, f1), Fields(line), f1, Fields(partner), f2), " ")
  }

  /** The rows one left line produces against its matches, in match order. */
  function RowsFor(line: string, f1: int, matches: seq<string>, f2: int): (rows: seq<string>)
    requires HasField(line, f1)
    ensures |rows| == |matches|
  {
    if |matches| == 0 then []
    else
      var n := |matches| - 1;
      RowsFor(line, f1, matches[..n], f2) + [Row(line, f1, matches[n], f2)]
  }

  /** What one left line writes. */
  function LineOutput(flags: Flags, idx: LineIndex, line: string): (out: seq<string>)
    ensures !HasField(line, flags.field1 - 1) ==> out == []
    ensures HasField(line, flags.field1 - 1) && KeyOf(line, flags.field1 - 1) in idx ==>
              |out| == |idx[KeyOf(line, flags.field1 - 1)]|
    ensures HasField(line, flags.field1 - 1) && KeyOf(line, flags.field1 - 1) !in idx ==>
              out == if EmitLeft(flags) then [line] else []
  {
    var f1, f2 := flags.field1 - 1, flags.field2 - 1;
    if !HasField(line, f1) then []
    else if KeyOf(line, f1) in idx then RowsFor(line, f1, idx[KeyOf(line, f1)], f2)
    else if EmitLeft(flags) then [line]
    else []
  }

  /** The left-driven pass: each left line's output, in left-input order. */
  function LeftDriven(flags: Flags, idx: LineIndex, lines: seq<string>): seq<string> {
    if |lines| == 0 then []
    else
      var n := |lines| - 1;
      LeftDriven(flags, idx, lines[..n]) + LineOutput(flags, idx, lines[n])
  }

  /** The keys of the left lines that have the join field. */
  function SeenKeys(lines: seq<string>, f: int): set<string> {
    if |lines| == 0 then {}
    else
      var n := |lines| - 1;
      SeenKeys(lines[..n], f) + (if HasField(lines[n], f) then {KeyOf(lines[n], f)} else {})
  }

  /** The right lines, with the join field, whose key is not in seen, in input order. */
  function RightUnpaired(lines: seq<string>, f: int, seen: set<string>): seq<string> {
    if |lines| == 0 then []
    else
      var n := |lines| - 1;
      RightUnpaired(lines[..n], f, seen)
        + (if HasField(lines[n], f) && KeyOf(lines[n], f) !in seen then [lines[n]] else [])
  }

  /** Everything written to standard output for the two inputs. */
  function JoinOutput(flags: Flags, lines1: seq<string>, lines2: seq<string>): seq<string> {
    var f1, f2 := flags.field1 - 1, flags.field2 - 1;
    LeftDriven(flags, RightIndex(lines2, f2), lines1)
      + (if EmitRight(flags) then RightUnpaired(lines2, f2, SeenKeys(lines1, f1)) else [])
  }

  // ---------------------------------------------------------------------
  // The executor

  /** One of the row-building loops: append " " + field for every field except the one at position skip. */
  method AppendSpaced(output: string, ghost parts: seq<string>, fields: seq<string>, skip: int)
    returns (r: string)
    requires parts != [] && output == JoinWith(parts, " ")
    ensures r == JoinWith(parts + Without(fields, skip), " ")
  {
    r := output;
    ghost var ps := parts;
    assert Without(fields[..0], skip) == [];
    for i := 0 to |fields|
      invariant ps == parts + Without(fields[..i], skip)
      invariant r == JoinWith(ps, " ")
    {
      WithoutPrefix(fields, i, skip);
      if i != skip {
        JoinWithSnoc(ps, " ", fields[i]);
        r := r + " " + fields[i];
        ps := ps + [fields[i]];
      }
    }
    assert fields[..|fields|] == fields;
  }

  /** Builds one joined row by appending " " + field, as the inner loops do. */
  method BuildRow(joinKey: string, fields: seq<string>, field1: int,
                  matchFields: seq<string>, field2: int) returns (output: string)
    ensures output == JoinWith(JoinedFields(joinKey, fields, field1, matchFields, field2), " ")
  {
    output := joinKey;
    output := AppendSpaced(output, [joinKey], fields, field1);
    output := AppendSpaced(output, [joinKey] + Without(fields, field1), matchFields, field2);
  }

  /** The first loop of the executor: index the right lines by their join field. */
  method IndexFile2(lines2: seq<string>, field2: int) returns (file2Map: LineIndex)
    ensures file2Map == RightIndex(lines2, field2)
  {
    file2Map := map[];
    for i := 0 to |lines2|
      invariant file2Map == RightIndex(lines2[..i], field2)
    {
      assert lines2[..i + 1][..i] == lines2[..i];
      var fields := Fields(lines2[i]);
      if field2 >= 0 && field2 < |fields| {
        var joinKey := fields[field2];
        var bucket := if joinKey in file2Map then file2Map[joinKey] else [];
        file2Map := file2Map[joinKey := bucket + [lines2[i]]];
      }
    }
    assert lines2[..|lines2|] == lines2;
  }

  /** The loop over the matches of one left line: one joined row per match, in match order. */
  method JoinMatches(line: string, field1: int, matches: seq<string>, field2: int) returns (rows: seq<string>)
    requires HasField(line, field1)
    ensures rows == RowsFor(line, field1, matches, field2)
  {
    var fields := Fields(line);
    var joinKey := fields[field1];
    rows := [];
    for j := 0 to |matches|
      invariant rows == RowsFor(line, field1, matches[..j], field2)
    {
      assert matches[..j + 1][..j] == matches[..j];
      var row := BuildRow(joinKey, fields, field1, Fields(matches[j]), field2);
      rows := rows + [row];
    }
    assert matches[..|matches|] == matches;
  }

  /** The body of the left-driven loop for one left line. */
  method JoinLine(flags: Flags, file2Map: LineIndex, line: string) returns (piece: seq<string>)
    ensures piece == LineOutput(flags, file2Map, line)
  {
    var field1, field2 := flags.field1 - 1, flags.field2 - 1;
    piece := [];
    var fields := Fields(line);
    if field1 >= 0 && field1 < |fields| {
      var joinKey := fields[field1];
      if joinKey in file2Map {
        piece := JoinMatches(line, field1, file2Map[joinKey], field2);
      } else if flags.unpairedFile1 || flags.outerJoin {
        piece := [line];
      }
    }
  }

  /** The left-driven loop: joined rows and, when requested, unpaired left lines. */
  method JoinLeft(flags: Flags, file2Map: LineIndex, lines1: seq<string>) returns (out: seq<string>)
    ensures out == LeftDriven(flags, file2Map, lines1)
  {
    out := [];
    for i := 0 to |lines1|
      invariant out == LeftDriven(flags, file2Map, lines1[..i])
    {
      assert lines1[..i + 1][..i] == lines1[..i];
      var piece := JoinLine(flags, file2Map, lines1[i]);
      out := out + piece;
    }
    assert lines1[..|lines1|] == lines1;
  }

  /** The keys of the left lines, collected before the unpaired-right pass. */
  method CollectSeen(lines1: seq<string>, field1: int) returns (seen: set<string>)
    ensures seen == SeenKeys(lines1, field1)
  {
    seen := {};
    for i := 0 to |lines1|
      invariant seen == SeenKeys(lines1[..i], field1)
    {
      assert lines1[..i + 1][..i] == lines1[..i];
      var fields := Fields(lines1[i]);
      if field1 >= 0 && field1 < |fields| {
        seen := seen + {fields[field1]};
      }
    }
    assert lines1[..|lines1|] == lines1;
  }

  /** The unpaired-right pass: right lines with the field whose key was never seen. */
  method PrintUnpairedRight(lines2: seq<string>, field2: int, seen: set<string>)
    returns (out: seq<string>)
    ensures out == RightUnpaired(lines2, field2, seen)
  {
    out := [];
    for i := 0 to |lines2|
      invariant out == RightUnpaired(lines2[..i], field2, seen)
    {
      assert lines2[..i + 1][..i] == lines2[..i];
      var fields := Fields(lines2[i]);
      if field2 >= 0 && field2 < |fields| {
        if fields[field2] !in seen {
          out := out + [lines2[i]];
        }
      }
    }
    assert lines2[..|lines2|] == lines2;
  }

  /**
   * The executor closure: the operand check, then the right index, the
   * left-driven pass and the unpaired-right pass. Reading the two files is
   * replaced by the lines they hold.
   */
  method Executor(cmd: Command, lines1: seq<string>, lines2: seq<string>) returns (r: Outcome)
    ensures |cmd.positional| < 2 ==> r == Failed(NeedTwoFiles)
    ensures |cmd.positional| >= 2 ==> r == Done(JoinOutput(cmd.flags, lines1, lines2))
  {
    if |cmd.positional| < 2 {
      return Failed(NeedTwoFiles);
    }
    var flags := cmd.flags;
    var field1, field2 := flags.field1 - 1, flags.field2 - 1;
    var file2Map := IndexFile2(lines2, field2);
    var out := JoinLeft(flags, file2Map, lines1);
    ghost var tail: seq<string> := [];
    if flags.unpairedFile2 || flags.outerJoin {
      var seen := CollectSeen(lines1, field1);
      var rest := PrintUnpairedRight(lines2, field2, seen);
      out := out + rest;
      tail := rest;
    } else {
      assert out == out + tail;
    }
    assert tail == if EmitRight(flags) then RightUnpaired(lines2, field2, SeenKeys(lines1, field1)) else [];
    return Done(out);
  }
}

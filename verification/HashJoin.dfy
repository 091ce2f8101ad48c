/**
 * The hash join of join.go. Both inputs are parsed into records (blank lines
 * dropped), each side is indexed by its normalised join key (a record too
 * short for the field goes to the "" bucket), every key of the left index
 * that the right index also has produces the cartesian product of the two
 * buckets, and the records that took part are remembered by their content
 * (fields joined by tabs). Unpaired records, when requested, follow in input
 * order, left side first. Field positions are 0-based here (Field - 1).
 */
module HashJoin {
  import opened Text
  import opened Rows
  import opened Options

  /** A parsed line: its whitespace-separated fields. */
  type Record = seq<string>

  /** Normalised join key to the records carrying it, in input order. */
  type Index = map<string, seq<Record>>

  // ---------------------------------------------------------------------
  // Specification functions

  /** parseRecords: the fields of every line that has at least one. */
  function ParsedRecords(lines: seq<string>): (rs: seq<Record>)
    ensures |rs| <= |lines|
    ensures forall i | 0 <= i < |rs| :: rs[i] != [] && WellFormed(rs[i])
  {
    if |lines| == 0 then []
    else
      var n := |lines| - 1;
      var fields := Fields(lines[n]);
      ParsedRecords(lines[..n]) + (if |fields| > 0 then [fields] else [])
  }

  /** normalizeKey: lower-case the key when case is ignored. */
  function NormalizeKey(ignoreCase: bool, key: string): (nk: string)
    ensures |nk| == |key|
    ensures !ignoreCase ==> nk == key
    ensures ignoreCase ==> forall j | 0 <= j < |key| :: nk[j] == LowerChar(key[j])
  {
    var nk := if ignoreCase then Lower(key) else key;
    assert ignoreCase ==> forall j | 0 <= j < |key| :: nk[j] == LowerChar(key[j]) by {
      if ignoreCase {
        forall j | 0 <= j < |key| ensures nk[j] == LowerChar(key[j]) {
          LowerAt(key, j);
        }
      }
    }
    nk
  }

  /** recordKey: a record's identity in the joined set, its fields joined by tabs. */
  function RecordKey(rec: Record): (k: string)
    ensures WellFormed(rec) ==> Fields(k) == rec
  {
    var k := JoinWith(rec, "\t");
    assert WellFormed(rec) ==> Fields(k) == rec by {
      if WellFormed(rec) {
        FieldsOfJoin(rec, '\t');
      }
    }
    k
  }

  /** The join field of a record, or "" when the record is too short. */
  function KeyField(rec: Record, i: int): string {
    if 0 <= i < |rec| then rec[i] else ""
  }

  /** The bucket a record is indexed under. */
  function IndexKey(ignoreCase: bool, rec: Record, i: int): string {
    NormalizeKey(ignoreCase, KeyField(rec, i))
  }

  /** The index createIndex builds. */
  function IndexOf(ignoreCase: bool, records: seq<Record>, i: int): (idx: Index)
    ensures forall k | k in idx :: idx[k] != []
  {
    if |records| == 0 then map[]
    else
      var n := |records| - 1;
      var idx := IndexOf(ignoreCase, records[..n], i);
      var k := IndexKey(ignoreCase, records[n], i);
      idx[k := (if k in idx then idx[k] else []) + [records[n]]]
  }

  /** The records indexed under k, in input order. */
  function Bucket(ignoreCase: bool, records: seq<Record>, i: int, k: string): seq<Record> {
    if |records| == 0 then []
    else
      var n := |records| - 1;
      Bucket(ignoreCase, records[..n], i, k)
        + (if IndexKey(ignoreCase, records[n], i) == k then [records[n]] else [])
  }

  /** outputJoinedRecord: left join field (original case), left rest, right rest, single spaces. */
  function JoinedRow(f1: int, f2: int, rec1: Record, rec2: Record): (row: string)
    ensures WellFormed(rec1) && WellFormed(rec2) && 0 <= f1 < |rec1| ==>
              Fields(row) == [rec1[f1]] + Without(rec1, f1) + Without(rec2, f2)
    ensures WellFormed(rec1) && WellFormed(rec2) && !(0 <= f1 < |rec1|) ==>
              Fields(row) == rec1 + Without(rec2, f2)
  {
    var row := JoinWith(JoinedFields(KeyField(rec1, f1), rec1, f1, rec2, f2), " ");
    assert WellFormed(rec1) && WellFormed(rec2) && 0 <= f1 < |rec1| ==>
             Fields(row) == [rec1[f1]] + Without(rec1, f1) + Without(rec2, f2) by {
      if WellFormed(rec1) && WellFormed(rec2) && 0 <= f1 < |rec1| {
        JoinedRowReparse(rec1[f1], rec1, f1, rec2, f2);
      }
    }
    assert WellFormed(rec1) && WellFormed(rec2) && !(0 <= f1 < |rec1|) ==>
             Fields(row) == rec1 + Without(rec2, f2) by {
      if WellFormed(rec1) && WellFormed(rec2) && !(0 <= f1 < |rec1|) {
        ShortKeyReparse(f1, f2, rec1, rec2);
      }
    }
    row
  }

  /** For a left record too short for the join field, the empty key vanishes on re-splitting. */
  lemma ShortKeyReparse(f1: int, f2: int, rec1: Record, rec2: Record)
    requires WellFormed(rec1) && WellFormed(rec2) && !(0 <= f1 < |rec1|)
    ensures Fields(JoinWith(JoinedFields("", rec1, f1, rec2, f2), " ")) == rec1 + Without(rec2, f2)
  {
    var rest := rec1 + Without(rec2, f2);
    WithoutWellFormed(rec2, f2);
    assert WellFormed(rest) by {
      forall i | 0 <= i < |rest| ensures FieldOk(rest[i]) {
        if i >= |rec1| {
          assert rest[i] == Without(rec2, f2)[i - |rec1|];
        }
      }
    }
    assert JoinedFields("", rec1, f1, rec2, f2) == [""] + rest by {
      WithoutSlices(rec1, f1);
    }
    EmptyKeyReparse(rest);
  }

  /** outputUnpairedRecord: the fields re-joined by single spaces. */
  function UnpairedLine(rec: Record): (line: string)
    ensures WellFormed(rec) ==> Fields(line) == rec
  {
    var line := JoinWith(rec, " ");
    assert WellFormed(rec) ==> Fields(line) == rec by {
      if WellFormed(rec) {
        FieldsOfJoin(rec, ' ');
      }
    }
    line
  }

  /** The rows of one left record against a right bucket, in bucket order. */
  function RowsWith(f1: int, f2: int, rec1: Record, recs2: seq<Record>): seq<string> {
    if |recs2| == 0 then []
    else
      var n := |recs2| - 1;
      RowsWith(f1, f2, rec1, recs2[..n]) + [JoinedRow(f1, f2, rec1, recs2[n])]
  }

  /** The cartesian product of two buckets: left-major, right-minor. */
  function Pairs(f1: int, f2: int, recs1: seq<Record>, recs2: seq<Record>): seq<string> {
    if |recs1| == 0 then []
    else
      var n := |recs1| - 1;
      Pairs(f1, f2, recs1[..n], recs2) + RowsWith(f1, f2, recs1[n], recs2)
  }

  /** The record keys of a sequence of records. */
  function RecordKeys(recs: seq<Record>): set<string> {
    if |recs| == 0 then {}
    else RecordKeys(recs[..|recs| - 1]) + {RecordKey(recs[|recs| - 1])}
  }

  /** What the product of two buckets adds to the joined set: every record of both, if there is a pair at all. */
  function Marks(recs1: seq<Record>, recs2: seq<Record>): set<string> {
    if |recs1| == 0 || |recs2| == 0 then {} else RecordKeys(recs1) + RecordKeys(recs2)
  }

  /** The rows the matching loop writes for one left key. */
  function Group(flags: Flags, idx1: Index, idx2: Index, k: string): seq<string> {
    var nk := NormalizeKey(flags.ignoreCase, k);
    if k in idx1 && nk in idx2 then Pairs(flags.field1 - 1, flags.field2 - 1, idx1[k], idx2[nk]) else []
  }

  /** The rows of the matching loop when it visits the left keys in the given order. */
  function MatchedRows(flags: Flags, idx1: Index, idx2: Index, order: seq<string>): seq<string> {
    if |order| == 0 then []
    else
      var n := |order| - 1;
      MatchedRows(flags, idx1, idx2, order[..n]) + Group(flags, idx1, idx2, order[n])
  }

  /** The joined set after the matching loop has visited the keys in done. */
  function JoinedIn(flags: Flags, idx1: Index, idx2: Index, done: set<string>): set<string> {
    set k, x | k in done && k in idx1 && NormalizeKey(flags.ignoreCase, k) in idx2
               && x in Marks(idx1[k], idx2[NormalizeKey(flags.ignoreCase, k)]) :: x
  }

  /** An unpaired pass: the records whose record key is not in joined, in input order. */
  function UnpairedRows(recs: seq<Record>, joined: set<string>): seq<string> {
    if |recs| == 0 then []
    else
      var n := |recs| - 1;
      UnpairedRows(recs[..n], joined) + (if RecordKey(recs[n]) !in joined then [UnpairedLine(recs[n])] else [])
  }

  /** order lists every element of keys exactly once: one possible map iteration order. */
  ghost predicate Enumerates(order: seq<string>, keys: set<string>) {
    && (forall k :: k in order <==> k in keys)
    && (forall i, j | 0 <= i < j < |order| :: order[i] != order[j])
  }

  /** A negative join field reaches record[field] in createIndex, a Go run-time panic. */
  predicate Panics(flags: Flags, recs1: seq<Record>, recs2: seq<Record>) {
    (flags.field1 - 1 < 0 && recs1 != []) || (flags.field2 - 1 < 0 && recs2 != [])
  }

  /** The left index of a run. */
  function LeftIndex(flags: Flags, recs1: seq<Record>): Index {
    IndexOf(flags.ignoreCase, recs1, flags.field1 - 1)
  }

  /** The right index of a run. */
  function RightIndex(flags: Flags, recs2: seq<Record>): Index {
    IndexOf(flags.ignoreCase, recs2, flags.field2 - 1)
  }

  /** The joined set once every left key has been visited. */
  function Joined(flags: Flags, recs1: seq<Record>, recs2: seq<Record>): set<string> {
    var idx1 := LeftIndex(flags, recs1);
    JoinedIn(flags, idx1, RightIndex(flags, recs2), idx1.Keys)
  }

  /** What the two unpaired passes write after the matching loop. */
  function UnpairedOutput(flags: Flags, recs1: seq<Record>, recs2: seq<Record>): seq<string> {
    var joined := Joined(flags, recs1, recs2);
    (if EmitLeft(flags) then UnpairedRows(recs1, joined) else [])
      + (if EmitRight(flags) then UnpairedRows(recs2, joined) else [])
  }

  /** Everything performJoin writes when the matching loop visits the left keys in order. */
  function JoinOutput(flags: Flags, recs1: seq<Record>, recs2: seq<Record>, order: seq<string>): seq<string> {
    MatchedRows(flags, LeftIndex(flags, recs1), RightIndex(flags, recs2), order) + UnpairedOutput(flags, recs1, recs2)
  }

  // ---------------------------------------------------------------------
  // The command

  /** parseRecords. */
  method ParseRecords(lines: seq<string>) returns (records: seq<Record>)
    ensures records == ParsedRecords(lines)
  {
    records := [];
    for i := 0 to |lines|
      invariant records == ParsedRecords(lines[..i])
    {
      assert lines[..i + 1][..i] == lines[..i];
      var fields := Fields(lines[i]);
      if |fields| > 0 {
        records := records + [fields];
      }
    }
    assert lines[..|lines|] == lines;
  }

  /** createIndex; a negative field index with at least one record would panic. */
  method CreateIndex(ignoreCase: bool, records: seq<Record>, fieldIndex: int) returns (index: Index)
    requires fieldIndex >= 0 || records == []
    ensures index == IndexOf(ignoreCase, records, fieldIndex)
  {
    index := map[];
    for i := 0 to |records|
      invariant index == IndexOf(ignoreCase, records[..i], fieldIndex)
    {
      assert records[..i + 1][..i] == records[..i];
      var record := records[i];
      var key := "";
      if fieldIndex < |record| {
        key := record[fieldIndex];
      }
      var normalizedKey := NormalizeKey(ignoreCase, key);
      var bucket := if normalizedKey in index then index[normalizedKey] else [];
      index := index[normalizedKey := bucket + [record]];
    }
    assert records[..|records|] == records;
  }

  /** One of outputJoinedRecord's loops: append every field except the one at position skip. */
  method AppendExcept(result: seq<string>, fields: seq<string>, skip: int) returns (r: seq<string>)
    ensures r == result + Without(fields, skip)
  {
    r := result;
    for i := 0 to |fields|
      invariant r == result + Without(fields[..i], skip)
    {
      WithoutPrefix(fields, i, skip);
      if i != skip {
        r := r + [fields[i]];
      }
    }
    assert fields[..|fields|] == fields;
  }

  /** outputJoinedRecord; a Field1 below 1 would index rec1 at a negative position. */
  method OutputJoinedRecord(flags: Flags, rec1: Record, rec2: Record) returns (line: string)
    requires flags.field1 >= 1
    ensures line == JoinedRow(flags.field1 - 1, flags.field2 - 1, rec1, rec2)
  {
    var f1, f2 := flags.field1 - 1, flags.field2 - 1;
    var joinField := "";
    if f1 < |rec1| {
      joinField := rec1[f1];
    }
    var result := [joinField];
    result := AppendExcept(result, rec1, f1);
    result := AppendExcept(result, rec2, f2);
    line := JoinWith(result, " ");
  }

  /** The inner loop for one left record: a row per right record, and the marks of both sides once there is a pair. */
  method EmitRowsWith(flags: Flags, rec1: Record, recs2: seq<Record>)
    returns (rows: seq<string>, marks: set<string>)
    requires flags.field1 >= 1
    ensures rows == RowsWith(flags.field1 - 1, flags.field2 - 1, rec1, recs2)
    ensures marks == if |recs2| == 0 then {} else {RecordKey(rec1)} + RecordKeys(recs2)
  {
    var f1, f2 := flags.field1 - 1, flags.field2 - 1;
    rows, marks := [], {};
    for j := 0 to |recs2|
      invariant rows == RowsWith(f1, f2, rec1, recs2[..j])
      invariant marks == if j == 0 then {} else {RecordKey(rec1)} + RecordKeys(recs2[..j])
    {
      assert recs2[..j + 1][..j] == recs2[..j];
      var line := OutputJoinedRecord(flags, rec1, recs2[j]);
      rows := rows + [line];
      marks := marks + {RecordKey(rec1)} + {RecordKey(recs2[j])};
    }
    assert recs2[..|recs2|] == recs2;
  }

  /** The nested loops over one shared key: every pair is written and both records are marked. */
  method EmitPairs(flags: Flags, recs1: seq<Record>, recs2: seq<Record>)
    returns (rows: seq<string>, marks: set<string>)
    requires flags.field1 >= 1
    ensures rows == Pairs(flags.field1 - 1, flags.field2 - 1, recs1, recs2)
    ensures marks == Marks(recs1, recs2)
  {
    var f1, f2 := flags.field1 - 1, flags.field2 - 1;
    rows, marks := [], {};
    for i := 0 to |recs1|
      invariant rows == Pairs(f1, f2, recs1[..i], recs2)
      invariant marks == Marks(recs1[..i], recs2)
    {
      var more, marked := EmitRowsWith(flags, recs1[i], recs2);
      PairsStep(f1, f2, recs1, recs2, i);
      rows, marks := rows + more, marks + marked;
    }
    assert recs1[..|recs1|] == recs1;
  }

  /** One more left record adds its rows and, when there is a pair, its marks. */
  lemma PairsStep(f1: int, f2: int, recs1: seq<Record>, recs2: seq<Record>, i: int)
    requires 0 <= i < |recs1|
    ensures Pairs(f1, f2, recs1[..i + 1], recs2) == Pairs(f1, f2, recs1[..i], recs2) + RowsWith(f1, f2, recs1[i], recs2)
    ensures Marks(recs1[..i + 1], recs2)
         == Marks(recs1[..i], recs2) + (if |recs2| == 0 then {} else {RecordKey(recs1[i])} + RecordKeys(recs2))
  {
    assert recs1[..i + 1][..i] == recs1[..i];
  }

  /** Listing one more, new, key enumerates the larger set. */
  lemma EnumeratesSnoc(order: seq<string>, keys: set<string>, key: string)
    requires Enumerates(order, keys) && key !in keys
    ensures Enumerates(order + [key], keys + {key})
  {
  }

  /** Visiting one more key appends that key's group. */
  lemma MatchedRowsSnoc(flags: Flags, idx1: Index, idx2: Index, order: seq<string>, key: string)
    ensures MatchedRows(flags, idx1, idx2, order + [key])
         == MatchedRows(flags, idx1, idx2, order) + Group(flags, idx1, idx2, key)
  {
    assert (order + [key])[..|order|] == order;
  }

  /** Visiting one more key adds that key's marks, if the right index has it. */
  lemma JoinedInAdd(flags: Flags, idx1: Index, idx2: Index, done: set<string>, key: string)
    requires key in idx1
    ensures var nk := NormalizeKey(flags.ignoreCase, key);
            JoinedIn(flags, idx1, idx2, done + {key})
              == JoinedIn(flags, idx1, idx2, done) + (if nk in idx2 then Marks(idx1[key], idx2[nk]) else {})
  {
  }

  /**
   * The matching loop of performJoin: the left keys in an order the model
   * leaves open (Go map iteration); for each key the right index also has,
   * every pair of the two buckets is written and both buckets are marked.
   */
  method MatchKeys(flags: Flags, index1: Index, index2: Index)
    returns (out: seq<string>, joined: set<string>, ghost order: seq<string>)
    requires flags.field1 >= 1 || index1 == map[]
    ensures Enumerates(order, index1.Keys)
    ensures out == MatchedRows(flags, index1, index2, order)
    ensures joined == JoinedIn(flags, index1, index2, index1.Keys)
  {
    joined, out, order := {}, [], [];
    var remaining := index1.Keys;
    ghost var done: set<string> := {};
    while remaining != {}
      invariant remaining + done == index1.Keys && remaining !! done
      invariant Enumerates(order, done)
      invariant out == MatchedRows(flags, index1, index2, order)
      invariant joined == JoinedIn(flags, index1, index2, done)
      decreases remaining
    {
      var key :| key in remaining;
      var normalized := NormalizeKey(flags.ignoreCase, key);
      var rows: seq<string>, marks: set<string> := [], {};
      if normalized in index2 {
        rows, marks := EmitPairs(flags, index1[key], index2[normalized]);
      }
      assert rows == Group(flags, index1, index2, key);
      JoinedInAdd(flags, index1, index2, done, key);
      MatchedRowsSnoc(flags, index1, index2, order, key);
      EnumeratesSnoc(order, done, key);
      assert (remaining - {key}) + (done + {key}) == index1.Keys by {
        assert remaining == (remaining - {key}) + {key};
      }
      out := out + rows;
      joined := joined + marks;
      remaining := remaining - {key};
      done := done + {key};
      order := order + [key];
    }
    assert done == index1.Keys;
  }

  /** One unpaired pass: the records whose record key was never marked, in input order. */
  method OutputUnpaired(records: seq<Record>, joined: set<string>) returns (out: seq<string>)
    ensures out == UnpairedRows(records, joined)
  {
    out := [];
    for i := 0 to |records|
      invariant out == UnpairedRows(records[..i], joined)
    {
      assert records[..i + 1][..i] == records[..i];
      if RecordKey(records[i]) !in joined {
        out := out + [UnpairedLine(records[i])];
      }
    }
    assert records[..|records|] == records;
  }

  /**
   * performJoin after the files are read: parse, index (panicking on a
   * negative field index when there is a record to index), the matching
   * loop, then the two unpaired passes.
   */
  method PerformJoin(flags: Flags, lines1: seq<string>, lines2: seq<string>)
    returns (r: Outcome, ghost order: seq<string>)
    ensures var recs1, recs2 := ParsedRecords(lines1), ParsedRecords(lines2);
            if Panics(flags, recs1, recs2) then r == Failed(FieldIndexPanic)
            else Enumerates(order, LeftIndex(flags, recs1).Keys)
                 && r == Done(JoinOutput(flags, recs1, recs2, order))
    ensures var recs1, recs2 := ParsedRecords(lines1), ParsedRecords(lines2);
            var unpaired := UnpairedOutput(flags, recs1, recs2);
            && (r.Failed? <==> Panics(flags, recs1, recs2))
            && (r.Done? ==> |unpaired| <= |r.output| && r.output[|r.output| - |unpaired|..] == unpaired)
  {
    order := [];
    var f1, f2 := flags.field1 - 1, flags.field2 - 1;
    var records1 := ParseRecords(lines1);
    var records2 := ParseRecords(lines2);
    if f1 < 0 && |records1| > 0 {
      return Failed(FieldIndexPanic), order;
    }
    var index1 := CreateIndex(flags.ignoreCase, records1, f1);
    if f2 < 0 && |records2| > 0 {
      return Failed(FieldIndexPanic), order;
    }
    var index2 := CreateIndex(flags.ignoreCase, records2, f2);
    var matched, joined;
    matched, joined, order := MatchKeys(flags, index1, index2);
    assert joined == Joined(flags, records1, records2);
    var left: seq<string>, right: seq<string> := [], [];
    if flags.unpairedFile1 || flags.outerJoin {
      left := OutputUnpaired(records1, joined);
    }
    if flags.unpairedFile2 || flags.outerJoin {
      right := OutputUnpaired(records2, joined);
    }
    assert left + right == UnpairedOutput(flags, records1, records2);
    return Done(matched + (left + right)), order;
  }

  /** Execute with the files already read: the operand check, then performJoin. */
  method Execute(cmd: Command, lines1: seq<string>, lines2: seq<string>)
    returns (r: Outcome, ghost order: seq<string>)
    ensures |cmd.positional| < 2 ==> r == Failed(NeedTwoFiles)
    ensures |cmd.positional| >= 2 ==>
              var recs1, recs2 := ParsedRecords(lines1), ParsedRecords(lines2);
              if Panics(cmd.flags, recs1, recs2) then r == Failed(FieldIndexPanic)
              else Enumerates(order, LeftIndex(cmd.flags, recs1).Keys)
                   && r == Done(JoinOutput(cmd.flags, recs1, recs2, order))
  {
    if |cmd.positional| < 2 {
      return Failed(NeedTwoFiles), [];
    }
    r, order := PerformJoin(cmd.flags, lines1, lines2);
  }
}

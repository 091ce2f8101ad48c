/**
 * What the nested-loop join of command.go guarantees: which right lines are
 * indexed, how many rows a left line produces and in which order, what an
 * unmatched line writes, which right lines the final pass writes, and the
 * shape of a joined row.
 */
module LookupJoinFacts {
  import opened Text
  import opened Rows
  import opened Options
  import opened LookupJoin

  /** The keys of the index are exactly the keys some right line carries; each bucket holds those lines in input order. */
  lemma {:induction false} RightIndexBuckets(lines: seq<string>, f: int)
    ensures forall k :: k in RightIndex(lines, f) <==> KeyedLines(lines, f, k) != []
    ensures forall k :: k in RightIndex(lines, f) ==> RightIndex(lines, f)[k] == KeyedLines(lines, f, k)
  {
    if |lines| > 0 {
      RightIndexBuckets(lines[..|lines| - 1], f);
    }
  }

  /** A line is in the bucket of k exactly when it is a right line, has the field, and its key is k. */
  lemma {:induction false} KeyedLinesMembers(lines: seq<string>, f: int, k: string, x: string)
    ensures x in KeyedLines(lines, f, k) <==> x in lines && HasField(x, f) && KeyOf(x, f) == k
  {
    if |lines| > 0 {
      var n := |lines| - 1;
      KeyedLinesMembers(lines[..n], f, k, x);
      assert lines == lines[..n] + [lines[n]];
    }
  }

  /** The final pass writes a line exactly when it is a right line with the field and an unseen key. */
  lemma {:induction false} RightUnpairedMembers(lines: seq<string>, f: int, seen: set<string>, x: string)
    ensures x in RightUnpaired(lines, f, seen) <==> x in lines && HasField(x, f) && KeyOf(x, f) !in seen
  {
    if |lines| > 0 {
      var n := |lines| - 1;
      RightUnpairedMembers(lines[..n], f, seen, x);
      assert lines == lines[..n] + [lines[n]];
    }
  }

  /** A key is seen exactly when some left line with the field carries it. */
  lemma {:induction false} SeenKeysMembers(lines: seq<string>, f: int, k: string)
    ensures k in SeenKeys(lines, f)
        <==> exists i :: 0 <= i < |lines| && HasField(lines[i], f) && KeyOf(lines[i], f) == k
  {
    if |lines| > 0 {
      var n := |lines| - 1;
      SeenKeysMembers(lines[..n], f, k);
      if k in SeenKeys(lines[..n], f) {
        var i :| 0 <= i < n && HasField(lines[..n][i], f) && KeyOf(lines[..n][i], f) == k;
        assert lines[i] == lines[..n][i];
      }
      if exists i :: 0 <= i < |lines| && HasField(lines[i], f) && KeyOf(lines[i], f) == k {
        var i :| 0 <= i < |lines| && HasField(lines[i], f) && KeyOf(lines[i], f) == k;
        if i < n { assert lines[..n][i] == lines[i]; }
      }
    }
  }

  /** The j-th row of a left line is that line joined with its j-th match. */
  lemma {:induction false} RowsForAt(line: string, f1: int, matches: seq<string>, f2: int)
    requires HasField(line, f1)
    ensures |RowsFor(line, f1, matches, f2)| == |matches|
    ensures forall j | 0 <= j < |matches| :: RowsFor(line, f1, matches, f2)[j] == Row(line, f1, matches[j], f2)
  {
    if |matches| > 0 {
      var n := |matches| - 1;
      RowsForAt(line, f1, matches[..n], f2);
    }
  }

  /**
   * A right line without the right join field is never indexed and never
   * written by the final pass, whatever the left input.
   */
  lemma ShortRightLineUnused(lines1: seq<string>, lines2: seq<string>, f1: int, f2: int, x: string)
    requires !HasField(x, f2)
    ensures forall k :: k in RightIndex(lines2, f2) ==> x !in RightIndex(lines2, f2)[k]
    ensures x !in RightUnpaired(lines2, f2, SeenKeys(lines1, f1))
  {
    RightIndexBuckets(lines2, f2);
    forall k | k in RightIndex(lines2, f2) ensures x !in RightIndex(lines2, f2)[k] {
      KeyedLinesMembers(lines2, f2, k, x);
    }
    RightUnpairedMembers(lines2, f2, SeenKeys(lines1, f1), x);
  }

  /**
   * What one left line writes, against the index of the right input:
   * nothing when it lacks the join field; one row per right line with the
   * same key, in right-input order, when there is one; otherwise the line
   * itself, verbatim, exactly when unpaired left lines are requested.
   */
  lemma LeftLineOutput(flags: Flags, lines2: seq<string>, line: string)
    ensures !HasField(line, flags.field1 - 1) ==> LineOutput(flags, RightIndex(lines2, flags.field2 - 1), line) == []
    ensures HasField(line, flags.field1 - 1) && KeyedLines(lines2, flags.field2 - 1, KeyOf(line, flags.field1 - 1)) != [] ==>
              var f1, f2 := flags.field1 - 1, flags.field2 - 1;
              var out, ms := LineOutput(flags, RightIndex(lines2, f2), line), KeyedLines(lines2, f2, KeyOf(line, f1));
              |out| == |ms| && forall j | 0 <= j < |ms| :: out[j] == Row(line, f1, ms[j], f2)
    ensures HasField(line, flags.field1 - 1) && KeyedLines(lines2, flags.field2 - 1, KeyOf(line, flags.field1 - 1)) == [] ==>
              LineOutput(flags, RightIndex(lines2, flags.field2 - 1), line) == if EmitLeft(flags) then [line] else []
  {
    var f1, f2 := flags.field1 - 1, flags.field2 - 1;
    if HasField(line, f1) {
      var k := KeyOf(line, f1);
      var ms := KeyedLines(lines2, f2, k);
      if ms != [] {
        MatchedLineOutput(flags, lines2, line);
        RowsForAt(line, f1, ms, f2);
      } else {
        RightIndexAt(lines2, f2, k);
      }
    }
  }

  /** A left line whose key some right line carries writes its rows against those lines. */
  lemma MatchedLineOutput(flags: Flags, lines2: seq<string>, line: string)
    requires HasField(line, flags.field1 - 1)
    requires KeyedLines(lines2, flags.field2 - 1, KeyOf(line, flags.field1 - 1)) != []
    ensures LineOutput(flags, RightIndex(lines2, flags.field2 - 1), line)
         == RowsFor(line, flags.field1 - 1, KeyedLines(lines2, flags.field2 - 1, KeyOf(line, flags.field1 - 1)), flags.field2 - 1)
  {
    RightIndexAt(lines2, flags.field2 - 1, KeyOf(line, flags.field1 - 1));
  }

  /** The index at one key: present exactly when some right line carries it, holding those lines. */
  lemma RightIndexAt(lines: seq<string>, f: int, k: string)
    ensures k in RightIndex(lines, f) <==> KeyedLines(lines, f, k) != []
    ensures k in RightIndex(lines, f) ==> RightIndex(lines, f)[k] == KeyedLines(lines, f, k)
  {
    RightIndexBuckets(lines, f);
  }

  /** The left-driven output of two runs of left lines is the output of the first, then of the second. */
  lemma {:induction false} LeftDrivenAppend(flags: Flags, idx: LineIndex, a: seq<string>, b: seq<string>)
    ensures LeftDriven(flags, idx, a + b) == LeftDriven(flags, idx, a) + LeftDriven(flags, idx, b)
  {
    if |b| > 0 {
      var n := |b| - 1;
      assert (a + b)[..|a + b| - 1] == a + b[..n];
      assert (a + b)[|a + b| - 1] == b[n];
      LeftDrivenAppend(flags, idx, a, b[..n]);
    } else {
      assert a + b == a;
    }
  }

  /**
   * The final pass writes a right line exactly when unpaired right lines are
   * requested, the line has the right join field, and no left line with the
   * left join field has the same key.
   */
  lemma UnpairedRightExact(flags: Flags, lines1: seq<string>, lines2: seq<string>, x: string)
    ensures var f1, f2 := flags.field1 - 1, flags.field2 - 1;
            var tail := if EmitRight(flags) then RightUnpaired(lines2, f2, SeenKeys(lines1, f1)) else [];
            x in tail <==>
              && EmitRight(flags) && x in lines2 && HasField(x, f2)
              && !exists i :: 0 <= i < |lines1| && HasField(lines1[i], f1) && KeyOf(lines1[i], f1) == KeyOf(x, f2)
  {
    var f1, f2 := flags.field1 - 1, flags.field2 - 1;
    RightUnpairedMembers(lines2, f2, SeenKeys(lines1, f1), x);
    if HasField(x, f2) {
      SeenKeysMembers(lines1, f1, KeyOf(x, f2));
    }
  }

  /**
   * Re-splitting a joined row gives the key, the left fields without the
   * left join field and the right fields without the right join field.
   */
  lemma RowReparse(line: string, f1: int, partner: string, f2: int)
    requires HasField(line, f1)
    ensures Fields(Row(line, f1, partner, f2))
         == [KeyOf(line, f1)] + Without(Fields(line), f1) + Without(Fields(partner), f2)
  {
    JoinedRowReparse(KeyOf(line, f1), Fields(line), f1, Fields(partner), f2);
  }

  /** The names/scores example: IDs 1, 2 and 3 occur in both files, so the default join writes three lines. */
  lemma NamesScoresExample(names: seq<string>, scores: seq<string>, flags: Flags)
    requires names == ["1 Alice", "2 Bob", "3 Carol", "4 David"]
    requires scores == ["1 90", "2 85", "3 95"]
    requires flags == Join(["names.txt", "scores.txt"], Flags(0, 0, false, false, false, false)).flags
    ensures JoinOutput(flags, names, scores) == ["1 Alice 90", "2 Bob 85", "3 Carol 95"]
  {
    assert FieldOk("1") && FieldOk("2") && FieldOk("3") && FieldOk("4");
    assert FieldOk("Alice") && FieldOk("Bob") && FieldOk("Carol") && FieldOk("David");
    assert FieldOk("90") && FieldOk("85") && FieldOk("95");
    assert "1" + " " + "Alice" == "1 Alice" && "2" + " " + "Bob" == "2 Bob";
    assert "3" + " " + "Carol" == "3 Carol" && "4" + " " + "David" == "4 David";
    assert "1" + " " + "90" == "1 90" && "2" + " " + "85" == "2 85" && "3" + " " + "95" == "3 95";
    assert "1" + " " + "Alice" + " " + "90" == "1 Alice 90";
    assert "2" + " " + "Bob" + " " + "85" == "2 Bob 85";
    assert "3" + " " + "Carol" + " " + "95" == "3 Carol 95";
    ThreeOfFour(flags, "1", "2", "3", "4", "Alice", "Bob", "Carol", "David", "90", "85", "95");
  }

  /**
   * Four left lines "k name", three right lines "k score" with the first
   * three keys: the default join writes one row per shared key, in order.
   */
  lemma ThreeOfFour(flags: Flags, k1: string, k2: string, k3: string, k4: string,
                    n1: string, n2: string, n3: string, n4: string,
                    s1: string, s2: string, s3: string)
    requires flags.field1 == 1 && flags.field2 == 1 && !EmitLeft(flags) && !EmitRight(flags)
    requires FieldOk(k1) && FieldOk(k2) && FieldOk(k3) && FieldOk(k4)
    requires FieldOk(n1) && FieldOk(n2) && FieldOk(n3) && FieldOk(n4)
    requires FieldOk(s1) && FieldOk(s2) && FieldOk(s3)
    requires k1 != k2 && k1 != k3 && k2 != k3 && k4 != k1 && k4 != k2 && k4 != k3
    ensures JoinOutput(flags, [k1 + " " + n1, k2 + " " + n2, k3 + " " + n3, k4 + " " + n4],
                              [k1 + " " + s1, k2 + " " + s2, k3 + " " + s3])
         == [k1 + " " + n1 + " " + s1, k2 + " " + n2 + " " + s2, k3 + " " + n3 + " " + s3]
  {
    var names := [k1 + " " + n1, k2 + " " + n2, k3 + " " + n3, k4 + " " + n4];
    var scores := [k1 + " " + s1, k2 + " " + s2, k3 + " " + s3];
    RightIndexOfThree(scores, k1, k2, k3, s1, s2, s3);
    FourAgainstThree(flags, RightIndex(scores, 0), k1, k2, k3, k4, n1, n2, n3, n4, s1, s2, s3);
    assert JoinOutput(flags, names, scores) == LeftDriven(flags, RightIndex(scores, 0), names) + [];
  }

  /** The left-driven pass of the four left lines against the index of the three right lines. */
  lemma FourAgainstThree(flags: Flags, idx: LineIndex, k1: string, k2: string, k3: string, k4: string,
                         n1: string, n2: string, n3: string, n4: string,
                         s1: string, s2: string, s3: string)
    requires flags.field1 == 1 && flags.field2 == 1 && !EmitLeft(flags)
    requires FieldOk(k1) && FieldOk(k2) && FieldOk(k3) && FieldOk(k4)
    requires FieldOk(n1) && FieldOk(n2) && FieldOk(n3) && FieldOk(n4)
    requires FieldOk(s1) && FieldOk(s2) && FieldOk(s3)
    requires k1 != k2 && k1 != k3 && k2 != k3 && k4 != k1 && k4 != k2 && k4 != k3
    requires idx == map[k1 := [k1 + " " + s1], k2 := [k2 + " " + s2], k3 := [k3 + " " + s3]]
    ensures LeftDriven(flags, idx, [k1 + " " + n1, k2 + " " + n2, k3 + " " + n3, k4 + " " + n4])
         == [k1 + " " + n1 + " " + s1, k2 + " " + n2 + " " + s2, k3 + " " + n3 + " " + s3]
  {
    var r1, r2, r3 := k1 + " " + n1 + " " + s1, k2 + " " + n2 + " " + s2, k3 + " " + n3 + " " + s3;
    var _ := PairRow(flags, idx, k1, n1, s1);
    var _ := PairRow(flags, idx, k2, n2, s2);
    var _ := PairRow(flags, idx, k3, n3, s3);
    assert k4 !in idx by {
      assert idx.Keys == {k1, k2, k3};
    }
    Unmatched(flags, idx, k4, n4);
    LeftDrivenFour(flags, idx, k1 + " " + n1, k2 + " " + n2, k3 + " " + n3, k4 + " " + n4);
    ThreeSingletons(r1, r2, r3);
  }

  /** Three one-line outputs and an empty one make the three lines. */
  lemma ThreeSingletons(r1: string, r2: string, r3: string)
    ensures [r1] + [r2] + [r3] + [] == [r1, r2, r3]
  {
  }

  /** The left-driven output of four lines is their outputs, one after the other. */
  lemma LeftDrivenFour(flags: Flags, idx: LineIndex, l1: string, l2: string, l3: string, l4: string)
    ensures LeftDriven(flags, idx, [l1, l2, l3, l4])
         == LineOutput(flags, idx, l1) + LineOutput(flags, idx, l2)
          + LineOutput(flags, idx, l3) + LineOutput(flags, idx, l4)
  {
    var a1, a2, a3, a4 := LineOutput(flags, idx, l1), LineOutput(flags, idx, l2),
                          LineOutput(flags, idx, l3), LineOutput(flags, idx, l4);
    calc {
      LeftDriven(flags, idx, [l1, l2, l3, l4]);
      { LeftDrivenStep(flags, idx, [l1, l2, l3], l4); assert [l1, l2, l3] + [l4] == [l1, l2, l3, l4]; }
      LeftDriven(flags, idx, [l1, l2, l3]) + a4;
      { LeftDrivenStep(flags, idx, [l1, l2], l3); assert [l1, l2] + [l3] == [l1, l2, l3]; }
      LeftDriven(flags, idx, [l1, l2]) + a3 + a4;
      { LeftDrivenStep(flags, idx, [l1], l2); assert [l1] + [l2] == [l1, l2]; }
      LeftDriven(flags, idx, [l1]) + a2 + a3 + a4;
      { LeftDrivenOne(flags, idx, l1); }
      a1 + a2 + a3 + a4;
    }
  }

  /** The left-driven output of one line is that line's output. */
  lemma LeftDrivenOne(flags: Flags, idx: LineIndex, l: string)
    ensures LeftDriven(flags, idx, [l]) == LineOutput(flags, idx, l)
  {
    LeftDrivenStep(flags, idx, [], l);
    assert [] + [l] == [l];
  }

  /** A left line "k name" whose key has no right line writes nothing when unpaired lines are off. */
  lemma Unmatched(flags: Flags, idx: LineIndex, k: string, name: string)
    requires flags.field1 == 1 && !EmitLeft(flags)
    requires FieldOk(k) && FieldOk(name) && k !in idx
    ensures LineOutput(flags, idx, k + " " + name) == []
  {
    TwoFields(k, name);
  }

  /** The left-driven output of one more line is extended by that line's output. */
  lemma LeftDrivenStep(flags: Flags, idx: LineIndex, lines: seq<string>, line: string)
    ensures LeftDriven(flags, idx, lines + [line]) == LeftDriven(flags, idx, lines) + LineOutput(flags, idx, line)
  {
    assert (lines + [line])[..|lines|] == lines;
  }

  /** Indexing one more right line. */
  lemma RightIndexStep(lines: seq<string>, x: string, f: int)
    ensures var idx := RightIndex(lines, f);
            RightIndex(lines + [x], f)
              == if HasField(x, f) then idx[KeyOf(x, f) := (if KeyOf(x, f) in idx then idx[KeyOf(x, f)] else []) + [x]]
                 else idx
  {
    assert (lines + [x])[..|lines|] == lines;
  }

  /** The index of three right lines with distinct keys. */
  lemma RightIndexOfThree(scores: seq<string>, k1: string, k2: string, k3: string,
                          s1: string, s2: string, s3: string)
    requires FieldOk(k1) && FieldOk(k2) && FieldOk(k3) && FieldOk(s1) && FieldOk(s2) && FieldOk(s3)
    requires k1 != k2 && k1 != k3 && k2 != k3
    requires scores == [k1 + " " + s1, k2 + " " + s2, k3 + " " + s3]
    ensures RightIndex(scores, 0) == map[k1 := [scores[0]], k2 := [scores[1]], k3 := [scores[2]]]
  {
    TwoFields(k1, s1);
    TwoFields(k2, s2);
    TwoFields(k3, s3);
    var a, b, c := scores[0], scores[1], scores[2];
    assert HasField(a, 0) && KeyOf(a, 0) == k1;
    assert HasField(b, 0) && KeyOf(b, 0) == k2;
    assert HasField(c, 0) && KeyOf(c, 0) == k3;
    RightIndexStep([], a, 0);
    assert [] + [a] == [a];
    assert RightIndex([], 0) == map[];
    var m1 := RightIndex([a], 0);
    assert m1 == map[k1 := [a]];
    RightIndexStep([a], b, 0);
    assert [a] + [b] == [a, b];
    var m2 := RightIndex([a, b], 0);
    assert k2 !in m1 && m2 == m1[k2 := [] + [b]];
    assert [] + [b] == [b];
    assert m2 == map[k1 := [a], k2 := [b]];
    RightIndexStep([a, b], c, 0);
    assert [a, b] + [c] == scores;
    assert k3 !in m2 && [] + [c] == [c];
  }

  /** A left line "k name" against the one right line "k score" writes "k name score". */
  lemma PairRow(flags: Flags, idx: LineIndex, k: string, name: string, score: string)
    returns (row: string)
    requires flags.field1 == 1 && flags.field2 == 1
    requires FieldOk(k) && FieldOk(name) && FieldOk(score)
    requires k in idx && idx[k] == [k + " " + score]
    ensures row == k + " " + name + " " + score
    ensures LineOutput(flags, idx, k + " " + name) == [row]
  {
    row := k + " " + name + " " + score;
    var line := k + " " + name;
    TwoFields(k, name);
    assert KeyOf(line, 0) == k;
    assert [k + " " + score][..0] == [];
    assert RowsFor(line, 0, idx[k], 0) == [Row(line, 0, k + " " + score, 0)];
    RowOfPair(k, name, score);
  }

  /** The row of "k name" against "k score" on the first fields is "k name score". */
  lemma RowOfPair(k: string, name: string, score: string)
    requires FieldOk(k) && FieldOk(name) && FieldOk(score)
    ensures HasField(k + " " + name, 0)
    ensures Row(k + " " + name, 0, k + " " + score, 0) == k + " " + name + " " + score
  {
    TwoFields(k, name);
    TwoFields(k, score);
    WithoutSlices([k, name], 0);
    WithoutSlices([k, score], 0);
    assert Without([k, name], 0) == [name];
    assert Without([k, score], 0) == [score];
    assert JoinedFields(k, [k, name], 0, [k, score], 0) == [k, name, score];
    assert [k, name, score][1..] == [name, score];
    assert [name, score][1..] == [score];
    assert JoinWith([score], " ") == score;
    assert JoinWith([name, score], " ") == name + " " + score;
    assert JoinWith([k, name, score], " ") == k + " " + name + " " + score;
  }

  /** A line of two proper words separated by one space has exactly those two fields. */
  lemma TwoFields(a: string, b: string)
    requires FieldOk(a) && FieldOk(b)
    ensures Fields(a + " " + b) == [a, b]
  {
    FieldsOfJoin([a, b], ' ');
    assert JoinWith([a, b], " ") == a + " " + b;
  }
}

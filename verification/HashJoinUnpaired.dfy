/**
 * The unpaired passes of join.go decide whether a record was paired by
 * looking its content (fields joined by tabs) up in one joined set shared by
 * both inputs. When the two join fields differ, a left record can share its
 * content with a right record that was paired through another key, and is
 * then wrongly left out of the unpaired output. This module gives the
 * counterexample, the per-key rule the unpaired output evidently intends,
 * and proves that the two rules agree whenever both inputs join on the same
 * field.
 */
module HashJoinUnpaired {
  import opened Text
  import opened Options
  import opened HashJoin
  import opened HashJoinFacts

  /** The intended unpaired pass: the records whose key the other input's index lacks, in input order. */
  function UnpairedByKey(ignoreCase: bool, recs: seq<Record>, f: int, other: Index): seq<string> {
    if |recs| == 0 then []
    else
      var n := |recs| - 1;
      UnpairedByKey(ignoreCase, recs[..n], f, other)
        + (if IndexKey(ignoreCase, recs[n], f) !in other then [UnpairedLine(recs[n])] else [])
  }

  /** The intended unpaired output: left records without a right partner, then right records without a left one. */
  function CorrectedUnpairedOutput(flags: Flags, recs1: seq<Record>, recs2: seq<Record>): seq<string> {
    var ic, f1, f2 := flags.ignoreCase, flags.field1 - 1, flags.field2 - 1;
    (if EmitLeft(flags) then UnpairedByKey(ic, recs1, f1, RightIndex(flags, recs2)) else [])
      + (if EmitRight(flags) then UnpairedByKey(ic, recs2, f2, LeftIndex(flags, recs1)) else [])
  }

  /** The intended output: the joined rows, then the intended unpaired output. */
  function CorrectedJoinOutput(flags: Flags, recs1: seq<Record>, recs2: seq<Record>, order: seq<string>): seq<string> {
    MatchedRows(flags, LeftIndex(flags, recs1), RightIndex(flags, recs2), order)
      + CorrectedUnpairedOutput(flags, recs1, recs2)
  }

  /** The intended pass writes exactly the records whose key the other index lacks. */
  lemma {:induction false} UnpairedByKeyMembers(ignoreCase: bool, recs: seq<Record>, f: int, other: Index, x: string)
    ensures x in UnpairedByKey(ignoreCase, recs, f, other)
        <==> exists r | r in recs :: IndexKey(ignoreCase, r, f) !in other && x == UnpairedLine(r)
  {
    if |recs| > 0 {
      var n := |recs| - 1;
      UnpairedByKeyMembers(ignoreCase, recs[..n], f, other, x);
      assert recs == recs[..n] + [recs[n]];
    }
  }

  /**
   * The intended pass writes a record exactly when no record of the other
   * input carries the same normalised key.
   */
  lemma UnpairedByKeyExact(ignoreCase: bool, recs: seq<Record>, f: int, others: seq<Record>, g: int, r: Record)
    requires AllWellFormed(recs)
    requires r in recs
    ensures UnpairedLine(r) in UnpairedByKey(ignoreCase, recs, f, IndexOf(ignoreCase, others, g)) <==>
            forall q | q in others :: IndexKey(ignoreCase, q, g) != IndexKey(ignoreCase, r, f)
  {
    var other := IndexOf(ignoreCase, others, g);
    UnpairedByKeyMembers(ignoreCase, recs, f, other, UnpairedLine(r));
    IndexHasKey(ignoreCase, others, g, IndexKey(ignoreCase, r, f));
    if UnpairedLine(r) in UnpairedByKey(ignoreCase, recs, f, other) {
      var r' :| r' in recs && IndexKey(ignoreCase, r', f) !in other && UnpairedLine(r) == UnpairedLine(r');
      UnpairedLineInjective(r, r');
    }
  }

  /** When the marks agree record by record with the per-key rule, the two passes write the same lines. */
  lemma {:induction false} UnpairedAgree(recs: seq<Record>, joined: set<string>, ignoreCase: bool, f: int, other: Index)
    requires forall i | 0 <= i < |recs| :: RecordKey(recs[i]) in joined <==> IndexKey(ignoreCase, recs[i], f) in other
    ensures UnpairedRows(recs, joined) == UnpairedByKey(ignoreCase, recs, f, other)
  {
    if |recs| > 0 {
      var n := |recs| - 1;
      assert forall i | 0 <= i < n :: recs[..n][i] == recs[i];
      UnpairedAgree(recs[..n], joined, ignoreCase, f, other);
    }
  }

  /**
   * With one join field for both inputs, a record with the content of one end
   * of a pair carries the pair's key, which both indexes hold.
   */
  lemma SharedContentKey(flags: Flags, recs1: seq<Record>, recs2: seq<Record>, r: Record, p1: Record, p2: Record)
    requires flags.field1 == flags.field2
    requires WellFormed(r) && AllWellFormed(recs1) && AllWellFormed(recs2)
    requires p1 in recs1 && p2 in recs2
    requires IndexKey(flags.ignoreCase, p1, flags.field1 - 1) == IndexKey(flags.ignoreCase, p2, flags.field2 - 1)
    requires RecordKey(r) == RecordKey(p1) || RecordKey(r) == RecordKey(p2)
    ensures IndexKey(flags.ignoreCase, r, flags.field2 - 1) in LeftIndex(flags, recs1)
    ensures IndexKey(flags.ignoreCase, r, flags.field1 - 1) in RightIndex(flags, recs2)
  {
    var ic, f := flags.ignoreCase, flags.field1 - 1;
    var p := if RecordKey(r) == RecordKey(p1) then p1 else p2;
    assert r == p by {
      assert WellFormed(p);
      RecordKeyInjective(r, p);
    }
    assert IndexKey(ic, r, flags.field2 - 1) in LeftIndex(flags, recs1) by {
      assert IndexKey(ic, r, f) == IndexKey(ic, p1, f);
      RecordInOneBucket(ic, recs1, f, p1);
    }
    assert IndexKey(ic, r, flags.field1 - 1) in RightIndex(flags, recs2) by {
      assert IndexKey(ic, r, f) == IndexKey(ic, p2, f);
      RecordInOneBucket(ic, recs2, f, p2);
    }
  }

  /** With one join field for both inputs, a left record is marked exactly when its key has a right partner. */
  lemma LeftMarkedIffPartnered(flags: Flags, recs1: seq<Record>, recs2: seq<Record>, r: Record)
    requires flags.field1 == flags.field2
    requires AllWellFormed(recs1) && AllWellFormed(recs2)
    requires r in recs1
    ensures RecordKey(r) in Joined(flags, recs1, recs2) <==>
            IndexKey(flags.ignoreCase, r, flags.field1 - 1) in RightIndex(flags, recs2)
  {
    var ic, f1, f2 := flags.ignoreCase, flags.field1 - 1, flags.field2 - 1;
    var k := IndexKey(ic, r, f1);
    if k in RightIndex(flags, recs2) {
      IndexHasKey(ic, recs2, f2, k);
      var q :| q in recs2 && IndexKey(ic, q, f2) == k;
      JoinedHas(flags, recs1, recs2, r, q);
    }
    if RecordKey(r) in Joined(flags, recs1, recs2) {
      var p1, p2 := JoinedFrom(flags, recs1, recs2, RecordKey(r));
      SharedContentKey(flags, recs1, recs2, r, p1, p2);
    }
  }

  /** With one join field for both inputs, a right record is marked exactly when its key has a left partner. */
  lemma RightMarkedIffPartnered(flags: Flags, recs1: seq<Record>, recs2: seq<Record>, r: Record)
    requires flags.field1 == flags.field2
    requires AllWellFormed(recs1) && AllWellFormed(recs2)
    requires r in recs2
    ensures RecordKey(r) in Joined(flags, recs1, recs2) <==>
            IndexKey(flags.ignoreCase, r, flags.field2 - 1) in LeftIndex(flags, recs1)
  {
    var ic, f1, f2 := flags.ignoreCase, flags.field1 - 1, flags.field2 - 1;
    var k := IndexKey(ic, r, f2);
    if k in LeftIndex(flags, recs1) {
      IndexHasKey(ic, recs1, f1, k);
      var q :| q in recs1 && IndexKey(ic, q, f1) == k;
      JoinedHas(flags, recs1, recs2, q, r);
    }
    if RecordKey(r) in Joined(flags, recs1, recs2) {
      var p1, p2 := JoinedFrom(flags, recs1, recs2, RecordKey(r));
      SharedContentKey(flags, recs1, recs2, r, p1, p2);
    }
  }

  /**
   * When both inputs join on the same field, the content-based unpaired
   * passes write exactly what the per-key rule writes, so the whole output
   * is the intended one, whatever the iteration order.
   */
  lemma SameFieldAgrees(flags: Flags, recs1: seq<Record>, recs2: seq<Record>, order: seq<string>)
    requires flags.field1 == flags.field2
    requires AllWellFormed(recs1) && AllWellFormed(recs2)
    ensures UnpairedOutput(flags, recs1, recs2) == CorrectedUnpairedOutput(flags, recs1, recs2)
    ensures JoinOutput(flags, recs1, recs2, order) == CorrectedJoinOutput(flags, recs1, recs2, order)
  {
    SameFieldUnpaired(flags, recs1, recs2);
  }

  /** The unpaired half of SameFieldAgrees. */
  lemma SameFieldUnpaired(flags: Flags, recs1: seq<Record>, recs2: seq<Record>)
    requires flags.field1 == flags.field2
    requires AllWellFormed(recs1) && AllWellFormed(recs2)
    ensures UnpairedOutput(flags, recs1, recs2) == CorrectedUnpairedOutput(flags, recs1, recs2)
  {
    var ic, f1, f2 := flags.ignoreCase, flags.field1 - 1, flags.field2 - 1;
    var joined := Joined(flags, recs1, recs2);
    LeftMarksAgree(flags, recs1, recs2);
    RightMarksAgree(flags, recs1, recs2);
    UnpairedAgree(recs1, joined, ic, f1, RightIndex(flags, recs2));
    UnpairedAgree(recs2, joined, ic, f2, LeftIndex(flags, recs1));
    UnpairedPassesAgree(flags, recs1, recs2);
  }

  /** When each side's pass agrees with its per-key pass, the unpaired outputs agree. */
  lemma UnpairedPassesAgree(flags: Flags, recs1: seq<Record>, recs2: seq<Record>)
    requires UnpairedRows(recs1, Joined(flags, recs1, recs2))
          == UnpairedByKey(flags.ignoreCase, recs1, flags.field1 - 1, RightIndex(flags, recs2))
    requires UnpairedRows(recs2, Joined(flags, recs1, recs2))
          == UnpairedByKey(flags.ignoreCase, recs2, flags.field2 - 1, LeftIndex(flags, recs1))
    ensures UnpairedOutput(flags, recs1, recs2) == CorrectedUnpairedOutput(flags, recs1, recs2)
  {
    var left := if EmitLeft(flags) then UnpairedRows(recs1, Joined(flags, recs1, recs2)) else [];
    var right := if EmitRight(flags) then UnpairedRows(recs2, Joined(flags, recs1, recs2)) else [];
    assert UnpairedOutput(flags, recs1, recs2) == left + right;
    assert CorrectedUnpairedOutput(flags, recs1, recs2) == left + right;
  }

  /** With one join field for both sides, a left record is marked iff the right index has its key. */
  lemma LeftMarksAgree(flags: Flags, recs1: seq<Record>, recs2: seq<Record>)
    requires flags.field1 == flags.field2
    requires AllWellFormed(recs1) && AllWellFormed(recs2)
    ensures forall i | 0 <= i < |recs1| ::
              RecordKey(recs1[i]) in Joined(flags, recs1, recs2) <==>
                IndexKey(flags.ignoreCase, recs1[i], flags.field1 - 1) in RightIndex(flags, recs2)
  {
    forall i | 0 <= i < |recs1|
      ensures RecordKey(recs1[i]) in Joined(flags, recs1, recs2) <==>
                IndexKey(flags.ignoreCase, recs1[i], flags.field1 - 1) in RightIndex(flags, recs2)
    {
      LeftMarkedIffPartnered(flags, recs1, recs2, recs1[i]);
    }
  }

  /** With one join field for both sides, a right record is marked iff the left index has its key. */
  lemma RightMarksAgree(flags: Flags, recs1: seq<Record>, recs2: seq<Record>)
    requires flags.field1 == flags.field2
    requires AllWellFormed(recs1) && AllWellFormed(recs2)
    ensures forall i | 0 <= i < |recs2| ::
              RecordKey(recs2[i]) in Joined(flags, recs1, recs2) <==>
                IndexKey(flags.ignoreCase, recs2[i], flags.field2 - 1) in LeftIndex(flags, recs1)
  {
    forall i | 0 <= i < |recs2|
      ensures RecordKey(recs2[i]) in Joined(flags, recs1, recs2) <==>
                IndexKey(flags.ignoreCase, recs2[i], flags.field2 - 1) in LeftIndex(flags, recs1)
    {
      RightMarkedIffPartnered(flags, recs1, recs2, recs2[i]);
    }
  }

  /** In the counterexample both left records end up marked. */
  lemma ExampleMarks(flags: Flags, recs1: seq<Record>, recs2: seq<Record>)
    requires flags == Flags(1, 2, false, false, true, false)
    requires recs1 == [["a", "b"], ["b", "x"]] && recs2 == [["a", "b"]]
    ensures RecordKey(recs1[0]) in Joined(flags, recs1, recs2)
    ensures RecordKey(recs1[1]) in Joined(flags, recs1, recs2)
  {
    assert IndexKey(false, recs1[1], 0) == "b" == IndexKey(false, recs2[0], 1);
    JoinedHas(flags, recs1, recs2, recs1[1], recs2[0]);
    assert recs1[0] == recs2[0];
  }

  /** In the counterexample only the left "b x" has a right partner. */
  lemma ExamplePartners(flags: Flags, recs1: seq<Record>, recs2: seq<Record>)
    requires flags == Flags(1, 2, false, false, true, false)
    requires recs1 == [["a", "b"], ["b", "x"]] && recs2 == [["a", "b"]]
    ensures RightIndex(flags, recs2) == map["b" := [["a", "b"]]]
    ensures UnpairedByKey(false, recs1, 0, RightIndex(flags, recs2)) == ["a b"]
  {
    var idx2 := RightIndex(flags, recs2);
    assert idx2 == map["b" := [["a", "b"]]] by {
      assert recs2[..0] == [];
      assert IndexOf(false, recs2[..0], 1) == map[];
      assert IndexKey(false, recs2[0], 1) == "b";
      var one: seq<Record> := [] + [recs2[0]];
      assert one == [["a", "b"]];
      assert IndexOf(false, recs2, 1) == map[]["b" := one];
    }
    assert UnpairedLine(["a", "b"]) == "a b" by {
      assert ["a", "b"][1..] == ["b"];
    }
    assert UnpairedByKey(false, recs1[..1], 0, idx2) == ["a b"] by {
      assert recs1[..1][..0] == [];
      assert recs1[..1][0] == recs1[0];
    }
    assert recs1[..|recs1| - 1] == recs1[..1];
  }

  /**
   * The counterexample, with Field1 = 1, Field2 = 2 and unpaired left lines
   * requested: left records "a b" and "b x", right record "a b". The left
   * "b x" (key b) pairs with the right "a b" (second field b), which marks
   * the content "a b"; the left "a b" (key a) has no partner, yet nothing is
   * written as unpaired, where the per-key rule writes "a b".
   */
  lemma ContentIdentityMisreports(flags: Flags, recs1: seq<Record>, recs2: seq<Record>)
    requires flags == Flags(1, 2, false, false, true, false)
    requires recs1 == [["a", "b"], ["b", "x"]] && recs2 == [["a", "b"]]
    ensures forall q | q in recs2 :: IndexKey(false, q, 1) != IndexKey(false, recs1[0], 0)
    ensures UnpairedOutput(flags, recs1, recs2) == []
    ensures CorrectedUnpairedOutput(flags, recs1, recs2) == ["a b"]
  {
    var joined := Joined(flags, recs1, recs2);
    ExampleMarks(flags, recs1, recs2);
    assert UnpairedRows(recs1, joined) == [] by {
      assert UnpairedRows(recs1[..1], joined) == [] by {
        assert recs1[..1][..0] == [];
        assert recs1[..1][0] == recs1[0];
      }
      assert recs1[..|recs1| - 1] == recs1[..1];
    }
    ExamplePartners(flags, recs1, recs2);
  }
}

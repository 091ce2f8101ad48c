/**
 * What the hash join of join.go guarantees: how lines become records, how
 * records are bucketed, which rows the matching loop writes (exactly the
 * pairs of records with equal normalised keys, m x n per key, whatever the
 * map iteration order), which records end up in the joined set, and what
 * the unpaired passes write.
 */
module HashJoinFacts {
  import opened Text
  import opened Rows
  import opened Options
  import opened HashJoin

  // ---------------------------------------------------------------------
  // Parsing

  /** The records are the field lists of the non-blank lines, and nothing else. */
  lemma ParsedRecordsMembers(lines: seq<string>, rec: Record)
    ensures rec in ParsedRecords(lines)
        <==> rec != [] && exists i | 0 <= i < |lines| :: Fields(lines[i]) == rec
  {
    if rec in ParsedRecords(lines) {
      var i := ParsedFrom(lines, rec);
    }
    if rec != [] && exists i | 0 <= i < |lines| :: Fields(lines[i]) == rec {
      var i :| 0 <= i < |lines| && Fields(lines[i]) == rec;
      ParsedHas(lines, i);
    }
  }

  /** Every parsed record is the splitting of some line. */
  lemma {:induction false} ParsedFrom(lines: seq<string>, rec: Record) returns (i: int)
    requires rec in ParsedRecords(lines)
    ensures 0 <= i < |lines| && Fields(lines[i]) == rec
  {
    var n := |lines| - 1;
    var prefix, fields := lines[..n], Fields(lines[n]);
    assert ParsedRecords(lines) == ParsedRecords(prefix) + (if |fields| > 0 then [fields] else []);
    if rec in ParsedRecords(prefix) {
      i := ParsedFrom(prefix, rec);
      assert lines[i] == prefix[i];
    } else {
      i := n;
    }
  }

  /** The splitting of every line with at least one field is parsed. */
  lemma {:induction false} ParsedHas(lines: seq<string>, i: int)
    requires 0 <= i < |lines| && Fields(lines[i]) != []
    ensures Fields(lines[i]) in ParsedRecords(lines)
  {
    var n := |lines| - 1;
    var prefix, fields := lines[..n], Fields(lines[n]);
    assert ParsedRecords(lines) == ParsedRecords(prefix) + (if |fields| > 0 then [fields] else []);
    if i < n {
      assert prefix[i] == lines[i];
      ParsedHas(prefix, i);
    }
  }

  /** Every parsed record is a non-empty list of proper fields. */
  lemma ParsedWellFormed(lines: seq<string>, rec: Record)
    requires rec in ParsedRecords(lines)
    ensures rec != [] && WellFormed(rec)
  {
    var rs := ParsedRecords(lines);
    var i :| 0 <= i < |rs| && rs[i] == rec;
  }

  /** Every record of the sequence is a list of proper fields. */
  predicate AllWellFormed(recs: seq<Record>) {
    forall q | q in recs :: WellFormed(q)
  }

  /** Parsing yields only proper records. */
  lemma ParsedAllWellFormed(lines: seq<string>)
    ensures AllWellFormed(ParsedRecords(lines))
  {
    forall q | q in ParsedRecords(lines) ensures WellFormed(q) {
      ParsedWellFormed(lines, q);
    }
  }

  /** Lines are parsed one by one: parsing a concatenation concatenates the records. */
  lemma {:induction false} ParseAppend(a: seq<string>, b: seq<string>)
    ensures ParsedRecords(a + b) == ParsedRecords(a) + ParsedRecords(b)
  {
    if |b| == 0 {
      assert a + b == a;
    } else {
      var n := |b| - 1;
      assert (a + b)[..|a + b| - 1] == a + b[..n];
      assert (a + b)[|a + b| - 1] == b[n];
      ParseAppend(a, b[..n]);
    }
  }

  // ---------------------------------------------------------------------
  // Keys

  /** Normalising a normalised key changes nothing; it follows from NormalizeKey's per-character contract. */
  lemma NormalizeKeyIdempotent(ignoreCase: bool, key: string)
    ensures NormalizeKey(ignoreCase, NormalizeKey(ignoreCase, key)) == NormalizeKey(ignoreCase, key)
  {
  }

  /** With IgnoreCase, two keys fall together exactly when they agree letter by letter up to ASCII case. */
  lemma CaseInsensitiveKeys(a: string, b: string)
    ensures NormalizeKey(true, a) == NormalizeKey(true, b)
        <==> |a| == |b| && forall i | 0 <= i < |a| :: LowerChar(a[i]) == LowerChar(b[i])
  {
  }

  // ---------------------------------------------------------------------
  // The index

  /** The index has a bucket for k exactly when some record has key k, and that bucket lists them in order. */
  lemma {:induction false} IndexBuckets(ignoreCase: bool, records: seq<Record>, i: int, k: string)
    ensures k in IndexOf(ignoreCase, records, i) <==> Bucket(ignoreCase, records, i, k) != []
    ensures k in IndexOf(ignoreCase, records, i) ==>
              IndexOf(ignoreCase, records, i)[k] == Bucket(ignoreCase, records, i, k)
  {
    if |records| > 0 {
      IndexBuckets(ignoreCase, records[..|records| - 1], i, k);
    }
  }

  /** A bucket holds exactly the records carrying its key. */
  lemma {:induction false} BucketMembers(ignoreCase: bool, records: seq<Record>, i: int, k: string, rec: Record)
    ensures rec in Bucket(ignoreCase, records, i, k) <==> rec in records && IndexKey(ignoreCase, rec, i) == k
  {
    if |records| > 0 {
      var n := |records| - 1;
      BucketMembers(ignoreCase, records[..n], i, k, rec);
      assert records == records[..n] + [records[n]];
    }
  }

  /** Every key of the index is already normalised. */
  lemma {:induction false} IndexKeysNormalized(ignoreCase: bool, records: seq<Record>, i: int, k: string)
    requires k in IndexOf(ignoreCase, records, i)
    ensures NormalizeKey(ignoreCase, k) == k
  {
    var n := |records| - 1;
    if k == IndexKey(ignoreCase, records[n], i) {
      NormalizeKeyIdempotent(ignoreCase, KeyField(records[n], i));
    } else {
      IndexKeysNormalized(ignoreCase, records[..n], i, k);
    }
  }

  /** A record is in the bucket of its key, and in no other. */
  lemma RecordInOneBucket(ignoreCase: bool, records: seq<Record>, i: int, rec: Record)
    requires rec in records
    ensures var k := IndexKey(ignoreCase, rec, i);
            k in IndexOf(ignoreCase, records, i) && rec in IndexOf(ignoreCase, records, i)[k]
    ensures forall k | k in IndexOf(ignoreCase, records, i) && rec in IndexOf(ignoreCase, records, i)[k] ::
              k == IndexKey(ignoreCase, rec, i)
  {
    var idx := IndexOf(ignoreCase, records, i);
    var key := IndexKey(ignoreCase, rec, i);
    BucketMembers(ignoreCase, records, i, key, rec);
    IndexBuckets(ignoreCase, records, i, key);
    forall k | k in idx && rec in idx[k] ensures k == key {
      IndexBuckets(ignoreCase, records, i, k);
      BucketMembers(ignoreCase, records, i, k, rec);
    }
  }

  /** The index key k is present exactly when some record carries it. */
  lemma {:induction false} IndexHasKey(ignoreCase: bool, records: seq<Record>, i: int, k: string)
    ensures k in IndexOf(ignoreCase, records, i)
        <==> exists rec | rec in records :: IndexKey(ignoreCase, rec, i) == k
  {
    IndexBuckets(ignoreCase, records, i, k);
    var b := Bucket(ignoreCase, records, i, k);
    if b != [] {
      BucketMembers(ignoreCase, records, i, k, b[0]);
    }
    if exists rec | rec in records :: IndexKey(ignoreCase, rec, i) == k {
      var rec :| rec in records && IndexKey(ignoreCase, rec, i) == k;
      BucketMembers(ignoreCase, records, i, k, rec);
    }
  }

  /** The sizes of the buckets of the given keys, added up. */
  function BucketTotal(idx: Index, keys: seq<string>): nat
    requires forall k | k in keys :: k in idx
  {
    if |keys| == 0 then 0 else BucketTotal(idx, keys[..|keys| - 1]) + |idx[keys[|keys| - 1]]|
  }

  /** The same sum, over the buckets as a filter of the records. */
  function BucketSizes(ignoreCase: bool, records: seq<Record>, i: int, keys: seq<string>): nat {
    if |keys| == 0 then 0
    else BucketSizes(ignoreCase, records, i, keys[..|keys| - 1]) + |Bucket(ignoreCase, records, i, keys[|keys| - 1])|
  }

  lemma {:induction false} BucketTotalIsSizes(ignoreCase: bool, records: seq<Record>, i: int, keys: seq<string>)
    requires forall k | k in keys :: k in IndexOf(ignoreCase, records, i)
    ensures BucketTotal(IndexOf(ignoreCase, records, i), keys) == BucketSizes(ignoreCase, records, i, keys)
  {
    if |keys| > 0 {
      var n := |keys| - 1;
      BucketTotalIsSizes(ignoreCase, records, i, keys[..n]);
      IndexBuckets(ignoreCase, records, i, keys[n]);
    }
  }

  lemma {:induction false} BucketSizesNone(ignoreCase: bool, i: int, keys: seq<string>)
    ensures BucketSizes(ignoreCase, [], i, keys) == 0
  {
    if |keys| > 0 {
      BucketSizesNone(ignoreCase, i, keys[..|keys| - 1]);
    }
  }

  /** One more record adds one to the size of its own bucket, once per occurrence of its key. */
  lemma {:induction false} BucketSizesSnoc(ignoreCase: bool, rs: seq<Record>, r: Record, i: int, keys: seq<string>)
    ensures BucketSizes(ignoreCase, rs + [r], i, keys)
         == BucketSizes(ignoreCase, rs, i, keys) + multiset(keys)[IndexKey(ignoreCase, r, i)]
  {
    if |keys| > 0 {
      var n := |keys| - 1;
      BucketSizesSnoc(ignoreCase, rs, r, i, keys[..n]);
      assert (rs + [r])[..|rs|] == rs;
      assert keys == keys[..n] + [keys[n]];
    }
  }

  lemma {:induction false} BucketSizesTotal(ignoreCase: bool, records: seq<Record>, i: int, keys: seq<string>)
    requires forall a, b | 0 <= a < b < |keys| :: keys[a] != keys[b]
    requires forall k | k in IndexOf(ignoreCase, records, i) :: k in keys
    ensures BucketSizes(ignoreCase, records, i, keys) == |records|
  {
    if |records| == 0 {
      BucketSizesNone(ignoreCase, i, keys);
    } else {
      var n := |records| - 1;
      var rs, r := records[..n], records[n];
      assert records == rs + [r];
      var key := IndexKey(ignoreCase, r, i);
      forall k | k in IndexOf(ignoreCase, rs, i) ensures k in keys {
        assert k in IndexOf(ignoreCase, records, i);
      }
      BucketSizesTotal(ignoreCase, rs, i, keys);
      BucketSizesSnoc(ignoreCase, rs, r, i, keys);
      assert key in IndexOf(ignoreCase, records, i);
      DistinctOnce(keys, key);
    }
  }

  /** Every record is in exactly one bucket: the bucket sizes add up to the number of records. */
  lemma IndexSizes(ignoreCase: bool, records: seq<Record>, i: int, keys: seq<string>)
    requires Enumerates(keys, IndexOf(ignoreCase, records, i).Keys)
    ensures BucketTotal(IndexOf(ignoreCase, records, i), keys) == |records|
  {
    BucketTotalIsSizes(ignoreCase, records, i, keys);
    BucketSizesTotal(ignoreCase, records, i, keys);
  }

  // ---------------------------------------------------------------------
  // Joined rows

  /** One left record against a bucket: one row per right record, in bucket order. */
  lemma {:induction false} RowsWithAt(f1: int, f2: int, rec1: Record, recs2: seq<Record>)
    ensures |RowsWith(f1, f2, rec1, recs2)| == |recs2|
    ensures forall j | 0 <= j < |recs2| :: RowsWith(f1, f2, rec1, recs2)[j] == JoinedRow(f1, f2, rec1, recs2[j])
  {
    if |recs2| > 0 {
      RowsWithAt(f1, f2, rec1, recs2[..|recs2| - 1]);
    }
  }

  /** The product of two buckets has |b1| * |b2| rows. */
  lemma {:induction false} PairsCount(f1: int, f2: int, recs1: seq<Record>, recs2: seq<Record>)
    ensures |Pairs(f1, f2, recs1, recs2)| == |recs1| * |recs2|
  {
    if |recs1| > 0 {
      var n, m := |recs1| - 1, |recs2|;
      PairsCount(f1, f2, recs1[..n], recs2);
      RowsWithAt(f1, f2, recs1[n], recs2);
      assert (n + 1) * m == n * m + m;
    }
  }

  /** Every pair of a left and a right record is written. */
  lemma {:induction false} PairsHas(f1: int, f2: int, recs1: seq<Record>, recs2: seq<Record>, i: int, j: int)
    requires 0 <= i < |recs1| && 0 <= j < |recs2|
    ensures JoinedRow(f1, f2, recs1[i], recs2[j]) in Pairs(f1, f2, recs1, recs2)
  {
    var n := |recs1| - 1;
    if i < n {
      PairsHas(f1, f2, recs1[..n], recs2, i, j);
      assert recs1[..n][i] == recs1[i];
    } else {
      RowsWithAt(f1, f2, recs1[n], recs2);
    }
  }

  /** Every row written pairs a left and a right record. */
  lemma {:induction false} PairsFrom(f1: int, f2: int, recs1: seq<Record>, recs2: seq<Record>, x: string)
    returns (i: int, j: int)
    requires x in Pairs(f1, f2, recs1, recs2)
    ensures 0 <= i < |recs1| && 0 <= j < |recs2| && x == JoinedRow(f1, f2, recs1[i], recs2[j])
  {
    var n := |recs1| - 1;
    var last := RowsWith(f1, f2, recs1[n], recs2);
    if x in last {
      RowsWithAt(f1, f2, recs1[n], recs2);
      j :| 0 <= j < |last| && last[j] == x;
      i := n;
    } else {
      i, j := PairsFrom(f1, f2, recs1[..n], recs2, x);
      assert recs1[..n][i] == recs1[i];
    }
  }

  /** x is a row of the product of two buckets iff it pairs some record of each. */
  lemma PairsMembers(f1: int, f2: int, recs1: seq<Record>, recs2: seq<Record>, x: string)
    ensures x in Pairs(f1, f2, recs1, recs2)
        <==> exists i, j | 0 <= i < |recs1| && 0 <= j < |recs2| :: x == JoinedRow(f1, f2, recs1[i], recs2[j])
  {
    if x in Pairs(f1, f2, recs1, recs2) {
      var i, j := PairsFrom(f1, f2, recs1, recs2, x);
    }
    if exists i, j | 0 <= i < |recs1| && 0 <= j < |recs2| :: x == JoinedRow(f1, f2, recs1[i], recs2[j]) {
      var i, j :| 0 <= i < |recs1| && 0 <= j < |recs2| && x == JoinedRow(f1, f2, recs1[i], recs2[j]);
      PairsHas(f1, f2, recs1, recs2, i, j);
    }
  }

  // ---------------------------------------------------------------------
  // The matching loop

  /** The rows written for one left key number m x n, none when the right input lacks the key. */
  lemma GroupCount(flags: Flags, recs1: seq<Record>, recs2: seq<Record>, k: string)
    requires k in LeftIndex(flags, recs1)
    ensures |Group(flags, LeftIndex(flags, recs1), RightIndex(flags, recs2), k)|
         == |Bucket(flags.ignoreCase, recs1, flags.field1 - 1, k)| * |Bucket(flags.ignoreCase, recs2, flags.field2 - 1, k)|
  {
    var ic, f1, f2 := flags.ignoreCase, flags.field1 - 1, flags.field2 - 1;
    GroupIsPairs(flags, recs1, recs2, k);
    PairsCount(f1, f2, Bucket(ic, recs1, f1, k), Bucket(ic, recs2, f2, k));
  }

  /** A pair of records both carrying the left key k is written in that key's group. */
  lemma GroupHas(flags: Flags, recs1: seq<Record>, recs2: seq<Record>, k: string, r1: Record, r2: Record)
    requires k in LeftIndex(flags, recs1)
    requires r1 in recs1 && IndexKey(flags.ignoreCase, r1, flags.field1 - 1) == k
    requires r2 in recs2 && IndexKey(flags.ignoreCase, r2, flags.field2 - 1) == k
    ensures JoinedRow(flags.field1 - 1, flags.field2 - 1, r1, r2)
            in Group(flags, LeftIndex(flags, recs1), RightIndex(flags, recs2), k)
  {
    var ic, f1, f2 := flags.ignoreCase, flags.field1 - 1, flags.field2 - 1;
    var idx1, idx2 := LeftIndex(flags, recs1), RightIndex(flags, recs2);
    var b1, b2 := Bucket(ic, recs1, f1, k), Bucket(ic, recs2, f2, k);
    assert NormalizeKey(ic, k) == k by {
      IndexKeysNormalized(ic, recs1, f1, k);
    }
    assert r1 in b1 && idx1[k] == b1 by {
      BucketMembers(ic, recs1, f1, k, r1);
      IndexBuckets(ic, recs1, f1, k);
    }
    assert r2 in b2 && k in idx2 && idx2[k] == b2 by {
      BucketMembers(ic, recs2, f2, k, r2);
      IndexBuckets(ic, recs2, f2, k);
    }
    var i :| 0 <= i < |b1| && b1[i] == r1;
    var j :| 0 <= j < |b2| && b2[j] == r2;
    PairsHas(f1, f2, b1, b2, i, j);
    assert Group(flags, idx1, idx2, k) == Pairs(f1, f2, b1, b2);
  }

  /** The group of a left key pairs the left bucket of that key with the right bucket of the same key. */
  lemma GroupIsPairs(flags: Flags, recs1: seq<Record>, recs2: seq<Record>, k: string)
    requires k in LeftIndex(flags, recs1)
    ensures Group(flags, LeftIndex(flags, recs1), RightIndex(flags, recs2), k)
         == Pairs(flags.field1 - 1, flags.field2 - 1,
                  Bucket(flags.ignoreCase, recs1, flags.field1 - 1, k),
                  Bucket(flags.ignoreCase, recs2, flags.field2 - 1, k))
  {
    var ic, f1, f2 := flags.ignoreCase, flags.field1 - 1, flags.field2 - 1;
    var idx1, idx2 := IndexOf(ic, recs1, f1), IndexOf(ic, recs2, f2);
    assert LeftIndex(flags, recs1) == idx1 && RightIndex(flags, recs2) == idx2;
    IndexKeysNormalized(ic, recs1, f1, k);
    IndexBuckets(ic, recs1, f1, k);
    IndexBuckets(ic, recs2, f2, k);
    GroupOfBuckets(flags, idx1, idx2, k, Bucket(ic, recs1, f1, k), Bucket(ic, recs2, f2, k));
  }

  /**
   * The group of a normalised left key is the product of its left bucket with
   * its right bucket, the latter empty when the right side lacks the key.
   */
  lemma GroupOfBuckets(flags: Flags, idx1: Index, idx2: Index, k: string, b1: seq<Record>, b2: seq<Record>)
    requires k in idx1 && NormalizeKey(flags.ignoreCase, k) == k && idx1[k] == b1
    requires k in idx2 ==> idx2[k] == b2
    requires k !in idx2 ==> b2 == []
    ensures Group(flags, idx1, idx2, k) == Pairs(flags.field1 - 1, flags.field2 - 1, b1, b2)
  {
    if k !in idx2 {
      PairsCount(flags.field1 - 1, flags.field2 - 1, b1, b2);
      assert |b1| * |b2| == 0;
    }
  }

  /** Every row of a key's group pairs a left and a right record carrying that key. */
  lemma GroupFrom(flags: Flags, recs1: seq<Record>, recs2: seq<Record>, k: string, x: string)
    returns (r1: Record, r2: Record)
    requires k in LeftIndex(flags, recs1)
    requires x in Group(flags, LeftIndex(flags, recs1), RightIndex(flags, recs2), k)
    ensures r1 in recs1 && IndexKey(flags.ignoreCase, r1, flags.field1 - 1) == k
    ensures r2 in recs2 && IndexKey(flags.ignoreCase, r2, flags.field2 - 1) == k
    ensures x == JoinedRow(flags.field1 - 1, flags.field2 - 1, r1, r2)
  {
    var ic, f1, f2 := flags.ignoreCase, flags.field1 - 1, flags.field2 - 1;
    var b1, b2 := Bucket(ic, recs1, f1, k), Bucket(ic, recs2, f2, k);
    GroupIsPairs(flags, recs1, recs2, k);
    var i, j := PairsFrom(f1, f2, b1, b2, x);
    r1, r2 := b1[i], b2[j];
    assert r1 in recs1 && IndexKey(ic, r1, f1) == k by {
      assert r1 in b1;
      BucketMembers(ic, recs1, f1, k, r1);
    }
    assert r2 in recs2 && IndexKey(ic, r2, f2) == k by {
      assert r2 in b2;
      BucketMembers(ic, recs2, f2, k, r2);
    }
  }

  /** The matching loop writes x iff the group of one of the visited keys holds it. */
  lemma {:induction false} MatchedRowsMembers(flags: Flags, idx1: Index, idx2: Index, order: seq<string>, x: string)
    ensures x in MatchedRows(flags, idx1, idx2, order)
        <==> exists t | 0 <= t < |order| :: x in Group(flags, idx1, idx2, order[t])
  {
    var f := k => Group(flags, idx1, idx2, k);
    MatchedRowsIsConcat(flags, idx1, idx2, order);
    ConcatMapMembers(f, order, x);
    if x in MatchedRows(flags, idx1, idx2, order) {
      var t :| 0 <= t < |order| && x in f(order[t]);
      assert x in Group(flags, idx1, idx2, order[t]);
    }
    if exists t | 0 <= t < |order| :: x in Group(flags, idx1, idx2, order[t]) {
      var t :| 0 <= t < |order| && x in Group(flags, idx1, idx2, order[t]);
      assert x in f(order[t]);
    }
  }

  /**
   * Whatever the order the left keys are visited in, the joined rows are
   * exactly the pairs of a left and a right record whose normalised join
   * keys are equal.
   */
  lemma MatchedRowsExact(flags: Flags, recs1: seq<Record>, recs2: seq<Record>, order: seq<string>, x: string)
    requires Enumerates(order, LeftIndex(flags, recs1).Keys)
    ensures var ic, f1, f2 := flags.ignoreCase, flags.field1 - 1, flags.field2 - 1;
            x in MatchedRows(flags, LeftIndex(flags, recs1), RightIndex(flags, recs2), order) <==>
              exists r1, r2 | r1 in recs1 && r2 in recs2 && IndexKey(ic, r1, f1) == IndexKey(ic, r2, f2)
                :: x == JoinedRow(f1, f2, r1, r2)
  {
    var ic, f1, f2 := flags.ignoreCase, flags.field1 - 1, flags.field2 - 1;
    if x in MatchedRows(flags, LeftIndex(flags, recs1), RightIndex(flags, recs2), order) {
      var r1, r2 := MatchedRowFrom(flags, recs1, recs2, order, x);
    }
    if exists r1, r2 | r1 in recs1 && r2 in recs2 && IndexKey(ic, r1, f1) == IndexKey(ic, r2, f2)
         :: x == JoinedRow(f1, f2, r1, r2) {
      var r1, r2 :| r1 in recs1 && r2 in recs2 && IndexKey(ic, r1, f1) == IndexKey(ic, r2, f2)
                    && x == JoinedRow(f1, f2, r1, r2);
      MatchedRowHas(flags, recs1, recs2, order, r1, r2);
    }
  }

  /** A row of the matching loop pairs a left and a right record with the same key. */
  lemma MatchedRowFrom(flags: Flags, recs1: seq<Record>, recs2: seq<Record>, order: seq<string>, x: string)
    returns (r1: Record, r2: Record)
    requires x in MatchedRows(flags, LeftIndex(flags, recs1), RightIndex(flags, recs2), order)
    ensures r1 in recs1 && r2 in recs2
    ensures IndexKey(flags.ignoreCase, r1, flags.field1 - 1) == IndexKey(flags.ignoreCase, r2, flags.field2 - 1)
    ensures x == JoinedRow(flags.field1 - 1, flags.field2 - 1, r1, r2)
  {
    var idx1, idx2 := LeftIndex(flags, recs1), RightIndex(flags, recs2);
    MatchedRowsMembers(flags, idx1, idx2, order, x);
    var t :| 0 <= t < |order| && x in Group(flags, idx1, idx2, order[t]);
    r1, r2 := GroupFrom(flags, recs1, recs2, order[t], x);
  }

  /** Every same-key pair of records has its row written by the matching loop. */
  lemma MatchedRowHas(flags: Flags, recs1: seq<Record>, recs2: seq<Record>, order: seq<string>, r1: Record, r2: Record)
    requires Enumerates(order, LeftIndex(flags, recs1).Keys)
    requires r1 in recs1 && r2 in recs2
    requires IndexKey(flags.ignoreCase, r1, flags.field1 - 1) == IndexKey(flags.ignoreCase, r2, flags.field2 - 1)
    ensures JoinedRow(flags.field1 - 1, flags.field2 - 1, r1, r2)
              in MatchedRows(flags, LeftIndex(flags, recs1), RightIndex(flags, recs2), order)
  {
    var ic, f1, f2 := flags.ignoreCase, flags.field1 - 1, flags.field2 - 1;
    var idx1, idx2 := LeftIndex(flags, recs1), RightIndex(flags, recs2);
    var x := JoinedRow(f1, f2, r1, r2);
    MatchedRowsMembers(flags, idx1, idx2, order, x);
    var k := IndexKey(ic, r1, f1);
    RecordInOneBucket(ic, recs1, f1, r1);
    var t :| 0 <= t < |order| && order[t] == k;
    GroupHas(flags, recs1, recs2, k, r1, r2);
  }

  // ---------------------------------------------------------------------
  // The joined set and the unpaired passes

  /** The record keys of a sequence are the keys of its records. */
  lemma {:induction false} RecordKeysMembers(recs: seq<Record>, x: string)
    ensures x in RecordKeys(recs) <==> exists r | r in recs :: x == RecordKey(r)
  {
    if |recs| > 0 {
      var n := |recs| - 1;
      RecordKeysMembers(recs[..n], x);
      assert recs == recs[..n] + [recs[n]];
    }
  }

  /** A mark of a visited key the right index also holds is in the joined set. */
  lemma JoinedInHas(flags: Flags, idx1: Index, idx2: Index, done: set<string>, k: string, x: string)
    requires k in done && k in idx1 && NormalizeKey(flags.ignoreCase, k) in idx2
    requires x in Marks(idx1[k], idx2[NormalizeKey(flags.ignoreCase, k)])
    ensures x in JoinedIn(flags, idx1, idx2, done)
  {
  }

  /** Marking two non-empty buckets marks every record of either. */
  lemma MarksHas(b1: seq<Record>, b2: seq<Record>, r1: Record, r2: Record)
    requires r1 in b1 && r2 in b2
    ensures RecordKey(r1) in Marks(b1, b2) && RecordKey(r2) in Marks(b1, b2)
  {
    RecordKeysMembers(b1, RecordKey(r1));
    RecordKeysMembers(b2, RecordKey(r2));
  }

  /** Both records of a pair are marked. */
  lemma JoinedHas(flags: Flags, recs1: seq<Record>, recs2: seq<Record>, r1: Record, r2: Record)
    requires r1 in recs1 && r2 in recs2
    requires IndexKey(flags.ignoreCase, r1, flags.field1 - 1) == IndexKey(flags.ignoreCase, r2, flags.field2 - 1)
    ensures RecordKey(r1) in Joined(flags, recs1, recs2) && RecordKey(r2) in Joined(flags, recs1, recs2)
  {
    var ic, f1, f2 := flags.ignoreCase, flags.field1 - 1, flags.field2 - 1;
    var idx1, idx2 := LeftIndex(flags, recs1), RightIndex(flags, recs2);
    var k := IndexKey(ic, r1, f1);
    assert k in idx1 && r1 in idx1[k] by {
      RecordInOneBucket(ic, recs1, f1, r1);
    }
    assert k in idx2 && r2 in idx2[k] by {
      RecordInOneBucket(ic, recs2, f2, r2);
    }
    assert NormalizeKey(ic, k) == k by {
      IndexKeysNormalized(ic, recs1, f1, k);
    }
    MarksHas(idx1[k], idx2[k], r1, r2);
    JoinedInHas(flags, idx1, idx2, idx1.Keys, k, RecordKey(r1));
    JoinedInHas(flags, idx1, idx2, idx1.Keys, k, RecordKey(r2));
  }

  /** Every marked record key belongs to a record, on one side or the other, that was paired. */
  lemma JoinedFrom(flags: Flags, recs1: seq<Record>, recs2: seq<Record>, x: string)
    returns (r1: Record, r2: Record)
    requires x in Joined(flags, recs1, recs2)
    ensures r1 in recs1 && r2 in recs2
    ensures IndexKey(flags.ignoreCase, r1, flags.field1 - 1) == IndexKey(flags.ignoreCase, r2, flags.field2 - 1)
    ensures x == RecordKey(r1) || x == RecordKey(r2)
  {
    var ic, f1, f2 := flags.ignoreCase, flags.field1 - 1, flags.field2 - 1;
    var idx1, idx2 := LeftIndex(flags, recs1), RightIndex(flags, recs2);
    var k :| k in idx1 && NormalizeKey(ic, k) in idx2 && x in Marks(idx1[k], idx2[NormalizeKey(ic, k)]);
    var b1, b2 := Bucket(ic, recs1, f1, k), Bucket(ic, recs2, f2, k);
    assert NormalizeKey(ic, k) == k by {
      IndexKeysNormalized(ic, recs1, f1, k);
    }
    assert idx1[k] == b1 && idx2[k] == b2 by {
      IndexBuckets(ic, recs1, f1, k);
      IndexBuckets(ic, recs2, f2, k);
    }
    assert x in RecordKeys(b1) + RecordKeys(b2);
    var p1, p2 := b1[0], b2[0];
    assert p1 in recs1 && IndexKey(ic, p1, f1) == k by {
      BucketMembers(ic, recs1, f1, k, p1);
    }
    assert p2 in recs2 && IndexKey(ic, p2, f2) == k by {
      BucketMembers(ic, recs2, f2, k, p2);
    }
    if x in RecordKeys(b1) {
      RecordKeysMembers(b1, x);
      var r :| r in b1 && x == RecordKey(r);
      BucketMembers(ic, recs1, f1, k, r);
      r1, r2 := r, p2;
    } else {
      RecordKeysMembers(b2, x);
      var r :| r in b2 && x == RecordKey(r);
      BucketMembers(ic, recs2, f2, k, r);
      r1, r2 := p1, r;
    }
  }

  /**
   * After the matching loop the joined set holds exactly the record keys of
   * the records that took part in at least one pair, on either side.
   */
  lemma JoinedMembers(flags: Flags, recs1: seq<Record>, recs2: seq<Record>, x: string)
    ensures x in Joined(flags, recs1, recs2) <==>
              exists r1, r2 | r1 in recs1 && r2 in recs2
                && IndexKey(flags.ignoreCase, r1, flags.field1 - 1) == IndexKey(flags.ignoreCase, r2, flags.field2 - 1)
                :: x == RecordKey(r1) || x == RecordKey(r2)
  {
    if x in Joined(flags, recs1, recs2) {
      var r1, r2 := JoinedFrom(flags, recs1, recs2, x);
    }
    if exists r1, r2 | r1 in recs1 && r2 in recs2
         && IndexKey(flags.ignoreCase, r1, flags.field1 - 1) == IndexKey(flags.ignoreCase, r2, flags.field2 - 1)
         :: x == RecordKey(r1) || x == RecordKey(r2) {
      JoinedByPair(flags, recs1, recs2, x);
    }
  }

  /** A record key of either side of a same-key pair is in the joined set. */
  lemma JoinedByPair(flags: Flags, recs1: seq<Record>, recs2: seq<Record>, x: string)
    requires exists r1, r2 | r1 in recs1 && r2 in recs2
               && IndexKey(flags.ignoreCase, r1, flags.field1 - 1) == IndexKey(flags.ignoreCase, r2, flags.field2 - 1)
               :: x == RecordKey(r1) || x == RecordKey(r2)
    ensures x in Joined(flags, recs1, recs2)
  {
    var r1, r2 :| r1 in recs1 && r2 in recs2
       && IndexKey(flags.ignoreCase, r1, flags.field1 - 1) == IndexKey(flags.ignoreCase, r2, flags.field2 - 1)
       && (x == RecordKey(r1) || x == RecordKey(r2));
    JoinedHas(flags, recs1, recs2, r1, r2);
  }

  /** An unpaired pass writes exactly the records whose record key is not in the joined set. */
  lemma {:induction false} UnpairedRowsMembers(recs: seq<Record>, joined: set<string>, x: string)
    ensures x in UnpairedRows(recs, joined)
        <==> exists r | r in recs :: RecordKey(r) !in joined && x == UnpairedLine(r)
  {
    if |recs| > 0 {
      var n := |recs| - 1;
      UnpairedRowsMembers(recs[..n], joined, x);
      assert recs == recs[..n] + [recs[n]];
    }
  }

  /** A record's unpaired line identifies it among well-formed records (re-splitting gives each back). */
  lemma UnpairedLineInjective(r1: Record, r2: Record)
    requires WellFormed(r1) && WellFormed(r2)
    requires UnpairedLine(r1) == UnpairedLine(r2)
    ensures r1 == r2
  {
  }

  /** A record's record key identifies it among well-formed records (re-splitting gives each back). */
  lemma RecordKeyInjective(r1: Record, r2: Record)
    requires WellFormed(r1) && WellFormed(r2)
    requires RecordKey(r1) == RecordKey(r2)
    ensures r1 == r2
  {
  }

  /**
   * Records that were paired are marked and never written as unpaired, on
   * either side.
   */
  lemma PairedNeverUnpaired(flags: Flags, lines1: seq<string>, lines2: seq<string>, r1: Record, r2: Record)
    requires var recs1, recs2 := ParsedRecords(lines1), ParsedRecords(lines2);
             r1 in recs1 && r2 in recs2
             && IndexKey(flags.ignoreCase, r1, flags.field1 - 1) == IndexKey(flags.ignoreCase, r2, flags.field2 - 1)
    ensures var recs1, recs2 := ParsedRecords(lines1), ParsedRecords(lines2);
            var joined := Joined(flags, recs1, recs2);
            && RecordKey(r1) in joined && RecordKey(r2) in joined
            && UnpairedLine(r1) !in UnpairedRows(recs1, joined)
            && UnpairedLine(r2) !in UnpairedRows(recs2, joined)
  {
    var recs1, recs2 := ParsedRecords(lines1), ParsedRecords(lines2);
    var joined := Joined(flags, recs1, recs2);
    JoinedHas(flags, recs1, recs2, r1, r2);
    UnpairedRowsMembers(recs1, joined, UnpairedLine(r1));
    UnpairedRowsMembers(recs2, joined, UnpairedLine(r2));
    ParsedAllWellFormed(lines1);
    ParsedAllWellFormed(lines2);
  }

  // ---------------------------------------------------------------------
  // Independence from the map iteration order

  /** A sequence without repetitions holds each of its elements exactly once. */
  lemma {:induction false} DistinctOnce(order: seq<string>, k: string)
    requires forall i, j | 0 <= i < j < |order| :: order[i] != order[j]
    ensures multiset(order)[k] == if k in order then 1 else 0
  {
    if |order| > 0 {
      var n := |order| - 1;
      assert order == order[..n] + [order[n]];
      DistinctOnce(order[..n], k);
      assert order[n] !in order[..n];
    }
  }

  /** Two iteration orders of the same keys are permutations of each other. */
  lemma EnumerationsPermute(o1: seq<string>, o2: seq<string>, keys: set<string>)
    requires Enumerates(o1, keys) && Enumerates(o2, keys)
    ensures multiset(o1) == multiset(o2)
  {
    forall k ensures multiset(o1)[k] == multiset(o2)[k] {
      DistinctOnce(o1, k);
      DistinctOnce(o2, k);
    }
  }

  /** The outputs of f over order, concatenated: the shape of the matching loop, for any per-key output. */
  function ConcatMap(f: string -> seq<string>, order: seq<string>): seq<string> {
    if |order| == 0 then [] else ConcatMap(f, order[..|order| - 1]) + f(order[|order| - 1])
  }

  /** The matching loop concatenates the groups of the keys in visiting order. */
  lemma {:induction false} MatchedRowsIsConcat(flags: Flags, idx1: Index, idx2: Index, order: seq<string>)
    ensures MatchedRows(flags, idx1, idx2, order) == ConcatMap(k => Group(flags, idx1, idx2, k), order)
  {
    if |order| > 0 {
      MatchedRowsIsConcat(flags, idx1, idx2, order[..|order| - 1]);
    }
  }

  /** x is in the concatenation iff the output of one of the keys holds it. */
  lemma {:induction false} ConcatMapMembers(f: string -> seq<string>, order: seq<string>, x: string)
    ensures x in ConcatMap(f, order) <==> exists t | 0 <= t < |order| :: x in f(order[t])
  {
    if |order| > 0 {
      var n := |order| - 1;
      ConcatMapMembers(f, order[..n], x);
      if exists t | 0 <= t < |order| :: x in f(order[t]) {
        var t :| 0 <= t < |order| && x in f(order[t]);
        if t < n {
          assert order[..n][t] == order[t];
        }
      }
      if x in ConcatMap(f, order[..n]) {
        var t :| 0 <= t < n && x in f(order[..n][t]);
        assert order[..n][t] == order[t];
      }
    }
  }

  /** Concatenating over a concatenation of key sequences concatenates the outputs. */
  lemma {:induction false} ConcatMapAppend(f: string -> seq<string>, a: seq<string>, b: seq<string>)
    ensures ConcatMap(f, a + b) == ConcatMap(f, a) + ConcatMap(f, b)
  {
    if |b| == 0 {
      assert a + b == a;
    } else {
      var n := |b| - 1;
      var ab := a + b;
      calc {
        ConcatMap(f, ab);
        ConcatMap(f, ab[..|ab| - 1]) + f(ab[|ab| - 1]);
        { assert ab[..|ab| - 1] == a + b[..n]; assert ab[|ab| - 1] == b[n]; }
        ConcatMap(f, a + b[..n]) + f(b[n]);
        { ConcatMapAppend(f, a, b[..n]); }
        ConcatMap(f, a) + ConcatMap(f, b[..n]) + f(b[n]);
        ConcatMap(f, a) + (ConcatMap(f, b[..n]) + f(b[n]));
        ConcatMap(f, a) + ConcatMap(f, b);
      }
    }
  }

  /** Removing the last element of one and a matching element of the other keeps two permutations permutations. */
  lemma RemoveMatching(o1: seq<string>, o2: seq<string>, p: int)
    requires |o1| > 0 && multiset(o1) == multiset(o2)
    requires 0 <= p < |o2| && o2[p] == o1[|o1| - 1]
    ensures multiset(o1[..|o1| - 1]) == multiset(o2[..p] + o2[p + 1..])
  {
    var n, k := |o1| - 1, o1[|o1| - 1];
    var before, without := multiset(o1[..n]), multiset(o2[..p] + o2[p + 1..]);
    assert o1 == o1[..n] + [k];
    assert o2 == o2[..p] + [k] + o2[p + 1..];
    assert multiset(o1) == before + multiset{k};
    assert multiset(o2) == without + multiset{k};
    assert before == (before + multiset{k}) - multiset{k};
    assert without == (without + multiset{k}) - multiset{k};
  }

  /** Concatenating over two permutations of the same keys gives permutations of the same outputs. */
  lemma {:induction false} ConcatMapPermute(f: string -> seq<string>, o1: seq<string>, o2: seq<string>)
    requires multiset(o1) == multiset(o2)
    ensures multiset(ConcatMap(f, o1)) == multiset(ConcatMap(f, o2))
    decreases |o1|
  {
    if |o1| == 0 {
      assert |o2| == |multiset(o2)| == 0;
    } else {
      var n := |o1| - 1;
      var k := o1[n];
      assert k in multiset(o2) by {
        assert k in o1;
      }
      var p :| 0 <= p < |o2| && o2[p] == k;
      RemoveMatching(o1, o2, p);
      ConcatMapPermute(f, o1[..n], o2[..p] + o2[p + 1..]);
      ConcatMapMoveOut(f, o2, p);
      assert ConcatMap(f, o1) == ConcatMap(f, o1[..n]) + f(k);
    }
  }

  /** A sequence is its part before p, its element at p and its part after p. */
  lemma SplitAt(s: seq<string>, p: int)
    requires 0 <= p < |s|
    ensures s == s[..p] + ([s[p]] + s[p + 1..])
  {
  }

  /** Taking one key out of the middle of the order moves its output, which keeps the multiset of outputs. */
  lemma ConcatMapMoveOut(f: string -> seq<string>, o: seq<string>, p: int)
    requires 0 <= p < |o|
    ensures multiset(ConcatMap(f, o)) == multiset(ConcatMap(f, o[..p] + o[p + 1..])) + multiset(f(o[p]))
  {
    var front, k, back := o[..p], o[p], o[p + 1..];
    var cf, cb := ConcatMap(f, front), ConcatMap(f, back);
    assert ConcatMap(f, [k]) == f(k) by {
      assert [k][..0] == [];
    }
    calc {
      multiset(ConcatMap(f, o));
      { SplitAt(o, p); }
      multiset(ConcatMap(f, front + ([k] + back)));
      { ConcatMapAppend(f, front, [k] + back); ConcatMapAppend(f, [k], back); }
      multiset(cf + (f(k) + cb));
      multiset(cf) + multiset(cb) + multiset(f(k));
      { ConcatMapAppend(f, front, back); }
      multiset(ConcatMap(f, front + back)) + multiset(f(k));
    }
  }

  /** Visiting the same keys in another order writes the same rows, possibly in another order. */
  lemma MatchedRowsPermute(flags: Flags, idx1: Index, idx2: Index, o1: seq<string>, o2: seq<string>)
    requires multiset(o1) == multiset(o2)
    ensures multiset(MatchedRows(flags, idx1, idx2, o1)) == multiset(MatchedRows(flags, idx1, idx2, o2))
  {
    MatchedRowsIsConcat(flags, idx1, idx2, o1);
    MatchedRowsIsConcat(flags, idx1, idx2, o2);
    ConcatMapPermute(k => Group(flags, idx1, idx2, k), o1, o2);
  }

  /**
   * The output does not depend on the map iteration order beyond the order
   * of the joined rows: any two orders give the same joined rows as a
   * multiset, followed by the same unpaired lines.
   */
  lemma OrderIndependent(flags: Flags, recs1: seq<Record>, recs2: seq<Record>, o1: seq<string>, o2: seq<string>)
    requires Enumerates(o1, LeftIndex(flags, recs1).Keys)
    requires Enumerates(o2, LeftIndex(flags, recs1).Keys)
    ensures var m1 := MatchedRows(flags, LeftIndex(flags, recs1), RightIndex(flags, recs2), o1);
            var m2 := MatchedRows(flags, LeftIndex(flags, recs1), RightIndex(flags, recs2), o2);
            && multiset(m1) == multiset(m2)
            && |m1| == |m2|
            && JoinOutput(flags, recs1, recs2, o1)[|m1|..] == JoinOutput(flags, recs1, recs2, o2)[|m2|..]
            && multiset(JoinOutput(flags, recs1, recs2, o1)) == multiset(JoinOutput(flags, recs1, recs2, o2))
  {
    var idx1, idx2 := LeftIndex(flags, recs1), RightIndex(flags, recs2);
    var m1, m2 := MatchedRows(flags, idx1, idx2, o1), MatchedRows(flags, idx1, idx2, o2);
    assert multiset(m1) == multiset(m2) by {
      EnumerationsPermute(o1, o2, idx1.Keys);
      MatchedRowsPermute(flags, idx1, idx2, o1, o2);
    }
    assert |m1| == |m2| by {
      assert |m1| == |multiset(m1)| && |m2| == |multiset(m2)|;
    }
    var rest := UnpairedOutput(flags, recs1, recs2);
    assert (m1 + rest)[|m1|..] == rest;
    assert (m2 + rest)[|m2|..] == rest;
  }
}

/**
 * The shape of a joined output row, common to both join variants: the join
 * key, then the left fields without the left join field, then the right
 * fields without the right join field.
 */
module Rows {
  import opened Text

  /** fields with the element at position skip removed (unchanged when skip is out of range). */
  function Without(fields: seq<string>, skip: int): seq<string> {
    if |fields| == 0 then []
    else
      var n := |fields| - 1;
      Without(fields[..n], skip) + (if n != skip then [fields[n]] else [])
  }

  /** Dropping the field at position skip leaves the fields before it followed by those after it. */
  lemma {:induction false} WithoutSlices(fields: seq<string>, skip: int)
    ensures 0 <= skip < |fields| ==> Without(fields, skip) == fields[..skip] + fields[skip + 1..]
    ensures !(0 <= skip < |fields|) ==> Without(fields, skip) == fields
  {
    if |fields| > 0 {
      var n := |fields| - 1;
      WithoutSlices(fields[..n], skip);
      if 0 <= skip < n {
        assert fields[..n][..skip] == fields[..skip];
        assert fields[..n][skip + 1..] + [fields[n]] == fields[skip + 1..];
      } else if skip == n {
        assert fields[..n] == fields[..skip];
        assert fields[skip + 1..] == [];
      } else {
        assert fields[..n] + [fields[n]] == fields;
      }
    }
  }

  /** Taking one more field extends the result by it, unless it sits at position skip. */
  lemma WithoutPrefix(fields: seq<string>, i: int, skip: int)
    requires 0 <= i < |fields|
    ensures Without(fields[..i + 1], skip) == Without(fields[..i], skip) + (if i != skip then [fields[i]] else [])
  {
    assert fields[..i + 1][..i] == fields[..i];
  }

  /** The fields of a joined row, in output order. */
  function JoinedFields(key: string, left: seq<string>, leftSkip: int,
                        right: seq<string>, rightSkip: int): seq<string>
  {
    [key] + Without(left, leftSkip) + Without(right, rightSkip)
  }

  /** Dropping a field keeps the remaining fields proper. */
  lemma WithoutWellFormed(fields: seq<string>, skip: int)
    requires WellFormed(fields)
    ensures WellFormed(Without(fields, skip))
  {
    var r := Without(fields, skip);
    WithoutSlices(fields, skip);
    if 0 <= skip < |fields| {
      forall i | 0 <= i < |r| ensures FieldOk(r[i]) {
        if i < skip { assert r[i] == fields[i]; } else { assert r[i] == fields[i + 1]; }
      }
    }
  }

  /**
   * A joined row, written with single spaces, splits back into exactly its
   * fields: key, left remainder, right remainder.
   */
  lemma JoinedRowReparse(key: string, left: seq<string>, leftSkip: int,
                         right: seq<string>, rightSkip: int)
    requires FieldOk(key) && WellFormed(left) && WellFormed(right)
    ensures Fields(JoinWith(JoinedFields(key, left, leftSkip, right, rightSkip), " "))
         == JoinedFields(key, left, leftSkip, right, rightSkip)
  {
    var a, b := Without(left, leftSkip), Without(right, rightSkip);
    WithoutWellFormed(left, leftSkip);
    WithoutWellFormed(right, rightSkip);
    var all := JoinedFields(key, left, leftSkip, right, rightSkip);
    assert all == [key] + a + b;
    forall i | 0 <= i < |all| ensures FieldOk(all[i]) {
      if i == 0 {
      } else if i <= |a| {
        assert all[i] == a[i - 1];
      } else {
        assert all[i] == b[i - 1 - |a|];
      }
    }
    FieldsOfJoin(all, ' ');
  }

  /** With an empty key the row starts with a separator, which re-splitting drops. */
  lemma EmptyKeyReparse(rest: seq<string>)
    requires WellFormed(rest)
    ensures Fields(JoinWith([""] + rest, " ")) == rest
  {
    FieldsOfJoin(rest, ' ');
    if rest != [] {
      var all := [""] + rest;
      assert all[1..] == rest;
      var s := JoinWith(rest, " ");
      assert JoinWith(all, " ") == " " + s;
      assert (" " + s)[1..] == s;
    }
  }
}

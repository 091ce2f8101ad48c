/**
 * The string primitives both join variants rely on: splitting a line into
 * whitespace-separated fields (Go's strings.Fields), joining fields with a
 * separator (strings.Join) and lower-casing (strings.ToLower).
 * Whitespace is the ASCII set space, tab, newline, vertical tab, form feed
 * and carriage return; lower-casing maps A-Z to a-z and nothing else.
 */
module Text {

  /** The ASCII white-space characters: ' ' and '\t' .. '\r'. */
  predicate IsSpace(c: char) {
    c == ' ' || '\t' <= c <= '\r'
  }

  /** A field as strings.Fields produces it: non-empty, no white space inside. */
  predicate FieldOk(f: string) {
    |f| > 0 && forall i | 0 <= i < |f| :: !IsSpace(f[i])
  }

  /** Every field of a record is a proper field. */
  predicate WellFormed(fields: seq<string>) {
    forall i | 0 <= i < |fields| :: FieldOk(fields[i])
  }

  /** Length of the longest white-space-free prefix of s. */
  function TokenEnd(s: string): (n: nat)
    ensures n <= |s|
    ensures forall i | 0 <= i < n :: !IsSpace(s[i])
    ensures n < |s| ==> IsSpace(s[n])
  {
    if s == [] || IsSpace(s[0]) then 0 else 1 + TokenEnd(s[1..])
  }

  /**
   * strings.Fields: the maximal runs of non-white-space characters of s,
   * in order. A blank line yields no field at all.
   */
  function Fields(s: string): (r: seq<string>)
    ensures WellFormed(r)
    ensures r == [] <==> forall i | 0 <= i < |s| :: IsSpace(s[i])
    decreases |s|
  {
    if s == [] then []
    else if IsSpace(s[0]) then
      var r := Fields(s[1..]);
      assert forall i | 1 <= i < |s| :: s[i] == s[1..][i - 1];
      r
    else
      var n := TokenEnd(s);
      [s[..n]] + Fields(s[n..])
  }

  /** strings.Join: the elements of xs with sep between consecutive ones. */
  function JoinWith(xs: seq<string>, sep: string): string {
    if |xs| == 0 then ""
    else if |xs| == 1 then xs[0]
    else xs[0] + sep + JoinWith(xs[1..], sep)
  }

  /** Appending one more element appends the separator and that element. */
  lemma {:induction false} JoinWithSnoc(xs: seq<string>, sep: string, y: string)
    requires |xs| > 0
    ensures JoinWith(xs + [y], sep) == JoinWith(xs, sep) + sep + y
  {
    if |xs| == 1 {
      assert xs + [y] == [xs[0], y];
      assert (xs + [y])[1..] == [y];
    } else {
      assert (xs + [y])[1..] == xs[1..] + [y];
      JoinWithSnoc(xs[1..], sep, y);
    }
  }

  /** A token followed by white space (or by nothing) ends exactly where the token does. */
  lemma {:induction false} TokenEndOfPrefix(f: string, t: string)
    requires FieldOk(f)
    requires t == [] || IsSpace(t[0])
    ensures TokenEnd(f + t) == |f|
  {
    assert (f + t)[0] == f[0];
    if |f| > 1 {
      assert (f + t)[1..] == f[1..] + t;
      TokenEndOfPrefix(f[1..], t);
    } else {
      assert (f + t)[1..] == t;
    }
  }

  /** A single proper field splits into itself. */
  lemma FieldsWord(w: string)
    requires FieldOk(w)
    ensures Fields(w) == [w]
  {
    TokenEndOfPrefix(w, []);
    assert w + [] == w;
    assert w[..|w|] == w;
  }

  /** Leading white space is skipped. */
  lemma FieldsSkipSpace(u: string)
    requires u != [] && IsSpace(u[0])
    ensures Fields(u) == Fields(u[1..])
  {
  }

  /** A leading token up to the first white space (or the end) is the first field. */
  lemma FieldsTakeToken(f: string, rest: string)
    requires FieldOk(f)
    requires rest == [] || IsSpace(rest[0])
    ensures Fields(f + rest) == [f] + Fields(rest)
  {
    var u := f + rest;
    TokenEndOfPrefix(f, rest);
    assert u[0] == f[0];
    assert u[..|f|] == f && u[|f|..] == rest;
  }

  /**
   * A white-space character separates: the fields of s, c, t are those of s
   * followed by those of t, whatever white space s and t hold at their ends
   * or inside. With FieldsWord and Fields("") == [] this fixes the fields of
   * every string.
   */
  lemma {:induction false} FieldsSplit(s: string, c: char, t: string)
    requires IsSpace(c)
    ensures Fields(s + [c] + t) == Fields(s) + Fields(t)
    decreases |s|, 1
  {
    if s == [] {
      var u := s + [c] + t;
      assert u == [c] + t;
      FieldsSkipSpace(u);
      assert u[1..] == t;
    } else if IsSpace(s[0]) {
      FieldsSplitAfterSpace(s, c, t);
    } else {
      FieldsSplitAfterToken(s, c, t);
    }
  }

  /** FieldsSplit when s starts with white space. */
  lemma {:induction false} FieldsSplitAfterSpace(s: string, c: char, t: string)
    requires IsSpace(c) && s != [] && IsSpace(s[0])
    ensures Fields(s + [c] + t) == Fields(s) + Fields(t)
    decreases |s|, 0
  {
    var u := s + [c] + t;
    assert u[0] == s[0] && u[1..] == s[1..] + [c] + t;
    FieldsSkipSpace(u);
    FieldsSkipSpace(s);
    FieldsSplit(s[1..], c, t);
  }

  /** FieldsSplit when s starts with a token. */
  lemma {:induction false} FieldsSplitAfterToken(s: string, c: char, t: string)
    requires IsSpace(c) && s != [] && !IsSpace(s[0])
    ensures Fields(s + [c] + t) == Fields(s) + Fields(t)
    decreases |s|, 0
  {
    var m := TokenEnd(s);
    var f, tail := s[..m], s[m..];
    var rest := tail + [c] + t;
    assert FieldOk(f);
    assert rest[0] == (if m < |s| then s[m] else c);
    calc {
      Fields(s + [c] + t);
      { assert s + [c] + t == f + rest; }
      Fields(f + rest);
      { FieldsTakeToken(f, rest); }
      [f] + Fields(rest);
      { FieldsSplit(tail, c, t); }
      [f] + (Fields(tail) + Fields(t));
      ([f] + Fields(tail)) + Fields(t);
      { assert s == f + tail; FieldsTakeToken(f, tail); }
      Fields(s) + Fields(t);
    }
  }

  /**
   * Re-splitting fields joined by one white-space character gives the same
   * fields back: strings.Fields undoes strings.Join on proper fields.
   */
  lemma {:induction false} FieldsOfJoin(fs: seq<string>, c: char)
    requires IsSpace(c)
    requires WellFormed(fs)
    ensures Fields(JoinWith(fs, [c])) == fs
  {
    if |fs| == 1 {
      FieldsWord(fs[0]);
    } else if |fs| > 1 {
      var f, rest := fs[0], JoinWith(fs[1..], [c]);
      calc {
        Fields(JoinWith(fs, [c]));
        Fields(f + [c] + rest);
        { FieldsSplit(f, c, rest); }
        Fields(f) + Fields(rest);
        { FieldsWord(f); FieldsOfJoin(fs[1..], c); }
        [f] + fs[1..];
        fs;
      }
    }
  }

  /** strings.Join with a single white-space separator is injective on proper fields. */
  lemma JoinWithInjective(xs: seq<string>, ys: seq<string>, c: char)
    requires IsSpace(c)
    requires WellFormed(xs) && WellFormed(ys)
    requires JoinWith(xs, [c]) == JoinWith(ys, [c])
    ensures xs == ys
  {
    FieldsOfJoin(xs, c);
    FieldsOfJoin(ys, c);
  }

  /** ASCII lower-casing of one character. */
  function LowerChar(c: char): char {
    if 'A' <= c <= 'Z' then (c as int + 32) as char else c
  }

  /** strings.ToLower restricted to ASCII letters. */
  function Lower(s: string): (r: string)
    ensures |r| == |s|
  {
    if s == [] then [] else [LowerChar(s[0])] + Lower(s[1..])
  }

  /** Lower-casing changes each character on its own and never touches a non-letter. */
  lemma {:induction false} LowerAt(s: string, i: nat)
    requires i < |s|
    ensures Lower(s)[i] == LowerChar(s[i])
    ensures !('A' <= Lower(s)[i] <= 'Z')
  {
    if i > 0 {
      LowerAt(s[1..], i - 1);
    }
  }

  /** Lower-casing twice is lower-casing once. */
  lemma {:induction false} LowerIdempotent(s: string)
    ensures Lower(Lower(s)) == Lower(s)
  {
    if s != [] {
      LowerAt(s, 0);
      LowerIdempotent(s[1..]);
    }
  }
}

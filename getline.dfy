/** The field splitting done by `std::getline(ss, value, ',')` on a string
    stream that holds one line of the file: each successful call extracts the
    characters from the read position up to the next comma (and consumes
    that comma); a call that extracts nothing at all fails. So an empty line
    yields no field, and a trailing comma never yields an empty last field. */
module Getline {
  import opened Wrappers

  const DELIMITER: char := ','

  /** The position of the first delimiter at or after `pos` (|row| when there is none). */
  function NextDelimiter(row: string, pos: nat): (j: nat)
    requires pos <= |row|
    ensures pos <= j <= |row|
    ensures j < |row| ==> row[j] == DELIMITER
    decreases |row| - pos
  {
    if pos == |row| || row[pos] == DELIMITER then pos else NextDelimiter(row, pos + 1)
  }

  /** No delimiter comes between `pos` and the next delimiter. */
  lemma {:induction false} NoDelimiterBefore(row: string, pos: nat)
    requires pos <= |row|
    ensures forall k :: pos <= k < NextDelimiter(row, pos) ==> row[k] != DELIMITER
    decreases |row| - pos
  {
    if pos < |row| && row[pos] != DELIMITER {
      NoDelimiterBefore(row, pos + 1);
    }
  }

  /** The next delimiter is at `j` when none comes before `j` and one is at
      `j` (or `j` is the end). */
  lemma {:induction false} NextDelimiterAt(row: string, pos: nat, j: nat)
    requires pos <= j <= |row| && (j < |row| ==> row[j] == DELIMITER)
    requires forall k :: pos <= k < j ==> row[k] != DELIMITER
    ensures NextDelimiter(row, pos) == j
    decreases j - pos
  {
    if pos < j {
      NextDelimiterAt(row, pos + 1, j);
    }
  }

  /** One call of getline on a stream over `row` whose read position is `pos`:
      None when it fails, otherwise the extracted field and the new position. */
  function GetField(row: string, pos: nat): (r: Option<(string, nat)>)
    requires pos <= |row|
    ensures r.None? <==> pos == |row|
    ensures r.Some? ==> pos < r.value.1 <= |row| && DELIMITER !in r.value.0
  {
    if pos == |row| then None
    else
      var j := NextDelimiter(row, pos);
      NoDelimiterBefore(row, pos);
      assert forall k :: 0 <= k < j - pos ==> row[pos..j][k] == row[pos + k];
      Some((row[pos..j], if j < |row| then j + 1 else j))
  }

  /** The fields that successive getline calls deliver from position `pos` on. */
  function FieldsFrom(row: string, pos: nat): seq<string>
    requires pos <= |row|
    decreases |row| - pos
  {
    if pos == |row| then []
    else
      var j := NextDelimiter(row, pos);
      [row[pos..j]] + (if j < |row| then FieldsFrom(row, j + 1) else [])
  }

  /** The fields of a whole line. */
  function Fields(row: string): seq<string>
  {
    FieldsFrom(row, 0)
  }

  /** One getline call delivers the first of the remaining fields, and the
      stream is then positioned at the others. */
  lemma GetFieldStep(row: string, pos: nat)
    requires pos <= |row|
    ensures GetField(row, pos).None? ==> FieldsFrom(row, pos) == []
    ensures GetField(row, pos).Some? ==>
              FieldsFrom(row, pos) == [GetField(row, pos).value.0] + FieldsFrom(row, GetField(row, pos).value.1)
  {
  }

  /** No field holds a delimiter. */
  lemma {:induction false} FieldsFromHaveNoDelimiter(row: string, pos: nat)
    requires pos <= |row|
    ensures forall i :: 0 <= i < |FieldsFrom(row, pos)| ==> DELIMITER !in FieldsFrom(row, pos)[i]
    decreases |row| - pos
  {
    if pos < |row| {
      var j := NextDelimiter(row, pos);
      assert GetField(row, pos).value.0 == row[pos..j];
      if j < |row| {
        FieldsFromHaveNoDelimiter(row, j + 1);
      }
    }
  }

  lemma FieldsHaveNoDelimiter(row: string)
    ensures forall i :: 0 <= i < |Fields(row)| ==> DELIMITER !in Fields(row)[i]
  {
    FieldsFromHaveNoDelimiter(row, 0);
  }

  /** The text the fields came from: the fields with a delimiter between each two. */
  function Join(fs: seq<string>): string
  {
    if |fs| == 0 then "" else if |fs| == 1 then fs[0] else fs[0] + [DELIMITER] + Join(fs[1..])
  }

  /** `row` ends, from offset `o` on, with exactly the text `b`. */
  predicate EndsWith(row: string, o: nat, b: string)
  {
    o + |b| == |row| && forall k :: 0 <= k < |b| ==> row[o + k] == b[k]
  }

  /** The next delimiter in the ending is found where it is in `b`. */
  lemma NextDelimiterShift(row: string, o: nat, b: string, p: nat)
    requires EndsWith(row, o, b) && p <= |b|
    ensures NextDelimiter(row, o + p) == o + NextDelimiter(b, p)
  {
    var j := NextDelimiter(b, p);
    NoDelimiterBefore(b, p);
    forall k | o + p <= k < o + j
      ensures row[k] != DELIMITER
    {
      assert b[k - o] != DELIMITER;
    }
    if j < |b| {
      assert b[j] == DELIMITER;
    }
    NextDelimiterAt(row, o + p, o + j);
  }

  /** A field of the ending is that field of `b`. */
  lemma FieldShift(row: string, o: nat, b: string, p: nat, j: nat)
    requires EndsWith(row, o, b) && p <= j <= |b|
    ensures row[o + p..o + j] == b[p..j]
  {
    assert forall k :: 0 <= k < j - p ==> row[o + p..o + j][k] == b[p..j][k];
  }

  /** Splitting the ending of `row` from position `o + p` gives the fields
      of `b` read from `p`. */
  lemma {:induction false} FieldsFromShift(row: string, o: nat, b: string, p: nat)
    requires EndsWith(row, o, b) && p <= |b|
    ensures FieldsFrom(row, o + p) == FieldsFrom(b, p)
    decreases |b| - p
  {
    if p == |b| {
    } else if NextDelimiter(b, p) == |b| {
      ShiftLastField(row, o, b, p);
    } else {
      var j := NextDelimiter(b, p);
      var k := j + 1;
      FieldsFromShift(row, o, b, k);
      ShiftStep(row, o, b, p, j, k);
    }
  }

  /** The last field of the ending is the last field of `b`. */
  lemma ShiftLastField(row: string, o: nat, b: string, p: nat)
    requires EndsWith(row, o, b) && p < |b| && NextDelimiter(b, p) == |b|
    ensures FieldsFrom(row, o + p) == FieldsFrom(b, p)
  {
    NextDelimiterShift(row, o, b, p);
    FieldShift(row, o, b, p, |b|);
    FieldsFromUnfold(row, o + p);
    FieldsFromUnfold(b, p);
  }

  /** One field of the ending is that field of `b`, followed by the fields
      after its delimiter, which start at `k`. */
  lemma ShiftStep(row: string, o: nat, b: string, p: nat, j: nat, k: nat)
    requires EndsWith(row, o, b) && p <= j < |b| && NextDelimiter(b, p) == j && k == j + 1
    requires FieldsFrom(row, o + k) == FieldsFrom(b, k)
    ensures FieldsFrom(row, o + p) == FieldsFrom(b, p)
  {
    NextDelimiterShift(row, o, b, p);
    FieldShift(row, o, b, p, j);
    FieldsFromAtOffset(row, o, p, j, k);
    FieldsFromAt(b, p, j, k);
    SameCons(FieldsFrom(row, o + p), FieldsFrom(b, p),
             row[o + p..o + j], b[p..j], FieldsFrom(row, o + k), FieldsFrom(b, k));
  }

  /** Splitting at a delimiter at `j`: the field before it, then the fields from `k == j + 1`. */
  lemma FieldsFromAt(row: string, pos: nat, j: nat, k: nat)
    requires pos <= j < |row| && NextDelimiter(row, pos) == j && k == j + 1
    ensures FieldsFrom(row, pos) == [row[pos..j]] + FieldsFrom(row, k)
  {
  }

  /** The same split, at positions counted from offset `o`. */
  lemma FieldsFromAtOffset(row: string, o: nat, p: nat, j: nat, k: nat)
    requires o + j < |row| && p <= j && NextDelimiter(row, o + p) == o + j && k == j + 1
    ensures FieldsFrom(row, o + p) == [row[o + p..o + j]] + FieldsFrom(row, o + k)
  {
    assert o + k == NextDelimiter(row, o + p) + 1;
  }

  /** Two sequences built as the same head in front of the same tail are equal. */
  lemma SameCons(l: seq<string>, r: seq<string>, x: string, y: string, xs: seq<string>, ys: seq<string>)
    requires l == [x] + xs && r == [y] + ys && x == y && xs == ys
    ensures l == r
  {
  }

  /** A field and a delimiter in front of a non-empty text add that field in
      front of the text's fields. */
  lemma FieldsCons(f: string, t: string)
    requires DELIMITER !in f && t != []
    ensures Fields(f + [DELIMITER] + t) == [f] + Fields(t)
  {
    var row := f + [DELIMITER] + t;
    var o := |f| + 1;
    assert forall k :: 0 <= k < |f| ==> row[k] == f[k];
    assert row[|f|] == DELIMITER;
    NextDelimiterAt(row, 0, |f|);
    assert row[0..|f|] == f;
    FieldsFromAt(row, 0, |f|, o);
    assert EndsWith(row, o, t);
    FieldsOfEnding(row, o, t);
    SameCons(Fields(row), [f] + Fields(t), row[0..|f|], f, FieldsFrom(row, o), Fields(t));
  }

  /** Splitting the ending of `row` from its offset gives the fields of `b`. */
  lemma FieldsOfEnding(row: string, o: nat, b: string)
    requires EndsWith(row, o, b)
    ensures FieldsFrom(row, o) == Fields(b)
  {
    FieldsFromShift(row, o, b, 0);
  }

  /** A single non-empty field without a delimiter splits into itself. */
  lemma FieldsSingle(f: string)
    requires DELIMITER !in f && f != []
    ensures Fields(f) == [f]
  {
    NextDelimiterAt(f, 0, |f|);
    assert f[0..|f|] == f;
  }

  /** Splitting a joined line gives back its fields, provided no field holds
      a delimiter and the last field is not empty. */
  lemma {:induction false} FieldsOfJoin(fs: seq<string>)
    requires forall i :: 0 <= i < |fs| ==> DELIMITER !in fs[i]
    requires fs == [] || fs[|fs| - 1] != ""
    ensures Fields(Join(fs)) == fs
  {
    if |fs| == 1 {
      FieldsSingle(fs[0]);
    } else if |fs| > 1 {
      var rest := fs[1..];
      assert forall i :: 0 <= i < |rest| ==> rest[i] == fs[i + 1];
      FieldsOfJoin(rest);
      JoinNotEmpty(rest);
      FieldsCons(fs[0], Join(rest));
      assert fs == [fs[0]] + rest;
    }
  }

  /** Splitting a joined line gives back its fields, except that an empty
      last field, the segment getline never delivers, is dropped. */
  lemma {:induction false} FieldsOfAnyJoin(fs: seq<string>)
    requires forall i :: 0 <= i < |fs| ==> DELIMITER !in fs[i]
    ensures Fields(Join(fs)) == if fs != [] && fs[|fs| - 1] == "" then fs[..|fs| - 1] else fs
  {
    if fs != [] && fs[|fs| - 1] == "" {
      if |fs| > 1 {
        var rest := fs[1..];
        assert forall i :: 0 <= i < |rest| ==> rest[i] == fs[i + 1];
        if |rest| == 1 {
          assert Join(fs) == fs[0] + [DELIMITER] + Join(rest);
          assert Join(rest) == "";
          assert fs[0] + [DELIMITER] + "" == fs[0] + [DELIMITER];
          FieldsTrailing(fs[0]);
          assert fs[..1] == [fs[0]];
        } else {
          FieldsOfAnyJoin(rest);
          JoinLonger(rest);
          FieldsCons(fs[0], Join(rest));
          assert fs[..|fs| - 1] == [fs[0]] + rest[..|rest| - 1];
        }
      }
    } else {
      FieldsOfJoin(fs);
    }
  }

  /** A join of two or more fields holds a delimiter, so it is not empty. */
  lemma JoinLonger(fs: seq<string>)
    requires |fs| > 1
    ensures Join(fs) != []
  {
    assert |Join(fs)| >= |fs[0] + [DELIMITER]|;
  }

  /** A field followed by one final delimiter splits into that field alone. */
  lemma FieldsTrailing(f: string)
    requires DELIMITER !in f
    ensures Fields(f + [DELIMITER]) == [f]
  {
    var row := f + [DELIMITER];
    assert forall k :: 0 <= k < |f| ==> row[k] == f[k];
    NextDelimiterAt(row, 0, |f|);
    assert row[0..|f|] == f;
    var k := |f| + 1;
    FieldsFromAt(row, 0, |f|, k);
    assert FieldsFrom(row, k) == [];
  }

  /** A join whose last field is not empty is not empty. */
  lemma {:induction false} JoinNotEmpty(fs: seq<string>)
    requires fs != [] && fs[|fs| - 1] != ""
    ensures Join(fs) != []
  {
    if |fs| > 1 {
      JoinNotEmpty(fs[1..]);
    }
  }

  /** The delimiter a text ends with, if it ends with one. */
  function TrailingDelimiter(row: string): string
  {
    if row != [] && row[|row| - 1] == DELIMITER then [DELIMITER] else []
  }

  /** Joining the fields delivered from `pos` on gives back the rest of the
      line, except for a trailing delimiter, which yields no field. */
  lemma {:induction false} JoinOfFieldsFrom(row: string, pos: nat)
    requires pos <= |row|
    ensures Join(FieldsFrom(row, pos)) + TrailingDelimiter(row[pos..]) == row[pos..]
    decreases |row| - pos
  {
    if NextDelimiter(row, pos) + 1 < |row| {
      JoinOfFieldsFrom(row, NextDelimiter(row, pos) + 1);
      InnerDelimiterCase(row, pos);
    } else {
      ShortRestCase(row, pos);
    }
  }

  /** At most one field is left, possibly followed by a final delimiter. */
  lemma ShortRestCase(row: string, pos: nat)
    requires pos <= |row| && !(NextDelimiter(row, pos) + 1 < |row|)
    ensures Join(FieldsFrom(row, pos)) + TrailingDelimiter(row[pos..]) == row[pos..]
  {
    if pos == |row| {
      assert row[pos..] == [];
    } else if NextDelimiter(row, pos) == |row| {
      LastFieldCase(row, pos);
    } else {
      FinalDelimiterCase(row, pos);
    }
  }

  /** The rest of the line holds no delimiter: it is one field. */
  lemma LastFieldCase(row: string, pos: nat)
    requires pos < |row| && NextDelimiter(row, pos) == |row|
    ensures Join(FieldsFrom(row, pos)) + TrailingDelimiter(row[pos..]) == row[pos..]
  {
    FieldsFromUnfold(row, pos);
    NoDelimiterBefore(row, pos);
    LastField(row, pos);
  }

  /** The only delimiter left is the last character: one field, then nothing. */
  lemma FinalDelimiterCase(row: string, pos: nat)
    requires pos < |row| && NextDelimiter(row, pos) == |row| - 1
    ensures Join(FieldsFrom(row, pos)) + TrailingDelimiter(row[pos..]) == row[pos..]
  {
    FieldsFromUnfold(row, pos);
    SplitRest(row, pos, |row| - 1);
    FinalDelimiter(row, pos);
  }

  /** A delimiter before the last character: one field, then the others. */
  lemma InnerDelimiterCase(row: string, pos: nat)
    requires pos <= |row| && NextDelimiter(row, pos) + 1 < |row|
    requires Join(FieldsFrom(row, NextDelimiter(row, pos) + 1)) + TrailingDelimiter(row[NextDelimiter(row, pos) + 1..])
             == row[NextDelimiter(row, pos) + 1..]
    ensures Join(FieldsFrom(row, pos)) + TrailingDelimiter(row[pos..]) == row[pos..]
  {
    var j := NextDelimiter(row, pos);
    FieldsFromUnfold(row, pos);
    FieldsFromUnfold(row, j + 1);
    SplitRest(row, pos, j);
    JoinStep(row[pos..], row[pos..j], row[j + 1..], FieldsFrom(row, pos), FieldsFrom(row, j + 1));
  }

  /** One getline step, written out: the field up to the next delimiter,
      then the fields after that delimiter. */
  lemma FieldsFromUnfold(row: string, pos: nat)
    requires pos < |row|
    ensures FieldsFrom(row, pos) ==
              [row[pos..NextDelimiter(row, pos)]] +
              (if NextDelimiter(row, pos) < |row| then FieldsFrom(row, NextDelimiter(row, pos) + 1) else [])
  {
  }

  /** The rest of a line without a delimiter is one field and does not end in a delimiter. */
  lemma LastField(row: string, pos: nat)
    requires pos < |row|
    requires forall k :: pos <= k < |row| ==> row[k] != DELIMITER
    ensures TrailingDelimiter(row[pos..]) == []
    ensures Join([row[pos..|row|]]) == row[pos..]
  {
    assert row[pos..][|row| - pos - 1] == row[|row| - 1];
  }

  /** The rest of a line whose only delimiter is its last character. */
  lemma FinalDelimiter(row: string, pos: nat)
    requires pos < |row| && row[|row| - 1] == DELIMITER
    ensures TrailingDelimiter(row[pos..]) == [DELIMITER]
    ensures row[|row|..] == []
  {
    assert row[pos..][|row| - pos - 1] == row[|row| - 1];
  }

  /** A field followed by a delimiter and a text that the other fields
      rebuild is rebuilt by the join of all fields. */
  lemma JoinStep(rest: string, f: string, tail: string, fs: seq<string>, others: seq<string>)
    requires rest == f + [DELIMITER] + tail && tail != []
    requires fs == [f] + others && others != []
    requires Join(others) + TrailingDelimiter(tail) == tail
    ensures Join(fs) + TrailingDelimiter(rest) == rest
  {
    JoinCons(f, others);
    TrailingOfSuffix(f + [DELIMITER], tail);
  }

  /** A non-empty suffix decides whether a text ends in a delimiter. */
  lemma TrailingOfSuffix(a: string, b: string)
    requires b != []
    ensures TrailingDelimiter(a + b) == TrailingDelimiter(b)
  {
    assert (a + b)[|a + b| - 1] == b[|b| - 1];
  }

  lemma JoinCons(f: string, rest: seq<string>)
    requires rest != []
    ensures Join([f] + rest) == f + [DELIMITER] + Join(rest)
  {
    assert ([f] + rest)[1..] == rest;
  }

  /** The rest of a line at a delimiter: the field before it, the delimiter
      and the text after it. */
  lemma SplitRest(row: string, pos: nat, j: nat)
    requires pos <= j < |row|
    ensures row[pos..] == row[pos..j] + [row[j]] + row[j + 1..]
  {
    assert row[pos..] == row[pos..j] + row[j..];
    assert row[j..] == [row[j]] + row[j + 1..];
  }

  /** Joining the fields of a line gives back the line, except for a trailing
      delimiter, which yields no field. */
  lemma JoinOfFields(row: string)
    ensures Join(Fields(row)) + TrailingDelimiter(row) == row
  {
    JoinOfFieldsFrom(row, 0);
    assert row[0..] == row;
  }
}

/** Byte strings (sds.c) and the option type shared by the whole model.
    A byte is a char; no definition depends on an upper bound for it. */
module Sds {
  datatype Option<+T> = None | Some(value: T)

  type Bytes = string

  /** memcmp over the common prefix, then the length difference: only the sign matters to callers. */
  function Compare(a: Bytes, b: Bytes): (c: int)
  {
    if a == [] && b == [] then 0
    else if a == [] then -1
    else if b == [] then 1
    else if a[0] < b[0] then -1
    else if a[0] > b[0] then 1
    else Compare(a[1..], b[1..])
  }

  /** Dictionary order: a is shorter where they part, or has the smaller byte there. */
  ghost predicate TextBefore(a: Bytes, b: Bytes)
  {
    exists i :: 0 <= i <= |a| && i < |b| && a[..i] == b[..i] && (i < |a| ==> a[i] < b[i])
  }

  lemma {:induction false} CompareIsLexical(a: Bytes, b: Bytes)
    ensures Compare(a, b) < 0 <==> TextBefore(a, b)
  {
    SameHeads(a, b);
    if a != [] && b != [] && a[0] == b[0] {
      CompareIsLexical(a[1..], b[1..]);
      if TextBefore(a[1..], b[1..]) {
        var i :| 0 <= i <= |a[1..]| && i < |b[1..]| && a[1..][..i] == b[1..][..i] && (i < |a[1..]| ==> a[1..][i] < b[1..][i]);
        assert a[..i + 1] == [a[0]] + a[1..][..i] && b[..i + 1] == [b[0]] + b[1..][..i];
        assert a[..i + 1] == b[..i + 1];
      }
      if TextBefore(a, b) {
        var i :| 0 <= i <= |a| && i < |b| && a[..i] == b[..i] && (i < |a| ==> a[i] < b[i]);
        assert i > 0;
        assert a[1..][..i - 1] == a[..i][1..] && b[1..][..i - 1] == b[..i][1..];
      }
    } else if b != [] && (a == [] || a[0] < b[0]) {
      assert a[..0] == b[..0];
    }
  }

  lemma SameHeads(a: Bytes, b: Bytes)
    ensures forall i :: 0 < i <= |a| && i <= |b| && a[..i] == b[..i] ==> a[0] == b[0]
  {
    forall i | 0 < i <= |a| && i <= |b| && a[..i] == b[..i] ensures a[0] == b[0] {
      assert a[0] == a[..i][0];
    }
  }

  lemma {:induction false} CompareEqual(a: Bytes, b: Bytes)
    ensures Compare(a, b) == 0 <==> a == b
  {
    if a != [] && b != [] && a[0] == b[0] {
      CompareEqual(a[1..], b[1..]);
      assert a == [a[0]] + a[1..] && b == [b[0]] + b[1..];
    }
  }

  lemma {:induction false} CompareAntisymmetric(a: Bytes, b: Bytes)
    ensures Compare(a, b) < 0 <==> Compare(b, a) > 0
  {
    if a != [] && b != [] && a[0] == b[0] {
      CompareAntisymmetric(a[1..], b[1..]);
    }
  }

  lemma {:induction false} CompareTransitive(a: Bytes, b: Bytes, c: Bytes)
    requires Compare(a, b) < 0 && Compare(b, c) < 0
    ensures Compare(a, c) < 0
  {
    if a != [] && b != [] && c != [] && a[0] == b[0] == c[0] {
      CompareTransitive(a[1..], b[1..], c[1..]);
    }
  }

  /** Concatenation is associative. */
  lemma Associate(a: Bytes, b: Bytes, c: Bytes)
    ensures a + (b + c) == a + b + c
  {
  }
}

/** The byte-level string operations of Go's `strings` package that the
    checker uses. */
module GoStrings {

  import opened Utf8

  /** `substr` occupies the bytes of `s` starting at offset `i`. */
  predicate OccursAt(s: seq<Byte>, substr: seq<Byte>, i: int) {
    0 <= i && i + |substr| <= |s| && s[i..i + |substr|] == substr
  }

  /** `strings.Contains(s, substr)`: `substr` occurs at some byte offset of
      `s` (the empty `substr` occurs in every string). */
  predicate Contains(s: seq<Byte>, substr: seq<Byte>) {
    exists i :: 0 <= i <= |s| && OccursAt(s, substr, i)
  }

  /** `strings.Index(s, substr)`: the first offset where `substr` occurs, or
      -1. Go's `Contains` is `Index(s, substr) >= 0`. */
  function Index(s: seq<Byte>, substr: seq<Byte>): (r: int)
    ensures -1 <= r <= |s|
    decreases |s|
  {
    if OccursAt(s, substr, 0) then 0
    else if s == [] then -1
    else
      var r := Index(s[1..], substr);
      if r < 0 then -1 else r + 1
  }

  /** An occurrence at offset `j + 1` of `s` is one at offset `j` of `s[1..]`,
      and the other way round. */
  lemma ShiftOccurrence(s: seq<Byte>, substr: seq<Byte>, j: nat)
    requires s != []
    ensures OccursAt(s, substr, j + 1) <==> OccursAt(s[1..], substr, j)
  {
    if j + 1 + |substr| <= |s| {
      assert s[1..][j..j + |substr|] == s[j + 1..j + 1 + |substr|];
    }
  }

  /** `Index` finds the first occurrence, and -1 means there is none. */
  lemma {:induction false} IndexFindsFirst(s: seq<Byte>, substr: seq<Byte>)
    ensures Index(s, substr) >= 0 ==>
              && OccursAt(s, substr, Index(s, substr))
              && forall j :: 0 <= j < Index(s, substr) ==> !OccursAt(s, substr, j)
    ensures Index(s, substr) == -1 ==> forall j :: !OccursAt(s, substr, j)
    decreases |s|
  {
    if !OccursAt(s, substr, 0) && s != [] {
      IndexFindsFirst(s[1..], substr);
      var r := Index(s[1..], substr);
      if r >= 0 {
        ShiftOccurrence(s, substr, r);
        forall j | 0 < j < r + 1
          ensures !OccursAt(s, substr, j)
        {
          ShiftOccurrence(s, substr, j - 1);
        }
      } else {
        forall j | 0 < j
          ensures !OccursAt(s, substr, j)
        {
          ShiftOccurrence(s, substr, j - 1);
        }
      }
    }
  }

  /** Go's definition of `Contains` through `Index` agrees with the positional
      one. */
  lemma ContainsIffIndex(s: seq<Byte>, substr: seq<Byte>)
    ensures Contains(s, substr) <==> Index(s, substr) >= 0
  {
    IndexFindsFirst(s, substr);
  }

  /** A one-byte `substr` is contained exactly when that byte occurs. */
  lemma ContainsOneByte(s: seq<Byte>, b: Byte)
    ensures Contains(s, [b]) <==> b in s
  {
    if b in s {
      var i :| 0 <= i < |s| && s[i] == b;
      assert s[i..i + 1] == [b];
      assert OccursAt(s, [b], i);
    }
    if Contains(s, [b]) {
      ContainsHasFirstByte(s, [b]);
    }
  }

  /** A contained non-empty `substr` has its first byte somewhere in `s`. */
  lemma ContainsHasFirstByte(s: seq<Byte>, substr: seq<Byte>)
    requires substr != []
    requires Contains(s, substr)
    ensures substr[0] in s
  {
    var i :| 0 <= i <= |s| && OccursAt(s, substr, i);
    assert s[i] == s[i..i + |substr|][0];
  }
}

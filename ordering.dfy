/**
 * The three comparators of the message generator and the helpers that copy a
 * message's fields (or extension ranges) into a fresh array and sort it.
 */
module Ordering {
  import opened Wire
  import opened Schema

  /** FieldOrderingByNumber. */
  predicate ByNumber(a: Field, b: Field)
  {
    a.number < b.number
  }

  /**
   * FieldOrderingByType: collections go last; among fields of the same
   * kind of label, BOOL fields first, then by declared type code.
   */
  predicate ByType(a: Field, b: Field)
  {
    if IsRepeated(a) != IsRepeated(b) then IsRepeated(b)
    else if a.kind == Bool && b.kind != Bool then true
    else if a.kind != Bool && b.kind == Bool then false
    else TypeCode(a.kind) < TypeCode(b.kind)
  }

  /** ExtensionRangeOrdering. */
  predicate RangeBefore(a: ExtensionRange, b: ExtensionRange)
  {
    a.start < b.start
  }

  /** A rank that ByType compares: repeated fields above all others, BOOL at the bottom of each group. */
  function TypeRank(f: Field): nat
  {
    (if IsRepeated(f) then 100 else 0) + (if f.kind == Bool then 0 else TypeCode(f.kind))
  }

  lemma ByTypeIsRankOrder(a: Field, b: Field)
    ensures ByType(a, b) <==> TypeRank(a) < TypeRank(b)
  {
    assert TypeCode(Bool) == 8;
  }

  /** ByType is a strict weak order, as std::sort requires of its comparator. */
  lemma ByTypeStrictWeakOrder(a: Field, b: Field, c: Field)
    ensures !ByType(a, a)
    ensures ByType(a, b) ==> !ByType(b, a)
    ensures ByType(a, b) && ByType(b, c) ==> ByType(a, c)
    ensures !ByType(a, b) && !ByType(b, a) && !ByType(b, c) && !ByType(c, b) ==>
              !ByType(a, c) && !ByType(c, a)
  {
    ByTypeIsRankOrder(a, a);
    ByTypeIsRankOrder(a, b);
    ByTypeIsRankOrder(b, a);
    ByTypeIsRankOrder(b, c);
    ByTypeIsRankOrder(c, b);
    ByTypeIsRankOrder(a, c);
    ByTypeIsRankOrder(c, a);
  }

  /** Every non-repeated field sorts before every repeated one; within a group BOOL comes first. */
  lemma ByTypeGroups(a: Field, b: Field)
    ensures !IsRepeated(a) && IsRepeated(b) ==> ByType(a, b) && !ByType(b, a)
    ensures IsRepeated(a) == IsRepeated(b) && a.kind == Bool && b.kind != Bool ==> ByType(a, b) && !ByType(b, a)
    ensures IsRepeated(a) == IsRepeated(b) && a.kind != Bool && b.kind != Bool ==>
              (ByType(a, b) <==> TypeCode(a.kind) < TypeCode(b.kind))
  {
  }

  predicate SortedBy<T>(s: seq<T>, key: T -> int)
  {
    forall i, j :: 0 <= i < j < |s| ==> key(s[i]) <= key(s[j])
  }

  /** Sorts a in place by ascending key (the effect of std::sort with a key comparator). */
  method SortByKey<T>(a: array<T>, key: T -> int)
    modifies a
    ensures SortedBy(a[..], key)
    ensures multiset(a[..]) == multiset(old(a[..]))
  {
    var i := 0;
    while i < a.Length
      invariant 0 <= i <= a.Length
      invariant SortedBy(a[..i], key)
      invariant multiset(a[..]) == multiset(old(a[..]))
    {
      InsertLast(a, i, key);
      i := i + 1;
    }
    assert a[..] == a[..a.Length];
  }

  /** Sinks a[i] into the sorted prefix a[..i] by adjacent swaps. */
  method InsertLast<T>(a: array<T>, i: nat, key: T -> int)
    requires i < a.Length && SortedBy(a[..i], key)
    modifies a
    ensures SortedBy(a[..i + 1], key)
    ensures multiset(a[..]) == multiset(old(a[..]))
  {
    var j := i;
    SinkStart(a[..], i, key);
    while j > 0 && key(a[j - 1]) > key(a[j])
      invariant 0 <= j <= i
      invariant Sinking(a[..], i, j, key)
      invariant multiset(a[..]) == multiset(old(a[..]))
    {
      ghost var before := a[..];
      SinkStep(before, i, j, key);
      SwapKeepsMultiset(before, j);
      a[j - 1], a[j] := a[j], a[j - 1];
      assert a[..] == before[j - 1 := before[j]][j := before[j - 1]];
      j := j - 1;
    }
    SinkDone(a[..], i, j, key);
  }

  /** s[..i + 1] is sorted except that s[j] may be smaller than the elements before it. */
  ghost predicate Sinking<T>(s: seq<T>, i: nat, j: nat, key: T -> int)
  {
    j <= i < |s| &&
    (forall p, q :: 0 <= p < q <= i && p != j && q != j ==> key(s[p]) <= key(s[q])) &&
    (forall q :: j < q <= i ==> key(s[j]) <= key(s[q]))
  }

  lemma SinkStart<T>(s: seq<T>, i: nat, key: T -> int)
    requires i < |s| && SortedBy(s[..i], key)
    ensures Sinking(s, i, i, key)
  {
    forall p, q | 0 <= p < q <= i && p != i && q != i
      ensures key(s[p]) <= key(s[q])
    {
      assert s[..i][p] == s[p] && s[..i][q] == s[q];
    }
  }

  lemma SinkStep<T>(s: seq<T>, i: nat, j: nat, key: T -> int)
    requires Sinking(s, i, j, key) && 0 < j && key(s[j - 1]) > key(s[j])
    ensures Sinking(s[j - 1 := s[j]][j := s[j - 1]], i, j - 1, key)
  {
    var t := s[j - 1 := s[j]][j := s[j - 1]];
    forall q | j - 1 < q <= i
      ensures key(t[j - 1]) <= key(t[q])
    {
      if q > j {
        assert key(s[j]) <= key(s[q]);
      }
    }
  }

  /** Swapping two neighbours keeps the elements. */
  lemma SwapKeepsMultiset<T>(s: seq<T>, j: nat)
    requires 0 < j < |s|
    ensures multiset(s[j - 1 := s[j]][j := s[j - 1]]) == multiset(s)
  {
  }

  lemma SinkDone<T>(s: seq<T>, i: nat, j: nat, key: T -> int)
    requires Sinking(s, i, j, key) && (j == 0 || key(s[j - 1]) <= key(s[j]))
    ensures SortedBy(s[..i + 1], key)
  {
    forall p, q | 0 <= p < q <= i
      ensures key(s[p]) <= key(s[q])
    {
      if q == j && p < j - 1 {
        assert key(s[p]) <= key(s[j - 1]);
      }
    }
    assert forall p :: 0 <= p <= i ==> s[..i + 1][p] == s[p];
  }

  function NumberKey(f: Field): int
  {
    f.number
  }

  function RankKey(f: Field): int
  {
    TypeRank(f)
  }

  function StartKey(r: ExtensionRange): int
  {
    r.start
  }

  /** Copies the message's fields into a new array in declaration order. */
  method FieldArray(m: MessageType) returns (a: array<Field>)
    ensures fresh(a) && a[..] == m.fields
  {
    a := new Field[|m.fields|];
    var i := 0;
    while i < |m.fields|
      invariant 0 <= i <= |m.fields|
      invariant a[..i] == m.fields[..i]
    {
      a[i] := m.fields[i];
      i := i + 1;
    }
    assert a[..] == a[..i];
  }

  /** SortFieldsByNumber: the fields, permuted into ascending field-number order. */
  method SortFieldsByNumber(m: MessageType) returns (sorted: seq<Field>)
    ensures multiset(sorted) == multiset(m.fields)
    ensures forall i, j :: 0 <= i < j < |sorted| ==> !ByNumber(sorted[j], sorted[i])
  {
    var a := FieldArray(m);
    SortByKey(a, NumberKey);
    sorted := a[..];
    forall i, j | 0 <= i < j < |sorted|
      ensures !ByNumber(sorted[j], sorted[i])
    {
      assert NumberKey(sorted[i]) <= NumberKey(sorted[j]);
    }
  }

  /** SortFieldsByType: the fields, permuted so that no later field is ByType-smaller than an earlier one. */
  method SortFieldsByType(m: MessageType) returns (sorted: seq<Field>)
    ensures multiset(sorted) == multiset(m.fields)
    ensures forall i, j :: 0 <= i < j < |sorted| ==> !ByType(sorted[j], sorted[i])
  {
    var a := FieldArray(m);
    SortByKey(a, RankKey);
    sorted := a[..];
    forall i, j | 0 <= i < j < |sorted|
      ensures !ByType(sorted[j], sorted[i])
    {
      assert RankKey(sorted[i]) <= RankKey(sorted[j]);
      ByTypeIsRankOrder(sorted[j], sorted[i]);
    }
  }

  /** The message's extension ranges pushed into a vector and sorted by start. */
  method SortExtensionRanges(m: MessageType) returns (sorted: seq<ExtensionRange>)
    ensures multiset(sorted) == multiset(m.ranges)
    ensures forall i, j :: 0 <= i < j < |sorted| ==> !RangeBefore(sorted[j], sorted[i])
  {
    var a := new ExtensionRange[|m.ranges|];
    var i := 0;
    while i < |m.ranges|
      invariant 0 <= i <= |m.ranges|
      invariant a[..i] == m.ranges[..i]
    {
      a[i] := m.ranges[i];
      i := i + 1;
    }
    assert a[..] == m.ranges;
    SortByKey(a, StartKey);
    sorted := a[..];
    forall i, j | 0 <= i < j < |sorted|
      ensures !RangeBefore(sorted[j], sorted[i])
    {
      assert StartKey(sorted[i]) <= StartKey(sorted[j]);
    }
  }

  // ---------------------------------------------------------------------------
  // Sorting a list whose keys are distinct has only one possible outcome

  predicate DistinctKeys<T>(s: seq<T>, key: T -> int)
  {
    forall i, j :: 0 <= i < j < |s| ==> key(s[i]) != key(s[j])
  }

  /** An element occurring at least twice occurs at two positions. */
  lemma {:induction false} TwoOccurrences<T>(s: seq<T>, x: T)
    requires multiset(s)[x] >= 2
    ensures exists i, j :: 0 <= i < j < |s| && s[i] == x && s[j] == x
  {
    assert s == [s[0]] + s[1..];
    if s[0] == x {
      assert multiset(s[1..])[x] >= 1;
      assert x in s[1..];
      var k :| 0 <= k < |s[1..]| && s[1..][k] == x;
      assert s[k + 1] == x;
    } else {
      TwoOccurrences(s[1..], x);
      var i, j :| 0 <= i < j < |s[1..]| && s[1..][i] == x && s[1..][j] == x;
      assert s[i + 1] == x && s[j + 1] == x;
    }
  }

  lemma PermutationKeepsDistinctKeys<T>(a: seq<T>, b: seq<T>, key: T -> int)
    requires multiset(a) == multiset(b) && DistinctKeys(a, key)
    ensures DistinctKeys(b, key)
  {
    forall p, q | 0 <= p < q < |b|
      ensures key(b[p]) != key(b[q])
    {
      var x, y := b[p], b[q];
      assert x in multiset(a) && y in multiset(a) by {
        assert x in b && y in b;
      }
      if x == y {
        assert b == b[..q] + [b[q]] + b[q + 1..];
        assert x in b[..q];
        assert multiset(b)[x] >= 2;
        TwoOccurrences(a, x);
      } else {
        var i :| 0 <= i < |a| && a[i] == x;
        var j :| 0 <= j < |a| && a[j] == y;
        assert i != j;
      }
    }
  }

  /** The smallest key leads both arrangements, and it is the same element. */
  lemma SortedHeads<T>(a: seq<T>, b: seq<T>, key: T -> int)
    requires multiset(a) == multiset(b) && DistinctKeys(b, key) && |a| > 0 && |b| > 0
    requires SortedBy(a, key) && SortedBy(b, key)
    ensures a[0] == b[0]
  {
    assert a[0] in multiset(b) && b[0] in multiset(a) by {
      assert a[0] in a && b[0] in b;
    }
    var i :| 0 <= i < |b| && b[i] == a[0];
    var j :| 0 <= j < |a| && a[j] == b[0];
    assert key(a[0]) <= key(a[j]) == key(b[0]) <= key(b[i]) == key(a[0]);
    assert i == 0;
  }

  /** Dropping the common head leaves equal multisets. */
  lemma TailsPermutation<T>(a: seq<T>, b: seq<T>)
    requires multiset(a) == multiset(b) && |a| > 0 && |b| > 0 && a[0] == b[0]
    ensures multiset(a[1..]) == multiset(b[1..])
  {
    assert a == [a[0]] + a[1..] && b == [b[0]] + b[1..];
    assert multiset(a[1..]) == multiset(a) - multiset([a[0]]);
    assert multiset(b[1..]) == multiset(b) - multiset([a[0]]);
  }

  /** A tail of a sorted sequence with distinct keys is sorted with distinct keys. */
  lemma SortedTail<T>(a: seq<T>, key: T -> int)
    requires |a| > 0 && SortedBy(a, key)
    ensures SortedBy(a[1..], key)
    ensures DistinctKeys(a, key) ==> DistinctKeys(a[1..], key)
  {
    forall p, q | 0 <= p < q < |a[1..]|
      ensures a[1..][p] == a[p + 1] && a[1..][q] == a[q + 1]
    {
    }
  }

  /** Two key-sorted arrangements of the same elements with distinct keys are the same sequence. */
  lemma {:induction false} SortedUnique<T>(a: seq<T>, b: seq<T>, key: T -> int)
    requires multiset(a) == multiset(b) && DistinctKeys(a, key)
    requires SortedBy(a, key) && SortedBy(b, key)
    ensures a == b
    decreases |a|
  {
    PermutationKeepsDistinctKeys(a, b, key);
    assert |a| == |multiset(a)| == |b|;
    if |a| > 0 {
      SortedHeads(a, b, key);
      TailsPermutation(a, b);
      SortedTail(a, key);
      SortedTail(b, key);
      SortedUnique(a[1..], b[1..], key);
      assert a == [a[0]] + a[1..] && b == [b[0]] + b[1..];
    }
  }

  /** Distinct field numbers are distinct sort keys. */
  lemma NumbersAreDistinctKeys(fs: seq<Field>)
    requires DistinctNumbers(fs)
    ensures DistinctKeys(fs, NumberKey)
  {
  }
}

/** `lunr.Vector`: a sparse vector, as a flat list of indices and values in turn. */
module Vectors {
  import opened Options

  type Elements = seq<real>

  /** Indices and values in turn, the indices rising. */
  ghost predicate Sorted(es: Elements) {
    |es| % 2 == 0 && forall i, j :: 0 <= i < j < |es| / 2 ==> es[2 * i] < es[2 * j]
  }

  /** The position of an index, or where it would have to be inserted. */
  ghost predicate IsPosition(es: Elements, index: real, p: nat) {
    && p % 2 == 0 && p <= |es|
    && (forall i :: 0 <= i < p / 2 ==> es[2 * i] < index)
    && (forall i :: p / 2 <= i < |es| / 2 ==> index <= es[2 * i])
  }

  /** The vector as a function: 0 where there is no entry. */
  function ValueAt(es: Elements, index: real): real
    decreases |es|
  {
    if |es| < 2 then 0.0 else if es[0] == index then es[1] else ValueAt(es[2..], index)
  }

  function Entry(es: Elements, index: real): Option<real>
    decreases |es|
  {
    if |es| < 2 then None else if es[0] == index then Some(es[1]) else Entry(es[2..], index)
  }

  /** The sum of the products of the values at common indices. */
  function DotProduct(a: Elements, b: Elements): real
    decreases |a|
  {
    if |a| < 2 then 0.0 else a[1] * ValueAt(b, a[0]) + DotProduct(a[2..], b)
  }

  /** The two-pointer form of it. */
  function Merged(a: Elements, b: Elements): real
    decreases |a| + |b|
  {
    if |a| < 2 || |b| < 2 then 0.0
    else if a[0] < b[0] then Merged(a[2..], b)
    else if a[0] > b[0] then Merged(a, b[2..])
    else a[1] * b[1] + Merged(a[2..], b[2..])
  }

  lemma SortedTail(es: Elements)
    requires Sorted(es) && |es| >= 2
    ensures Sorted(es[2..]) && forall i :: 0 <= i < |es[2..]| / 2 ==> es[0] < es[2..][2 * i]
  {
    var t := es[2..];
    assert forall i :: 0 <= i < |t| / 2 ==> t[2 * i] == es[2 * (i + 1)];
    forall i | 0 <= i < |t| / 2
      ensures es[0] < t[2 * i]
    {
      assert es[2 * 0] < es[2 * (i + 1)];
    }
  }

  lemma {:induction false} NoEntryBelow(es: Elements, index: real)
    requires Sorted(es) && (|es| >= 2 ==> index < es[0])
    ensures ValueAt(es, index) == 0.0 && Entry(es, index) == None
    decreases |es|
  {
    if |es| >= 2 {
      SortedTail(es);
      assert |es[2..]| >= 2 ==> es[0] < es[2..][2 * 0];
      NoEntryBelow(es[2..], index);
    }
  }

  /** Entries of `b` below all of `a` do not count. */
  lemma {:induction false} DropBelow(a: Elements, b: Elements)
    requires Sorted(a) && |b| >= 2 && (|a| >= 2 ==> b[0] < a[0])
    ensures DotProduct(a, b) == DotProduct(a, b[2..])
    decreases |a|
  {
    if |a| >= 2 {
      SortedTail(a);
      assert |a[2..]| >= 2 ==> a[0] < a[2..][2 * 0];
      DropBelow(a[2..], b);
    }
  }

  lemma {:induction false} MergedIsDotProduct(a: Elements, b: Elements)
    requires Sorted(a) && Sorted(b)
    ensures Merged(a, b) == DotProduct(a, b)
    decreases |a| + |b|
  {
    if |a| < 2 {
    } else if |b| < 2 {
      NothingInEmpty(a, b);
    } else {
      SortedTail(a);
      SortedTail(b);
      if a[0] < b[0] {
        NoEntryBelow(b, a[0]);
        MergedIsDotProduct(a[2..], b);
      } else if a[0] > b[0] {
        DropBelow(a, b);
        MergedIsDotProduct(a, b[2..]);
      } else {
        assert |a[2..]| >= 2 ==> a[0] < a[2..][2 * 0];
        DropBelow(a[2..], b);
        MergedIsDotProduct(a[2..], b[2..]);
      }
    }
  }

  lemma MergedStep(a: Elements, b: Elements, i: nat, j: nat)
    requires i + 1 < |a| && j + 1 < |b|
    ensures Merged(a[i..], b[j..]) ==
            if a[i] < b[j] then Merged(a[i + 2..], b[j..])
            else if a[i] > b[j] then Merged(a[i..], b[j + 2..])
            else a[i + 1] * b[j + 1] + Merged(a[i + 2..], b[j + 2..])
  {
    assert a[i..][2..] == a[i + 2..] && b[j..][2..] == b[j + 2..];
  }

  lemma {:induction false} NothingInEmpty(a: Elements, b: Elements)
    requires |b| < 2
    ensures DotProduct(a, b) == 0.0
    decreases |a|
  {
    if |a| >= 2 {
      NothingInEmpty(a[2..], b);
    }
  }

  lemma {:induction false} MergedCommutes(a: Elements, b: Elements)
    ensures Merged(a, b) == Merged(b, a)
    decreases |a| + |b|
  {
    if |a| >= 2 && |b| >= 2 {
      if a[0] < b[0] {
        MergedCommutes(a[2..], b);
      } else if a[0] > b[0] {
        MergedCommutes(a, b[2..]);
      } else {
        MergedCommutes(a[2..], b[2..]);
      }
    }
  }

  lemma DotProductCommutes(a: Elements, b: Elements)
    requires Sorted(a) && Sorted(b)
    ensures DotProduct(a, b) == DotProduct(b, a)
  {
    MergedIsDotProduct(a, b);
    MergedIsDotProduct(b, a);
    MergedCommutes(a, b);
  }

  /** Entries add up, and one entry each gives the product of the two values. */
  lemma {:induction false} DotProductAdds(a: Elements, b: Elements, c: Elements)
    requires |a| % 2 == 0
    ensures DotProduct(a + b, c) == DotProduct(a, c) + DotProduct(b, c)
    ensures forall k, x, y :: DotProduct([k, x], [k, y]) == x * y
    decreases |a|
  {
    forall k, x, y
      ensures DotProduct([k, x], [k, y]) == x * y
    {
      assert DotProduct([k, x][2..], [k, y]) == 0.0;
    }
    if a == [] {
      assert a + b == b;
    } else {
      assert (a + b)[2..] == a[2..] + b;
      DotProductAdds(a[2..], b, c);
    }
  }

  function SquareSum(es: Elements): real
    decreases |es|
  {
    if |es| < 2 then 0.0 else es[1] * es[1] + SquareSum(es[2..])
  }

  lemma SquareStep(es: Elements, i: nat)
    requires i + 1 < |es|
    ensures SquareSum(es[i..]) == es[i + 1] * es[i + 1] + SquareSum(es[i + 2..])
  {
    assert es[i..][2..] == es[i + 2..];
  }

  /** The squared magnitude is the dot product of the vector with itself. */
  lemma {:induction false} SquareIsDotProduct(es: Elements)
    requires Sorted(es)
    ensures SquareSum(es) == DotProduct(es, es)
    decreases |es|
  {
    if |es| >= 2 {
      SortedTail(es);
      SquareIsDotProduct(es[2..]);
      assert |es[2..]| >= 2 ==> es[0] < es[2..][2 * 0];
      DropBelow(es[2..], es);
    }
  }

  lemma SquareEnd(es: Elements)
    requires |es| < 2
    ensures SquareSum(es) == 0.0
  {
  }

  /** The elements after `upsert` at the right position. */
  function Upserted(es: Elements, p: nat, index: real, value: real, combine: (real, real) -> real): Elements
    requires p <= |es| && (p < |es| ==> p + 1 < |es|)
  {
    if p < |es| && es[p] == index then es[p + 1 := combine(es[p + 1], value)]
    else es[..p] + [index, value] + es[p..]
  }

  lemma {:induction false} EntryFrom(es: Elements, index: real, p: nat)
    requires Sorted(es) && IsPosition(es, index, p)
    ensures Entry(es, index) == if p < |es| && es[p] == index then Some(es[p + 1]) else None
    decreases |es|
  {
    if |es| >= 2 {
      SortedTail(es);
      if p == 0 {
        if es[0] != index {
          assert index <= es[2 * 0];
          NoEntryBelow(es, index);
        }
      } else {
        assert es[2 * 0] < index;
        var t := es[2..];
        assert forall i :: 0 <= i < |t| / 2 ==> t[2 * i] == es[2 * (i + 1)];
        assert IsPosition(t, index, p - 2);
        EntryFrom(t, index, p - 2);
      }
    }
  }

  /** `upsert` behaves as on a finite map, and keeps the indices rising. */
  lemma UpsertedIsMap(es: Elements, p: nat, index: real, value: real, combine: (real, real) -> real, other: real)
    requires Sorted(es) && IsPosition(es, index, p)
    ensures var es' := Upserted(es, p, index, value, combine);
            && Sorted(es')
            && Entry(es', other) ==
               if other != index then Entry(es, other)
               else if Entry(es, index).Some? then Some(combine(Entry(es, index).value, value))
               else Some(value)
  {
    UpsertedSorted(es, p, index, value, combine);
    EntryFrom(es, index, p);
    var es' := Upserted(es, p, index, value, combine);
    if other == index {
      UpsertedPosition(es, p, index, value, combine);
      EntryFrom(es', index, p);
    } else if p < |es| && es[p] == index {
      EntryOfOther(es, es', p, other);
    } else {
      EntryBesides(es, p, index, value, other);
    }
  }

  lemma UpsertedSorted(es: Elements, p: nat, index: real, value: real, combine: (real, real) -> real)
    requires Sorted(es) && IsPosition(es, index, p)
    ensures Sorted(Upserted(es, p, index, value, combine))
  {
    var es' := Upserted(es, p, index, value, combine);
    if p < |es| && es[p] == index {
      assert forall i :: 0 <= i < |es| / 2 ==> es'[2 * i] == es[2 * i];
    } else {
      assert p < |es| ==> index <= es[2 * (p / 2)];
      forall i | 0 <= i < |es'| / 2
        ensures es'[2 * i] == if 2 * i < p then es[2 * i] else if 2 * i == p then index else es[2 * (i - 1)]
      {
      }
      forall i, j | 0 <= i < j < |es'| / 2
        ensures es'[2 * i] < es'[2 * j]
      {
        if 2 * j > p && 2 * i <= p {
          assert es[2 * (p / 2)] <= es[2 * (j - 1)];
        }
      }
    }
  }

  lemma UpsertedPosition(es: Elements, p: nat, index: real, value: real, combine: (real, real) -> real)
    requires Sorted(es) && IsPosition(es, index, p)
    ensures IsPosition(Upserted(es, p, index, value, combine), index, p)
  {
    var es' := Upserted(es, p, index, value, combine);
    forall i | 0 <= i < |es'| / 2
      ensures if 2 * i < p then es'[2 * i] < index else index <= es'[2 * i]
    {
      if 2 * i < p {
        assert es'[2 * i] == es[2 * i];
      } else if 2 * i > p {
        if p < |es| && es[p] == index {
          assert es'[2 * i] == es[2 * i];
        } else {
          assert es'[2 * i] == es[2 * (i - 1)];
        }
      }
    }
  }

  lemma {:induction false} EntryOfOther(es: Elements, es': Elements, p: nat, other: real)
    requires |es| % 2 == 0 && |es'| == |es| && p % 2 == 0 && p < |es| && es[p] != other
    requires forall k :: 0 <= k < |es| && k != p + 1 ==> es'[k] == es[k]
    ensures Entry(es', other) == Entry(es, other)
    decreases |es|
  {
    if p > 0 {
      EntryOfOther(es[2..], es'[2..], p - 2, other);
    } else {
      assert es'[2..] == es[2..];
    }
  }

  lemma {:induction false} EntryBesides(es: Elements, p: nat, index: real, value: real, other: real)
    requires |es| % 2 == 0 && p % 2 == 0 && p <= |es| && other != index
    ensures Entry(es[..p] + [index, value] + es[p..], other) == Entry(es, other)
    decreases |es|
  {
    var es' := es[..p] + [index, value] + es[p..];
    if p == 0 {
      assert es'[2..] == es;
    } else {
      var t := es[2..];
      assert es'[2..] == t[..p - 2] + [index, value] + t[p - 2..];
      EntryBesides(t, p - 2, index, value, other);
    }
  }

  // ----- A list of upserts

  ghost predicate UpsertStep(es: Elements, es': Elements, index: real, value: real, combine: (real, real) -> real) {
    exists p: nat :: UpsertAt(es, es', p, index, value, combine)
  }

  ghost predicate UpsertAt(es: Elements, es': Elements, p: nat, index: real, value: real,
                           combine: (real, real) -> real) {
    p <= |es| && (p < |es| ==> p + 1 < |es|) && IsPosition(es, index, p)
    && es' == Upserted(es, p, index, value, combine)
  }

  /** The values of an index, combined in the order in which they come. */
  function Folded(start: Option<real>, pairs: seq<(real, real)>, combine: (real, real) -> real,
                  index: real): Option<real>
    decreases |pairs|
  {
    if pairs == [] then start
    else
      var before := Folded(start, pairs[..|pairs| - 1], combine, index);
      var (other, value) := pairs[|pairs| - 1];
      if other != index then before else if before.Some? then Some(combine(before.value, value)) else Some(value)
  }

  /** Over any list of upserts the vector stays sorted and holds what the fold over the list gives. */
  lemma {:induction false} UpsertsFold(states: seq<Elements>, pairs: seq<(real, real)>, combine: (real, real) -> real,
                                       index: real)
    requires |states| == |pairs| + 1 && Sorted(states[0])
    requires forall i :: 0 <= i < |pairs| ==> UpsertStep(states[i], states[i + 1], pairs[i].0, pairs[i].1, combine)
    ensures Sorted(states[|pairs|])
    ensures Entry(states[|pairs|], index) == Folded(Entry(states[0], index), pairs, combine, index)
    decreases |pairs|
  {
    if pairs != [] {
      var n := |pairs| - 1;
      UpsertsFold(states[..|pairs|], pairs[..n], combine, index);
      assert UpsertStep(states[n], states[n + 1], pairs[n].0, pairs[n].1, combine);
      var p: nat :| UpsertAt(states[n], states[n + 1], p, pairs[n].0, pairs[n].1, combine);
      UpsertedIsMap(states[n], p, pairs[n].0, pairs[n].1, combine, index);
    }
  }

  /** The position, given an entry that the index equals or that it belongs next to. */
  lemma Settled(es: Elements, index: real, pivot: nat)
    requires Sorted(es) && pivot < |es| / 2
    requires es[2 * pivot] != index ==>
               && (pivot == 0 || es[2 * pivot] < index)
               && (pivot + 1 == |es| / 2 || index < es[2 * (pivot + 1)])
    ensures IsPosition(es, index, if es[2 * pivot] >= index then 2 * pivot else 2 * (pivot + 1))
  {
    assert forall i :: 0 <= i < pivot ==> es[2 * i] < es[2 * pivot];
    assert forall i :: pivot < i < |es| / 2 ==> es[2 * pivot] < es[2 * i];
    assert forall i :: pivot + 1 < i < |es| / 2 ==> es[2 * (pivot + 1)] < es[2 * i];
  }

  class Vector {
    var elements: Elements
    /** The cached magnitude, squared; 0 is "not cached". */
    var magnitudeCache: real

    constructor (elements: Elements)
      ensures this.elements == elements && CacheRight()
    {
      this.elements := elements;
      magnitudeCache := 0.0;
    }

    ghost predicate CacheRight()
      reads this
    {
      magnitudeCache == 0.0 || magnitudeCache == SquareSum(elements)
    }

    /** Binary search over the entries. */
    method PositionForIndex(index: real) returns (p: nat)
      requires Sorted(elements)
      ensures IsPosition(elements, index, p)
    {
      assert |elements| % 2 == 0;
      hide Sorted;
      if |elements| == 0 {
        return 0;
      }
      var start, end := 0, |elements| / 2;
      var sliceLength := end - start;
      var pivot := sliceLength / 2;
      var pivotIndex := elements[pivot * 2];
      while sliceLength > 1
        invariant 0 <= start < end <= |elements| / 2 && sliceLength == end - start
        invariant pivot == start + sliceLength / 2 && pivotIndex == elements[pivot * 2]
        invariant start == 0 || elements[2 * start] < index
        invariant end == |elements| / 2 || index < elements[2 * end]
        decreases sliceLength
      {
        if pivotIndex < index {
          start := pivot;
        }
        if pivotIndex > index {
          end := pivot;
        }
        if pivotIndex == index {
          break;
        }
        sliceLength := end - start;
        pivot := start + sliceLength / 2;
        pivotIndex := elements[pivot * 2];
      }
      Settled(elements, index, pivot);
      p := if pivotIndex >= index then pivot * 2 else (pivot + 1) * 2;
    }

    method Upsert(index: real, value: real, combine: (real, real) -> real)
      requires Sorted(elements)
      modifies this
      ensures Sorted(elements) && CacheRight() && UpsertStep(old(elements), elements, index, value, combine)
      ensures forall other :: Entry(elements, other) ==
                              if other != index then Entry(old(elements), other)
                              else if Entry(old(elements), index) == None then Some(value)
                              else Some(combine(Entry(old(elements), index).value, value))
    {
      magnitudeCache := 0.0;
      var p := PositionForIndex(index);
      ghost var es := elements;
      if p < |elements| && elements[p] == index {
        elements := elements[p + 1 := combine(elements[p + 1], value)];
      } else {
        elements := elements[..p] + [index, value] + elements[p..];
      }
      forall other
        ensures Entry(elements, other) ==
                if other != index then Entry(es, other)
                else if Entry(es, index).Some? then Some(combine(Entry(es, index).value, value))
                else Some(value)
      {
        UpsertedIsMap(es, p, index, value, combine, other);
      }
      UpsertedSorted(es, p, index, value, combine);
      assert UpsertAt(es, elements, p, index, value, combine);
    }

    /** `insert`; `false` is the error "duplicate index", which leaves the elements as they are. */
    method Insert(index: real, value: real) returns (ok: bool)
      requires Sorted(elements)
      modifies this
      ensures Sorted(elements) && CacheRight()
      ensures ok <==> Entry(old(elements), index) == None
      ensures !ok ==> elements == old(elements)
      ensures ok ==> forall other :: Entry(elements, other) ==
                       if other == index then Some(value) else Entry(old(elements), other)
    {
      magnitudeCache := 0.0;
      var p := PositionForIndex(index);
      EntryFrom(elements, index, p);
      if p < |elements| && elements[p] == index {
        return false;
      }
      Upsert(index, value, (x, y) => y);
      ok := true;
    }

    /** The squared magnitude, computed once and then read from the cache. */
    method Magnitude() returns (m: real)
      requires |elements| % 2 == 0 && CacheRight()
      modifies this`magnitudeCache
      ensures m == SquareSum(elements) && CacheRight()
    {
      hide SquareSum;
      if magnitudeCache != 0.0 {
        return magnitudeCache;
      }
      m := 0.0;
      var i := 1;
      assert elements[0..] == elements;
      while i < |elements|
        invariant i % 2 == 1 && 1 <= i <= |elements| + 1
        invariant m + SquareSum(elements[i - 1..]) == SquareSum(elements)
      {
        var value := elements[i];
        SquareStep(elements, i - 1);
        m := m + value * value;
        i := i + 2;
      }
      SquareEnd(elements[i - 1..]);
      magnitudeCache := m;
    }

    method Dot(other: Vector) returns (result: real)
      requires Sorted(elements) && Sorted(other.elements)
      ensures result == DotProduct(elements, other.elements)
    {
      hide Merged;
      hide DotProduct;
      assert |elements| % 2 == 0 && |other.elements| % 2 == 0;
      hide Sorted;
      var a, b := elements, other.elements;
      result := 0.0;
      var i, j := 0, 0;
      assert a[0..] == a && b[0..] == b;
      while i < |a| && j < |b|
        invariant 0 <= i <= |a| && 0 <= j <= |b| && i % 2 == 0 && j % 2 == 0
        invariant result + Merged(a[i..], b[j..]) == Merged(a, b)
        decreases |a| + |b| - i - j
      {
        var x, y := a[i], b[j];
        MergedStep(a, b, i, j);
        if x < y {
          i := i + 2;
        } else if x > y {
          j := j + 2;
        } else if x == y {
          result := result + a[i + 1] * b[j + 1];
          i, j := i + 2, j + 2;
        }
      }
      MergedAtEnd(a[i..], b[j..]);
      MergedIsDotProduct(a, b);
    }
  }

  lemma MergedAtEnd(a: Elements, b: Elements)
    requires |a| < 2 || |b| < 2
    ensures Merged(a, b) == 0.0
  {
  }
}

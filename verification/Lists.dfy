/** The growable list and its in-place, rotation-based stable merge sort (common/list.c). */
module Lists {

  /** What the sort asks of a C comparator: `compare(a, b) <= 0` is total and transitive. */
  ghost predicate TotalPreorder<T(!new)>(compare: (T, T) -> int) {
    && (forall a, b :: compare(a, b) <= 0 || compare(b, a) <= 0)
    && (forall a, b, c :: compare(a, b) <= 0 && compare(b, c) <= 0 ==> compare(a, c) <= 0)
  }

  ghost predicate SortedRange<T>(compare: (T, T) -> int, s: seq<T>, lo: nat, hi: nat)
    requires hi <= |s|
  {
    forall i, j :: lo <= i < j < hi ==> compare(s[i], s[j]) <= 0
  }

  ghost predicate Sorted<T>(compare: (T, T) -> int, s: seq<T>) {
    SortedRange(compare, s, 0, |s|)
  }

  ghost predicate SameOutside<T>(s: seq<T>, t: seq<T>, lo: nat, hi: nat) {
    |s| == |t| && forall k :: 0 <= k < |s| && !(lo <= k < hi) ==> s[k] == t[k]
  }

  predicate Same<T>(compare: (T, T) -> int, a: T, b: T) {
    compare(a, b) <= 0 && compare(b, a) <= 0
  }

  /** The elements of `s` that compare equal to `g`, in the order in which they occur. */
  ghost function Class<T>(compare: (T, T) -> int, g: T, s: seq<T>): seq<T> {
    if s == [] then []
    else (if Same(compare, g, s[0]) then [s[0]] else []) + Class(compare, g, s[1..])
  }

  /** `t` has the elements of `s`, and elements that compare equal keep their relative order. */
  ghost predicate StableRearrangement<T(!new)>(compare: (T, T) -> int, s: seq<T>, t: seq<T>) {
    && multiset(s) == multiset(t)
    && forall g :: Class(compare, g, s) == Class(compare, g, t)
  }

  /** `s` with its element at `to` moved in front of the one at `from`. */
  ghost function Rotated<T>(s: seq<T>, from: nat, to: nat): (r: seq<T>)
    requires from <= to < |s|
    ensures |r| == |s|
  {
    s[..from] + [s[to]] + s[from..to] + s[to + 1..]
  }

  /** The elements up to `to` moved up by one, from a hole whose old element is still there. */
  ghost function Shifted<T>(s: seq<T>, hole: nat, to: nat): (r: seq<T>)
    requires hole <= to < |s|
    ensures |r| == |s|
  {
    s[..hole + 1] + s[hole..to] + s[to + 1..]
  }

  lemma ShiftedAround<T>(s: seq<T>, hole: nat, to: nat)
    requires hole <= to < |s|
    ensures var r := Shifted(s, hole, to);
      && (hole == to ==> r == s)
      && (hole > 0 ==> r[hole := r[hole - 1]] == Shifted(s, hole - 1, to))
      && r[hole := s[to]] == Rotated(s, hole, to)
  {
  }

  lemma {:induction false} ClassConcat<T>(compare: (T, T) -> int, g: T, s: seq<T>, t: seq<T>)
    ensures Class(compare, g, s + t) == Class(compare, g, s) + Class(compare, g, t)
  {
    hide Same;
    if s == [] {
      assert s + t == t;
    } else {
      var x, rest := s[0], s[1..];
      ClassConcat(compare, g, rest, t);
      ClassCons(compare, g, x, rest + t);
      assert s + t == [x] + (rest + t);
    }
  }

  lemma ClassCons<T>(compare: (T, T) -> int, g: T, x: T, s: seq<T>)
    ensures Class(compare, g, [x] + s) == (if Same(compare, g, x) then [x] else []) + Class(compare, g, s)
  {
    assert ([x] + s)[1..] == s;
  }

  lemma {:induction false} ClassOfOthers<T>(compare: (T, T) -> int, g: T, s: seq<T>)
    requires forall x :: x in s ==> !Same(compare, g, x)
    ensures Class(compare, g, s) == []
  {
    if s != [] {
      ClassOfOthers(compare, g, s[1..]);
    }
  }

  lemma {:induction false} ClassMember<T>(compare: (T, T) -> int, g: T, s: seq<T>, x: T)
    requires x in Class(compare, g, s)
    ensures x in s && Same(compare, g, x)
  {
    if x in Class(compare, g, s[1..]) {
      ClassMember(compare, g, s[1..], x);
    }
  }

  lemma ClassOfFour<T>(compare: (T, T) -> int, g: T, a: seq<T>, b: seq<T>, c: seq<T>, d: seq<T>)
    ensures Class(compare, g, a + b + c + d)
         == Class(compare, g, a) + Class(compare, g, b) + Class(compare, g, c) + Class(compare, g, d)
  {
    ClassConcat(compare, g, a + b + c, d);
    ClassConcat(compare, g, a + b, c);
    ClassConcat(compare, g, a, b);
  }

  lemma HoistKeepsClass<T>(compare: (T, T) -> int, g: T, a: seq<T>, b: seq<T>, x: T, c: seq<T>)
    requires Same(compare, g, x) ==> forall y :: y in b ==> !Same(compare, g, y)
    ensures Class(compare, g, a + b + [x] + c) == Class(compare, g, a + [x] + b + c)
  {
    ClassOfFour(compare, g, a, b, [x], c);
    ClassOfFour(compare, g, a, [x], b, c);
    if Same(compare, g, x) {
      ClassOfOthers(compare, g, b);
    } else {
      ClassOfOthers(compare, g, [x]);
    }
  }

  lemma GreaterIsNotSame<T(!new)>(compare: (T, T) -> int, g: T, x: T, y: T)
    requires TotalPreorder(compare)
    requires compare(y, x) > 0 && Same(compare, g, x)
    ensures !Same(compare, g, y)
  {
  }

  /** Moving an element in front of strictly greater ones is stable. */
  lemma RotationIsStable<T(!new)>(compare: (T, T) -> int, s: seq<T>, from: nat, to: nat)
    requires TotalPreorder(compare)
    requires from <= to < |s|
    requires forall k :: from <= k < to ==> compare(s[k], s[to]) > 0
    ensures StableRearrangement(compare, s, Rotated(s, from, to))
  {
    hide TotalPreorder;
    var a, b, x, c := s[..from], s[from..to], s[to], s[to + 1..];
    assert s == a + b + [x] + c;
    forall g ensures Class(compare, g, s) == Class(compare, g, Rotated(s, from, to)) {
      if Same(compare, g, x) {
        forall y | y in b ensures !Same(compare, g, y) {
          GreaterIsNotSame(compare, g, x, y);
        }
      }
      HoistKeepsClass(compare, g, a, b, x, c);
    }
  }

  lemma StableReflexive<T(!new)>(compare: (T, T) -> int, s: seq<T>)
    ensures StableRearrangement(compare, s, s)
  {
  }

  lemma StableTransitive<T(!new)>(compare: (T, T) -> int, s: seq<T>, t: seq<T>, u: seq<T>)
    requires StableRearrangement(compare, s, t) && StableRearrangement(compare, t, u)
    ensures StableRearrangement(compare, s, u)
  {
  }

  lemma ClassOfHead<T(!new)>(compare: (T, T) -> int, s: seq<T>)
    requires TotalPreorder(compare)
    ensures s != [] ==> s[0] in Class(compare, s[0], s)
  {
  }

  /** A sequence has only one stable sorting: the classes and the order determine it. */
  lemma {:induction false} StableSortIsUnique<T(!new)>(compare: (T, T) -> int, s: seq<T>, t: seq<T>)
    requires TotalPreorder(compare)
    requires Sorted(compare, s) && Sorted(compare, t)
    requires forall g :: Class(compare, g, s) == Class(compare, g, t)
    ensures s == t
    decreases |s|
  {
    ClassOfHead(compare, s);
    ClassOfHead(compare, t);
    if s != [] && t != [] {
      assert Class(compare, t[0], s) == Class(compare, t[0], t);
      ClassMember(compare, s[0], t, s[0]);
      ClassMember(compare, t[0], s, t[0]);
      assert Same(compare, s[0], t[0]);
      assert Class(compare, s[0], s) == Class(compare, s[0], t);
      assert s[0] == Class(compare, s[0], s)[0];
      assert t[0] == Class(compare, s[0], t)[0];
      forall g ensures Class(compare, g, s[1..]) == Class(compare, g, t[1..]) {
        assert Class(compare, g, s) == Class(compare, g, t);
        var head := if Same(compare, g, s[0]) then [s[0]] else [];
        assert Class(compare, g, s[1..]) == Class(compare, g, s)[|head|..];
        assert Class(compare, g, t[1..]) == Class(compare, g, t)[|head|..];
      }
      StableSortIsUnique(compare, s[1..], t[1..]);
    }
  }

  lemma SortedHalves<T(!new)>(compare: (T, T) -> int, s: seq<T>, first: nat, mid: nat, last: nat)
    requires TotalPreorder(compare)
    requires first <= mid < last < |s|
    requires SortedRange(compare, s, first, mid + 1) && SortedRange(compare, s, mid + 1, last + 1)
    requires compare(s[mid], s[mid + 1]) <= 0
    ensures SortedRange(compare, s, first, last + 1)
  {
    forall i, j | first <= i < j <= last
      ensures compare(s[i], s[j]) <= 0
    {
      if i <= mid < j {
        assert compare(s[i], s[mid]) <= 0 && compare(s[mid + 1], s[j]) <= 0;
        assert compare(s[i], s[mid + 1]) <= 0;
      }
    }
  }

  /** One rotation of the merge loop extends the merged part and keeps both runs sorted. */
  lemma MergeRotation<T(!new)>(compare: (T, T) -> int, s: seq<T>, first: nat, left: nat, right: nat, last: nat)
    requires TotalPreorder(compare)
    requires first <= left < right <= last < |s|
    requires SortedRange(compare, s, first, right) && SortedRange(compare, s, right, last + 1)
    requires forall i, j :: first <= i < left && right <= j <= last ==> compare(s[i], s[j]) <= 0
    requires compare(s[left], s[right]) > 0
    ensures var r := Rotated(s, left, right);
      && SortedRange(compare, r, first, right + 1) && SortedRange(compare, r, right + 1, last + 1)
      && (forall i, j :: first <= i <= left && right < j <= last ==> compare(r[i], r[j]) <= 0)
      && SameOutside(s, r, first, last + 1)
      && StableRearrangement(compare, s, r)
  {
    hide TotalPreorder, StableRearrangement;
    var r := Rotated(s, left, right);
    forall k | left <= k < right
      ensures compare(s[k], s[right]) > 0
    {
      if k != left {
        GreaterThanLess(compare, s[left], s[k], s[right]);
      }
    }
    RotationIsStable(compare, s, left, right);
    forall k | left <= k < right ensures compare(s[right], s[k]) <= 0 {
      NotGreaterIsLess(compare, s[right], s[k]);
    }
    RotatedRanges(compare, s, first, left, right, last);
  }

  lemma RotatedRanges<T(!new)>(compare: (T, T) -> int, s: seq<T>, first: nat, left: nat, right: nat, last: nat)
    requires first <= left < right <= last < |s|
    requires SortedRange(compare, s, first, right) && SortedRange(compare, s, right, last + 1)
    requires forall i, j :: first <= i < left && right <= j <= last ==> compare(s[i], s[j]) <= 0
    requires forall k :: left <= k < right ==> compare(s[right], s[k]) <= 0
    ensures var r := Rotated(s, left, right);
      && SortedRange(compare, r, first, right + 1) && SortedRange(compare, r, right + 1, last + 1)
      && (forall i, j :: first <= i <= left && right < j <= last ==> compare(r[i], r[j]) <= 0)
      && SameOutside(s, r, first, last + 1)
  {
    var r := Rotated(s, left, right);
    RotatedAt(s, left, right);
    hide Rotated;
    assert forall k :: left < k <= right ==> r[k] == s[k - 1];
  }

  lemma RotatedAt<T>(s: seq<T>, from: nat, to: nat)
    requires from <= to < |s|
    ensures forall k :: 0 <= k < |s| ==>
      Rotated(s, from, to)[k] == if k == from then s[to] else if from < k <= to then s[k - 1] else s[k]
  {
    var a, b, c, d := s[..from], [s[to]], s[from..to], s[to + 1..];
    assert Rotated(s, from, to) == a + b + c + d;
  }

  lemma GreaterThanLess<T(!new)>(compare: (T, T) -> int, x: T, y: T, z: T)
    requires TotalPreorder(compare)
    requires compare(x, y) <= 0 && compare(x, z) > 0
    ensures compare(y, z) > 0
  {
  }

  lemma LessTransitive<T(!new)>(compare: (T, T) -> int, x: T, y: T, z: T)
    requires TotalPreorder(compare)
    requires compare(x, y) <= 0 && compare(y, z) <= 0
    ensures compare(x, z) <= 0
  {
  }

  lemma NotGreaterIsLess<T(!new)>(compare: (T, T) -> int, x: T, y: T)
    requires TotalPreorder(compare)
    requires compare(y, x) > 0
    ensures compare(x, y) <= 0
  {
  }

  class List<T(0, !new)> {
    var capacity: nat
    var length: nat
    var items: array<T>

    ghost predicate Valid()
      reads this
    {
      0 < capacity == items.Length && length <= capacity
    }

    ghost function Contents(): (s: seq<T>)
      requires Valid()
      reads this, items
    {
      items[..length]
    }

    constructor ()
      ensures Valid() && fresh(items) && Contents() == []
    {
      capacity, length := 10, 0;
      items := new T[10];
    }

    method Resize()
      requires Valid()
      modifies this`capacity, this`items
      ensures Valid() && length < capacity
      ensures fresh(items) || items == old(items)
      ensures Contents() == old(Contents())
    {
      if length == capacity {
        var grown := new T[2 * capacity];
        for i := 0 to length
          invariant unchanged(this)
          invariant grown[..i] == items[..i]
        {
          grown[i] := items[i];
        }
        capacity, items := 2 * capacity, grown;
      }
    }

    method Add(item: T)
      requires Valid()
      modifies this, items
      ensures Valid() && (fresh(items) || items == old(items))
      ensures Contents() == old(Contents()) + [item]
    {
      Resize();
      items[length] := item;
      length := length + 1;
    }

    method Insert(index: nat, item: T)
      requires Valid() && index <= length
      modifies this, items
      ensures Valid() && (fresh(items) || items == old(items))
      ensures Contents() == old(Contents())[..index] + [item] + old(Contents())[index..]
    {
      ghost var s := Contents();
      Resize();
      forall k | index <= k < length {
        items[k + 1] := items[k];
      }
      assert items[..index] == s[..index] && items[index + 1..length + 1] == s[index..];
      length := length + 1;
      items[index] := item;
    }

    method Del(index: nat)
      requires Valid() && index < length
      modifies this`length, items
      ensures Valid()
      ensures Contents() == old(Contents())[..index] + old(Contents())[index + 1..]
    {
      length := length - 1;
      forall k | index <= k < length {
        items[k] := items[k + 1];
      }
    }

    method Swap(src: nat, dest: nat)
      requires Valid() && src < length && dest < length
      modifies items
      ensures Contents() == old(Contents())[src := old(items[dest])][dest := old(items[src])]
    {
      var tmp := items[src];
      items[src] := items[dest];
      items[dest] := tmp;
    }

    method Rotate(from: nat, to: nat)
      requires Valid() && from <= to < length
      modifies items
      ensures Contents() == Rotated(old(Contents()), from, to)
    {
      hide Shifted, Rotated;
      var tmp := items[to];
      var hole := to;
      ghost var s := Contents();
      ShiftedAround(s, hole, to);
      while hole > from
        invariant from <= hole <= to && Contents() == Shifted(s, hole, to)
      {
        ShiftedAround(s, hole, to);
        ghost var before := Contents();
        items[hole] := items[hole - 1];
        assert Contents() == before[hole := before[hole - 1]];
        hole := hole - 1;
      }
      ShiftedAround(s, hole, to);
      ghost var before := Contents();
      items[from] := tmp;
      assert Contents() == before[from := s[to]];
    }

    method InplaceMerge(first: nat, last: nat, middle: nat, compare: (T, T) -> int)
      requires Valid() && first <= middle < last < length
      requires TotalPreorder(compare)
      requires SortedRange(compare, Contents(), first, middle + 1)
      requires SortedRange(compare, Contents(), middle + 1, last + 1)
      modifies items
      ensures SortedRange(compare, Contents(), first, last + 1)
      ensures SameOutside(old(Contents()), Contents(), first, last + 1)
      ensures StableRearrangement(compare, old(Contents()), Contents())
    {
      hide TotalPreorder;
      var left, mid, right := first, middle, middle + 1;
      ghost var s := Contents();
      if compare(items[mid], items[right]) <= 0 {
        SortedHalves(compare, s, first, mid, last);
        return;
      }
      while left <= mid && right <= last
        invariant first <= left <= mid + 1 && mid <= last && right == mid + 1
        invariant s == Contents()
        invariant SortedRange(compare, s, first, right)
        invariant SortedRange(compare, s, right, last + 1)
        invariant forall i, j :: first <= i < left && right <= j <= last ==> compare(s[i], s[j]) <= 0
        invariant SameOutside(old(Contents()), s, first, last + 1)
        invariant StableRearrangement(compare, old(Contents()), s)
        decreases last - left
      {
        assert items[left] == s[left] && items[right] == s[right];
        if compare(items[left], items[right]) <= 0 {
          forall j | right <= j <= last ensures compare(s[left], s[j]) <= 0 {
            if j != right {
              LessTransitive(compare, s[left], s[right], s[j]);
            }
          }
          left := left + 1;
        } else {
          MergeRotation(compare, s, first, left, right, last);
          StableTransitive(compare, old(Contents()), s, Rotated(s, left, right));
          Rotate(left, right);
          s := Contents();
          left, mid, right := left + 1, mid + 1, right + 1;
        }
      }
    }

    method InplaceSort(first: nat, last: nat, compare: (T, T) -> int)
      requires Valid() && first <= last < length
      requires TotalPreorder(compare)
      modifies items
      ensures SortedRange(compare, Contents(), first, last + 1)
      ensures SameOutside(old(Contents()), Contents(), first, last + 1)
      ensures StableRearrangement(compare, old(Contents()), Contents())
      decreases last - first
    {
      hide TotalPreorder, StableRearrangement;
      if first >= last {
        StableReflexive(compare, Contents());
        return;
      } else if last - first == 1 {
        assert items[first] == Contents()[first] && items[last] == Contents()[last];
        StableReflexive(compare, Contents());
        if compare(items[first], items[last]) > 0 {
          NotGreaterIsLess(compare, items[last], items[first]);
          RotationIsStable(compare, Contents(), first, last);
          assert Rotated(Contents(), first, last) == Contents()[first := items[last]][last := items[first]];
          Swap(first, last);
        }
      } else {
        var mid := (last + first) / 2;
        ghost var s := Contents();
        InplaceSort(first, mid, compare);
        ghost var t := Contents();
        InplaceSort(mid + 1, last, compare);
        ghost var u := Contents();
        StableTransitive(compare, s, t, u);
        assert SortedRange(compare, u, first, mid + 1) by {
          assert forall k :: first <= k <= mid ==> u[k] == t[k];
        }
        InplaceMerge(first, last, mid, compare);
        StableTransitive(compare, s, u, Contents());
      }
    }

    method StableSort(compare: (T, T) -> int)
      requires Valid()
      requires TotalPreorder(compare)
      modifies items
      ensures Sorted(compare, Contents())
      ensures StableRearrangement(compare, old(Contents()), Contents())
      ensures forall t :: Sorted(compare, t) && StableRearrangement(compare, old(Contents()), t) ==> t == Contents()
    {
      if length > 1 {
        InplaceSort(0, length - 1, compare);
      }
      forall t | Sorted(compare, t) && StableRearrangement(compare, old(Contents()), t)
        ensures t == Contents()
      {
        StableSortIsUnique(compare, t, Contents());
      }
    }
  }
}

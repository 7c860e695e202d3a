/**
 A model of the `Sequence<T, U>` adapter of the ABC templates: a wrapper that
 holds a non-owning handle to a container and derives membership, first-index
 lookup and occurrence counting from the container's own `Size()`,
 `operator[]` and `begin()`/`end()`.
 */
module ABC {

  /** Largest and smallest value of the 32-bit `int` that `index` returns. */
  const INT_MAX: int := 0x7FFF_FFFF
  const INT_MIN: int := -0x8000_0000

  /** The conversion of an integer to a 32-bit two's-complement `int`:
      the one value of that type congruent to `x` modulo 2^32. */
  function ToInt32(x: int): (r: int)
    ensures INT_MIN <= r <= INT_MAX
    ensures (r - x) % 0x1_0000_0000 == 0
    ensures INT_MIN <= x <= INT_MAX ==> r == x
  {
    var w := x % 0x1_0000_0000;
    if w <= INT_MAX then w else w - 0x1_0000_0000
  }

  /** `std::any_of` over a traversal: true iff the predicate holds of some
      element, checked front to back and stopping at the first hit. */
  function AnyOf<U>(s: seq<U>, p: U -> bool): (b: bool)
    ensures b <==> exists k :: 0 <= k < |s| && p(s[k])
  {
    if s == [] then false
    else if p(s[0]) then true
    else
      var rest := AnyOf(s[1..], p);
      assert forall k :: 1 <= k < |s| ==> s[k] == s[1..][k - 1];
      rest
  }

  /** The position of the first element of `s` equal to `v`, or -1 when there
      is none, as a signed integer wide enough for every position. */
  function FirstIndex<U(==)>(s: seq<U>, v: U): (r: int)
    ensures -1 <= r < |s|
    ensures r == -1 <==> v !in s
    ensures r != -1 ==> s[r] == v
    ensures forall j :: 0 <= j < r ==> s[j] != v
  {
    if s == [] then -1
    else if s[0] == v then 0
    else
      var t := FirstIndex(s[1..], v);
      assert forall j :: 1 <= j < |s| ==> s[j] == s[1..][j - 1];
      if t == -1 then -1 else t + 1
  }

  /** A position holding `v` with no earlier one is the first index of `v`. */
  lemma FirstIndexUnique<U>(s: seq<U>, v: U, i: nat)
    requires i < |s| && s[i] == v
    requires forall j :: 0 <= j < i ==> s[j] != v
    ensures FirstIndex(s, v) == i
  {
  }

  /**
   The surface a candidate type `T` exposes to the adapter. Its fields are
   what the calls observe: `size` is what `Size()` returns, `operator[](i)`
   yields `items[i]` (and is undefined at or beyond `|items|`), and the
   iterators `begin()`..`end()` traverse `range` in order. The adapter calls
   these through a non-const pointer, so T's non-const overloads run when T
   has them. The model takes all of them to be free of side effects and to
   visit the same `range`. A conforming type may implement these however it
   likes, so the three views are kept apart and their agreement is stated by
   `Consistent()`.
   */
  class Candidate<U(==)> {
    var size: nat
    var items: seq<U>
    var range: seq<U>

    /** `size_t Size() const` */
    function Size(): nat
      reads this
    {
      size
    }

    /** `const U& operator[](size_t i) const` */
    function At(i: nat): U
      reads this
      requires i < |items|
    {
      items[i]
    }

    /** The elements visited from `begin()` to `end()`. */
    function Range(): seq<U>
      reads this
    {
      range
    }

    /** `operator[]` is defined at every index below `Size()`. */
    predicate Indexable()
      reads this
    {
      size <= |items|
    }

    /** The iteration range is exactly `At(0), ..., At(Size() - 1)`. */
    predicate Consistent()
      reads this
    {
      Indexable() && range == items[..size]
    }

    /** A container backed by one vector, as the demonstration list is:
        every view is that vector. */
    constructor FromVector(vec: seq<U>)
      ensures size == |vec| && items == vec && range == vec
      ensures Consistent()
    {
      size := |vec|;
      items := vec;
      range := vec;
    }
  }

  /**
   The adapter. `obj` is the handle to the adapted container: never null (its
   type excludes null), never reseated (it is a constant field), and never
   owned. None of the operations below has a `modifies` clause, so none of
   them changes the container or the adapter.
   */
  class Sequence<U(==)> {
    const obj: Candidate<U>

    constructor (childobj: Candidate?<U>)
      requires childobj != null
      ensures obj == childobj
    {
      obj := childobj;
    }

    /** The elements `operator[]` yields at the indices below `Size()`. */
    ghost function Indexed(): seq<U>
      reads obj
      requires obj.Indexable()
    {
      obj.items[..obj.size]
    }

    /** Default `Contains`: some element of the iteration range equals
        `value`. */
    function Contains(value: U): (b: bool)
      reads obj
      ensures b <==> exists k :: 0 <= k < |obj.range| && obj.range[k] == value
      ensures b <==> value in obj.range
    {
      AnyOf(obj.Range(), elem => elem == value)
    }

    /** `index`: scans indices below `Size()` with `operator[]` and returns the
        first one holding `value`, narrowed to a 32-bit `int`, or -1. */
    method Index(value: U) returns (r: int)
      requires obj.Indexable()
      ensures r == ToInt32(FirstIndex(Indexed(), value))
      ensures obj.size <= INT_MAX ==>
        (r == -1 <==> forall j :: 0 <= j < obj.size ==> obj.items[j] != value)
      ensures obj.size <= INT_MAX && r != -1 ==>
        0 <= r < obj.size && obj.items[r] == value &&
        forall j :: 0 <= j < r ==> obj.items[j] != value
      ensures obj.Consistent() && obj.size <= INT_MAX ==> (r == -1 <==> !Contains(value))
    {
      var i: nat := 0;
      while i < obj.Size()
        invariant i <= obj.size
        invariant forall j :: 0 <= j < i ==> obj.items[j] != value
      {
        if obj.At(i) == value {
          FirstIndexUnique(Indexed(), value, i);
          return ToInt32(i);
        }
        i := i + 1;
      }
      assert value !in Indexed();
      return -1;
    }

    /** `count`: one traversal of the iteration range, counting the
        elements equal to `value`. */
    method Count(value: U) returns (num: nat)
      ensures num == multiset(obj.range)[value]
      ensures num <= |obj.range|
      ensures num == 0 <==> !Contains(value)
      ensures obj.Consistent() ==> num <= obj.Size()
    {
      num := 0;
      var it: nat := 0;
      while it != |obj.Range()|
        invariant it <= |obj.range|
        invariant num == multiset(obj.range[..it])[value]
        invariant num <= it
        decreases |obj.range| - it
      {
        assert obj.range[..it + 1] == obj.range[..it] + [obj.range[it]];
        if obj.range[it] == value {
          num := num + 1;
        }
        it := it + 1;
      }
      assert obj.range[..it] == obj.range;
    }

    /** When the container's views agree, the three operations agree: the
        value is absent from the range exactly when it has no index and
        exactly when it occurs zero times. */
    lemma Agreement(value: U)
      requires obj.Consistent()
      ensures FirstIndex(Indexed(), value) == -1 <==> !Contains(value)
      ensures multiset(obj.range)[value] == 0 <==> !Contains(value)
      ensures FirstIndex(Indexed(), value) != -1 ==>
        obj.range[FirstIndex(Indexed(), value)] == value
    {
    }
  }

  /** A container of 2^32 elements whose only `1` is the last one: `1` is in
      it, yet its first index narrowed to `int` is the not-found sentinel. */
  lemma IndexNarrowingLosesMatch()
    ensures var s := seq(0x1_0000_0000, i => if i == 0xFFFF_FFFF then 1 else 0);
      1 in s && FirstIndex(s, 1) == 0xFFFF_FFFF && ToInt32(FirstIndex(s, 1)) == -1
  {
    var s := seq(0x1_0000_0000, i => if i == 0xFFFF_FFFF then 1 else 0);
    assert s[0xFFFF_FFFF] == 1;
    FirstIndexUnique(s, 1, 0xFFFF_FFFF);
  }
}

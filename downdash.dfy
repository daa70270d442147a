/**
  A model of the collection kernel of downdash: one traversal primitive (`each`),
  a fold built on it (`reduce`), the operations derived from that fold (`map`,
  `filter`, `at`, `every`, `includes`, `partition`) and a separate linear search
  (`indexOf`).

  Each operation is a method whose loop follows the source step by step; its
  postcondition ties the result to a recursive specification function, and the
  properties the library promises are proved about those functions.  The
  specification functions of the folds recurse on the LAST element, so each is
  literally the left fold of the source's callback over the elements in index
  order; `FirstIndex`, for the search that returns early, recurses on the first.
 */
module Downdash {

  /*==========================================================================
    Values
  ==========================================================================*/

  /** The collection argument: absent (`null` or `undefined`) or an array. */
  datatype Collection<T> = Absent | Array(items: seq<T>)

  /** The elements `each` visits, in index order; none for an absent collection. */
  function Elements<T>(c: Collection<T>): seq<T>
  {
    match c
    case Absent => []
    case Array(items) => items
  }

  /** A JavaScript value that may be `undefined`; `Defined(v)` is any other value. */
  datatype Js<T> = Undefined | Defined(value: T)

  /** All elements of `s` but the last. */
  function Init<T>(s: seq<T>): seq<T>
    requires s != []
  {
    s[..|s| - 1]
  }

  /** The last element of `s`. */
  function Last<T>(s: seq<T>): T
    requires s != []
  {
    s[|s| - 1]
  }

  lemma InitLast<T>(s: seq<T>)
    requires s != []
    ensures s == Init(s) + [Last(s)]
  {
  }

  lemma PrefixStep<T>(s: seq<T>, i: nat)
    requires i < |s|
    ensures s[..i + 1] != [] && Init(s[..i + 1]) == s[..i] && Last(s[..i + 1]) == s[i]
  {
  }

  /*==========================================================================
    _.each
  ==========================================================================*/

  /** One call of the iterator: the element and its index. */
  datatype Visit<T> = Visit(value: T, index: nat)

  /**
    `each` returns nothing; what it does is call the iterator.  The model
    returns the calls it makes, in the order it makes them.
   */
  method Each<T>(c: Collection<T>) returns (visits: seq<Visit<T>>)
    ensures c.Absent? ==> visits == []
    ensures |visits| == |Elements(c)|
    ensures forall i :: 0 <= i < |visits| ==> visits[i] == Visit(Elements(c)[i], i)
  {
    visits := [];
    if c.Absent? {
      return;
    }
    var s := c.items;
    for i := 0 to |s|
      invariant |visits| == i
      invariant forall k :: 0 <= k < i ==> visits[k] == Visit(s[k], k)
    {
      visits := visits + [Visit(s[i], i)];
    }
  }

  /*==========================================================================
    _.indexOf
  ==========================================================================*/

  /** The position `indexOf` reports: the least index holding `value`, or -1. */
  function FirstIndex<T(==)>(s: seq<T>, value: T): (r: int)
    ensures -1 <= r < |s|
    ensures r == -1 <==> value !in s
    ensures 0 <= r ==> s[r] == value && value !in s[..r]
  {
    if s == [] then -1
    else if s[0] == value then 0
    else
      var k := FirstIndex(s[1..], value);
      assert s == [s[0]] + s[1..];
      if k == -1 then -1
      else
        assert s[..k + 1] == [s[0]] + s[1..][..k];
        k + 1
  }

  method IndexOf<T(==)>(a: seq<T>, value: T) returns (r: int)
    ensures r == FirstIndex(a, value)
  {
    for i := 0 to |a|
      invariant value !in a[..i]
    {
      if a[i] == value {
        return i;
      }
      assert a[..i + 1] == a[..i] + [a[i]];
    }
    assert a[..|a|] == a;
    return -1;
  }

  /** The example in the comment above `indexOf`, and a miss. */
  lemma IndexOfExamples()
    ensures FirstIndex([1, 2, 1, 2], 2) == 1
    ensures FirstIndex([1, 2, 3], 9) == -1
  {
    assert [1, 2, 1, 2][1..] == [2, 1, 2];
    assert [1, 2, 3][1..] == [2, 3];
    assert [2, 3][1..] == [3];
    assert [3][1..] == [];
  }

  /*==========================================================================
    _.map
  ==========================================================================*/

  /** The results `map` pushes: the transform of every element, in order. */
  function Mapped<T, U>(s: seq<T>, f: T -> U): (r: seq<U>)
    ensures |r| == |s|
    ensures forall i :: 0 <= i < |s| ==> r[i] == f(s[i])
  {
    if s == [] then [] else Mapped(Init(s), f) + [f(Last(s))]
  }

  method Map<T, U>(c: Collection<T>, f: T -> U) returns (results: seq<U>)
    ensures results == Mapped(Elements(c), f)
  {
    results := [];
    var s := Elements(c);
    for i := 0 to |s|
      invariant results == Mapped(s[..i], f)
    {
      PrefixStep(s, i);
      results := results + [f(s[i])];
    }
    assert s[..|s|] == s;
  }

  /** The example in the comment above `map`. */
  lemma MapExample()
    ensures Mapped([1, 2], (n: int) => n * 3) == [3, 6]
  {
  }

  /** Mapping a concatenation maps each part. */
  lemma {:induction false} MapConcat<T, U>(a: seq<T>, b: seq<T>, f: T -> U)
    ensures Mapped(a + b, f) == Mapped(a, f) + Mapped(b, f)
  {
    if b != [] {
      assert Init(a + b) == a + Init(b);
      MapConcat(a, Init(b), f);
    } else {
      assert a + b == a;
    }
  }

  /*==========================================================================
    _.reduce
  ==========================================================================*/

  /**
    One call of reduce's callback: an `undefined` accumulator (checked on every
    element, not only the first) is replaced by the element; any other
    accumulator is combined with it.
   */
  function ReduceStep<T>(combine: (Js<T>, Js<T>) -> Js<T>, accumulator: Js<T>, value: Js<T>): Js<T>
  {
    if accumulator.Undefined? then value else combine(accumulator, value)
  }

  /** The accumulator `reduce` returns. */
  function Reduced<T>(s: seq<Js<T>>, combine: (Js<T>, Js<T>) -> Js<T>, seed: Js<T>): Js<T>
  {
    if s == [] then seed else ReduceStep(combine, Reduced(Init(s), combine, seed), Last(s))
  }

  /** The plain left fold of `f` from `a` over `s`, in index order. */
  function FoldLeft<A, B>(f: (A, B) -> A, a: A, s: seq<B>): A
  {
    if s == [] then a else f(FoldLeft(f, a, Init(s)), Last(s))
  }

  /** Passing `undefined` as the seed is the same as passing no seed. */
  method Reduce<T>(c: Collection<Js<T>>, combine: (Js<T>, Js<T>) -> Js<T>, seed: Js<T>)
    returns (accumulator: Js<T>)
    ensures accumulator == Reduced(Elements(c), combine, seed)
  {
    accumulator := seed;
    var s := Elements(c);
    for i := 0 to |s|
      invariant accumulator == Reduced(s[..i], combine, seed)
    {
      PrefixStep(s, i);
      if accumulator.Undefined? {
        accumulator := s[i];
      } else {
        accumulator := combine(accumulator, s[i]);
      }
    }
    assert s[..|s|] == s;
  }

  /**
    With a seed, and a callback that never returns `undefined`, `reduce` is the
    left fold of the callback over every element, the first one included.
   */
  lemma {:induction false} ReduceWithSeedIsFold<T>(s: seq<Js<T>>, combine: (Js<T>, Js<T>) -> Js<T>, seed: Js<T>)
    requires seed.Defined?
    requires forall a: Js<T>, x: Js<T> :: a.Defined? ==> combine(a, x).Defined?
    ensures Reduced(s, combine, seed) == FoldLeft(combine, seed, s)
    ensures Reduced(s, combine, seed).Defined?
  {
    if s != [] {
      ReduceWithSeedIsFold(Init(s), combine, seed);
    }
  }

  /**
    Without a seed, the first element becomes the accumulator without a call
    to the callback, and the callback folds the remaining elements into it.
   */
  lemma {:induction false} ReduceWithoutSeed<T>(s: seq<Js<T>>, combine: (Js<T>, Js<T>) -> Js<T>)
    requires s != [] && s[0].Defined?
    requires forall a: Js<T>, x: Js<T> :: a.Defined? ==> combine(a, x).Defined?
    ensures Reduced(s, combine, Undefined) == FoldLeft(combine, s[0], s[1..])
  {
    if |s| == 1 {
      assert Init(s) == [];
      assert s[1..] == [];
    } else {
      ReduceWithoutSeed(Init(s), combine);
      assert Init(s)[1..] == Init(s[1..]);
      assert Last(s[1..]) == Last(s);
      ReduceWithSeedIsFold(s[1..][..|s| - 2], combine, s[0]);
    }
  }

  /**
    Once the accumulator is `undefined`, the next element replaces it, whatever
    the callback would have made of it.
   */
  lemma ReduceRestartsAfterUndefined<T>(s: seq<Js<T>>, combine: (Js<T>, Js<T>) -> Js<T>, seed: Js<T>, k: nat)
    requires k < |s|
    requires Reduced(s[..k], combine, seed).Undefined?
    ensures Reduced(s[..k + 1], combine, seed) == s[k]
  {
    PrefixStep(s, k);
  }

  /** Addition of defined numbers, used by the examples below. */
  function Add(a: Js<int>, b: Js<int>): Js<int>
  {
    if a.Defined? && b.Defined? then Defined(a.value + b.value) else Undefined
  }

  /** The sums in the comment above `reduce`, an empty reduction and a seeded one. */
  lemma ReduceExamples()
    ensures Reduced([Defined(1), Defined(2)], Add, Undefined) == Defined(3)
    ensures Reduced([Defined(1), Defined(2), Defined(3)], Add, Undefined) == Defined(6)
    ensures Reduced([], Add, Undefined) == Undefined
    ensures Reduced([Defined(1), Defined(2), Defined(3)], Add, Defined(10)) == Defined(16)
  {
    var s := [Defined(1), Defined(2), Defined(3)];
    assert Init(s) == [Defined(1), Defined(2)];
    assert Init(Init(s)) == [Defined(1)];
    assert Init(Init(Init(s))) == [];
  }

  /*==========================================================================
    _.filter
  ==========================================================================*/

  /** The results `filter` pushes: the elements the predicate accepts, in order. */
  function Filtered<T>(s: seq<T>, p: T -> bool): (r: seq<T>)
    ensures |r| <= |s|
    ensures forall i :: 0 <= i < |r| ==> r[i] in s && p(r[i])
    ensures forall i :: 0 <= i < |s| && p(s[i]) ==> s[i] in r
  {
    if s == [] then []
    else
      InitLast(s);
      var r := Filtered(Init(s), p);
      if p(Last(s)) then r + [Last(s)] else r
  }

  method Filter<T>(c: Collection<T>, p: T -> bool) returns (results: seq<T>)
    ensures results == Filtered(Elements(c), p)
  {
    results := [];
    var s := Elements(c);
    for i := 0 to |s|
      invariant results == Filtered(s[..i], p)
    {
      PrefixStep(s, i);
      if p(s[i]) {
        results := results + [s[i]];
      }
    }
    assert s[..|s|] == s;
  }

  /**
    Filtering keeps relative order: filtering a concatenation filters each
    part and concatenates the results.
   */
  lemma {:induction false} FilterConcat<T>(a: seq<T>, b: seq<T>, p: T -> bool)
    ensures Filtered(a + b, p) == Filtered(a, p) + Filtered(b, p)
  {
    if b == [] {
      assert a + b == a;
    } else {
      assert Init(a + b) == a + Init(b);
      FilterConcat(a, Init(b), p);
    }
  }

  /** Filtering twice by the same predicate changes nothing more. */
  lemma {:induction false} FilterIdempotent<T>(s: seq<T>, p: T -> bool)
    ensures Filtered(Filtered(s, p), p) == Filtered(s, p)
  {
    if s != [] {
      FilterIdempotent(Init(s), p);
      if p(Last(s)) {
        FilterConcat(Filtered(Init(s), p), [Last(s)], p);
        assert Filtered([Last(s)], p) == [Last(s)] by {
          assert Init([Last(s)]) == [];
        }
      }
    }
  }

  /** The example in the comment above `filter`. */
  lemma FilterExample()
    ensures Filtered([4, 5, 6], (n: int) => n % 2 == 0) == [4, 6]
  {
    var s := [4, 5, 6];
    assert Init(s) == [4, 5];
    assert Init(Init(s)) == [4];
    assert Init(Init(Init(s))) == [];
  }

  /*==========================================================================
    _.partition
  ==========================================================================*/

  /** The negation of a predicate. */
  function Not<T>(p: T -> bool): T -> bool
  {
    x => !p(x)
  }

  /** The pair of arrays `partition` fills: accepted elements, then rejected ones. */
  function Partitioned<T>(s: seq<T>, p: T -> bool): (r: (seq<T>, seq<T>))
    ensures |r.0| + |r.1| == |s|
    ensures forall i :: 0 <= i < |r.0| ==> r.0[i] in s && p(r.0[i])
    ensures forall i :: 0 <= i < |r.1| ==> r.1[i] in s && !p(r.1[i])
    ensures forall i :: 0 <= i < |s| ==> if p(s[i]) then s[i] in r.0 else s[i] in r.1
  {
    if s == [] then ([], [])
    else
      InitLast(s);
      var (matched, unmatched) := Partitioned(Init(s), p);
      if p(Last(s)) then (matched + [Last(s)], unmatched) else (matched, unmatched + [Last(s)])
  }

  method Partition<T>(c: Collection<T>, p: T -> bool) returns (matched: seq<T>, unmatched: seq<T>)
    ensures (matched, unmatched) == Partitioned(Elements(c), p)
  {
    matched, unmatched := [], [];
    var s := Elements(c);
    for i := 0 to |s|
      invariant (matched, unmatched) == Partitioned(s[..i], p)
    {
      PrefixStep(s, i);
      if p(s[i]) {
        matched := matched + [s[i]];
      } else {
        unmatched := unmatched + [s[i]];
      }
    }
    assert s[..|s|] == s;
  }

  /** The two groups are the filter by the predicate and the filter by its negation. */
  lemma {:induction false} PartitionIsTwoFilters<T>(s: seq<T>, p: T -> bool)
    ensures Partitioned(s, p) == (Filtered(s, p), Filtered(s, Not(p)))
  {
    if s != [] {
      PartitionIsTwoFilters(Init(s), p);
    }
  }

  /** Every occurrence of every element lands in exactly one group. */
  lemma {:induction false} PartitionIsPermutation<T>(s: seq<T>, p: T -> bool)
    ensures multiset(Partitioned(s, p).0) + multiset(Partitioned(s, p).1) == multiset(s)
  {
    if s != [] {
      PartitionIsPermutation(Init(s), p);
      InitLast(s);
    }
  }

  /** The example in the comment above `partition` (odd numbers are truthy). */
  lemma PartitionExample()
    ensures Partitioned([1, 2, 3], Odd) == ([1, 3], [2])
  {
    var s := [1, 2, 3];
    assert Init(s) == [1, 2];
    assert Init(Init(s)) == [1];
    assert Init(Init(Init(s))) == [];
    assert Partitioned([1], Odd) == ([] + [1], []);
    assert Init([1, 2]) == [1] && Last([1, 2]) == 2 && !Odd(2);
    assert [] + [1] == [1] && [] + [2] == [2] && [1] + [3] == [1, 3];
    assert Partitioned([1, 2], Odd) == ([1], [2]);
  }

  /** `n % 2` is truthy for odd numbers, negative ones included. */
  predicate Odd(n: int)
  {
    n % 2 != 0
  }

  /*==========================================================================
    _.every
  ==========================================================================*/

  /** The accumulator of `every` for a boolean predicate. */
  function AllPass<T>(s: seq<T>, p: T -> bool): (r: bool)
    ensures r <==> forall i :: 0 <= i < |s| ==> p(s[i])
  {
    if s == [] then true
    else
      InitLast(s);
      if !AllPass(Init(s), p) then false else p(Last(s))
  }

  /**
    The elements `every` passes to its predicate: each one while the
    accumulator is still true, none after the first rejection.
   */
  function Asked<T>(s: seq<T>, p: T -> bool): (r: seq<T>)
    ensures r <= s
    ensures AllPass(s, p) ==> r == s
  {
    if s == [] then []
    else if AllPass(Init(s), p) then s
    else Asked(Init(s), p)
  }

  /**
    The predicate is called on the elements up to and including the first one
    it rejects, and on no element after it.
   */
  lemma {:induction false} AskedUntilFirstRejection<T>(s: seq<T>, p: T -> bool)
    ensures Asked(s, p) <= s
    ensures forall i :: 0 <= i < |Asked(s, p)| - 1 ==> p(s[i])
    ensures |Asked(s, p)| < |s| ==> Asked(s, p) != [] && !p(s[|Asked(s, p)| - 1])
  {
    if s != [] && !AllPass(Init(s), p) {
      AskedUntilFirstRejection(Init(s), p);
      InitLast(s);
    }
  }

  /**
    `every` for a predicate whose results are booleans.  `asked` lists the
    elements the predicate is called on, in order.
   */
  method Every<T>(c: Collection<T>, p: T -> bool) returns (isGood: bool, asked: seq<T>)
    ensures isGood == AllPass(Elements(c), p)
    ensures asked == Asked(Elements(c), p)
  {
    isGood, asked := true, [];
    var s := Elements(c);
    for i := 0 to |s|
      invariant isGood == AllPass(s[..i], p)
      invariant asked == Asked(s[..i], p)
    {
      PrefixStep(s, i);
      if !isGood {
        isGood := false;
      } else {
        asked := asked + [s[i]];
        isGood := p(s[i]);
      }
    }
    assert s[..|s|] == s;
  }

  /** Once the accumulator of `every` is false, it stays false. */
  lemma {:induction false} AllPassStaysFalse<T>(s: seq<T>, p: T -> bool, i: nat, j: nat)
    requires i <= j <= |s|
    requires !AllPass(s[..i], p)
    ensures !AllPass(s[..j], p)
  {
    var k :| 0 <= k < i && !p(s[..i][k]);
    assert s[..j][k] == s[k];
  }

  /** The example in the comment above `every`, with `Boolean` as the predicate. */
  lemma EveryExample()
    ensures !AllPass([Defined(Bool(true)), Defined(Num(1)), Defined(Null), Defined(Str("yes"))], Truthy)
  {
    var s := [Defined(Bool(true)), Defined(Num(1)), Defined(Null), Defined(Str("yes"))];
    assert !Truthy(s[2]);
  }

  /*==========================================================================
    _.includes
  ==========================================================================*/

  /** The accumulator of `includes`. */
  function Found<T(==)>(s: seq<T>, target: T): (r: bool)
    ensures r <==> target in s
  {
    if s == [] then false
    else
      InitLast(s);
      if Found(Init(s), target) then true else Last(s) == target
  }

  method Includes<T(==)>(c: Collection<T>, target: T) returns (found: bool)
    ensures found == Found(Elements(c), target)
  {
    found := false;
    var s := Elements(c);
    for i := 0 to |s|
      invariant found == Found(s[..i], target)
    {
      PrefixStep(s, i);
      if !found {
        found := s[i] == target;
      }
    }
    assert s[..|s|] == s;
  }

  /** Once the accumulator of `includes` is true, it stays true. */
  lemma {:induction false} FoundStaysTrue<T>(s: seq<T>, target: T, i: nat, j: nat)
    requires i <= j <= |s|
    requires Found(s[..i], target)
    ensures Found(s[..j], target)
  {
    var k :| 0 <= k < i && s[..i][k] == target;
    assert s[..j][k] == target;
  }

  /** The examples in the comment above `includes`, an empty array and a miss. */
  lemma IncludesExamples()
    ensures Found([1, 2, 3], 1) && Found([1, 2, 3], 2)
    ensures !Found([1, 2, 3], 4)
    ensures !Found([], 1)
  {
  }

  /*==========================================================================
    filter and partition, as calls to reduce
  ==========================================================================*/

  /**
    The values that `filter`'s and `partition`'s calls to `reduce` handle, in
    one type: an element of the collection, the results array `filter` pushes
    to, or the two arrays `partition` pushes to.
   */
  datatype Value<T> = Item(item: T) | List(items: seq<T>) | Pair(matched: seq<T>, unmatched: seq<T>)

  /** The collection as `reduce` sees it: every element a defined item. */
  function Items<T>(s: seq<T>): seq<Js<Value<T>>>
  {
    Mapped(s, (x: T) => Defined(Item(x)))
  }

  lemma ItemsStep<T>(s: seq<T>)
    requires s != []
    ensures Items(s) != [] && Init(Items(s)) == Items(Init(s)) && Last(Items(s)) == Defined(Item(Last(s)))
  {
    assert Init(Items(s)) == Items(Init(s));
  }

  /**
    The callback `filter` passes to `reduce`: push the value when the
    predicate accepts it, and return the results array.  It never meets an
    accumulator other than that array.
   */
  function FilterCallback<T>(p: T -> bool): (Js<Value<T>>, Js<Value<T>>) -> Js<Value<T>>
  {
    (results: Js<Value<T>>, value: Js<Value<T>>) =>
      if results.Defined? && results.value.List? && value.Defined? && value.value.Item? && p(value.value.item)
      then Defined(List(results.value.items + [value.value.item]))
      else results
  }

  /** `filter` as written, a `reduce` from `[]`, returns exactly `Filtered`. */
  lemma {:induction false} FilterIsReduce<T>(s: seq<T>, p: T -> bool)
    ensures Reduced(Items(s), FilterCallback(p), Defined(List([]))) == Defined(List(Filtered(s, p)))
  {
    if s != [] {
      FilterIsReduce(Init(s), p);
      ItemsStep(s);
    }
  }

  /** The callback `partition` passes to `reduce`: push to group 0 or group 1. */
  function PartitionCallback<T>(p: T -> bool): (Js<Value<T>>, Js<Value<T>>) -> Js<Value<T>>
  {
    (partitions: Js<Value<T>>, value: Js<Value<T>>) =>
      if partitions.Defined? && partitions.value.Pair? && value.Defined? && value.value.Item? then
        var x := value.value.item;
        if p(x) then Defined(Pair(partitions.value.matched + [x], partitions.value.unmatched))
        else Defined(Pair(partitions.value.matched, partitions.value.unmatched + [x]))
      else partitions
  }

  /** `partition` as written, a `reduce` from `[[], []]`, returns exactly `Partitioned`. */
  lemma {:induction false} PartitionIsReduce<T>(s: seq<T>, p: T -> bool)
    ensures Reduced(Items(s), PartitionCallback(p), Defined(Pair([], [])))
         == Defined(Pair(Partitioned(s, p).0, Partitioned(s, p).1))
  {
    if s != [] {
      PartitionIsReduce(Init(s), p);
      ItemsStep(s);
    }
  }

  /*==========================================================================
    _.at
  ==========================================================================*/

  /** An argument after the collection: one index, or an array of indices. */
  datatype AtArg = Index(i: int) | IndexList(indices: seq<int>)

  /** Indices given one argument each. */
  function Spread(indices: seq<int>): seq<AtArg>
  {
    Mapped(indices, (i: int) => Index(i))
  }

  /**
    The keys `at` looks up: when the first argument is an array it replaces
    all of the arguments, otherwise the arguments are the keys.
   */
  function Unpack(args: seq<AtArg>): seq<AtArg>
  {
    if args != [] && args[0].IndexList? then Spread(args[0].indices) else args
  }

  /**
    `collection[key]` on an array.  An array used as a key is converted to a
    string, so only a one-element array names a position.
   */
  function Get<T>(s: seq<T>, key: AtArg): Js<T>
  {
    match key
    case Index(i) => if 0 <= i < |s| then Defined(s[i]) else Undefined
    case IndexList(l) => if |l| == 1 && 0 <= l[0] < |s| then Defined(s[l[0]]) else Undefined
  }

  /** The results `at` pushes: one lookup per key, in the order of the keys. */
  function Picked<T>(s: seq<T>, keys: seq<AtArg>): (r: seq<Js<T>>)
    ensures |r| == |keys|
    ensures forall j :: 0 <= j < |keys| && keys[j].Index? ==>
      r[j] == if 0 <= keys[j].i < |s| then Defined(s[keys[j].i]) else Undefined
    ensures forall j :: 0 <= j < |keys| && keys[j].IndexList? ==>
      r[j] == if |keys[j].indices| == 1 && 0 <= keys[j].indices[0] < |s| then Defined(s[keys[j].indices[0]]) else Undefined
  {
    if keys == [] then [] else Picked(s, Init(keys)) + [Get(s, Last(keys))]
  }

  method At<T>(collection: seq<T>, args: seq<AtArg>) returns (results: seq<Js<T>>)
    ensures results == Picked(collection, Unpack(args))
  {
    var indices := args;
    if indices != [] && indices[0].IndexList? {
      indices := Spread(indices[0].indices);
    }
    results := [];
    for i := 0 to |indices|
      invariant results == Picked(collection, indices[..i])
    {
      PrefixStep(indices, i);
      results := results + [Get(collection, indices[i])];
    }
    assert indices[..|indices|] == indices;
  }

  /**
    One array of indices and the same indices spread over the arguments give
    the same result: each requested position in the order requested, and
    `undefined` where the position is out of range.  Arguments after a
    leading array are ignored.
   */
  lemma AtPacksOrSpreads<T>(s: seq<T>, indices: seq<int>, rest: seq<AtArg>)
    ensures Picked(s, Unpack([IndexList(indices)] + rest)) == Picked(s, Unpack(Spread(indices)))
    ensures |Picked(s, Unpack(Spread(indices)))| == |indices|
    ensures forall j :: 0 <= j < |indices| ==>
      Picked(s, Unpack(Spread(indices)))[j] == if 0 <= indices[j] < |s| then Defined(s[indices[j]]) else Undefined
  {
    assert Unpack(Spread(indices)) == Spread(indices);
  }

  /** The example in the comment above `at`, and an index out of range. */
  lemma AtExamples()
    ensures Picked(['a', 'b', 'c'], Unpack([IndexList([0, 2])])) == [Defined('a'), Defined('c')]
    ensures Picked(['a', 'b', 'c'], Unpack([Index(5)])) == [Undefined]
    ensures Picked(['a', 'b', 'c'], Unpack([])) == []
  {
    AtPacksOrSpreads(['a', 'b', 'c'], [0, 2], []);
  }

  /** Looking up the position `indexOf` reports gives back the value searched for. */
  lemma AtIndexOf<T>(s: seq<T>, value: T)
    requires value in s
    ensures Picked(s, [Index(FirstIndex(s, value))]) == [Defined(value)]
  {
  }

  /*==========================================================================
    every, as written: the predicate's raw result
  ==========================================================================*/

  /** The JavaScript values other than `undefined` that the finding below needs. */
  datatype Prim = Null | Bool(b: bool) | Num(n: int) | Str(s: string)

  /** JavaScript truthiness. */
  predicate Truthy(v: Js<Prim>)
  {
    match v
    case Undefined => false
    case Defined(Null) => false
    case Defined(Bool(b)) => b
    case Defined(Num(n)) => n != 0
    case Defined(Str(s)) => s != ""
  }

  /** The predicate's result coerced to a boolean, as `Boolean(predicate(item))`. */
  function Coerced(pred: Js<Prim> -> Js<Prim>): Js<Prim> -> bool
  {
    v => Truthy(pred(v))
  }

  /** The callback `every` passes to `reduce`: false stays false, else the raw result. */
  function EveryCallback(pred: Js<Prim> -> Js<Prim>): (Js<Prim>, Js<Prim>) -> Js<Prim>
  {
    (isGood: Js<Prim>, item: Js<Prim>) => if !Truthy(isGood) then Defined(Bool(false)) else pred(item)
  }

  /** `every` as written: `reduce` with seed `true` and the raw-result callback. */
  function EveryAsWritten(c: Collection<Js<Prim>>, pred: Js<Prim> -> Js<Prim>): (r: Js<Prim>)
    ensures Elements(c) == [] ==> r == Defined(Bool(true))
  {
    Reduced(Elements(c), EveryCallback(pred), Defined(Bool(true)))
  }

  /**
    While the predicate never returns `undefined`, the result as written is
    truthy exactly when every element passes the predicate.
   */
  lemma {:induction false} EveryAsWrittenWithoutUndefined(s: seq<Js<Prim>>, pred: Js<Prim> -> Js<Prim>)
    requires forall v :: pred(v).Defined?
    ensures EveryAsWritten(Array(s), pred).Defined?
    ensures Truthy(EveryAsWritten(Array(s), pred)) == AllPass(s, Coerced(pred))
  {
    if s != [] {
      EveryAsWrittenWithoutUndefined(Init(s), pred);
    }
  }

  /** A predicate that returns `true` above 1 and falls off its end (`undefined`) otherwise. */
  function AboveOne(v: Js<Prim>): Js<Prim>
  {
    if v.Defined? && v.value.Num? && v.value.n > 1 then Defined(Bool(true)) else Undefined
  }

  /**
    As written, `every` accepts an element the predicate rejects: the
    predicate's `undefined` for 1 becomes the accumulator, reduce then takes
    the element 2 as the new accumulator, and 3 passes.
   */
  lemma EveryAsWrittenAcceptsFailingElement()
    ensures !Truthy(AboveOne(Defined(Num(1))))
    ensures EveryAsWritten(Array([Defined(Num(1)), Defined(Num(2)), Defined(Num(3))]), AboveOne) == Defined(Bool(true))
    ensures !AllPass([Defined(Num(1)), Defined(Num(2)), Defined(Num(3))], Coerced(AboveOne))
  {
    var one, two, three := Defined(Num(1)), Defined(Num(2)), Defined(Num(3));
    var s := [one, two, three];
    var callback := EveryCallback(AboveOne);
    assert AboveOne(one) == Undefined;
    assert Truthy(Defined(Bool(true)));
    assert callback(Defined(Bool(true)), one) == AboveOne(one);
    assert Init([one]) == [];
    assert Reduced([one], callback, Defined(Bool(true))) == Undefined;
    assert Init([one, two]) == [one] && Last([one, two]) == two;
    assert Reduced([one, two], callback, Defined(Bool(true))) == two;
    assert Init(s) == [one, two] && Last(s) == three;
    assert Truthy(two);
    assert callback(two, three) == AboveOne(three);
    assert Reduced(s, callback, Defined(Bool(true))) == AboveOne(three);
    assert !Truthy(Undefined);
    assert Coerced(AboveOne)(s[0]) == Truthy(AboveOne(one));
  }
}

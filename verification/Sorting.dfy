/** The standard library's stable sort by an integer key, and ordered-map key lookups. */
module Sorting {
  import opened Machine

  ghost predicate SortedBy<T(!new)>(key: T -> int, s: seq<T>) {
    forall i, j | 0 <= i < j < |s| :: key(s[i]) <= key(s[j])
  }

  /** Where `x` goes in `s`: after every element whose key is not greater. */
  function Slot<T>(key: T -> int, x: T, s: seq<T>): (p: nat)
    ensures p <= |s|
    ensures p > 0 ==> key(s[p - 1]) <= key(x)
    ensures forall i | p <= i < |s| :: key(x) < key(s[i])
  {
    if s == [] || key(s[|s| - 1]) <= key(x) then |s|
    else Slot(key, x, s[..|s| - 1])
  }

  function InsertBy<T>(key: T -> int, x: T, s: seq<T>): (r: seq<T>)
    ensures multiset(r) == multiset(s) + multiset{x}
  {
    var p := Slot(key, x, s);
    assert s == s[..p] + s[p..];
    s[..p] + [x] + s[p..]
  }

  function SortBy<T>(key: T -> int, s: seq<T>): (r: seq<T>)
    ensures multiset(r) == multiset(s)
  {
    if s == [] then []
    else
      assert s == s[..|s| - 1] + [s[|s| - 1]];
      InsertBy(key, s[|s| - 1], SortBy(key, s[..|s| - 1]))
  }

  lemma {:induction false} InsertByAt<T(!new)>(key: T -> int, x: T, s: seq<T>, i: nat)
    requires i <= |s|
    ensures var r, p := InsertBy(key, x, s), Slot(key, x, s);
      |r| == |s| + 1 && r[i] == if i < p then s[i] else if i == p then x else s[i - 1]
  {
  }

  lemma {:induction false} InsertKeepsSorted<T(!new)>(key: T -> int, x: T, s: seq<T>)
    requires SortedBy(key, s)
    ensures SortedBy(key, InsertBy(key, x, s))
  {
  }

  lemma {:induction false} SortBySorts<T(!new)>(key: T -> int, s: seq<T>)
    ensures SortedBy(key, SortBy(key, s))
  {
    if s != [] {
      SortBySorts(key, s[..|s| - 1]);
      InsertKeepsSorted(key, s[|s| - 1], SortBy(key, s[..|s| - 1]));
    }
  }

  lemma {:induction false} SortedFront<T(!new)>(key: T -> int, front: seq<T>, x: T)
    requires SortedBy(key, front + [x])
    ensures SortedBy(key, front)
    ensures Slot(key, x, front) == |front|
  {
    var s := front + [x];
    assert forall i | 0 <= i < |front| :: s[i] == front[i];
    if front != [] { assert key(s[|front| - 1]) <= key(s[|front|]); }
  }

  lemma {:induction false} SortedIsFixed<T(!new)>(key: T -> int, s: seq<T>)
    requires SortedBy(key, s)
    ensures SortBy(key, s) == s
  {
    hide SortedBy, Slot;
    if s != [] {
      var front, x := s[..|s| - 1], s[|s| - 1];
      assert s == front + [x];
      SortedFront(key, front, x);
      SortedIsFixed(key, front);
      assert InsertBy(key, x, front) == s;
    }
  }

  /** Pushing onto a sorted vector and re-sorting is one insertion. */
  lemma {:induction false} SortAfterPush<T(!new)>(key: T -> int, s: seq<T>, x: T)
    requires SortedBy(key, s)
    ensures SortBy(key, s + [x]) == InsertBy(key, x, s)
  {
    SortedIsFixed(key, s);
    assert (s + [x])[..|s|] == s;
  }

  // ----- ordered keys of a B-tree map -----

  predicate IsPredecessor(keys: set<int>, addr: int, k: int) {
    k in keys && k <= addr && forall j | j in keys && j <= addr :: j <= k
  }

  lemma {:induction false} PredecessorExists(keys: set<int>, addr: int, k: int)
    requires k in keys && k <= addr
    ensures exists p :: IsPredecessor(keys, addr, p)
  {
    if exists j :: j in keys && k < j <= addr {
      var j :| j in keys && k < j <= addr;
      var rest := keys - {k};
      PredecessorExists(rest, addr, j);
      var p :| IsPredecessor(rest, addr, p);
      assert j in rest && j <= p;
      forall i | i in keys && i <= addr
        ensures i <= p
      {
        if i != k { assert i in rest; }
      }
      assert IsPredecessor(keys, addr, p);
    } else {
      assert IsPredecessor(keys, addr, k);
    }
  }

  lemma {:induction false} PredecessorsAgree(keys: set<int>, addr: int)
    ensures forall p | IsPredecessor(keys, addr, p) :: p in keys
    ensures forall p, q | IsPredecessor(keys, addr, p) && IsPredecessor(keys, addr, q) :: p == q
  {
  }

  /** `range(..=addr).next_back()`: the greatest key not above `addr`. */
  function Predecessor(keys: set<int>, addr: int): (r: Option<int>)
    ensures r.Some? ==> IsPredecessor(keys, addr, r.value)
    ensures r.None? ==> forall k | k in keys :: addr < k
  {
    hide IsPredecessor;
    if exists k | k in keys :: k <= addr then
      assert exists p | p in keys :: IsPredecessor(keys, addr, p) by {
        var k :| k in keys && k <= addr;
        PredecessorExists(keys, addr, k);
        PredecessorsAgree(keys, addr);
      }
      PredecessorsAgree(keys, addr);
      var p :| p in keys && IsPredecessor(keys, addr, p);
      Some(p)
    else None
  }

  ghost predicate StrictlyIncreasing(s: seq<int>) {
    forall i, j | 0 <= i < j < |s| :: s[i] < s[j]
  }

  ghost predicate IsMinimum(keys: set<int>, k: int) {
    k in keys && forall j | j in keys :: k <= j
  }

  lemma {:induction false} MinimumExists(keys: set<int>, k: int)
    requires k in keys
    ensures exists m :: IsMinimum(keys, m)
  {
    if j :| j in keys && j < k {
      var rest := keys - {k};
      MinimumExists(rest, j);
      var m :| IsMinimum(rest, m);
      assert j in rest && m <= j;
      forall i | i in keys
        ensures m <= i
      {
        if i != k { assert i in rest; }
      }
      assert IsMinimum(keys, m);
    } else {
      assert IsMinimum(keys, k);
    }
  }

  /** The order in which a B-tree map is iterated. */
  function SortedKeys(keys: set<int>): (s: seq<int>)
    ensures StrictlyIncreasing(s)
    ensures forall k :: k in s <==> k in keys
  {
    if |keys| == 0 then []
    else
      assert exists k :: k in keys && forall j | j in keys :: k <= j by {
        var k :| k in keys;
        MinimumExists(keys, k);
        var m :| IsMinimum(keys, m);
      }
      var k :| k in keys && forall j | j in keys :: k <= j;
      [k] + SortedKeys(keys - {k})
  }
}

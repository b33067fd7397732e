/**
 * Stable sorting in descending order of an integer key, and the searches
 * the format-selection code runs over sorted and unsorted lists.
 *
 * Python's `sorted(xs, key=k, reverse=True)` and JavaScript's
 * `xs.sort((a, b) => k(b) - k(a))` are both stable descending sorts:
 * SortDesc models both, and SortedUnique shows that any sequence that is
 * sorted and keeps every key class in its original order is SortDesc.
 */
module StableSort {
  import opened Wrappers

  /** Inserts x in front of the first element whose key does not exceed x's. */
  function Insert<T>(x: T, t: seq<T>, key: T -> int): (r: seq<T>)
    ensures multiset(r) == multiset(t) + multiset{x}
    ensures |r| == |t| + 1
  {
    if t == [] || key(t[0]) <= key(x) then [x] + t
    else
      assert t == [t[0]] + t[1..];
      [t[0]] + Insert(x, t[1..], key)
  }

  /** Stable insertion sort, greatest key first, earlier element first on a tie. */
  function SortDesc<T>(s: seq<T>, key: T -> int): (r: seq<T>)
    ensures multiset(r) == multiset(s)
    ensures |r| == |s|
  {
    if s == [] then []
    else
      assert s == [s[0]] + s[1..];
      Insert(s[0], SortDesc(s[1..], key), key)
  }

  ghost predicate SortedDesc<T>(s: seq<T>, key: T -> int)
  {
    forall i, j :: 0 <= i < j < |s| ==> key(s[i]) >= key(s[j])
  }

  /** The elements of s whose key is k, in their order in s. */
  function KeyClass<T>(s: seq<T>, key: T -> int, k: int): seq<T>
  {
    if s == [] then []
    else (if key(s[0]) == k then [s[0]] else []) + KeyClass(s[1..], key, k)
  }

  lemma {:induction false} KeyClassMember<T>(s: seq<T>, key: T -> int, k: int, x: T)
    requires x in KeyClass(s, key, k)
    ensures x in s && key(x) == k
  {
    if s != [] {
      if x != s[0] || key(s[0]) != k {
        KeyClassMember(s[1..], key, k, x);
      }
    }
  }

  lemma KeyClassHead<T>(s: seq<T>, key: T -> int)
    requires s != []
    ensures KeyClass(s, key, key(s[0])) != []
  {
  }

  /** Inserting into a sequence bounded by b an element bounded by b keeps the bound. */
  lemma {:induction false} InsertBounded<T>(x: T, t: seq<T>, key: T -> int, b: int)
    requires key(x) <= b
    requires forall i :: 0 <= i < |t| ==> key(t[i]) <= b
    ensures forall i :: 0 <= i < |Insert(x, t, key)| ==> key(Insert(x, t, key)[i]) <= b
  {
    if t != [] && key(t[0]) > key(x) {
      InsertBounded(x, t[1..], key, b);
    }
  }

  lemma {:induction false} InsertSorted<T>(x: T, t: seq<T>, key: T -> int)
    requires SortedDesc(t, key)
    ensures SortedDesc(Insert(x, t, key), key)
  {
    if t != [] && key(t[0]) > key(x) {
      InsertSorted(x, t[1..], key);
      InsertBounded(x, t[1..], key, key(t[0]));
    }
  }

  /** The result of the sort is in non-increasing key order. */
  lemma {:induction false} SortDescSorted<T>(s: seq<T>, key: T -> int)
    ensures SortedDesc(SortDesc(s, key), key)
  {
    if s != [] {
      SortDescSorted(s[1..], key);
      InsertSorted(s[0], SortDesc(s[1..], key), key);
    }
  }

  /** KeyClass of a non-empty sequence, one step unfolded. */
  lemma KeyClassCons<T>(x: T, t: seq<T>, key: T -> int, k: int)
    ensures KeyClass([x] + t, key, k) == (if key(x) == k then [x] else []) + KeyClass(t, key, k)
  {
  }

  /** Two prefixes of which at least one is empty can be swapped. */
  lemma SwapPrefixes<T>(a: seq<T>, b: seq<T>, c: seq<T>)
    requires a == [] || b == []
    ensures a + (b + c) == b + (a + c)
  {
  }

  /**
   * Insert only passes over elements with a greater key than x's, so in x's
   * own key class x comes first, and other classes are untouched.
   */
  lemma {:induction false} InsertKeyClass<T>(x: T, t: seq<T>, key: T -> int, k: int)
    ensures KeyClass(Insert(x, t, key), key, k)
         == (if key(x) == k then [x] else []) + KeyClass(t, key, k)
  {
    var hx: seq<T> := if key(x) == k then [x] else [];
    if t == [] || key(t[0]) <= key(x) {
      KeyClassCons(x, t, key, k);
    } else {
      var r := Insert(x, t[1..], key);
      var h0: seq<T> := if key(t[0]) == k then [t[0]] else [];
      var rest := KeyClass(t[1..], key, k);
      InsertKeyClass(x, t[1..], key, k);
      KeyClassCons(t[0], r, key, k);
      assert KeyClass(t, key, k) == h0 + rest;
      SwapPrefixes(h0, hx, rest);
    }
  }

  /** Stability: elements with equal keys keep their relative order. */
  lemma {:induction false} SortDescStable<T>(s: seq<T>, key: T -> int, k: int)
    ensures KeyClass(SortDesc(s, key), key, k) == KeyClass(s, key, k)
  {
    if s != [] {
      SortDescStable(s[1..], key, k);
      InsertKeyClass(s[0], SortDesc(s[1..], key), key, k);
    }
  }

  /** Two sorted sequences with the same key classes start with the same element. */
  lemma HeadsAgree<T>(t: seq<T>, u: seq<T>, key: T -> int)
    requires t != [] && u != []
    requires SortedDesc(t, key) && SortedDesc(u, key)
    requires forall k :: KeyClass(t, key, k) == KeyClass(u, key, k)
    ensures t[0] == u[0]
  {
    var m, m' := key(t[0]), key(u[0]);
    var ct, cu := KeyClass(t, key, m), KeyClass(u, key, m');
    assert ct == [t[0]] + KeyClass(t[1..], key, m);
    assert cu == [u[0]] + KeyClass(u[1..], key, m');
    KeyClassMember(u, key, m, t[0]);
    var i :| 0 <= i < |u| && u[i] == t[0];
    KeyClassMember(t, key, m', u[0]);
    var j :| 0 <= j < |t| && t[j] == u[0];
    assert m == m' by {
      assert key(u[0]) >= key(u[i]);
      assert key(t[0]) >= key(t[j]);
    }
  }

  /** Equal sequences with equal prefixes have equal remainders. */
  lemma CancelPrefix<T>(h: seq<T>, a: seq<T>, b: seq<T>)
    requires h + a == h + b
    ensures a == b
  {
    assert a == (h + a)[|h|..];
    assert b == (h + b)[|h|..];
  }

  /** Removing an equal head from both sides keeps the key classes equal. */
  lemma TailClasses<T>(t: seq<T>, u: seq<T>, key: T -> int)
    requires t != [] && u != [] && t[0] == u[0]
    requires forall k :: KeyClass(t, key, k) == KeyClass(u, key, k)
    ensures forall k :: KeyClass(t[1..], key, k) == KeyClass(u[1..], key, k)
  {
    forall k ensures KeyClass(t[1..], key, k) == KeyClass(u[1..], key, k) {
      var h := if key(t[0]) == k then [t[0]] else [];
      assert KeyClass(t, key, k) == h + KeyClass(t[1..], key, k);
      assert KeyClass(u, key, k) == h + KeyClass(u[1..], key, k);
      CancelPrefix(h, KeyClass(t[1..], key, k), KeyClass(u[1..], key, k));
    }
  }

  /**
   * A sorted sequence is determined by its key classes: whatever stable
   * algorithm the runtime uses, its result equals SortDesc.
   */
  lemma {:induction false} SortedUnique<T>(t: seq<T>, u: seq<T>, key: T -> int)
    requires SortedDesc(t, key) && SortedDesc(u, key)
    requires forall k :: KeyClass(t, key, k) == KeyClass(u, key, k)
    ensures t == u
    decreases |t| + |u|
  {
    if t == [] && u != [] {
      KeyClassHead(u, key);
      assert false;
    } else if t != [] && u == [] {
      KeyClassHead(t, key);
      assert false;
    } else if t != [] {
      HeadsAgree(t, u, key);
      TailClasses(t, u, key);
      SortedUnique(t[1..], u[1..], key);
      assert t == [t[0]] + t[1..] && u == [u[0]] + u[1..];
    }
  }

  /** The first element of t that satisfies p. */
  function FirstWhere<T>(t: seq<T>, p: T -> bool): (r: Option<T>)
    ensures r.Some? ==> r.value in t && p(r.value)
    ensures r.Some? ==> exists i :: 0 <= i < |t| && t[i] == r.value && forall j :: 0 <= j < i ==> !p(t[j])
    ensures r.None? ==> forall i :: 0 <= i < |t| ==> !p(t[i])
  {
    if t == [] then None
    else if p(t[0]) then
      Some(t[0])
    else
      var r := FirstWhere(t[1..], p);
      assert r.Some? ==> exists i :: 0 <= i < |t| && t[i] == r.value && forall j :: 0 <= j < i ==> !p(t[j]) by {
        if r.Some? {
          var i :| 0 <= i < |t[1..]| && t[1..][i] == r.value && forall j :: 0 <= j < i ==> !p(t[1..][j]);
          assert t[i + 1] == r.value && forall j :: 0 <= j < i + 1 ==> !p(t[j]);
        }
      }
      r
  }

  /** Keeps x over the current best o when x satisfies p and its key is at least o's. */
  function Prefer<T>(x: T, o: Option<T>, p: T -> bool, key: T -> int): Option<T>
  {
    if !p(x) then o
    else if o.None? || key(o.value) <= key(x) then Some(x)
    else o
  }

  /** The earliest element satisfying p among those with the greatest key. */
  function ArgMaxWhere<T>(s: seq<T>, p: T -> bool, key: T -> int): Option<T>
  {
    if s == [] then None else Prefer(s[0], ArgMaxWhere(s[1..], p, key), p, key)
  }

  /**
   * Index k holds an element satisfying p whose key is the greatest among
   * those satisfying p, and every earlier such element has a smaller key.
   */
  ghost predicate FirstMaximal<T>(s: seq<T>, p: T -> bool, key: T -> int, k: int)
  {
    && 0 <= k < |s|
    && p(s[k])
    && (forall j :: 0 <= j < |s| && p(s[j]) ==> key(s[j]) <= key(s[k]))
    && (forall j :: 0 <= j < k && p(s[j]) ==> key(s[j]) < key(s[k]))
  }

  lemma {:induction false} ArgMaxWhereIsFirstMaximal<T>(s: seq<T>, p: T -> bool, key: T -> int)
    ensures ArgMaxWhere(s, p, key).None? <==> forall i :: 0 <= i < |s| ==> !p(s[i])
    ensures ArgMaxWhere(s, p, key).Some? ==>
      exists k :: FirstMaximal(s, p, key, k) && s[k] == ArgMaxWhere(s, p, key).value
  {
    if s != [] {
      var rest := ArgMaxWhere(s[1..], p, key);
      ArgMaxWhereIsFirstMaximal(s[1..], p, key);
      if rest.Some? {
        var k' :| FirstMaximal(s[1..], p, key, k') && s[1..][k'] == rest.value;
        if p(s[0]) && key(rest.value) <= key(s[0]) {
          assert FirstMaximal(s, p, key, 0);
        } else {
          assert FirstMaximal(s, p, key, k' + 1);
        }
      } else if p(s[0]) {
        assert FirstMaximal(s, p, key, 0);
      }
    }
  }

  /** ArgMaxWhere read from the other end: extending s by one element x. */
  lemma {:induction false} ArgMaxWhereAppend<T>(s: seq<T>, x: T, p: T -> bool, key: T -> int)
    ensures var a := ArgMaxWhere(s, p, key);
      ArgMaxWhere(s + [x], p, key)
        == if !p(x) then a
           else if a.None? || key(x) > key(a.value) then Some(x)
           else a
  {
    if s != [] {
      assert (s + [x])[1..] == s[1..] + [x];
      ArgMaxWhereAppend(s[1..], x, p, key);
    }
  }

  lemma {:induction false} FirstWhereInsert<T>(x: T, t: seq<T>, p: T -> bool, key: T -> int)
    requires SortedDesc(t, key)
    ensures FirstWhere(Insert(x, t, key), p) == Prefer(x, FirstWhere(t, p), p, key)
  {
    if t != [] {
      if key(t[0]) <= key(x) {
        var f := FirstWhere(t, p);
        if f.Some? {
          var i :| 0 <= i < |t| && t[i] == f.value;
          assert key(t[0]) >= key(t[i]);
        }
      } else {
        FirstWhereInsert(x, t[1..], p, key);
      }
    }
  }

  /**
   * Taking the first element satisfying p after a stable descending sort
   * picks the same element as the one-pass ArgMaxWhere.
   */
  lemma {:induction false} FirstAfterSortIsArgMax<T>(s: seq<T>, p: T -> bool, key: T -> int)
    ensures FirstWhere(SortDesc(s, key), p) == ArgMaxWhere(s, p, key)
  {
    if s != [] {
      FirstAfterSortIsArgMax(s[1..], p, key);
      SortDescSorted(s[1..], key);
      FirstWhereInsert(s[0], SortDesc(s[1..], key), p, key);
    }
  }

  /** The elements of s that satisfy p, in order (Array.prototype.filter, or a push loop). */
  function Keep<T>(s: seq<T>, p: T -> bool): (r: seq<T>)
    ensures forall x :: x in r ==> x in s && p(x)
    ensures forall i :: 0 <= i < |s| && p(s[i]) ==> s[i] in r
    ensures |r| <= |s|
  {
    if s == [] then []
    else Keep(s[..|s| - 1], p) + (if p(s[|s| - 1]) then [s[|s| - 1]] else [])
  }

  /** Keeping p and keeping its complement splits s without loss or addition. */
  lemma {:induction false} KeepPartition<T>(s: seq<T>, p: T -> bool, q: T -> bool)
    requires forall x :: q(x) == !p(x)
    ensures multiset(Keep(s, p)) + multiset(Keep(s, q)) == multiset(s)
  {
    if s != [] {
      var init := s[..|s| - 1];
      KeepPartition(init, p, q);
      assert s == init + [s[|s| - 1]];
    }
  }

  /** Keep looks at the last element alone. */
  lemma KeepSnoc<T>(u: seq<T>, x: T, p: T -> bool)
    ensures Keep(u + [x], p) == Keep(u, p) + (if p(x) then [x] else [])
  {
    assert (u + [x])[..|u|] == u;
  }

  /** Keeping from a concatenation keeps from each part, in order. */
  lemma {:induction false} KeepAppend<T>(s: seq<T>, t: seq<T>, p: T -> bool)
    ensures Keep(s + t, p) == Keep(s, p) + Keep(t, p)
    decreases |t|
  {
    if t == [] {
      assert s + t == s;
    } else {
      var init, last := t[..|t| - 1], t[|t| - 1];
      var tail := if p(last) then [last] else [];
      assert s + t == (s + init) + [last];
      assert t == init + [last];
      calc {
        Keep(s + t, p);
        { KeepSnoc(s + init, last, p); }
        Keep(s + init, p) + tail;
        { KeepAppend(s, init, p); }
        (Keep(s, p) + Keep(init, p)) + tail;
        Keep(s, p) + (Keep(init, p) + tail);
        { KeepSnoc(init, last, p); }
        Keep(s, p) + Keep(t, p);
      }
    }
  }

  /** Each element is kept as often as it occurs when it satisfies p, and never otherwise. */
  lemma {:induction false} KeepCount<T>(s: seq<T>, p: T -> bool, x: T)
    ensures multiset(Keep(s, p))[x] == if p(x) then multiset(s)[x] else 0
  {
    if s != [] {
      var init := s[..|s| - 1];
      KeepCount(init, p, x);
      assert s == init + [s[|s| - 1]];
    }
  }
}

/** `list.sort(key=..., reverse=True)` on a sequence: a stable sort into
    non-increasing key order. Entries with equal keys keep the order they had
    in the input, as Python guarantees for `reverse=True` too. */
module StableSort {

  /** Keys never increase from left to right. */
  ghost predicate SortedDesc<T>(s: seq<T>, key: T -> int)
  {
    forall p, q :: 0 <= p < q < |s| ==> key(s[p]) >= key(s[q])
  }

  /** The entries of `s` whose key is `k`, in the order `s` has them. */
  function WithKey<T>(s: seq<T>, key: T -> int, k: int): (r: seq<T>)
    ensures |r| <= |s|
  {
    if |s| == 0 then []
    else (if key(s[0]) == k then [s[0]] else []) + WithKey(s[1..], key, k)
  }

  /** `s` with `x` placed in front of the first entry whose key is not
      larger than its own. */
  function Insert<T>(x: T, s: seq<T>, key: T -> int): (r: seq<T>)
  {
    if |s| == 0 then [x]
    else if key(s[0]) > key(x) then [s[0]] + Insert(x, s[1..], key)
    else [x] + s
  }

  lemma {:induction false} InsertPermutes<T>(x: T, s: seq<T>, key: T -> int)
    ensures multiset(Insert(x, s, key)) == multiset(s) + multiset{x}
  {
    if |s| > 0 && key(s[0]) > key(x) {
      InsertPermutes(x, s[1..], key);
      assert s == [s[0]] + s[1..];
    }
  }

  lemma {:induction false} InsertSorted<T>(x: T, s: seq<T>, key: T -> int)
    requires SortedDesc(s, key)
    ensures SortedDesc(Insert(x, s, key), key)
  {
    if |s| > 0 && key(s[0]) > key(x) {
      var rest := Insert(x, s[1..], key);
      SortedTail(s, key);
      InsertSorted(x, s[1..], key);
      InsertPermutes(x, s[1..], key);
      assert s == [s[0]] + s[1..];
      forall q | 0 <= q < |rest| ensures key(s[0]) >= key(rest[q]) {
        assert rest[q] in multiset(rest);
        if rest[q] != x {
          assert rest[q] in multiset(s[1..]);
          var j :| 0 <= j < |s[1..]| && s[1..][j] == rest[q];
          assert s[j + 1] == rest[q];
        }
      }
    }
  }

  /** Dropping the head of a sorted sequence leaves it sorted. */
  lemma SortedTail<T>(s: seq<T>, key: T -> int)
    requires |s| > 0 && SortedDesc(s, key)
    ensures SortedDesc(s[1..], key)
  {
    var tail := s[1..];
    forall p, q | 0 <= p < q < |tail| ensures key(tail[p]) >= key(tail[q]) {
      assert tail[p] == s[p + 1] && tail[q] == s[q + 1];
    }
  }

  lemma {:induction false} InsertWithKey<T>(x: T, s: seq<T>, key: T -> int, k: int)
    ensures WithKey(Insert(x, s, key), key, k) == (if key(x) == k then [x] else []) + WithKey(s, key, k)
  {
    if |s| == 0 {
    } else if key(s[0]) > key(x) {
      var tail := s[1..];
      InsertWithKey(x, tail, key, k);
      var rest := Insert(x, tail, key);
      var r := [s[0]] + rest;
      assert r[1..] == rest;
      if key(s[0]) == k {
        assert WithKey(r, key, k) == [s[0]] + WithKey(rest, key, k);
        assert WithKey(s, key, k) == [s[0]] + WithKey(tail, key, k);
      } else {
        assert WithKey(r, key, k) == WithKey(rest, key, k);
        assert WithKey(s, key, k) == WithKey(tail, key, k);
      }
    } else {
      var r := [x] + s;
      assert r[1..] == s;
    }
  }

  /** The sort: a permutation of `s` in non-increasing key order that keeps
      the input order among equal keys. */
  function SortDesc<T>(s: seq<T>, key: T -> int): (r: seq<T>)
    ensures SortedDesc(r, key)
    ensures multiset(r) == multiset(s)
    ensures forall k :: WithKey(r, key, k) == WithKey(s, key, k)
  {
    if |s| == 0 then []
    else
      var rest := SortDesc(s[1..], key);
      assert s == [s[0]] + s[1..];
      InsertSorted(s[0], rest, key);
      InsertPermutes(s[0], rest, key);
      assert forall k :: WithKey(Insert(s[0], rest, key), key, k) == WithKey(s, key, k) by {
        forall k ensures WithKey(Insert(s[0], rest, key), key, k) == WithKey(s, key, k) {
          InsertWithKey(s[0], rest, key, k);
        }
      }
      Insert(s[0], rest, key)
  }

  // ---- Stability, stated on positions ------------------------------------

  /** An entry of `s` shows up in the selection for its own key. */
  lemma {:induction false} WithKeyIndex<T>(s: seq<T>, key: T -> int, p: nat) returns (a: nat)
    requires p < |s|
    ensures a < |WithKey(s, key, key(s[p]))| && WithKey(s, key, key(s[p]))[a] == s[p]
  {
    var k := key(s[p]);
    var tail := s[1..];
    var w, wt := WithKey(s, key, k), WithKey(tail, key, k);
    assert w == (if key(s[0]) == k then [s[0]] else []) + wt;
    if p == 0 {
      a := 0;
    } else {
      assert tail[p - 1] == s[p];
      var a' := WithKeyIndex(tail, key, p - 1);
      if key(s[0]) == k {
        a := a' + 1;
        assert w[a] == wt[a'];
      } else {
        a := a';
        assert w == wt;
      }
    }
  }

  /** Two entries with one key appear in that key's selection in the order
      they have in `s`. */
  lemma {:induction false} WithKeyPair<T>(s: seq<T>, key: T -> int, p: nat, q: nat) returns (a: nat, b: nat)
    requires p < q < |s| && key(s[p]) == key(s[q])
    ensures a < b < |WithKey(s, key, key(s[p]))|
    ensures WithKey(s, key, key(s[p]))[a] == s[p] && WithKey(s, key, key(s[p]))[b] == s[q]
  {
    var k := key(s[p]);
    var tail := s[1..];
    assert tail[q - 1] == s[q];
    if p == 0 {
      var b' := WithKeyIndex(tail, key, q - 1);
      a, b := 0, b' + 1;
    } else {
      assert tail[p - 1] == s[p];
      var a', b' := WithKeyPair(tail, key, p - 1, q - 1);
      if key(s[0]) == k {
        a, b := a' + 1, b' + 1;
      } else {
        a, b := a', b';
      }
    }
  }

  /** Every selected entry comes from some position of `s`. */
  lemma {:induction false} WithKeyMember<T>(s: seq<T>, key: T -> int, k: int, a: nat) returns (i: nat)
    requires a < |WithKey(s, key, k)|
    ensures i < |s| && s[i] == WithKey(s, key, k)[a]
  {
    var tail := s[1..];
    if key(s[0]) == k {
      if a == 0 {
        i := 0;
      } else {
        var i' := WithKeyMember(tail, key, k, a - 1);
        i := i' + 1;
      }
    } else {
      var i' := WithKeyMember(tail, key, k, a);
      i := i' + 1;
    }
  }

  /** Two selected entries come from positions of `s` in the same order. */
  lemma {:induction false} WithKeyOrigins<T>(s: seq<T>, key: T -> int, k: int, a: nat, b: nat) returns (i: nat, j: nat)
    requires a < b < |WithKey(s, key, k)|
    ensures i < j < |s|
    ensures s[i] == WithKey(s, key, k)[a] && s[j] == WithKey(s, key, k)[b]
  {
    var tail := s[1..];
    if key(s[0]) == k {
      if a == 0 {
        var j' := WithKeyMember(tail, key, k, b - 1);
        i, j := 0, j' + 1;
      } else {
        var i', j' := WithKeyOrigins(tail, key, k, a - 1, b - 1);
        i, j := i' + 1, j' + 1;
      }
    } else {
      var i', j' := WithKeyOrigins(tail, key, k, a, b);
      i, j := i' + 1, j' + 1;
    }
  }

  /** Stability on positions: two sorted entries with equal keys sit at
      positions of the input in the same order. */
  lemma SortKeepsOrder<T>(s: seq<T>, key: T -> int, p: nat, q: nat) returns (i: nat, j: nat)
    requires p < q < |SortDesc(s, key)|
    requires key(SortDesc(s, key)[p]) == key(SortDesc(s, key)[q])
    ensures i < j < |s|
    ensures s[i] == SortDesc(s, key)[p] && s[j] == SortDesc(s, key)[q]
  {
    var r := SortDesc(s, key);
    var a, b := WithKeyPair(r, key, p, q);
    i, j := WithKeyOrigins(s, key, key(r[p]), a, b);
  }
}

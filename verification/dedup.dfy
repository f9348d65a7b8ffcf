/** Keeping the first of each key: a pass over a sequence that maps each
    item to an entry or to nothing (`entry`) and drops an entry whose key
    (`key`) was already seen. This is the `seen_labels` part of the
    `get_formats` loop, stated for any entry and key functions. */
module Dedup {
  import opened Wrappers

  /** Item `d` has an entry, and its key is `k`. */
  ghost predicate Yields<D, O, K>(entry: D -> Option<O>, key: O -> K, d: D, k: K)
  {
    entry(d).Some? && key(entry(d).value) == k
  }

  /** Some item of `ds` has an entry with key `k`. */
  ghost predicate Produces<D, O, K>(entry: D -> Option<O>, key: O -> K, ds: seq<D>, k: K)
    decreases |ds|
  {
    |ds| > 0 && (Yields(entry, key, ds[0], k) || Produces(entry, key, ds[1..], k))
  }

  /** The position of the first item with an entry under key `k`. */
  ghost function Origin<D, O, K>(entry: D -> Option<O>, key: O -> K, ds: seq<D>, k: K): (i: nat)
    requires Produces(entry, key, ds, k)
    ensures i < |ds| && Yields(entry, key, ds[i], k)
    ensures forall j :: 0 <= j < i ==> !Yields(entry, key, ds[j], k)
    decreases |ds|
  {
    if Yields(entry, key, ds[0], k) then 0
    else
      var i := Origin(entry, key, ds[1..], k) + 1;
      assert forall j :: 1 <= j < i ==> ds[j] == ds[1..][j - 1];
      i
  }

  /** `Produces` holds exactly when some position yields key `k`. */
  lemma {:induction false} ProducesIff<D, O, K>(entry: D -> Option<O>, key: O -> K, ds: seq<D>, k: K)
    ensures Produces(entry, key, ds, k) <==> exists i :: 0 <= i < |ds| && Yields(entry, key, ds[i], k)
  {
    if |ds| > 0 {
      ProducesIff(entry, key, ds[1..], k);
      if exists i :: 0 <= i < |ds| && Yields(entry, key, ds[i], k) {
        var i :| 0 <= i < |ds| && Yields(entry, key, ds[i], k);
        if i > 0 { assert ds[1..][i - 1] == ds[i]; }
      }
      if Produces(entry, key, ds[1..], k) && !Yields(entry, key, ds[0], k) {
        var i :| 0 <= i < |ds| - 1 && Yields(entry, key, ds[1..][i], k);
        assert ds[i + 1] == ds[1..][i];
      }
    }
  }

  /** The pass itself: each item with an entry whose key is not yet in
      `seen` is kept, and its key is added. In `get_formats` this is the loop;
      there `seen` is the `seen_labels` set built so far. */
  function Collect<D, O, K(==)>(entry: D -> Option<O>, key: O -> K, ds: seq<D>, seen: set<K>): (r: seq<O>)
    ensures |r| <= |ds|
    ensures forall p :: 0 <= p < |r| ==> key(r[p]) !in seen
    ensures forall p, q :: 0 <= p < q < |r| ==> key(r[p]) != key(r[q])
  {
    if |ds| == 0 then []
    else
      match entry(ds[0])
      case None => Collect(entry, key, ds[1..], seen)
      case Some(o) =>
        if key(o) in seen then Collect(entry, key, ds[1..], seen)
        else [o] + Collect(entry, key, ds[1..], seen + {key(o)})
  }

  /** One step of `Collect`. */
  lemma CollectUnfold<D, O, K>(entry: D -> Option<O>, key: O -> K, ds: seq<D>, seen: set<K>)
    requires |ds| > 0
    ensures entry(ds[0]).None? ==> Collect(entry, key, ds, seen) == Collect(entry, key, ds[1..], seen)
    ensures entry(ds[0]).Some? && key(entry(ds[0]).value) in seen ==> Collect(entry, key, ds, seen) == Collect(entry, key, ds[1..], seen)
    ensures entry(ds[0]).Some? && key(entry(ds[0]).value) !in seen ==>
              Collect(entry, key, ds, seen) == [entry(ds[0]).value] + Collect(entry, key, ds[1..], seen + {key(entry(ds[0]).value)})
  {
  }

  // ---- What the loop keeps -------------------------------------------------

  /** Moving past the first item shifts first positions by one. */
  lemma OriginOfTail<D, O, K>(entry: D -> Option<O>, key: O -> K, ds: seq<D>, k: K)
    requires |ds| > 0 && Produces(entry, key, ds[1..], k) && !Yields(entry, key, ds[0], k)
    ensures Produces(entry, key, ds, k) && Origin(entry, key, ds, k) == Origin(entry, key, ds[1..], k) + 1
  {
  }

  /** Every kept entry is the entry of the first item yielding its
      key, and that key was not already seen. */
  lemma {:induction false} CollectOrigins<D, O, K>(entry: D -> Option<O>, key: O -> K, ds: seq<D>, seen: set<K>)
    ensures forall p :: 0 <= p < |Collect(entry, key, ds, seen)| ==>
              var o := Collect(entry, key, ds, seen)[p];
              key(o) !in seen && Produces(entry, key, ds, key(o)) && entry(ds[Origin(entry, key, ds, key(o))]) == Some(o)
  {
    if |ds| > 0 {
      var d, tail := ds[0], ds[1..];
      var r := Collect(entry, key, ds, seen);
      match entry(d)
      case None =>
        CollectOrigins(entry, key, tail, seen);
        forall p | 0 <= p < |r|
          ensures key(r[p]) !in seen && Produces(entry, key, ds, key(r[p])) && entry(ds[Origin(entry, key, ds, key(r[p]))]) == Some(r[p])
        {
          OriginOfTail(entry, key, ds, key(r[p]));
        }
      case Some(o) =>
        if key(o) in seen {
          CollectOrigins(entry, key, tail, seen);
          forall p | 0 <= p < |r|
            ensures key(r[p]) !in seen && Produces(entry, key, ds, key(r[p])) && entry(ds[Origin(entry, key, ds, key(r[p]))]) == Some(r[p])
          {
            OriginOfTail(entry, key, ds, key(r[p]));
          }
        } else {
          var seen' := seen + {key(o)};
          var rest := Collect(entry, key, tail, seen');
          CollectOrigins(entry, key, tail, seen');
          assert r == [o] + rest;
          forall p | 0 <= p < |r|
            ensures key(r[p]) !in seen && Produces(entry, key, ds, key(r[p])) && entry(ds[Origin(entry, key, ds, key(r[p]))]) == Some(r[p])
          {
            if p > 0 {
              assert r[p] == rest[p - 1];
              OriginOfTail(entry, key, ds, key(r[p]));
            }
          }
        }
    }
  }

  /** The kept entry at position `p` has a key that was not already seen
      and that some item yields. */
  lemma {:induction false} KeptFresh<D, O, K>(entry: D -> Option<O>, key: O -> K, ds: seq<D>, seen: set<K>, p: nat)
    requires p < |Collect(entry, key, ds, seen)|
    ensures key(Collect(entry, key, ds, seen)[p]) !in seen && Produces(entry, key, ds, key(Collect(entry, key, ds, seen)[p]))
    decreases |ds|
  {
    var tail := ds[1..];
    CollectUnfold(entry, key, ds, seen);
    match entry(ds[0])
    case None =>
      KeptFresh(entry, key, tail, seen, p);
    case Some(o) =>
      if key(o) in seen {
        KeptFresh(entry, key, tail, seen, p);
      } else if p > 0 {
        KeptFresh(entry, key, tail, seen + {key(o)}, p - 1);
      }
  }

  /** Two kept entries are in the order of their first items. */
  lemma {:induction false} CollectOrderPair<D, O, K>(entry: D -> Option<O>, key: O -> K, ds: seq<D>, seen: set<K>, p: nat, q: nat)
    requires p < q < |Collect(entry, key, ds, seen)|
    ensures var r := Collect(entry, key, ds, seen);
            Produces(entry, key, ds, key(r[p])) && Produces(entry, key, ds, key(r[q])) &&
            Origin(entry, key, ds, key(r[p])) < Origin(entry, key, ds, key(r[q]))
    decreases |ds|, 1
  {
    if entry(ds[0]).Some? && key(entry(ds[0]).value) !in seen {
      CollectOrderKept(entry, key, ds, seen, p, q);
    } else {
      CollectOrderSkipped(entry, key, ds, seen, p, q);
    }
  }

  /** `CollectOrderPair` when the first item is dropped. */
  lemma {:induction false} CollectOrderSkipped<D, O, K>(entry: D -> Option<O>, key: O -> K, ds: seq<D>, seen: set<K>, p: nat, q: nat)
    requires p < q < |Collect(entry, key, ds, seen)|
    requires entry(ds[0]).None? || key(entry(ds[0]).value) in seen
    ensures var r := Collect(entry, key, ds, seen);
            Produces(entry, key, ds, key(r[p])) && Produces(entry, key, ds, key(r[q])) &&
            Origin(entry, key, ds, key(r[p])) < Origin(entry, key, ds, key(r[q]))
    decreases |ds|, 0
  {
    var tail := ds[1..];
    var r := Collect(entry, key, ds, seen);
    CollectUnfold(entry, key, ds, seen);
    assert r == Collect(entry, key, tail, seen);
    CollectOrderPair(entry, key, tail, seen, p, q);
    KeptFresh(entry, key, tail, seen, p);
    KeptFresh(entry, key, tail, seen, q);
    assert !Yields(entry, key, ds[0], key(r[p])) && !Yields(entry, key, ds[0], key(r[q]));
    OriginOfTail(entry, key, ds, key(r[p]));
    OriginOfTail(entry, key, ds, key(r[q]));
  }

  /** `CollectOrderPair` when the first item is kept. */
  lemma {:induction false} CollectOrderKept<D, O, K>(entry: D -> Option<O>, key: O -> K, ds: seq<D>, seen: set<K>, p: nat, q: nat)
    requires p < q < |Collect(entry, key, ds, seen)|
    requires entry(ds[0]).Some? && key(entry(ds[0]).value) !in seen
    ensures var r := Collect(entry, key, ds, seen);
            Produces(entry, key, ds, key(r[p])) && Produces(entry, key, ds, key(r[q])) &&
            Origin(entry, key, ds, key(r[p])) < Origin(entry, key, ds, key(r[q]))
    decreases |ds|, 0
  {
    var tail := ds[1..];
    var r := Collect(entry, key, ds, seen);
    var o := entry(ds[0]).value;
    var seen' := seen + {key(o)};
    var rest := Collect(entry, key, tail, seen');
    CollectUnfold(entry, key, ds, seen);
    assert r == [o] + rest;
    var kp, kq := key(r[p]), key(r[q]);
    assert r[q] == rest[q - 1];
    KeptFresh(entry, key, tail, seen', q - 1);
    assert !Yields(entry, key, ds[0], kq);
    OriginOfTail(entry, key, ds, kq);
    if p > 0 {
      CollectOrderPair(entry, key, tail, seen', p - 1, q - 1);
      assert r[p] == rest[p - 1];
      KeptFresh(entry, key, tail, seen', p - 1);
      assert !Yields(entry, key, ds[0], kp);
      OriginOfTail(entry, key, ds, kp);
      assert Origin(entry, key, tail, kp) < Origin(entry, key, tail, kq);
    } else {
      assert r[p] == o;
      assert Yields(entry, key, ds[0], kp);
      assert Origin(entry, key, ds, kp) == 0;
    }
  }

  /** Kept entries are in the order of their first items. */
  lemma CollectOrder<D, O, K>(entry: D -> Option<O>, key: O -> K, ds: seq<D>, seen: set<K>)
    ensures forall p, q :: 0 <= p < q < |Collect(entry, key, ds, seen)| ==>
              var r := Collect(entry, key, ds, seen);
              Produces(entry, key, ds, key(r[p])) && Produces(entry, key, ds, key(r[q])) &&
              Origin(entry, key, ds, key(r[p])) < Origin(entry, key, ds, key(r[q]))
  {
    forall p, q | 0 <= p < q < |Collect(entry, key, ds, seen)|
      ensures var r := Collect(entry, key, ds, seen);
              Produces(entry, key, ds, key(r[p])) && Produces(entry, key, ds, key(r[q])) &&
              Origin(entry, key, ds, key(r[p])) < Origin(entry, key, ds, key(r[q]))
    {
      CollectOrderPair(entry, key, ds, seen, p, q);
    }
  }

  /** Nothing is lost: every key some item yields,
      and not already seen, is the key of a kept entry. */
  lemma {:induction false} CollectComplete<D, O, K>(entry: D -> Option<O>, key: O -> K, ds: seq<D>, seen: set<K>, k: K) returns (p: nat)
    requires Produces(entry, key, ds, k) && k !in seen
    ensures p < |Collect(entry, key, ds, seen)| && key(Collect(entry, key, ds, seen)[p]) == k
  {
    var d, tail := ds[0], ds[1..];
    var r := Collect(entry, key, ds, seen);
    match entry(d)
    case None =>
      p := CollectComplete(entry, key, tail, seen, k);
    case Some(o) =>
      if key(o) in seen {
        p := CollectComplete(entry, key, tail, seen, k);
      } else if key(o) == k {
        p := 0;
      } else {
        var seen' := seen + {key(o)};
        var p' := CollectComplete(entry, key, tail, seen', k);
        assert r == [o] + Collect(entry, key, tail, seen');
        p := p' + 1;
      }
  }

  /** `Collect` from position `i`, one step: the item at `i` is kept
      exactly when it has an entry whose key is not yet seen. */
  lemma CollectAt<D, O, K>(entry: D -> Option<O>, key: O -> K, ds: seq<D>, i: nat, seen: set<K>)
    requires i < |ds|
    ensures entry(ds[i]).Some? && key(entry(ds[i]).value) !in seen ==>
              Collect(entry, key, ds[i..], seen) == [entry(ds[i]).value] + Collect(entry, key, ds[i + 1..], seen + {key(entry(ds[i]).value)})
    ensures !(entry(ds[i]).Some? && key(entry(ds[i]).value) !in seen) ==>
              Collect(entry, key, ds[i..], seen) == Collect(entry, key, ds[i + 1..], seen)
  {
    assert ds[i..][1..] == ds[i + 1..];
    CollectUnfold(entry, key, ds[i..], seen);
  }
}

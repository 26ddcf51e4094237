/**
 A bounded map with an arrival queue beside it, for any type of key and value: inserting drops the
 oldest entries of a full map. The queue may hold a key several times; `Matched` says when it does not.
 */
module Fifo {

  /** The position of the first occurrence of `key`, or |order|. */
  function Position<K(==)>(order: seq<K>, key: K): (p: nat)
    ensures p <= |order|
    ensures p < |order| ==> order[p] == key
    ensures forall i | 0 <= i < p :: order[i] != key
  {
    if order == [] || order[0] == key then 0
    else
      var p := 1 + Position(order[1..], key);
      assert forall i | 1 <= i < p :: order[i] == order[1..][i - 1];
      p
  }

  function RemoveAt<K>(order: seq<K>, p: nat): (rest: seq<K>)
    requires p < |order|
    ensures |rest| == |order| - 1
    ensures forall i | 0 <= i < |rest| :: rest[i] == order[if i < p then i else i + 1]
  {
    order[..p] + order[p + 1..]
  }

  function RemoveFirst<K(==)>(order: seq<K>, key: K): seq<K>
  {
    var p := Position(order, key);
    if p < |order| then RemoveAt(order, p) else order
  }

  /** Drops the oldest queue entries, with their map entries, while the map is at the cap. */
  function Evict<K(==), V>(pending: map<K, V>, order: seq<K>, cap: nat): (map<K, V>, seq<K>)
    decreases |order|
  {
    if |pending| >= cap && order != [] then Evict(pending - {order[0]}, order[1..], cap) else (pending, order)
  }

  /** Every key of the map is somewhere in the queue. */
  ghost predicate Covered<K, V>(pending: map<K, V>, order: seq<K>)
  {
    forall k :: k in pending ==> k in order
  }

  lemma EvictOnlyRemoves<K, V>(pending: map<K, V>, order: seq<K>, cap: nat)
    ensures Evict(pending, order, cap).0.Keys <= pending.Keys
    ensures forall k :: k in Evict(pending, order, cap).0 ==> Evict(pending, order, cap).0[k] == pending[k]
    decreases |order|
  {}

  lemma PushKeys<K, V>(pending: map<K, V>, order: seq<K>, cap: nat, key: K, value: V)
    ensures Evict(pending, order, cap).0[key := value].Keys <= pending.Keys + {key}
  {
    EvictOnlyRemoves(pending, order, cap);
  }

  lemma {:induction false} EvictCovered<K, V>(pending: map<K, V>, order: seq<K>, cap: nat)
    requires Covered(pending, order) && 0 < cap
    ensures var (p, o) := Evict(pending, order, cap); Covered(p, o) && |p| < cap
    decreases |order|
  {
    if order == [] {
      assert pending.Keys == {};
    } else if |pending| >= cap {
      assert forall k :: k in order ==> k == order[0] || k in order[1..];
      EvictCovered(pending - {order[0]}, order[1..], cap);
    }
  }

  /** The map without the keys of the first `k` queue entries. */
  function WithoutOldest<K, V>(pending: map<K, V>, order: seq<K>, k: nat): map<K, V>
    requires k <= |order|
  {
    pending - set i | 0 <= i < k :: order[i]
  }

  /** Eviction drops the shortest prefix of the queue that brings the map under the cap, or the whole queue. */
  lemma {:induction false} EvictsShortestPrefix<K, V>(pending: map<K, V>, order: seq<K>, cap: nat) returns (k: nat)
    ensures k <= |order| && Evict(pending, order, cap) == (WithoutOldest(pending, order, k), order[k..])
    ensures |WithoutOldest(pending, order, k)| < cap || k == |order|
    ensures forall j | 0 <= j < k :: |WithoutOldest(pending, order, j)| >= cap
    decreases |order|
  {
    assert WithoutOldest(pending, order, 0) == pending;
    if |pending| >= cap && order != [] {
      var left, rest := pending - {order[0]}, order[1..];
      var n := EvictsShortestPrefix(left, rest, cap);
      k := n + 1;
      forall j | 0 <= j <= |rest|
        ensures WithoutOldest(pending, order, j + 1) == WithoutOldest(left, rest, j)
      {
        WithoutOldestTail(pending, order, j);
      }
      assert order[k..] == rest[n..];
      forall j | 0 <= j < k
        ensures |WithoutOldest(pending, order, j)| >= cap
      {
        if j > 0 {
          assert WithoutOldest(pending, order, j - 1 + 1) == WithoutOldest(left, rest, j - 1);
        }
      }
    } else {
      k := 0;
    }
  }

  lemma WithoutOldestTail<K, V>(pending: map<K, V>, order: seq<K>, j: nat)
    requires j < |order|
    ensures WithoutOldest(pending, order, j + 1) == WithoutOldest(pending - {order[0]}, order[1..], j)
  {
    var all, tail := set i | 0 <= i < j + 1 :: order[i], set i | 0 <= i < j :: order[1..][i];
    forall x
      ensures x in all <==> x == order[0] || x in tail
    {
      if x in tail {
        var i :| 0 <= i < j && order[1..][i] == x;
        assert order[i + 1] == x;
      }
      if x in all && x != order[0] {
        var i :| 0 <= i < j + 1 && order[i] == x;
        assert order[1..][i - 1] == x;
      }
    }
  }

  /** The keys of a covered map are among the queue's entries, so there are at least as many entries. */
  lemma {:induction false} CoveredSize<K, V>(pending: map<K, V>, order: seq<K>)
    requires Covered(pending, order)
    ensures |pending| <= |order|
  {
    if order == [] {
      assert pending.Keys == {};
    } else {
      assert forall k :: k in order ==> k == order[0] || k in order[1..];
      CoveredSize(pending - {order[0]}, order[1..]);
      RemoveSize(pending, order[0]);
    }
  }

  lemma EvictShortens<K, V>(pending: map<K, V>, order: seq<K>, cap: nat)
    ensures |Evict(pending, order, cap).1| <= |order|
    ensures |pending| >= cap && order != [] ==> |Evict(pending, order, cap).1| < |order|
    ensures |pending| < cap ==> Evict(pending, order, cap) == (pending, order)
    decreases |order|
  {}

  /** How many entries eviction drops that have no candidate in the map any more. */
  function Stale<K(==), V>(pending: map<K, V>, order: seq<K>, cap: nat): nat
    decreases |order|
  {
    if |pending| >= cap && order != []
    then Stale(pending - {order[0]}, order[1..], cap) + if order[0] in pending then 0 else 1
    else 0
  }

  /** Eviction drops as many queue entries as map entries, and the stale ones besides. */
  lemma {:induction false} EvictBalance<K, V>(pending: map<K, V>, order: seq<K>, cap: nat)
    ensures var (p, o) := Evict(pending, order, cap);
            |o| + |pending| + Stale(pending, order, cap) == |order| + |p|
    decreases |order|
  {
    if |pending| >= cap && order != [] {
      EvictBalance(pending - {order[0]}, order[1..], cap);
      RemoveSize(pending, order[0]);
    }
  }

  lemma RemoveSize<K, V>(m: map<K, V>, key: K)
    ensures |m - {key}| == |m| - if key in m then 1 else 0
  {
    assert (m - {key}).Keys == m.Keys - {key};
    assert |m - {key}| == |(m - {key}).Keys| && |m| == |m.Keys|;
  }

  lemma InsertSize<K, V>(m: map<K, V>, key: K, value: V)
    ensures |m[key := value]| == |m| + if key in m then 0 else 1
  {
    assert m[key := value].Keys == m.Keys + {key};
    assert |m[key := value]| == |m[key := value].Keys| && |m| == |m.Keys|;
  }

  lemma RemoveFirstKeepsOthers<K>(order: seq<K>, key: K)
    ensures forall k :: k in order && k != key ==> k in RemoveFirst(order, key)
    ensures forall k :: k in RemoveFirst(order, key) ==> k in order
  {
    var p := Position(order, key);
    if p < |order| {
      assert order == order[..p] + [key] + order[p + 1..];
    }
  }

  /** Taking a key out of a covered map takes one entry out of each structure, or nothing out of either. */
  lemma StrikeSizes<K, V>(pending: map<K, V>, order: seq<K>, key: K)
    requires Covered(pending, order)
    ensures |pending - {key}| == |pending| - if key in pending then 1 else 0
    ensures key in pending ==> |RemoveFirst(order, key)| == |order| - 1
  {
    RemoveSize(pending, key);
    assert key in pending ==> key in order;
  }

  ghost predicate NoRepeats<K>(order: seq<K>)
  {
    forall i, j | 0 <= i < j < |order| :: order[i] != order[j]
  }

  /** The map and the queue hold the same keys, each once. */
  ghost predicate Matched<K, V>(pending: map<K, V>, order: seq<K>)
  {
    && NoRepeats(order) && |order| == |pending| && Covered(pending, order)
    && forall i | 0 <= i < |order| :: order[i] in pending
  }

  lemma PushMatched<K, V>(pending: map<K, V>, order: seq<K>, key: K, value: V)
    requires Matched(pending, order) && key !in pending
    ensures Matched(pending[key := value], order + [key])
  {
    var p, o := pending[key := value], order + [key];
    assert |p| == |pending| + 1 by {
      assert p.Keys == pending.Keys + {key};
      assert |p| == |p.Keys|;
    }
    assert NoRepeats(o) by {
      forall i, j | 0 <= i < j < |o|
        ensures o[i] != o[j]
      {
        assert o[i] == order[i];
      }
    }
    assert Covered(p, o) by {
      assert o[|order|] == key && forall k :: k in order ==> k in o;
    }
  }

  lemma RemoveAtNoRepeats<K>(order: seq<K>, p: nat)
    requires p < |order| && NoRepeats(order)
    ensures NoRepeats(RemoveAt(order, p))
  {
    var rest := RemoveAt(order, p);
    forall i, j | 0 <= i < j < |rest|
      ensures rest[i] != rest[j]
    {
      assert rest[i] == order[if i < p then i else i + 1] && rest[j] == order[if j < p then j else j + 1];
    }
  }

  /** Inserting keeps the two structures matched exactly when the key was not there. */
  lemma PushMatchedExactly<K, V>(pending: map<K, V>, order: seq<K>, key: K, value: V)
    requires Matched(pending, order)
    ensures Matched(pending[key := value], order + [key]) <==> key !in pending
  {
    if key in pending {
      var p := Position(order, key);
      assert (order + [key])[p] == (order + [key])[|order|];
    } else {
      PushMatched(pending, order, key, value);
    }
  }

  lemma StrikeCovered<K, V>(pending: map<K, V>, order: seq<K>, p: nat)
    requires p < |order| && Covered(pending, order)
    ensures Covered(pending - {order[p]}, RemoveAt(order, p))
  {
    var rest := RemoveAt(order, p);
    forall k | k in pending && k != order[p]
      ensures k in rest
    {
      var i :| 0 <= i < |order| && order[i] == k;
      assert rest[if i < p then i else i - 1] == k;
    }
  }

  lemma StrikeMembers<K, V>(pending: map<K, V>, order: seq<K>, p: nat)
    requires p < |order| && NoRepeats(order) && forall i | 0 <= i < |order| :: order[i] in pending
    ensures |pending - {order[p]}| == |pending| - 1
    ensures forall i | 0 <= i < |order| - 1 :: RemoveAt(order, p)[i] in pending - {order[p]}
  {
    var left := pending - {order[p]};
    assert left.Keys == pending.Keys - {order[p]};
    assert |left| == |left.Keys| && |pending| == |pending.Keys|;
  }

  lemma StrikeMatchedAt<K, V>(pending: map<K, V>, order: seq<K>, p: nat)
    requires p < |order| && Matched(pending, order)
    ensures Matched(pending - {order[p]}, RemoveAt(order, p))
  {
    StrikeCovered(pending, order, p);
    StrikeMembers(pending, order, p);
    RemoveAtNoRepeats(order, p);
    hide Covered, NoRepeats;
  }

  lemma StrikeMatched<K, V>(pending: map<K, V>, order: seq<K>, key: K)
    requires Matched(pending, order) && key in pending
    ensures Position(order, key) < |order|
    ensures RemoveFirst(order, key) == RemoveAt(order, Position(order, key))
    ensures Matched(pending - {key}, RemoveFirst(order, key))
  {
    assert key in order;
    StrikeMatchedAt(pending, order, Position(order, key));
  }

  /** With the two structures matched, a full map loses its oldest key and no other. */
  lemma EvictMatched<K, V>(pending: map<K, V>, order: seq<K>, cap: nat)
    requires Matched(pending, order) && 0 < |order| <= cap
    ensures Evict(pending, order, cap) ==
            if |order| == cap then (pending - {order[0]}, order[1..]) else (pending, order)
    ensures |order| == cap ==> Matched(pending - {order[0]}, order[1..])
  {
    StrikeMatched(pending, order, order[0]);
    assert Position(order, order[0]) == 0 && RemoveFirst(order, order[0]) == order[1..];
  }

  lemma FullEvictsOldest<K, V>(pending: map<K, V>, order: seq<K>, cap: nat, key: K, value: V)
    requires Matched(pending, order) && |order| == cap > 0 && key !in pending
    ensures order[0] !in Evict(pending, order, cap).0[key := value]
  {
    EvictMatched(pending, order, cap);
  }

  // ---- The one ordered list the two structures stand for ----

  type Ledger<K, V> = seq<(K, V)>

  ghost function LedgerOf<K, V>(pending: map<K, V>, order: seq<K>): Ledger<K, V>
    requires forall i | 0 <= i < |order| :: order[i] in pending
  {
    seq(|order|, i requires 0 <= i < |order| => (order[i], pending[order[i]]))
  }

  /** The list with the entries for `key` struck out. */
  function Without<K(==), V>(l: Ledger<K, V>, key: K): Ledger<K, V>
  {
    if l == [] then [] else if l[0].0 == key then Without(l[1..], key) else [l[0]] + Without(l[1..], key)
  }

  /** The list with an entry added at the end, the oldest entry of a full list dropped. */
  function Append<K, V>(l: Ledger<K, V>, key: K, value: V, cap: nat): Ledger<K, V>
    requires 0 < cap
  {
    (if |l| < cap then l else l[1..]) + [(key, value)]
  }

  lemma {:induction false} WithoutAbsent<K, V>(l: Ledger<K, V>, key: K)
    requires forall i | 0 <= i < |l| :: l[i].0 != key
    ensures Without(l, key) == l
  {
    if l != [] {
      WithoutAbsent(l[1..], key);
      assert l == [l[0]] + l[1..];
    }
  }

  lemma {:induction false} WithoutAt<K, V>(l: Ledger<K, V>, p: nat)
    requires p < |l| && forall i | 0 <= i < |l| && i != p :: l[i].0 != l[p].0
    ensures Without(l, l[p].0) == RemoveAt(l, p)
  {
    if p == 0 {
      WithoutAbsent(l[1..], l[0].0);
    } else {
      WithoutAt(l[1..], p - 1);
      assert RemoveAt(l, p) == [l[0]] + RemoveAt(l[1..], p - 1);
    }
  }

  lemma LedgerPush<K, V>(pending: map<K, V>, order: seq<K>, key: K, value: V)
    requires Matched(pending, order) && key !in pending
    ensures Matched(pending[key := value], order + [key])
    ensures LedgerOf(pending[key := value], order + [key]) == LedgerOf(pending, order) + [(key, value)]
  {
    PushMatched(pending, order, key, value);
  }

  lemma LedgerTail<K, V>(pending: map<K, V>, order: seq<K>)
    requires order != [] && Matched(pending, order) && Matched(pending - {order[0]}, order[1..])
    ensures LedgerOf(pending - {order[0]}, order[1..]) == LedgerOf(pending, order)[1..]
  {
    hide Covered, NoRepeats;
  }

  lemma LedgerAppend<K, V>(pending: map<K, V>, order: seq<K>, key: K, value: V, cap: nat)
    requires Matched(pending, order) && |order| <= cap && 0 < cap && key !in pending
    ensures var (p, o) := Evict(pending, order, cap);
            && Matched(p[key := value], o + [key]) && |o| < cap
            && LedgerOf(p[key := value], o + [key]) == Append(LedgerOf(pending, order), key, value, cap)
  {
    if |order| == cap {
      EvictMatched(pending, order, cap);
      LedgerPush(pending - {order[0]}, order[1..], key, value);
      LedgerTail(pending, order);
      hide Matched, Evict, LedgerOf;
    } else {
      LedgerPush(pending, order, key, value);
    }
  }

  lemma LedgerRemoveAt<K, V>(pending: map<K, V>, order: seq<K>, p: nat)
    requires p < |order| && Matched(pending, order)
    requires Matched(pending - {order[p]}, RemoveAt(order, p))
    ensures LedgerOf(pending - {order[p]}, RemoveAt(order, p)) == RemoveAt(LedgerOf(pending, order), p)
  {
    var rest, left := RemoveAt(order, p), pending - {order[p]};
    hide Covered, NoRepeats;
    forall i | 0 <= i < |rest|
      ensures LedgerOf(left, rest)[i] == RemoveAt(LedgerOf(pending, order), p)[i]
    {
      assert rest[i] == order[if i < p then i else i + 1];
    }
  }

  lemma LedgerWithout<K, V>(pending: map<K, V>, order: seq<K>, p: nat)
    requires p < |order| && Matched(pending, order)
    ensures Without(LedgerOf(pending, order), order[p]) == RemoveAt(LedgerOf(pending, order), p)
  {
    hide Covered;
    WithoutAt(LedgerOf(pending, order), p);
  }

  lemma LedgerStrike<K, V>(pending: map<K, V>, order: seq<K>, key: K)
    requires Matched(pending, order)
    ensures key in pending ==>
              && Matched(pending - {key}, RemoveFirst(order, key))
              && LedgerOf(pending - {key}, RemoveFirst(order, key)) == Without(LedgerOf(pending, order), key)
    ensures key !in pending ==> Without(LedgerOf(pending, order), key) == LedgerOf(pending, order)
  {
    if key in pending {
      var p := Position(order, key);
      StrikeMatched(pending, order, key);
      LedgerWithout(pending, order, p);
      LedgerRemoveAt(pending, order, p);
      hide Covered, NoRepeats, Position, RemoveFirst, RemoveAt, Without, LedgerOf;
    } else {
      WithoutAbsent(LedgerOf(pending, order), key);
    }
  }

  lemma LedgerLookup<K, V>(pending: map<K, V>, order: seq<K>, key: K, value: V)
    requires Matched(pending, order)
    ensures key in pending && pending[key] == value <==> (key, value) in LedgerOf(pending, order)
  {
    if key in pending && pending[key] == value {
      assert LedgerOf(pending, order)[Position(order, key)] == (key, value);
    }
  }
}

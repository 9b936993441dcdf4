/**
  The transposition table of 5x5.cpp: a map from board key to entry plus a
  recency list of keys, newest at the front. The list is a global that
  outlives each solve call, while the map is created afresh by every solve.
  store evicts the key at the back of the list once the map holds
  capacity entries, then pushes the new key at the front; probing never
  touches the list, so the order is insertion order. Storing a key that is
  already present pushes a second node and leaves the old one in place, so
  the list can hold stale nodes whose eviction removes nothing.
*/
module LruCache {
  import Tt

  /**
    The map and the list together. The source keeps beside each entry an
    iterator into the list, which nothing ever reads; it is left out.
  */
  datatype Ledger = Ledger(entries: map<string, Tt.Entry>, keys: seq<string>)

  /** Every key of the map has a node in the list. */
  predicate Tracked(l: Ledger) {
    forall k :: k in l.entries ==> k in l.keys
  }

  /**
    store on the ledger: at capacity, pop the back key and erase it from
    the map; then push the new key at the front and write the entry.
  */
  function Insert(l: Ledger, capacity: int, key: string, e: Tt.Entry): (r: Ledger)
    requires |l.entries| >= capacity ==> l.keys != []
    ensures |r.keys| > 0 && r.keys[0] == key
    ensures key in r.entries && r.entries[key] == e
    ensures forall k :: k in r.entries && k != key ==> k in l.entries && r.entries[k] == l.entries[k]
    ensures |l.entries| < capacity ==> r.keys[1..] == l.keys && forall k :: k in l.entries ==> k in r.entries
    ensures |l.entries| >= capacity ==>
      var victim := l.keys[|l.keys| - 1];
      && r.keys[1..] == l.keys[..|l.keys| - 1]
      && (victim != key ==> victim !in r.entries)
      && (forall k :: k in l.entries && k != victim ==> k in r.entries)
  {
    if |l.entries| >= capacity then
      var victim := l.keys[|l.keys| - 1];
      Ledger((l.entries - {victim})[key := e], [key] + l.keys[..|l.keys| - 1])
    else Ledger(l.entries[key := e], [key] + l.keys)
  }

  /** Popping a back node never leaves a map key without a node. */
  lemma TrackedInsert(l: Ledger, capacity: int, key: string, e: Tt.Entry)
    requires Tracked(l) && (|l.entries| >= capacity ==> l.keys != [])
    ensures Tracked(Insert(l, capacity, key, e))
  {
    var r := Insert(l, capacity, key, e);
    forall k | k in r.entries
      ensures k in r.keys
    {
      if k != key && |l.entries| >= capacity {
        var n := |l.keys| - 1;
        var i :| 0 <= i < |l.keys| && l.keys[i] == k;
        assert i < n;
        assert r.keys[i + 1] == k;
      }
    }
  }

  /** With a positive capacity a full map has a back key to evict. */
  lemma VictimExists(l: Ledger, capacity: int)
    requires Tracked(l) && capacity >= 1
    ensures |l.entries| >= capacity ==> l.keys != []
  {
    if |l.entries| >= capacity {
      var k :| k in l.entries;
    }
  }

  /**
    The map grows by at most one entry per store, and does not grow at
    capacity when the back node names a key of the map.
  */
  lemma InsertSize(l: Ledger, capacity: int, key: string, e: Tt.Entry)
    requires |l.entries| >= capacity ==> l.keys != []
    ensures |Insert(l, capacity, key, e).entries| <= |l.entries| + 1
    ensures |l.entries| >= capacity && l.keys[|l.keys| - 1] in l.entries ==>
              |Insert(l, capacity, key, e).entries| <= |l.entries|
  {
    var r := Insert(l, capacity, key, e);
    var before := if |l.entries| >= capacity then (l.entries - {l.keys[|l.keys| - 1]}) else l.entries;
    assert r.entries == before[key := e];
    assert |r.entries| <= |before| + 1;
    if |l.entries| >= capacity && l.keys[|l.keys| - 1] in l.entries {
      assert before.Keys == l.entries.Keys - {l.keys[|l.keys| - 1]};
      assert |before.Keys| == |l.entries.Keys| - 1;
    } else if |l.entries| >= capacity {
      assert before.Keys == l.entries.Keys;
    }
  }

  /** The list names exactly the keys of the map, each once: no stale nodes. */
  predicate Exact(l: Ledger) {
    && (forall i, j :: 0 <= i < j < |l.keys| ==> l.keys[i] != l.keys[j])
    && Tracked(l)
    && (forall i :: 0 <= i < |l.keys| ==> l.keys[i] in l.entries)
  }

  /**
    Eviction is sound as long as no key is stored twice: storing a key the map
    does not hold keeps the list exact, and a map within capacity stays within it.
  */
  lemma FreshInsert(l: Ledger, capacity: int, key: string, e: Tt.Entry)
    requires Exact(l) && capacity >= 1 && |l.entries| <= capacity && key !in l.entries
    ensures |l.entries| >= capacity ==> l.keys != []
    ensures Exact(Insert(l, capacity, key, e))
    ensures |Insert(l, capacity, key, e).entries| <= capacity
  {
    VictimExists(l, capacity);
    InsertSize(l, capacity, key, e);
    FreshDistinct(l, capacity, key, e);
    TrackedInsert(l, capacity, key, e);
    FreshCovered(l, capacity, key, e);
  }

  /** A new key in front of distinct keys keeps them distinct. */
  lemma FreshDistinct(l: Ledger, capacity: int, key: string, e: Tt.Entry)
    requires Tracked(l) && (|l.entries| >= capacity ==> l.keys != []) && key !in l.entries
    requires forall i :: 0 <= i < |l.keys| ==> l.keys[i] in l.entries
    requires forall i, j :: 0 <= i < j < |l.keys| ==> l.keys[i] != l.keys[j]
    ensures var r := Insert(l, capacity, key, e);
      forall i, j :: 0 <= i < j < |r.keys| ==> r.keys[i] != r.keys[j]
  {
    var r := Insert(l, capacity, key, e);
    forall i, j | 0 <= i < j < |r.keys|
      ensures r.keys[i] != r.keys[j]
    {
      if i > 0 {
        assert r.keys[i] == l.keys[i - 1] && r.keys[j] == l.keys[j - 1];
      } else {
        assert r.keys[j] == l.keys[j - 1];
      }
    }
  }

  /** Popping the back of a distinct list keeps every other node's key in the map. */
  lemma FreshCovered(l: Ledger, capacity: int, key: string, e: Tt.Entry)
    requires (|l.entries| >= capacity ==> l.keys != [])
    requires forall i :: 0 <= i < |l.keys| ==> l.keys[i] in l.entries
    requires forall i, j :: 0 <= i < j < |l.keys| ==> l.keys[i] != l.keys[j]
    ensures var r := Insert(l, capacity, key, e);
      forall i :: 0 <= i < |r.keys| ==> r.keys[i] in r.entries
  {
    var r := Insert(l, capacity, key, e);
    forall i | 0 <= i < |r.keys|
      ensures r.keys[i] in r.entries
    {
      if i > 0 {
        assert r.keys[i] == l.keys[i - 1];
        if |l.entries| >= capacity {
          assert l.keys[i - 1] != l.keys[|l.keys| - 1];
        }
      }
    }
  }

  /** A run of stores, one per key, each writing entry e. */
  function InsertAll(l: Ledger, capacity: int, ks: seq<string>, e: Tt.Entry): (r: Ledger)
    requires Tracked(l) && capacity >= 1
    ensures Tracked(r)
    decreases |ks|
  {
    VictimExists(l, capacity);
    TrackedInsert(l, capacity, if ks == [] then "" else ks[0], e);
    if ks == [] then l
    else InsertAll(Insert(l, capacity, ks[0], e), capacity, ks[1..], e)
  }

  /**
    A run of distinct keys that the map does not hold never takes the map
    past capacity, and leaves the list exact.
  */
  lemma {:induction false} FreshRun(l: Ledger, capacity: int, ks: seq<string>, e: Tt.Entry)
    requires Exact(l) && capacity >= 1 && |l.entries| <= capacity
    requires forall i, j :: 0 <= i < j < |ks| ==> ks[i] != ks[j]
    requires forall i :: 0 <= i < |ks| ==> ks[i] !in l.entries
    ensures Exact(InsertAll(l, capacity, ks, e)) && |InsertAll(l, capacity, ks, e).entries| <= capacity
    decreases |ks|
  {
    if ks != [] {
      FreshInsert(l, capacity, ks[0], e);
      var r := Insert(l, capacity, ks[0], e);
      forall i | 0 <= i < |ks[1..]|
        ensures ks[1..][i] !in r.entries
      {
        assert ks[1..][i] == ks[i + 1] != ks[0];
      }
      FreshRun(r, capacity, ks[1..], e);
    }
  }

  /** The keys in the order the list holds them after a run: newest first. */
  function Reversed(ks: seq<string>): (r: seq<string>)
    ensures |r| == |ks|
  {
    if ks == [] then [] else Reversed(ks[1..]) + [ks[0]]
  }

  /** Position i of the reversed run holds the key i places from its end. */
  lemma {:induction false} ReversedIndex(ks: seq<string>)
    ensures forall i :: 0 <= i < |ks| ==> Reversed(ks)[i] == ks[|ks| - 1 - i]
  {
    if ks != [] {
      ReversedIndex(ks[1..]);
    }
  }

  /**
    The list after a run of new keys while the map holds as many keys as the
    list: each key goes in front and the list is cut at capacity.
  */
  function ListAfter(older: seq<string>, ks: seq<string>, capacity: int): (r: seq<string>)
    requires capacity >= 1 && |older| <= capacity
    ensures |r| == (if |ks| + |older| <= capacity then |ks| + |older| else capacity)
    decreases |ks|
  {
    if ks == [] then older
    else
      var first := ([ks[0]] + older)[..if 1 + |older| <= capacity then 1 + |older| else capacity];
      ListAfter(first, ks[1..], capacity)
  }

  /**
    A run of new, distinct keys moves the list as ListAfter says, and the map
    keeps as many keys as the list.
  */
  lemma {:induction false} RunList(l: Ledger, capacity: int, ks: seq<string>, e: Tt.Entry)
    requires Exact(l) && capacity >= 1 && |l.keys| == |l.entries| <= capacity
    requires forall i, j :: 0 <= i < j < |ks| ==> ks[i] != ks[j]
    requires forall i :: 0 <= i < |ks| ==> ks[i] !in l.entries
    ensures |InsertAll(l, capacity, ks, e).keys| == |InsertAll(l, capacity, ks, e).entries|
    ensures InsertAll(l, capacity, ks, e).keys == ListAfter(l.keys, ks, capacity)
    decreases |ks|
  {
    if ks != [] {
      RunStep(l, capacity, ks, e);
      RunList(Insert(l, capacity, ks[0], e), capacity, ks[1..], e);
      RunJoin(l, capacity, ks, e);
    }
  }

  /** The first store of a run leaves a ledger the rest of the run may start from. */
  lemma RunStep(l: Ledger, capacity: int, ks: seq<string>, e: Tt.Entry)
    requires ks != []
    requires Exact(l) && capacity >= 1 && |l.keys| == |l.entries| <= capacity
    requires forall i, j :: 0 <= i < j < |ks| ==> ks[i] != ks[j]
    requires forall i :: 0 <= i < |ks| ==> ks[i] !in l.entries
    ensures var r := Insert(l, capacity, ks[0], e);
      && Exact(r) && capacity >= 1 && |r.keys| == |r.entries| <= capacity
      && (forall i, j :: 0 <= i < j < |ks[1..]| ==> ks[1..][i] != ks[1..][j])
      && (forall i :: 0 <= i < |ks[1..]| ==> ks[1..][i] !in r.entries)
      && r.keys == ([ks[0]] + l.keys)[..if 1 + |l.keys| <= capacity then 1 + |l.keys| else capacity]
  {
    InsertFront(l, capacity, ks[0], e);
    TailFresh(l, capacity, ks, e);
    forall i, j | 0 <= i < j < |ks[1..]|
      ensures ks[1..][i] != ks[1..][j]
    {
      assert ks[1..][i] == ks[i + 1] && ks[1..][j] == ks[j + 1];
    }
  }

  /** The run from the first store on, joined to that store. */
  lemma RunJoin(l: Ledger, capacity: int, ks: seq<string>, e: Tt.Entry)
    requires ks != [] && Tracked(l) && capacity >= 1 && |l.keys| <= capacity
    requires |l.entries| >= capacity ==> l.keys != []
    requires var r := Insert(l, capacity, ks[0], e);
      && Tracked(r) && |r.keys| <= capacity
      && r.keys == ([ks[0]] + l.keys)[..if 1 + |l.keys| <= capacity then 1 + |l.keys| else capacity]
      && |InsertAll(r, capacity, ks[1..], e).keys| == |InsertAll(r, capacity, ks[1..], e).entries|
      && InsertAll(r, capacity, ks[1..], e).keys == ListAfter(r.keys, ks[1..], capacity)
    ensures |InsertAll(l, capacity, ks, e).keys| == |InsertAll(l, capacity, ks, e).entries|
    ensures InsertAll(l, capacity, ks, e).keys == ListAfter(l.keys, ks, capacity)
  {
    assert InsertAll(l, capacity, ks, e) == InsertAll(Insert(l, capacity, ks[0], e), capacity, ks[1..], e);
  }

  /**
    The eviction order: the list after a run holds the newest keys of the run
    and of the old list, newest first, cut at capacity.
  */
  lemma {:induction false} EvictOrder(older: seq<string>, ks: seq<string>, capacity: int)
    requires capacity >= 1 && |older| <= capacity
    ensures ListAfter(older, ks, capacity)
         == (Reversed(ks) + older)[..if |ks| + |older| <= capacity then |ks| + |older| else capacity]
    decreases |ks|
  {
    if ks != [] {
      var first := ([ks[0]] + older)[..if 1 + |older| <= capacity then 1 + |older| else capacity];
      EvictOrder(first, ks[1..], capacity);
      KeysAfter(ks, older, first, ListAfter(older, ks, capacity), capacity);
    }
  }

  /** The rest of a run of distinct new keys is still new after its first store. */
  lemma TailFresh(l: Ledger, capacity: int, ks: seq<string>, e: Tt.Entry)
    requires ks != [] && (|l.entries| >= capacity ==> l.keys != [])
    requires forall i, j :: 0 <= i < j < |ks| ==> ks[i] != ks[j]
    requires forall i :: 0 <= i < |ks| ==> ks[i] !in l.entries
    ensures forall i :: 0 <= i < |ks[1..]| ==> ks[1..][i] !in Insert(l, capacity, ks[0], e).entries
  {
    forall i | 0 <= i < |ks[1..]|
      ensures ks[1..][i] !in Insert(l, capacity, ks[0], e).entries
    {
      assert ks[1..][i] == ks[i + 1] != ks[0];
    }
  }

  /** One store of a new key puts it in front and cuts the list at capacity. */
  lemma InsertFront(l: Ledger, capacity: int, k: string, e: Tt.Entry)
    requires Exact(l) && capacity >= 1 && |l.keys| == |l.entries| <= capacity && k !in l.entries
    ensures var r := Insert(l, capacity, k, e);
      && Exact(r) && |r.keys| == |r.entries|
      && |r.keys| == (if 1 + |l.keys| <= capacity then 1 + |l.keys| else capacity)
      && r.keys == ([k] + l.keys)[..|r.keys|]
  {
    FreshInsert(l, capacity, k, e);
    FrontKeys(l, capacity, k, e);
  }

  /** The list and map sizes after one store of a new key. */
  lemma FrontKeys(l: Ledger, capacity: int, k: string, e: Tt.Entry)
    requires capacity >= 1 && |l.keys| == |l.entries| <= capacity && k !in l.entries
    requires l.keys != [] ==> l.keys[|l.keys| - 1] in l.entries
    ensures var r := Insert(l, capacity, k, e);
      && |r.keys| == |r.entries|
      && |r.keys| == (if 1 + |l.keys| <= capacity then 1 + |l.keys| else capacity)
      && r.keys == ([k] + l.keys)[..|r.keys|]
  {
    if |l.entries| >= capacity {
      EvictSize(l.entries, l.keys[|l.keys| - 1], k, e);
      assert Insert(l, capacity, k, e).keys == ([k] + l.keys)[..capacity];
    } else {
      assert Insert(l, capacity, k, e).keys == [k] + l.keys;
    }
  }

  /** Erasing a present key and writing a new one keeps the map's size. */
  lemma EvictSize(m: map<string, Tt.Entry>, victim: string, k: string, e: Tt.Entry)
    requires victim in m && k !in m
    ensures |(m - {victim})[k := e]| == |m|
  {
    assert (m - {victim}).Keys == m.Keys - {victim};
  }

  /** The list after a run, from the list after its first store. */
  lemma KeysAfter(ks: seq<string>, older: seq<string>, first: seq<string>, last: seq<string>, capacity: int)
    requires ks != [] && capacity >= 1 && |older| <= capacity
    requires |first| == (if 1 + |older| <= capacity then 1 + |older| else capacity)
    requires first == ([ks[0]] + older)[..|first|]
    requires last == (Reversed(ks[1..]) + first)[..if |ks[1..]| + |first| <= capacity then |ks[1..]| + |first| else capacity]
    ensures last == (Reversed(ks) + older)[..if |ks| + |older| <= capacity then |ks| + |older| else capacity]
  {
    var n := if |ks| + |older| <= capacity then |ks| + |older| else capacity;
    PrefixOfPrefix(Reversed(ks[1..]), [ks[0]] + older, |first|, n);
    ReversedSplit(ks, older);
  }

  /** The newest-first order of a run followed by an older list. */
  lemma ReversedSplit(ks: seq<string>, older: seq<string>)
    requires ks != []
    ensures Reversed(ks) + older == Reversed(ks[1..]) + ([ks[0]] + older)
  {
    var newer := Reversed(ks[1..]);
    assert Reversed(ks) == newer + [ks[0]];
    AppendAssoc(newer, [ks[0]], older);
  }

  lemma AppendAssoc(a: seq<string>, b: seq<string>, c: seq<string>)
    ensures (a + b) + c == a + (b + c)
  {
  }

  /** Cutting a suffix short first does not matter while the final cut stays inside it. */
  lemma PrefixOfPrefix(a: seq<string>, x: seq<string>, m: int, n: int)
    requires 0 <= m <= |x| && 0 <= n <= |a| + m
    ensures (a + x[..m])[..n] == (a + x)[..n]
  {
  }

  /**
    From an empty ledger, after distinct stores the map holds exactly the
    last capacity keys of the run: the earliest ones are the ones evicted.
  */
  lemma FreshEviction(capacity: int, ks: seq<string>, e: Tt.Entry)
    requires capacity >= 1
    requires forall i, j :: 0 <= i < j < |ks| ==> ks[i] != ks[j]
    ensures forall i :: 0 <= i < |ks| ==>
      (ks[i] in InsertAll(Ledger(map[], []), capacity, ks, e).entries <==> i >= |ks| - capacity)
  {
    var l := Ledger(map[], []);
    RunList(l, capacity, ks, e);
    EvictOrder(l.keys, ks, capacity);
    FreshRun(l, capacity, ks, e);
    var n := if |ks| <= capacity then |ks| else capacity;
    assert Reversed(ks) + l.keys == Reversed(ks);
    NewestCut(ks, n);
  }

  /** The first n keys of a reversed run of distinct keys are its last n. */
  lemma NewestCut(ks: seq<string>, n: int)
    requires 0 <= n <= |ks|
    requires forall i, j :: 0 <= i < j < |ks| ==> ks[i] != ks[j]
    ensures forall i :: 0 <= i < |ks| ==> (ks[i] in Reversed(ks)[..n] <==> i >= |ks| - n)
  {
    ReversedIndex(ks);
    forall i | 0 <= i < |ks|
      ensures ks[i] in Reversed(ks)[..n] <==> i >= |ks| - n
    {
      if i >= |ks| - n {
        assert Reversed(ks)[..n][|ks| - 1 - i] == ks[i];
      }
      if ks[i] in Reversed(ks)[..n] {
        var j :| 0 <= j < n && Reversed(ks)[..n][j] == ks[i];
        assert ks[|ks| - 1 - j] == ks[i];
      }
    }
  }

  /**
    The list outlives solve: when a fresh map meets a key left by an earlier
    call at the back of the list, evicting it removes nothing, and two
    stores leave two entries in a map of capacity 1.
  */
  lemma LeftoverOverflow(e: Tt.Entry)
    ensures |InsertAll(Ledger(map[], ["x"]), 1, ["a", "b"], e).entries| == 2
  {
    var l0 := Ledger(map[], ["x"]);
    var l1 := Insert(l0, 1, "a", e);
    assert l1 == Ledger(map["a" := e], ["a", "x"]);
    var l2 := Insert(l1, 1, "b", e);
    assert l2 == Ledger(map["a" := e, "b" := e], ["b", "a"]);
    assert InsertAll(l2, 1, [], e) == l2;
    assert ["a", "b"][1..] == ["b"];
    assert InsertAll(l1, 1, ["b"], e) == l2;
    assert |l2.entries| == 2;
  }

  /**
    Overwriting a key leaves a stale node: from an empty ledger with
    capacity 2, storing a, a, b, c and d evicts a once through its old node
    and then pops its second node without freeing room, leaving three
    entries.
  */
  lemma DuplicateOverflow(e: Tt.Entry)
    ensures |InsertAll(Ledger(map[], []), 2, ["a", "a", "b", "c", "d"], e).entries| == 3
  {
    var l1 := Insert(Ledger(map[], []), 2, "a", e);
    assert l1 == Ledger(map["a" := e], ["a"]);
    var l2 := Insert(l1, 2, "a", e);
    assert l2 == Ledger(map["a" := e], ["a", "a"]);
    var l3 := Insert(l2, 2, "b", e);
    assert l3 == Ledger(map["a" := e, "b" := e], ["b", "a", "a"]);
    EvictOldNode(e);
    EvictStaleNode(e);
    var l5 := Ledger(map["b" := e, "c" := e, "d" := e], ["d", "c", "b"]);
    assert InsertAll(l5, 2, [], e) == l5;
    assert InsertAll(Insert(l3, 2, "c", e), 2, ["d"], e) == l5;
    assert ["a", "a", "b", "c", "d"][1..][1..][1..] == ["c", "d"];
    assert InsertAll(l3, 2, ["c", "d"], e) == l5;
    ThreeKeys(e);
  }

  /** The first eviction pops the older node of a and erases a. */
  lemma EvictOldNode(e: Tt.Entry)
    ensures Insert(Ledger(map["a" := e, "b" := e], ["b", "a", "a"]), 2, "c", e)
         == Ledger(map["b" := e, "c" := e], ["c", "b", "a"])
  {
    var m := map["a" := e, "b" := e];
    assert |m| == 2;
    assert m - {"a"} == map["b" := e];
  }

  /** The second eviction pops the stale node of a and erases nothing. */
  lemma EvictStaleNode(e: Tt.Entry)
    ensures Insert(Ledger(map["b" := e, "c" := e], ["c", "b", "a"]), 2, "d", e)
         == Ledger(map["b" := e, "c" := e, "d" := e], ["d", "c", "b"])
  {
    var m := map["b" := e, "c" := e];
    assert |m| == 2;
    assert m - {"a"} == m;
  }

  lemma ThreeKeys(e: Tt.Entry)
    ensures |map["b" := e, "c" := e, "d" := e]| == 3
  {
    var m := map["b" := e, "c" := e];
    assert |map["b" := e]| == 1;
    assert "c" !in map["b" := e];
    assert |m| == 2;
    assert "d" !in m;
  }

  /** lru_list: the global recency list, newest key first. */
  class Recency {
    var keys: seq<string>

    constructor ()
      ensures keys == []
    {
      keys := [];
    }
  }

  /** The map one solve call creates and hands down the search. */
  class Table {
    var entries: map<string, Tt.Entry>

    constructor ()
      ensures entries == map[]
    {
      entries := map[];
    }

    /**
      store: classify the result, evict the back key of the list when the
      map is full, then push the key and overwrite its entry. The source
      reads the back of the list without checking it is non-empty; the
      requires says so.
    */
    method Store(lru: Recency, capacity: int, key: string, alphaOrg: int, beta: int, score: int, depth: int)
      requires |entries| >= capacity ==> lru.keys != []
      modifies this, lru
      ensures Ledger(entries, lru.keys)
           == Insert(Ledger(old(entries), old(lru.keys)), capacity, key, Tt.Entry(score, depth, Tt.Classify(alphaOrg, beta, score)))
    {
      var entry := Tt.Entry(score, depth, Tt.Classify(alphaOrg, beta, score));
      if |entries| >= capacity {
        var toEvict := lru.keys[|lru.keys| - 1];
        lru.keys := lru.keys[..|lru.keys| - 1];
        entries := entries - {toEvict};
      }
      lru.keys := [key] + lru.keys;
      entries := entries[key := entry];
    }
  }
}

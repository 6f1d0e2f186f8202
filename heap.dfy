/** The open set: a binary heap of node ids over a fixed-capacity array.
    Each node's slot is kept in a side table (the node's HeapIndex), so
    membership is a constant-time slot check. */
module Heaps {
  import opened Nodes

  /** C#'s `/` on int: truncation toward zero (Dafny's `/` is Euclidean). */
  function TruncDiv(a: int, b: int): (q: int)
    requires b > 0
    ensures a >= 0 ==> q == a / b
    ensures -b < a < 0 ==> q == 0
  {
    if a >= 0 then a / b else -((-a) / b)
  }

  /** The parent slot as SortUp computes it, (i - 1) / 2 with truncation:
      0 at the root, where an item is compared with itself. */
  function ParentIndex(i: int): (p: int)
    requires i >= 0
    ensures i == 0 ==> p == 0
    ensures i > 0 ==> 0 <= p < i && (i == 2 * p + 1 || i == 2 * p + 2)
  {
    TruncDiv(i - 1, 2)
  }

  /** Heap order on a sequence of keys: no slot outranks its parent. */
  ghost predicate IsHeap(s: seq<Costs>)
  {
    forall i :: 0 < i < |s| ==> !Outranks(s[i], s[ParentIndex(i)])
  }

  /** Heap order holds except between slot k and its parent, and k's
      children do not outrank k's parent: the state sifting k up repairs. */
  ghost predicate SiftUpReady(s: seq<Costs>, k: int)
  {
    && 0 <= k < |s|
    && (forall i :: 0 < i < |s| && i != k ==> !Outranks(s[i], s[ParentIndex(i)]))
    && (k > 0 ==> forall i :: 0 < i < |s| && ParentIndex(i) == k ==> !Outranks(s[i], s[ParentIndex(k)]))
  }

  /** Heap order holds except between slot k and its children, and k's
      children do not outrank k's parent: the state sifting k down repairs. */
  ghost predicate SiftDownReady(s: seq<Costs>, k: int)
  {
    && 0 <= k < |s|
    && (forall i :: 0 < i < |s| && ParentIndex(i) != k ==> !Outranks(s[i], s[ParentIndex(i)]))
    && (k > 0 ==> forall i :: 0 < i < |s| && ParentIndex(i) == k ==> !Outranks(s[i], s[ParentIndex(k)]))
  }

  function SwapAt<T>(s: seq<T>, i: int, j: int): (t: seq<T>)
    requires 0 <= i < |s| && 0 <= j < |s|
    ensures |t| == |s| && t[i] == s[j] && t[j] == s[i]
    ensures forall k :: 0 <= k < |s| && k != i && k != j ==> t[k] == s[k]
  {
    s[i := s[j]][j := s[i]]
  }

  /** In a heap no key outranks the root's. */
  lemma {:induction false} RootIsTop(s: seq<Costs>, i: int)
    requires IsHeap(s) && 0 <= i < |s|
    ensures !Outranks(s[i], s[0])
    decreases i
  {
    if i > 0 {
      RootIsTop(s, ParentIndex(i));
    }
  }

  /** Appending to a heap leaves the new last slot ready to sift up. */
  lemma AppendReady(s: seq<Costs>, x: Costs)
    requires IsHeap(s)
    ensures SiftUpReady(s + [x], |s|)
  {
    var t := s + [x];
    forall i | 0 < i < |t| && ParentIndex(i) == |s|
      ensures false
    {
    }
  }

  /** Sift-up step: swapping slot k with the parent it outranks moves the
      ready state to the parent. */
  lemma SiftUpStep(s: seq<Costs>, k: int)
    requires SiftUpReady(s, k) && k > 0 && Outranks(s[k], s[ParentIndex(k)])
    ensures SiftUpReady(SwapAt(s, k, ParentIndex(k)), ParentIndex(k))
  {
    var p := ParentIndex(k);
    var t := SwapAt(s, k, p);
    forall i | 0 < i < |t| && i != p
      ensures !Outranks(t[i], t[ParentIndex(i)])
    {
      if i == k {
      } else if ParentIndex(i) == k {
      } else if ParentIndex(i) == p {
        assert !Outranks(s[i], s[p]);
      }
    }
    if p > 0 {
      forall i | 0 < i < |t| && ParentIndex(i) == p
        ensures !Outranks(t[i], t[ParentIndex(p)])
      {
        assert !Outranks(s[p], s[ParentIndex(p)]);
        if i != k {
          assert !Outranks(s[i], s[p]);
        }
      }
    }
  }

  /** Raising the priority of slot k in a heap (the new key is not
      outranked by the old one) leaves k ready to sift up. */
  lemma RaisedKeyReady(s: seq<Costs>, k: int, x: Costs)
    requires IsHeap(s) && 0 <= k < |s| && !Outranks(s[k], x)
    ensures SiftUpReady(s[k := x], k)
  {
    var t := s[k := x];
    forall i | 0 < i < |t| && i != k
      ensures !Outranks(t[i], t[ParentIndex(i)])
    {
      if ParentIndex(i) == k {
        assert !Outranks(s[i], s[k]);
      }
    }
    if k > 0 {
      forall i | 0 < i < |t| && ParentIndex(i) == k
        ensures !Outranks(t[i], t[ParentIndex(k)])
      {
        assert !Outranks(s[i], s[k]) && !Outranks(s[k], s[ParentIndex(k)]);
      }
    }
  }

  /** Sift-up stops: once slot k does not outrank its parent, order holds. */
  lemma SiftUpDone(s: seq<Costs>, k: int)
    requires SiftUpReady(s, k) && (k == 0 || !Outranks(s[k], s[ParentIndex(k)]))
    ensures IsHeap(s)
  {
  }

  /** Sift-down step: swapping slot k with its higher-priority child c that
      outranks it moves the ready state to c. */
  lemma SiftDownStep(s: seq<Costs>, k: int, c: int)
    requires SiftDownReady(s, k) && 0 < c < |s| && ParentIndex(c) == k
    requires Outranks(s[c], s[k])
    requires forall j :: 0 < j < |s| && ParentIndex(j) == k ==> !Outranks(s[j], s[c])
    ensures SiftDownReady(SwapAt(s, k, c), c)
  {
    var t := SwapAt(s, k, c);
    forall i | 0 < i < |t| && ParentIndex(i) != c
      ensures !Outranks(t[i], t[ParentIndex(i)])
    {
      if i == c {
      } else if ParentIndex(i) == k {
      } else if i == k {
      }
    }
    forall i | 0 < i < |t| && ParentIndex(i) == c
      ensures !Outranks(t[i], t[k])
    {
      assert !Outranks(s[i], s[c]);
    }
  }

  /** Sift-down stops: once no child of k outranks it, order holds. */
  lemma SiftDownDone(s: seq<Costs>, k: int)
    requires SiftDownReady(s, k)
    requires forall j :: 0 < j < |s| && ParentIndex(j) == k ==> !Outranks(s[j], s[k])
    ensures IsHeap(s)
  {
  }

  /** One sift-down round: slot k's children are 2k+1 and 2k+2; c is the
      one of higher priority (the left one unless the right outranks it).
      Swapping when c outranks k keeps the ready state; stopping otherwise
      leaves a heap. */
  lemma SiftDownChoice(s: seq<Costs>, k: int, left: int, right: int, c: int)
    requires SiftDownReady(s, k) && left == 2 * k + 1 && right == 2 * k + 2 && left < |s|
    requires c == left || (c == right && right < |s|)
    requires c == right ==> Outranks(s[right], s[left])
    requires c == left && right < |s| ==> !Outranks(s[right], s[left])
    ensures Outranks(s[c], s[k]) ==> SiftDownReady(SwapAt(s, k, c), c)
    ensures !Outranks(s[c], s[k]) ==> IsHeap(s)
  {
    HigherChild(s, k, c);
    if Outranks(s[c], s[k]) {
      SiftDownStep(s, k, c);
    } else {
      NoChildOutranks(s, k, c);
      SiftDownDone(s, k);
    }
  }

  /** The chosen child c is not outranked by either child of k. */
  lemma HigherChild(s: seq<Costs>, k: int, c: int)
    requires 0 <= k && 2 * k + 1 < |s|
    requires c == 2 * k + 1 || (c == 2 * k + 2 && c < |s|)
    requires c == 2 * k + 2 ==> Outranks(s[2 * k + 2], s[2 * k + 1])
    requires c == 2 * k + 1 && 2 * k + 2 < |s| ==> !Outranks(s[2 * k + 2], s[2 * k + 1])
    ensures 0 < c < |s| && ParentIndex(c) == k
    ensures forall j :: 0 < j < |s| && ParentIndex(j) == k ==> !Outranks(s[j], s[c])
  {
    forall j | 0 < j < |s| && ParentIndex(j) == k
      ensures !Outranks(s[j], s[c])
    {
      assert j == 2 * k + 1 || j == 2 * k + 2;
    }
  }

  /** If no child outranks c and c does not outrank k, no child outranks k. */
  lemma NoChildOutranks(s: seq<Costs>, k: int, c: int)
    requires 0 <= k < |s| && 0 <= c < |s| && !Outranks(s[c], s[k])
    requires forall j :: 0 < j < |s| && ParentIndex(j) == k ==> !Outranks(s[j], s[c])
    ensures forall j :: 0 < j < |s| && ParentIndex(j) == k ==> !Outranks(s[j], s[k])
  {
  }

  /** Sift-down at a leaf stops with a heap. */
  lemma SiftDownLeaf(s: seq<Costs>, k: int)
    requires SiftDownReady(s, k) && 2 * k + 1 >= |s|
    ensures IsHeap(s)
  {
    SiftDownDone(s, k);
  }

  /** Moving the last key of a heap into the root leaves the root ready to
      sift down. */
  lemma LastToRootReady(s: seq<Costs>)
    requires IsHeap(s) && |s| > 1
    ensures SiftDownReady([s[|s| - 1]] + s[1..|s| - 1], 0)
  {
    var t := [s[|s| - 1]] + s[1..|s| - 1];
    forall i | 0 < i < |t| && ParentIndex(i) != 0
      ensures !Outranks(t[i], t[ParentIndex(i)])
    {
      assert t[i] == s[i] && t[ParentIndex(i)] == s[ParentIndex(i)];
    }
  }

  /** In a heap of keys the root is not outranked by any key, and moving
      the last slot into the root leaves it ready to sift down. */
  lemma RemoveRootOrder(slots: seq<int>, g: seq<int>, h: seq<int>, n: int)
    requires 0 < n <= |slots|
    requires forall k :: 0 <= k < n ==> 0 <= slots[k] < |g| && slots[k] < |h|
    requires IsHeap(KeysOf(slots, g, h, n))
    ensures forall c :: c in KeysOf(slots, g, h, n) ==> !Outranks(c, Costs(g[slots[0]], h[slots[0]]))
    ensures n > 1 ==> SiftDownReady(KeysOf(slots[0 := slots[n - 1]], g, h, n - 1), 0)
  {
    var keys := KeysOf(slots, g, h, n);
    forall c | c in keys
      ensures !Outranks(c, keys[0])
    {
      var i :| 0 <= i < n && keys[i] == c;
      RootIsTop(keys, i);
    }
    if n > 1 {
      KeysMoveLast(slots, g, h, n);
      LastToRootReady(keys);
    }
  }

  /** RemoveFirst's table updates, with the key order they leave: the root
      is not outranked by any key and the moved last item is ready to sift
      down when the old slots formed a heap. */
  lemma RemoveRootStep(slots: seq<int>, index: seq<int>, g: seq<int>, h: seq<int>, n: int, added: set<int>)
    requires Inv(slots, index, n, added) && n > 0 && |g| == |index| && |h| == |index|
    ensures Inv(slots[0 := slots[n - 1]], index[slots[n - 1] := 0], n - 1, added)
    ensures multiset(slots[0 := slots[n - 1]][..n - 1]) == multiset(slots[..n]) - multiset{slots[0]}
    ensures slots[0] in slots[..n] && slots[0] !in slots[0 := slots[n - 1]][..n - 1]
    ensures IsHeap(KeysOf(slots, g, h, n)) ==>
              && (forall c :: c in KeysOf(slots, g, h, n) ==> !Outranks(c, Costs(g[slots[0]], h[slots[0]])))
              && (n > 1 ==> SiftDownReady(KeysOf(slots[0 := slots[n - 1]], g, h, n - 1), 0))
  {
    MoveLastKeepsInv(slots, index, n, added);
    assert slots[..n][0] == slots[0];
    var moved := slots[0 := slots[n - 1]];
    forall j | 0 <= j < n - 1
      ensures moved[j] != slots[0]
    {
      if j == 0 {
        assert index[slots[n - 1]] == n - 1;
      }
    }
    if IsHeap(KeysOf(slots, g, h, n)) {
      RemoveRootOrder(slots, g, h, n);
    }
  }

  /** Bookkeeping on the first n slots: each holds a node whose recorded
      slot (its HeapIndex) is that one. */
  ghost predicate Indexed(slots: seq<int>, index: seq<int>, n: int)
  {
    && 0 <= n <= |slots|
    && forall i :: 0 <= i < n ==> 0 <= slots[i] < |index| && index[slots[i]] == i
  }

  /** Every node's recorded slot can be read: it lies in the array, or is
      the initial 0. */
  ghost predicate SlotsInRange(index: seq<int>, capacity: int)
  {
    forall m :: 0 <= m < |index| ==> 0 <= index[m] && (index[m] < capacity || index[m] == 0)
  }

  /** Every slot, in use or stale, is empty (-1) or holds a node once added. */
  ghost predicate SlotsFrom(slots: seq<int>, added: set<int>, nodes: int)
  {
    && (forall k :: 0 <= k < |slots| ==> slots[k] == -1 || slots[k] in added)
    && (forall m :: m in added ==> 0 <= m < nodes)
  }

  /** The heap's representation invariant, on the slot and index tables. */
  ghost predicate Inv(slots: seq<int>, index: seq<int>, n: int, added: set<int>)
  {
    Indexed(slots, index, n) && SlotsInRange(index, |slots|) && SlotsFrom(slots, added, |index|)
  }

  /** The priority keys of the first n slots. */
  ghost function KeysOf(slots: seq<int>, g: seq<int>, h: seq<int>, n: int): (ks: seq<Costs>)
    requires 0 <= n <= |slots|
    requires forall i :: 0 <= i < n ==> 0 <= slots[i] < |g| && slots[i] < |h|
    ensures |ks| == n
    ensures forall i {:trigger ks[i]} :: 0 <= i < n ==> ks[i] == Costs(g[slots[i]], h[slots[i]])
    decreases n
  {
    if n == 0 then [] else KeysOf(slots, g, h, n - 1) + [Costs(g[slots[n - 1]], h[slots[n - 1]])]
  }

  /** Add's table updates keep the invariant and append the item. */
  lemma AppendKeepsInv(slots: seq<int>, index: seq<int>, n: int, added: set<int>, item: int)
    requires Inv(slots, index, n, added) && n < |slots|
    requires 0 <= item < |index| && item !in slots[..n]
    ensures Inv(slots[n := item], index[item := n], n + 1, added + {item})
    ensures slots[n := item][..n + 1] == slots[..n] + [item]
  {
    var t := slots[n := item];
    forall i | 0 <= i < n
      ensures t[i] != item
    {
      assert slots[..n][i] == slots[i];
    }
  }

  /** Add's table updates, with the key order they leave: the new last slot
      is ready to sift up when the old slots formed a heap. */
  lemma AppendStep(slots: seq<int>, index: seq<int>, g: seq<int>, h: seq<int>, n: int, added: set<int>, item: int)
    requires Inv(slots, index, n, added) && n < |slots| && |g| == |index| && |h| == |index|
    requires 0 <= item < |index| && item !in slots[..n]
    ensures Inv(slots[n := item], index[item := n], n + 1, added + {item})
    ensures multiset(slots[n := item][..n + 1]) == multiset(slots[..n]) + multiset{item}
    ensures IsHeap(KeysOf(slots, g, h, n)) ==> SiftUpReady(KeysOf(slots[n := item], g, h, n + 1), n)
  {
    AppendKeepsInv(slots, index, n, added, item);
    KeysAppend(slots, g, h, n, item);
    if IsHeap(KeysOf(slots, g, h, n)) {
      AppendReady(KeysOf(slots, g, h, n), Costs(g[item], h[item]));
    }
  }

  /** Swap's table updates keep the invariant and the multiset of items. */
  lemma SwapKeepsInv(slots: seq<int>, index: seq<int>, n: int, added: set<int>, a: int, b: int)
    requires Inv(slots, index, n, added)
    requires 0 <= a < |index| && 0 <= index[a] < n && slots[index[a]] == a
    requires 0 <= b < |index| && 0 <= index[b] < n && slots[index[b]] == b
    ensures Inv(SwapAt(slots, index[a], index[b]), index[a := index[b]][b := index[a]], n, added)
    ensures multiset(SwapAt(slots, index[a], index[b])[..n]) == multiset(slots[..n])
  {
    var t := SwapAt(slots, index[a], index[b]);
    assert t[..n] == SwapAt(slots[..n], index[a], index[b]);
    SwapMultiset(slots[..n], index[a], index[b]);
  }

  lemma SwapMultiset<T>(s: seq<T>, i: int, j: int)
    requires 0 <= i < |s| && 0 <= j < |s|
    ensures multiset(SwapAt(s, i, j)) == multiset(s)
  {
    var t := s[i := s[j]];
    assert multiset(t) == multiset(s) - multiset{s[i]} + multiset{s[j]};
  }

  /** Swapping two slots swaps their keys. */
  lemma KeysSwap(slots: seq<int>, g: seq<int>, h: seq<int>, n: int, i: int, j: int)
    requires 0 <= i < n && 0 <= j < n && n <= |slots|
    requires forall k :: 0 <= k < n ==> 0 <= slots[k] < |g| && slots[k] < |h|
    ensures KeysOf(SwapAt(slots, i, j), g, h, n) == SwapAt(KeysOf(slots, g, h, n), i, j)
  {
  }

  /** Appending a slot appends its key. */
  lemma KeysAppend(slots: seq<int>, g: seq<int>, h: seq<int>, n: int, item: int)
    requires 0 <= n < |slots| && 0 <= item < |g| && item < |h|
    requires forall k :: 0 <= k < n ==> 0 <= slots[k] < |g| && slots[k] < |h|
    ensures KeysOf(slots[n := item], g, h, n + 1) == KeysOf(slots, g, h, n) + [Costs(g[item], h[item])]
  {
  }

  /** RemoveFirst's table updates: the last item moves into the root, the
      count drops by one and the first item leaves the multiset. */
  lemma MoveLastKeepsInv(slots: seq<int>, index: seq<int>, n: int, added: set<int>)
    requires Inv(slots, index, n, added) && n > 0
    ensures Inv(slots[0 := slots[n - 1]], index[slots[n - 1] := 0], n - 1, added)
    ensures multiset(slots[0 := slots[n - 1]][..n - 1]) == multiset(slots[..n]) - multiset{slots[0]}
  {
    var t := slots[0 := slots[n - 1]];
    if n > 1 {
      assert slots[..n] == [slots[0]] + slots[1..n - 1] + [slots[n - 1]];
      assert t[..n - 1] == [slots[n - 1]] + slots[1..n - 1];
    } else {
      assert slots[..n] == [slots[0]];
    }
  }

  /** Moving the last slot into the root moves its key there. */
  lemma KeysMoveLast(slots: seq<int>, g: seq<int>, h: seq<int>, n: int)
    requires 1 < n <= |slots|
    requires forall k :: 0 <= k < n ==> 0 <= slots[k] < |g| && slots[k] < |h|
    ensures var ks := KeysOf(slots, g, h, n);
            KeysOf(slots[0 := slots[n - 1]], g, h, n - 1) == [ks[n - 1]] + ks[1..n - 1]
  {
  }

  class Heap {
    /** The backing array; -1 stands for an empty (null) slot. */
    const items: array<int>
    var currentItemCount: int
    /** heapIndex[n] is node n's HeapIndex. */
    const heapIndex: array<int>
    /** The nodes' priority fields; the search writes them, the heap reads them. */
    const gCost: array<int>
    const hCost: array<int>
    /** Every node id ever added. */
    ghost var Added: set<int>

    /** The arrays are distinct and the side tables cover the same nodes. */
    ghost predicate Shape()
    {
      && items != heapIndex && items != gCost && items != hCost
      && heapIndex != gCost && heapIndex != hCost
      && gCost.Length == heapIndex.Length && hCost.Length == heapIndex.Length
    }

    ghost predicate Valid()
      reads this, items, heapIndex
    {
      Shape() && Inv(items[..], heapIndex[..], currentItemCount, Added)
    }

    /** The items currently in the heap, slot by slot. */
    ghost function Contents(): seq<int>
      reads this, items, heapIndex
      requires Valid()
    {
      items[..currentItemCount]
    }

    function KeyOf(id: int): Costs
      reads gCost, hCost
      requires 0 <= id < gCost.Length && id < hCost.Length
    {
      Costs(gCost[id], hCost[id])
    }

    /** The keys of the first n slots. */
    ghost function Keys(n: int): seq<Costs>
      reads items, heapIndex, gCost, hCost
      requires Shape() && Indexed(items[..], heapIndex[..], n)
    {
      KeysOf(items[..], gCost[..], hCost[..], n)
    }

    /** Heap order: no item outranks its parent. */
    ghost predicate HeapOrdered()
      reads this, items, heapIndex, gCost, hCost
      requires Valid()
    {
      IsHeap(Keys(currentItemCount))
    }

    /** An empty heap of the given capacity. The slot table and the key
        arrays are the nodes' own fields, so they are passed in and keep
        whatever an earlier search left in them. */
    constructor (maxHeapSize: nat, heapIndex: array<int>, gCost: array<int>, hCost: array<int>)
      requires heapIndex != gCost && heapIndex != hCost && gCost != hCost
      requires gCost.Length == heapIndex.Length && hCost.Length == heapIndex.Length
      requires SlotsInRange(heapIndex[..], maxHeapSize)
      ensures Valid() && fresh(items)
      ensures items.Length == maxHeapSize
      ensures this.heapIndex == heapIndex && this.gCost == gCost && this.hCost == hCost
      ensures currentItemCount == 0 && Added == {}
    {
      items := new int[maxHeapSize](_ => -1);
      this.heapIndex := heapIndex;
      this.gCost := gCost;
      this.hCost := hCost;
      currentItemCount := 0;
      Added := {};
    }

    function Count(): (c: int)
      reads this, items, heapIndex
      requires Valid()
      ensures c == |Contents()|
    {
      currentItemCount
    }

    /** Membership as the slot recorded for the item holding that item; it
        reads the slot with no Count check, so it needs a non-empty array. */
    function Contains(item: int): (b: bool)
      reads this, items, heapIndex
      requires Valid() && 0 <= item < heapIndex.Length && items.Length > 0
      ensures item in Contents() ==> b
      ensures b ==> item in Added
    {
      assert heapIndex[..][item] == heapIndex[item];
      assert item in Contents() ==> heapIndex[item] < currentItemCount && items[heapIndex[item]] == item by {
        if item in Contents() {
          var i :| 0 <= i < currentItemCount && items[..currentItemCount][i] == item;
          assert items[..][i] == item;
        }
      }
      assert items[..][heapIndex[item]] == items[heapIndex[item]];
      items[heapIndex[item]] == item
    }

    /** Exchange two items' slots and their recorded indices. */
    method Swap(itemA: int, itemB: int, ghost n: int)
      requires Shape() && Inv(items[..], heapIndex[..], n, Added)
      requires 0 <= itemA < heapIndex.Length && 0 <= heapIndex[itemA] < n && items[heapIndex[itemA]] == itemA
      requires 0 <= itemB < heapIndex.Length && 0 <= heapIndex[itemB] < n && items[heapIndex[itemB]] == itemB
      modifies items, heapIndex
      ensures items[..] == SwapAt(old(items[..]), old(heapIndex[itemA]), old(heapIndex[itemB]))
      ensures heapIndex[..] == old(heapIndex[..])[itemA := old(heapIndex[itemB])][itemB := old(heapIndex[itemA])]
      ensures heapIndex[itemA] == old(heapIndex[itemB]) && items[heapIndex[itemA]] == itemA
      ensures Inv(items[..], heapIndex[..], n, Added)
      ensures multiset(items[..n]) == old(multiset(items[..n]))
    {
      ghost var slots, index := items[..], heapIndex[..];
      SwapKeepsInv(slots, index, n, Added, itemA, itemB);
      items[heapIndex[itemA]] := itemB;
      items[heapIndex[itemB]] := itemA;
      var itemAIndex := heapIndex[itemA];
      heapIndex[itemA] := heapIndex[itemB];
      heapIndex[itemB] := itemAIndex;
      assert items[..] == SwapAt(slots, index[itemA], index[itemB]);
      assert heapIndex[..] == index[itemA := index[itemB]][itemB := index[itemA]];
    }

    /** Move an item up while it outranks its parent. The loop stops at the
        root because the root's parent index is the root itself and an item
        never outranks itself. */
    method SortUp(item: int, ghost n: int, ghost ready: bool)
      requires Shape() && Inv(items[..], heapIndex[..], n, Added)
      requires 0 <= item < heapIndex.Length && 0 <= heapIndex[item] < n && items[heapIndex[item]] == item
      requires ready ==> SiftUpReady(Keys(n), heapIndex[item])
      modifies items, heapIndex
      ensures Inv(items[..], heapIndex[..], n, Added)
      ensures 0 <= heapIndex[item] < n && items[heapIndex[item]] == item
      ensures multiset(items[..n]) == old(multiset(items[..n]))
      ensures ready ==> IsHeap(Keys(n))
      ensures old(heapIndex[item]) == 0 ==> items[..] == old(items[..]) && heapIndex[..] == old(heapIndex[..])
    {
      var parentIndex := ParentIndex(heapIndex[item]);
      while true
        invariant Inv(items[..], heapIndex[..], n, Added)
        invariant 0 <= heapIndex[item] < n && items[heapIndex[item]] == item
        invariant parentIndex == ParentIndex(heapIndex[item])
        invariant multiset(items[..n]) == old(multiset(items[..n]))
        invariant ready ==> SiftUpReady(Keys(n), heapIndex[item])
        invariant old(heapIndex[item]) == 0 ==> heapIndex[item] == 0 && items[..] == old(items[..]) && heapIndex[..] == old(heapIndex[..])
        decreases heapIndex[item]
      {
        var parentItem := items[parentIndex];
        assert items[..][parentIndex] == parentItem;
        if CompareCosts(KeyOf(item), KeyOf(parentItem)) > 0 {
          ghost var k := heapIndex[item];
          ghost var slots := items[..];
          Swap(item, parentItem, n);
          KeysSwap(slots, gCost[..], hCost[..], n, k, parentIndex);
          if ready {
            SiftUpStep(KeysOf(slots, gCost[..], hCost[..], n), k);
          }
        } else {
          if ready {
            SiftUpDone(Keys(n), heapIndex[item]);
          }
          break;
        }
        parentIndex := ParentIndex(heapIndex[item]);
      }
    }

    method Add(item: int)
      requires Valid() && 0 <= item < heapIndex.Length && item !in Contents()
      requires currentItemCount < items.Length
      modifies this, items, heapIndex
      ensures Valid()
      ensures currentItemCount == old(currentItemCount) + 1
      ensures multiset(Contents()) == old(multiset(Contents())) + multiset{item}
      ensures Added == old(Added) + {item}
      ensures 0 <= heapIndex[item] < currentItemCount && items[heapIndex[item]] == item
      ensures old(HeapOrdered()) ==> HeapOrdered()
    {
      ghost var n := currentItemCount;
      ghost var slots, index := items[..], heapIndex[..];
      ghost var wasOrdered := IsHeap(Keys(n));
      AppendStep(slots, index, gCost[..], hCost[..], n, Added, item);
      Added := Added + {item};
      heapIndex[item] := currentItemCount;
      items[currentItemCount] := item;
      assert items[..] == slots[n := item];
      assert heapIndex[..] == index[item := n];
      SortUp(item, currentItemCount + 1, wasOrdered);
      currentItemCount := currentItemCount + 1;
    }

    /** Remove and return the item in the root. The last item moves into the
        root and sifts down; the removed item's slot index is left as it was. */
    method RemoveFirst() returns (firstItem: int)
      requires Valid() && currentItemCount > 0
      modifies this, items, heapIndex
      ensures Valid()
      ensures currentItemCount == old(currentItemCount) - 1
      ensures firstItem == old(items[0]) && firstItem in old(Contents()) && firstItem !in Contents()
      ensures multiset(Contents()) == old(multiset(Contents())) - multiset{firstItem}
      ensures Added == old(Added)
      ensures old(HeapOrdered()) ==> HeapOrdered()
      ensures old(HeapOrdered()) ==> forall k :: k in old(Keys(currentItemCount)) ==> !Outranks(k, KeyOf(firstItem))
    {
      ghost var n := currentItemCount;
      ghost var slots, index := items[..], heapIndex[..];
      ghost var wasOrdered := IsHeap(Keys(n));
      RemoveRootStep(slots, index, gCost[..], hCost[..], n, Added);
      firstItem := items[0];
      currentItemCount := currentItemCount - 1;
      items[0] := items[currentItemCount];
      heapIndex[items[0]] := 0;
      assert items[..] == slots[0 := slots[n - 1]];
      assert heapIndex[..] == index[slots[n - 1] := 0];
      SortDown(items[0], wasOrdered);
      assert multiset(Contents()) == multiset(slots[0 := slots[n - 1]][..n - 1]);
      assert firstItem !in multiset(Contents());
    }

    /** Move an item down while a child outranks it, always towards the
        child of higher priority (the left one on a tie). */
    method SortDown(item: int, ghost ready: bool)
      requires Shape() && Inv(items[..], heapIndex[..], currentItemCount, Added)
      requires 0 <= item < heapIndex.Length && 0 <= heapIndex[item] < items.Length && items[heapIndex[item]] == item
      requires heapIndex[item] < currentItemCount || currentItemCount == 0
      requires ready && currentItemCount > 0 ==> SiftDownReady(Keys(currentItemCount), heapIndex[item])
      modifies items, heapIndex
      ensures Inv(items[..], heapIndex[..], currentItemCount, Added)
      ensures multiset(items[..currentItemCount]) == old(multiset(items[..currentItemCount]))
      ensures ready ==> IsHeap(Keys(currentItemCount))
    {
      ghost var n := currentItemCount;
      if currentItemCount == 0 {
        return;
      }
      while true
        invariant Inv(items[..], heapIndex[..], n, Added)
        invariant 0 <= heapIndex[item] < n && items[heapIndex[item]] == item
        invariant multiset(items[..n]) == old(multiset(items[..n]))
        invariant ready ==> SiftDownReady(Keys(n), heapIndex[item])
        decreases n - heapIndex[item]
      {
        ghost var k := heapIndex[item];
        var leftChildIndex := heapIndex[item] * 2 + 1;
        var rightChildIndex := heapIndex[item] * 2 + 2;
        var swapIndex := 0;
        if leftChildIndex < currentItemCount {
          swapIndex := leftChildIndex;
          if rightChildIndex < currentItemCount {
            if CompareCosts(KeyOf(items[leftChildIndex]), KeyOf(items[rightChildIndex])) < 0 {
              swapIndex := rightChildIndex;
            }
          }
          ghost var slots := items[..];
          ghost var keys := Keys(n);
          assert slots[k] == item && slots[leftChildIndex] == items[leftChildIndex];
          assert rightChildIndex < n ==> slots[rightChildIndex] == items[rightChildIndex];
          if ready {
            SiftDownChoice(keys, k, leftChildIndex, rightChildIndex, swapIndex);
          }
          var swapItem := items[swapIndex];
          assert slots[swapIndex] == swapItem && heapIndex[..][swapItem] == swapIndex;
          assert keys[swapIndex] == KeyOf(swapItem) && keys[k] == KeyOf(item);
          if CompareCosts(KeyOf(item), KeyOf(swapItem)) < 0 {
            Swap(item, swapItem, n);
            assert items[..] == SwapAt(slots, k, swapIndex);
            KeysSwap(slots, gCost[..], hCost[..], n, k, swapIndex);
          } else {
            return;
          }
        } else {
          if ready {
            SiftDownLeaf(Keys(n), k);
          }
          return;
        }
      }
    }

    /** Re-sift an item after its priority was raised in place. */
    method UpdateItem(item: int)
      requires Valid() && 0 <= item < heapIndex.Length
      requires heapIndex[item] < currentItemCount && items[heapIndex[item]] == item
      modifies items, heapIndex
      ensures Valid()
      ensures multiset(Contents()) == old(multiset(Contents()))
      ensures old(SiftUpReady(Keys(currentItemCount), heapIndex[item])) ==> HeapOrdered()
    {
      SortUp(item, currentItemCount, SiftUpReady(Keys(currentItemCount), heapIndex[item]));
    }
  }
}

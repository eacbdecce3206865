/**
 * The doubly linked list that backs the undo/redo history (src/lib/types/linked-list.ts).
 *
 * Nodes live in an arena owned by the list: a node is a `Handle`, and its
 * `value`, `next` and `previous` fields are the entries of the maps `values`,
 * `next` and `prev` at that handle (a missing entry is the source's `null`).
 * The ghost sequence `order` is the list as iteration from `head` sees it. A
 * handle is meaningful while it is in `order`; nodes cut off by `removeAfter`
 * keep their stale links in the maps, as the source's detached objects do.
 */
module LinkedList {
  import opened Wrappers

  type Handle = int

  /** The values stored at the given handles, in the same order. */
  function Project<T>(hs: seq<Handle>, vals: map<Handle, T>): (r: seq<T>)
    requires forall i :: 0 <= i < |hs| ==> hs[i] in vals
    ensures |r| == |hs|
    ensures forall i :: 0 <= i < |hs| ==> r[i] == vals[hs[i]]
  {
    seq(|hs|, i requires 0 <= i < |hs| => vals[hs[i]])
  }

  /** Projecting after a splice is splicing the projection. */
  lemma ProjectInsert<T>(hs: seq<Handle>, vals: map<Handle, T>, i: nat, h: Handle, v: T)
    requires i < |hs| && h !in hs
    requires forall k :: 0 <= k < |hs| ==> hs[k] in vals
    ensures var hs' := hs[..i + 1] + [h] + hs[i + 1..];
      var before := Project(hs, vals);
      (forall k :: 0 <= k < |hs'| ==> hs'[k] in vals[h := v]) &&
      Project(hs', vals[h := v]) == before[..i + 1] + [v] + before[i + 1..]
  {
    var hs' := hs[..i + 1] + [h] + hs[i + 1..];
    var before := Project(hs, vals);
    var after := Project(hs', vals[h := v]);
    var expected := before[..i + 1] + [v] + before[i + 1..];
    assert |after| == |expected|;
    forall k | 0 <= k < |after| ensures after[k] == expected[k] {
      if k <= i {
        assert hs'[k] == hs[k] != h;
      } else if k > i + 1 {
        assert hs'[k] == hs[k - 1] != h;
      }
    }
  }

  /** Projecting after removing position `i` is removing position `i` of the projection. */
  lemma ProjectRemove<T>(hs: seq<Handle>, vals: map<Handle, T>, i: nat)
    requires i < |hs|
    requires forall k :: 0 <= k < |hs| ==> hs[k] in vals
    ensures var hs' := hs[..i] + hs[i + 1..];
      var before := Project(hs, vals);
      (forall k :: 0 <= k < |hs'| ==> hs'[k] in vals) &&
      Project(hs', vals) == before[..i] + before[i + 1..]
  {
    var hs' := hs[..i] + hs[i + 1..];
    var before := Project(hs, vals);
    var after := Project(hs', vals);
    var expected := before[..i] + before[i + 1..];
    assert |after| == |expected|;
    forall k | 0 <= k < |after| ensures after[k] == expected[k] {
      assert hs'[k] == hs[if k < i then k else k + 1];
    }
  }

  /** A slice grown by one element at its end. */
  lemma SliceSnoc<T>(s: seq<T>, a: nat, i: nat)
    requires a <= i < |s|
    ensures s[a..i + 1] == s[a..i] + [s[i]]
  {
  }

  /** No handle occurs twice. */
  ghost predicate Distinct(s: seq<Handle>)
  {
    forall i, j :: 0 <= i < j < |s| ==> s[i] != s[j]
  }

  /** The position of a handle in a sequence without repetitions. */
  ghost function IndexOf(s: seq<Handle>, h: Handle): (i: nat)
    requires h in s
    ensures i < |s| && s[i] == h
  {
    var i :| 0 <= i < |s| && s[i] == h; i
  }

  lemma IndexOfUnique(s: seq<Handle>, h: Handle, j: nat)
    requires Distinct(s) && j < |s| && s[j] == h
    ensures IndexOf(s, h) == j
  {
  }

  /** A map entry as an optional link: `None` is the source's `null`. */
  function Get(m: map<Handle, Handle>, k: Handle): (r: Option<Handle>)
    ensures r.Some? <==> k in m
    ensures r.Some? ==> r.value == m[k]
  {
    if k in m then Some(m[k]) else None
  }

  /** Assigns an optional link: `None` removes the entry. */
  function SetLink(m: map<Handle, Handle>, k: Handle, v: Option<Handle>): (r: map<Handle, Handle>)
    ensures Get(r, k) == v
    ensures forall j :: j != k ==> Get(r, j) == Get(m, j)
  {
    if v.Some? then m[k := v.value] else m - {k}
  }

  /** `next` after `Node.remove` on `node`: its predecessor skips it, its own entry goes. */
  function UnlinkNext(next: map<Handle, Handle>, prev: map<Handle, Handle>, node: Handle): (r: map<Handle, Handle>)
    ensures node !in r
  {
    var p, n := Get(prev, node), Get(next, node);
    (if p.Some? then SetLink(next, p.value, n) else next) - {node}
  }

  /** `prev` after `Node.remove` on `node`: its successor skips it, its own entry goes. */
  function UnlinkPrev(next: map<Handle, Handle>, prev: map<Handle, Handle>, node: Handle): (r: map<Handle, Handle>)
    ensures node !in r
  {
    var p, n := Get(prev, node), Get(next, node);
    (if n.Some? then SetLink(prev, n.value, p) else prev) - {node}
  }

  /** The last handle of a sequence, as the list's `tail` should be. */
  function Last(order: seq<Handle>): (r: Option<Handle>)
    ensures r.None? <==> order == []
    ensures r.Some? ==> r.value == order[|order| - 1]
  {
    if order == [] then None else Some(order[|order| - 1])
  }

  /**
   * `next` and `prev` link the handles of `order` as a doubly linked chain:
   * each node's next is its successor, each node's previous its predecessor,
   * and the chain ends in `null` on both sides.
   */
  ghost predicate Chain(order: seq<Handle>, next: map<Handle, Handle>, prev: map<Handle, Handle>)
  {
    && (forall i {:trigger Get(next, order[i])} :: 0 <= i < |order| - 1 ==> Get(next, order[i]) == Some(order[i + 1]))
    && (order != [] ==> Get(next, order[|order| - 1]) == None)
    && (forall i {:trigger Get(prev, order[i])} :: 0 < i < |order| ==> Get(prev, order[i]) == Some(order[i - 1]))
    && (order != [] ==> Get(prev, order[0]) == None)
  }

  /** One step along a chain: the node at `i` links to the node at `i + 1`, or to nothing at the end. */
  lemma ChainStep(order: seq<Handle>, next: map<Handle, Handle>, prev: map<Handle, Handle>, i: nat)
    requires Chain(order, next, prev) && i < |order|
    ensures Get(next, order[i]) == if i + 1 < |order| then Some(order[i + 1]) else None
  {
  }

  /**
   * A chain cannot visit a node twice: if `order[a] == order[b]` with
   * `a < b`, the two occurrences have the same successor, and so on until the
   * later one reaches the end of the chain while the earlier one still has a
   * successor.
   */
  lemma {:induction false} ChainNoRepeat(order: seq<Handle>, next: map<Handle, Handle>, prev: map<Handle, Handle>,
                                         a: nat, b: nat)
    requires Chain(order, next, prev) && a < b < |order|
    ensures order[a] != order[b]
    decreases |order| - b
  {
    assert Get(next, order[a]) == Some(order[a + 1]);
    if b < |order| - 1 {
      ChainNoRepeat(order, next, prev, a + 1, b + 1);
      assert Get(next, order[b]) == Some(order[b + 1]);
    }
  }

  /** The handles of a chain are distinct. */
  lemma ChainDistinct(order: seq<Handle>, next: map<Handle, Handle>, prev: map<Handle, Handle>)
    requires Chain(order, next, prev)
    ensures Distinct(order)
  {
    forall a, b | 0 <= a < b < |order| ensures order[a] != order[b] {
      ChainNoRepeat(order, next, prev, a, b);
    }
  }

  /** Every handle in use lies below `nextFree`, and every linked node has a value. */
  ghost predicate Allocated<T>(order: seq<Handle>, next: map<Handle, Handle>, prev: map<Handle, Handle>,
                              values: map<Handle, T>, nextFree: Handle)
  {
    && (forall i :: 0 <= i < |order| ==> order[i] in values)
    && (forall h :: h in next ==> h < nextFree && next[h] < nextFree)
    && (forall h :: h in prev ==> h < nextFree && prev[h] < nextFree)
    && (forall h :: h in values ==> h < nextFree)
  }

  /** `Node.insertAfter` on the links: splicing a fresh `h` after `order[i]` keeps a chain. */
  lemma ChainInsert(order: seq<Handle>, next: map<Handle, Handle>, prev: map<Handle, Handle>, i: nat, h: Handle)
    requires Chain(order, next, prev) && i < |order|
    requires h !in order && h !in next && h !in prev
    ensures var after := Get(next, order[i]);
      var next' := SetLink(next[order[i] := h], h, after);
      var prev' := if after.Some? then prev[h := order[i]][after.value := h] else prev[h := order[i]];
      Chain(order[..i + 1] + [h] + order[i + 1..], next', prev')
  {
    ChainDistinct(order, next, prev);
    NextChainInsert(order, next, prev, i, h);
    PrevChainInsert(order, next, prev, i, h);
  }

  /** The `next` half of `ChainInsert`. */
  lemma NextChainInsert(order: seq<Handle>, next: map<Handle, Handle>, prev: map<Handle, Handle>, i: nat, h: Handle)
    requires Chain(order, next, prev) && Distinct(order) && i < |order| && h !in order
    ensures var o := order[..i + 1] + [h] + order[i + 1..];
      var next' := SetLink(next[order[i] := h], h, Get(next, order[i]));
      && (forall k :: 0 <= k < |o| - 1 ==> Get(next', o[k]) == Some(o[k + 1]))
      && Get(next', o[|o| - 1]) == None
  {
    var after := Get(next, order[i]);
    var next' := SetLink(next[order[i] := h], h, after);
    var o := order[..i + 1] + [h] + order[i + 1..];
    assert after == if i < |order| - 1 then Some(order[i + 1]) else None;
    assert forall k :: 0 <= k < |o| && k != i + 1 ==> o[k] == order[if k <= i then k else k - 1];
    assert o[i + 1] == h;
    forall k | 0 <= k < |o| - 1
      ensures Get(next', o[k]) == Some(o[k + 1])
    {
      if k < i {
        assert o[k] != order[i] && o[k] != h;
        assert Get(next, order[k]) == Some(order[k + 1]);
      } else if k == i + 1 {
        assert i < |order| - 1;
      } else if k > i + 1 {
        assert o[k] != order[i];
        assert Get(next, order[k - 1]) == Some(order[k]);
      }
    }
    if i < |order| - 1 {
      assert o[|o| - 1] == order[|order| - 1] != order[i];
    }
  }

  /** The `prev` half of `ChainInsert`. */
  lemma PrevChainInsert(order: seq<Handle>, next: map<Handle, Handle>, prev: map<Handle, Handle>, i: nat, h: Handle)
    requires Chain(order, next, prev) && Distinct(order) && i < |order| && h !in order && h !in prev
    ensures var o := order[..i + 1] + [h] + order[i + 1..];
      var after := Get(next, order[i]);
      var prev' := if after.Some? then prev[h := order[i]][after.value := h] else prev[h := order[i]];
      && (forall k :: 0 < k < |o| ==> Get(prev', o[k]) == Some(o[k - 1]))
      && Get(prev', o[0]) == None
  {
    var after := Get(next, order[i]);
    var prev' := if after.Some? then prev[h := order[i]][after.value := h] else prev[h := order[i]];
    var o := order[..i + 1] + [h] + order[i + 1..];
    assert after == if i < |order| - 1 then Some(order[i + 1]) else None;
    assert forall k :: 0 <= k < |o| && k != i + 1 ==> o[k] == order[if k <= i then k else k - 1];
    assert o[i + 1] == h;
    forall k | 0 < k < |o|
      ensures Get(prev', o[k]) == Some(o[k - 1])
    {
      if k <= i {
        assert o[k] != h;
        assert after.Some? ==> o[k] != after.value;
        assert Get(prev, order[k]) == Some(order[k - 1]);
      } else if k == i + 2 {
        assert o[k] == after.value;
      } else if k > i + 2 {
        assert o[k] != h && o[k] != order[i + 1];
        assert Get(prev, order[k - 1]) == Some(order[k - 2]);
      }
    }
    assert o[0] == order[0] != h;
    assert after.Some? ==> order[0] != after.value;
  }

  /** `Node.remove` on the links: unlinking `order[i]` leaves a chain without it. */
  lemma ChainRemove(order: seq<Handle>, next: map<Handle, Handle>, prev: map<Handle, Handle>, i: nat)
    requires Chain(order, next, prev) && i < |order|
    ensures Chain(order[..i] + order[i + 1..], UnlinkNext(next, prev, order[i]), UnlinkPrev(next, prev, order[i]))
  {
    ChainDistinct(order, next, prev);
    NextChainRemove(order, next, prev, i);
    PrevChainRemove(order, next, prev, i);
  }

  /** The `next` half of `ChainRemove`. */
  lemma NextChainRemove(order: seq<Handle>, next: map<Handle, Handle>, prev: map<Handle, Handle>, i: nat)
    requires Chain(order, next, prev) && Distinct(order) && i < |order|
    ensures var o := order[..i] + order[i + 1..];
      var next' := UnlinkNext(next, prev, order[i]);
      && (forall k :: 0 <= k < |o| - 1 ==> Get(next', o[k]) == Some(o[k + 1]))
      && (o != [] ==> Get(next', o[|o| - 1]) == None)
  {
    var node := order[i];
    var p := Get(prev, node);
    var next' := UnlinkNext(next, prev, node);
    var o := order[..i] + order[i + 1..];
    assert p == if i > 0 then Some(order[i - 1]) else None;
    assert forall k :: 0 <= k < |o| ==> o[k] == order[if k < i then k else k + 1];
    forall k | 0 <= k < |o| - 1
      ensures Get(next', o[k]) == Some(o[k + 1])
    {
      if k < i - 1 {
        assert o[k] != node && o[k] != order[i - 1];
        assert Get(next, order[k]) == Some(order[k + 1]);
      } else if k == i - 1 {
        assert o[k] == order[i - 1] && o[k + 1] == order[i + 1];
        assert Get(next, order[i]) == Some(order[i + 1]);
      } else {
        assert o[k] != node;
        assert p.Some? ==> o[k] != p.value;
        assert Get(next, order[k + 1]) == Some(order[k + 2]);
      }
    }
    if o != [] && i < |order| - 1 {
      assert p.Some? ==> o[|o| - 1] != p.value;
    }
  }

  /** The `prev` half of `ChainRemove`. */
  lemma PrevChainRemove(order: seq<Handle>, next: map<Handle, Handle>, prev: map<Handle, Handle>, i: nat)
    requires Chain(order, next, prev) && Distinct(order) && i < |order|
    ensures var o := order[..i] + order[i + 1..];
      var prev' := UnlinkPrev(next, prev, order[i]);
      && (forall k :: 0 < k < |o| ==> Get(prev', o[k]) == Some(o[k - 1]))
      && (o != [] ==> Get(prev', o[0]) == None)
  {
    var node := order[i];
    var n := Get(next, node);
    var prev' := UnlinkPrev(next, prev, node);
    var o := order[..i] + order[i + 1..];
    assert n == if i < |order| - 1 then Some(order[i + 1]) else None;
    assert forall k :: 0 <= k < |o| ==> o[k] == order[if k < i then k else k + 1];
    forall k | 0 < k < |o|
      ensures Get(prev', o[k]) == Some(o[k - 1])
    {
      if k < i {
        assert o[k] != node;
        assert n.Some? ==> o[k] != n.value;
        assert Get(prev, order[k]) == Some(order[k - 1]);
      } else if k == i {
        assert o[k] == order[i + 1] && o[k - 1] == order[i - 1];
        assert Get(prev, order[i]) == Some(order[i - 1]);
      } else {
        assert o[k] != node && o[k] != order[i + 1];
        assert Get(prev, order[k + 1]) == Some(order[k]);
      }
    }
    if o != [] && i > 0 {
      assert n.Some? ==> o[0] != n.value;
    }
  }

  /** `removeAfter` on the links: unlinking `order[i + 1]` and clearing `order[i]`'s next keeps the prefix a chain. */
  lemma {:induction false} ChainTruncate(order: seq<Handle>, next: map<Handle, Handle>, prev: map<Handle, Handle>, i: nat)
    requires Chain(order, next, prev) && i < |order| - 1
    ensures Chain(order[..i + 1], UnlinkNext(next, prev, order[i + 1]) - {order[i]}, UnlinkPrev(next, prev, order[i + 1]))
  {
    ChainDistinct(order, next, prev);
    var node := order[i + 1];
    var p, n := Get(prev, node), Get(next, node);
    var next', prev' := UnlinkNext(next, prev, node) - {order[i]}, UnlinkPrev(next, prev, node);
    var o := order[..i + 1];
    assert p == Some(order[i]);
    assert n == if i + 1 < |order| - 1 then Some(order[i + 2]) else None;
    forall k | 0 <= k < |o| - 1
      ensures Get(next', o[k]) == Some(o[k + 1])
    {
      assert o[k] != node && o[k] != order[i];
      assert Get(next, order[k]) == Some(order[k + 1]);
    }
    forall k | 0 < k < |o|
      ensures Get(prev', o[k]) == Some(o[k - 1])
    {
      assert o[k] != node;
      assert n.Some? ==> o[k] != n.value;
      assert Get(prev, order[k]) == Some(order[k - 1]);
    }
    assert o[0] != node;
    assert n.Some? ==> o[0] != n.value;
    assert Get(next', o[|o| - 1]) == None;
  }

  /** The list invariant over plain values; `DoublyLinkedList.Linked` applies it to the fields. */
  ghost predicate Shape<T>(order: seq<Handle>, head: Option<Handle>, tail: Option<Handle>,
                           next: map<Handle, Handle>, prev: map<Handle, Handle>, values: map<Handle, T>, nextFree: Handle)
  {
    && Allocated(order, next, prev, values, nextFree)
    && head == (if order == [] then None else Some(order[0]))
    && Chain(order, next, prev)
    && (tail.None? <==> order == [])
    && (tail.Some? ==> tail.value in order)
  }

  /**
   * Inserting a fresh node after `order[i]` (the links `Node.insertAfter`
   * writes, given as the primed maps) keeps the invariant and splices the
   * value into the projection.
   */
  lemma InsertShape<T>(order: seq<Handle>, head: Option<Handle>, tail: Option<Handle>,
                       next: map<Handle, Handle>, prev: map<Handle, Handle>, values: map<Handle, T>, nextFree: Handle,
                       i: nat, value: T,
                       order': seq<Handle>, next': map<Handle, Handle>, prev': map<Handle, Handle>, values': map<Handle, T>)
    requires Shape(order, head, tail, next, prev, values, nextFree) && i < |order|
    requires order' == order[..i + 1] + [nextFree] + order[i + 1..]
    requires next' == SetLink(next[order[i] := nextFree], nextFree, Get(next, order[i]))
    requires prev' == if Get(next, order[i]).Some?
      then prev[nextFree := order[i]][Get(next, order[i]).value := nextFree]
      else prev[nextFree := order[i]]
    requires values' == values[nextFree := value]
    ensures nextFree !in values
    ensures Shape(order', head, tail, next', prev', values', nextFree + 1)
    ensures Project(order', values') == Project(order, values)[..i + 1] + [value] + Project(order, values)[i + 1..]
  {
    assert nextFree !in order;
    ChainInsert(order, next, prev, i, nextFree);
    ProjectInsert(order, values, i, nextFree, value);
    InsertEnds(order, head, tail, i, nextFree, order');
    AllocatedInsert(order, next, prev, values, nextFree, i, value, order', next', prev', values');
  }

  /** Splicing after `order[i]` keeps the first node first and every old node present. */
  lemma InsertEnds(order: seq<Handle>, head: Option<Handle>, tail: Option<Handle>, i: nat, h: Handle, order': seq<Handle>)
    requires i < |order| && order' == order[..i + 1] + [h] + order[i + 1..]
    requires head == (if order == [] then None else Some(order[0]))
    requires tail.Some? ==> tail.value in order
    ensures head == (if order' == [] then None else Some(order'[0]))
    ensures tail.Some? ==> tail.value in order'
  {
    assert order'[0] == order[0];
    assert order == order[..i + 1] + order[i + 1..];
  }

  /** The fresh node gets a value and links below the new `nextFree`. */
  lemma AllocatedInsert<T>(order: seq<Handle>, next: map<Handle, Handle>, prev: map<Handle, Handle>,
                           values: map<Handle, T>, nextFree: Handle, i: nat, value: T,
                           order': seq<Handle>, next': map<Handle, Handle>, prev': map<Handle, Handle>, values': map<Handle, T>)
    requires Allocated(order, next, prev, values, nextFree) && i < |order|
    requires order' == order[..i + 1] + [nextFree] + order[i + 1..]
    requires next' == SetLink(next[order[i] := nextFree], nextFree, Get(next, order[i]))
    requires prev' == if Get(next, order[i]).Some?
      then prev[nextFree := order[i]][Get(next, order[i]).value := nextFree]
      else prev[nextFree := order[i]]
    requires values' == values[nextFree := value]
    ensures Allocated(order', next', prev', values', nextFree + 1)
  {
    assert forall k :: 0 <= k < |order'| && k != i + 1 ==> order'[k] == order[if k <= i then k else k - 1];
  }

  /** The first node of an empty list: both `head` and `tail`. */
  lemma FirstShape<T>(order: seq<Handle>, head: Option<Handle>, tail: Option<Handle>,
                      next: map<Handle, Handle>, prev: map<Handle, Handle>, values: map<Handle, T>, nextFree: Handle,
                      value: T)
    requires Shape(order, head, tail, next, prev, values, nextFree) && order == []
    ensures nextFree !in values
    ensures var h := Some(nextFree);
      Shape([nextFree], h, h, next, prev, values[nextFree := value], nextFree + 1) && h == Last([nextFree])
    ensures Project([nextFree], values[nextFree := value]) == [value]
  {
    assert nextFree !in next && nextFree !in prev;
  }

  /** Moving `tail` to the last node keeps the invariant. */
  lemma RetailShape<T>(order: seq<Handle>, head: Option<Handle>, tail: Option<Handle>,
                       next: map<Handle, Handle>, prev: map<Handle, Handle>, values: map<Handle, T>, nextFree: Handle)
    requires Shape(order, head, tail, next, prev, values, nextFree)
    ensures Shape(order, head, Last(order), next, prev, values, nextFree)
  {
  }

  /**
   * `TailAfterRemove` counted: a tail that counted `tc` nodes up to and
   * including itself, once the node at position `k` of `n` goes. The
   * removed tail counts its predecessor's nodes, or one for its successor,
   * or none; a later tail counts one node fewer; an earlier one is kept.
   */
  function CountAfterRemove(tc: nat, k: nat, n: nat): (c: nat)
    requires k < n && 0 < tc <= n
    ensures c <= n - 1
  {
    if tc - 1 == k then (if k > 0 then k else if n > 1 then 1 else 0)
    else if tc - 1 < k then tc
    else tc - 1
  }

  /**
   * The node `tail` moves to when `order[i]` is removed: its predecessor, or
   * its successor when it is first, or none when it was the only node. Any
   * other `tail` stays.
   */
  function TailAfterRemove(order: seq<Handle>, tail: Option<Handle>, i: nat): (r: Option<Handle>)
    requires i < |order|
    ensures tail != Some(order[i]) ==> r == tail
    ensures tail == Some(order[i]) && i > 0 ==> r == Some(order[i - 1])
    ensures tail == Some(order[i]) && i == 0 && |order| > 1 ==> r == Some(order[1])
    ensures tail == Some(order[i]) && |order| == 1 ==> r == None
  {
    if tail != Some(order[i]) then tail
    else if i > 0 then Some(order[i - 1])
    else if |order| > 1 then Some(order[1])
    else None
  }

  /**
   * Removing `order[i]` (the links `Node.remove` writes, with `head` and
   * `tail` moved past it) keeps the invariant and drops its value from the
   * projection. A `tail` that was last stays last.
   */
  lemma RemoveShape<T>(order: seq<Handle>, head: Option<Handle>, tail: Option<Handle>,
                       next: map<Handle, Handle>, prev: map<Handle, Handle>, values: map<Handle, T>, nextFree: Handle,
                       i: nat,
                       order': seq<Handle>, head': Option<Handle>, tail': Option<Handle>,
                       next': map<Handle, Handle>, prev': map<Handle, Handle>)
    requires Shape(order, head, tail, next, prev, values, nextFree) && i < |order|
    requires order' == order[..i] + order[i + 1..]
    requires head' == if head == Some(order[i]) then Get(next, order[i]) else head
    requires tail' == TailAfterRemove(order, tail, i)
    requires next' == UnlinkNext(next, prev, order[i]) && prev' == UnlinkPrev(next, prev, order[i])
    ensures Shape(order', head', tail', next', prev', values, nextFree)
    ensures tail == Last(order) ==> tail' == Last(order')
    ensures Project(order', values) == Project(order, values)[..i] + Project(order, values)[i + 1..]
  {
    ChainRemove(order, next, prev, i);
    ProjectRemove(order, values, i);
    ChainDistinct(order, next, prev);
    ChainStep(order, next, prev, i);
    RemoveEnds(order, head, tail, i, order', head', tail');
    AllocatedRemove(order, next, prev, values, nextFree, i);
  }

  /** Where `head` and `tail` end up when `order[i]` is removed. */
  lemma RemoveEnds(order: seq<Handle>, head: Option<Handle>, tail: Option<Handle>, i: nat,
                   order': seq<Handle>, head': Option<Handle>, tail': Option<Handle>)
    requires Distinct(order) && i < |order|
    requires head == Some(order[0]) && tail.Some? && tail.value in order
    requires order' == order[..i] + order[i + 1..]
    requires head' == (if head == Some(order[i]) then (if i < |order| - 1 then Some(order[i + 1]) else None) else head)
    requires tail' == TailAfterRemove(order, tail, i)
    ensures head' == (if order' == [] then None else Some(order'[0]))
    ensures tail'.None? <==> order' == []
    ensures tail'.Some? ==> tail'.value in order'
    ensures tail == Last(order) ==> tail' == Last(order')
  {
    assert head == Some(order[i]) <==> i == 0 by {
      if i > 0 {
        assert order[0] != order[i];
      }
    }
    if order' != [] {
      if i == 0 {
        assert order'[0] == order[1];
      } else {
        assert order'[0] == order[0];
      }
      if i == |order| - 1 {
        assert order'[|order'| - 1] == order[i - 1];
      } else {
        assert order'[|order'| - 1] == order[|order| - 1];
      }
    }
    if tail != Some(order[i]) {
      var j :| 0 <= j < |order| && order[j] == tail.value;
      assert j != i;
      assert tail.value == order'[if j < i then j else j - 1];
    } else if i > 0 {
      assert order[i - 1] == order'[i - 1];
    } else if |order| > 1 {
      assert order[1] == order'[0];
    }
    if tail == Last(order) && tail != Some(order[i]) {
      assert i < |order| - 1;
    }
  }

  /** Unlinking `order[i]` keeps every remaining node valued and every link below `nextFree`. */
  lemma AllocatedRemove<T>(order: seq<Handle>, next: map<Handle, Handle>, prev: map<Handle, Handle>,
                           values: map<Handle, T>, nextFree: Handle, i: nat)
    requires Allocated(order, next, prev, values, nextFree) && i < |order|
    ensures Allocated(order[..i] + order[i + 1..], UnlinkNext(next, prev, order[i]), UnlinkPrev(next, prev, order[i]),
                      values, nextFree)
  {
    var o := order[..i] + order[i + 1..];
    assert forall k :: 0 <= k < |o| ==> o[k] == order[if k < i then k else k + 1];
  }

  /**
   * Cutting the chain after `order[i]`, which becomes the tail, keeps the
   * invariant and keeps the projection's prefix. When `order[i]` is already
   * last there is nothing to unlink.
   */
  lemma TruncateShape<T>(order: seq<Handle>, head: Option<Handle>, tail: Option<Handle>,
                         next: map<Handle, Handle>, prev: map<Handle, Handle>, values: map<Handle, T>, nextFree: Handle,
                         i: nat,
                         order': seq<Handle>, tail': Option<Handle>, next': map<Handle, Handle>, prev': map<Handle, Handle>)
    requires Shape(order, head, tail, next, prev, values, nextFree) && i < |order|
    requires order' == order[..i + 1] && tail' == Some(order[i])
    requires i < |order| - 1 ==>
      next' == UnlinkNext(next, prev, order[i + 1]) - {order[i]} && prev' == UnlinkPrev(next, prev, order[i + 1])
    requires i == |order| - 1 ==> next' == next && prev' == prev
    ensures Shape(order', head, tail', next', prev', values, nextFree) && tail' == Last(order')
    ensures Project(order', values) == Project(order, values)[..i + 1]
  {
    if i < |order| - 1 {
      ChainTruncate(order, next, prev, i);
    } else {
      assert order' == order;
    }
  }

  class DoublyLinkedList<T> {
    var head: Option<Handle>
    var tail: Option<Handle>
    var next: map<Handle, Handle>
    var prev: map<Handle, Handle>
    var values: map<Handle, T>
    /** The handle the next allocated node receives. */
    var nextFree: Handle
    /** The nodes reachable from `head`, in list order. */
    ghost var order: seq<Handle>

    /**
     * The links agree with `order`: `head` is its first element and the maps
     * form a chain over it. `tail` is only required to be some linked node,
     * because the source's `push` and `Node.insertAfter` can leave it behind.
     */
    ghost predicate Linked()
      reads this
    {
      Shape(order, head, tail, next, prev, values, nextFree)
    }

    /** The list invariant: linked, and `tail` is the last node. */
    ghost predicate Valid()
      reads this
    {
      Linked() && tail == Last(order)
    }

    /** A linked node's position is the only one it occupies. */
    lemma PositionOf(h: Handle, j: nat)
      requires Linked() && j < |order| && order[j] == h
      ensures IndexOf(order, h) == j
    {
      ChainDistinct(order, next, prev);
      IndexOfUnique(order, h, j);
    }

    /** How many nodes there are up to and including `tail`: its position plus one, 0 on an empty list. */
    ghost function TailCount(): (n: nat)
      reads this
      requires Linked()
      ensures n <= |order| && (n == 0 <==> order == [])
      ensures n > 0 ==> tail == Some(order[n - 1])
    {
      if tail.None? then 0 else IndexOf(order, tail.value) + 1
    }

    /** On a list whose tail is its last node, the tail counts every node. */
    lemma TailCountOfValid()
      requires Valid()
      ensures TailCount() == |order|
    {
      if tail.Some? {
        PositionOf(tail.value, |order| - 1);
      }
    }

    /**
     * After the node at position `k` of `o` is removed, the `tail` that
     * `TailAfterRemove` gives stands where `CountAfterRemove` says.
     */
    lemma TailCountAfterRemove(o: seq<Handle>, oldTail: Option<Handle>, tc: nat, k: nat)
      requires Linked() && k < |o| && order == o[..k] + o[k + 1..]
      requires 0 < tc <= |o| && oldTail == Some(o[tc - 1]) && (oldTail == Some(o[k]) <==> tc - 1 == k)
      requires tail == TailAfterRemove(o, oldTail, k)
      ensures TailCount() == CountAfterRemove(tc, k, |o|)
    {
      if tc - 1 == k {
        if k > 0 {
          PositionOf(order[k - 1], k - 1);
        } else if |o| > 1 {
          PositionOf(order[0], 0);
        }
      } else if tc - 1 < k {
        PositionOf(order[tc - 1], tc - 1);
      } else {
        PositionOf(order[tc - 2], tc - 2);
      }
    }

    /** The values in list order: what iterating the list yields. */
    ghost function Contents(): (s: seq<T>)
      reads this
      requires Linked()
      ensures |s| == |order|
      ensures forall i :: 0 <= i < |order| ==> s[i] == values[order[i]]
    {
      Project(order, values)
    }

    constructor ()
      ensures Valid() && order == [] && Contents() == []
      ensures values == map[] && nextFree == 0
    {
      head, tail := None, None;
      next, prev, values := map[], map[], map[];
      nextFree := 0;
      order := [];
    }

    /** `isEmpty`: there is no head. */
    function IsEmpty(): (b: bool)
      reads this
      requires Linked()
      ensures b <==> Contents() == []
    {
      head.None?
    }

    /**
     * `find`: walks from `head` along `next` and returns the first node the
     * predicate accepts, or `None` after the last node.
     */
    method Find(p: Handle -> bool) returns (r: Option<Handle>)
      requires Linked()
      ensures r.Some? ==> r.value in order && p(r.value)
      ensures r.Some? ==> forall i :: 0 <= i < IndexOf(order, r.value) ==> !p(order[i])
      ensures r.None? ==> forall h :: h in order ==> !p(h)
    {
      var current := head;
      ghost var i := 0;
      while current.Some?
        invariant 0 <= i <= |order|
        invariant current == if i < |order| then Some(order[i]) else None
        invariant forall k :: 0 <= k < i ==> !p(order[k])
        decreases |order| - i
      {
        if p(current.value) {
          PositionOf(current.value, i);
          return current;
        }
        current := Get(next, current.value);
        i := i + 1;
      }
      return None;
    }

    /** `hasNode`: whether the handle is reachable from `head`. */
    method HasNode(node: Handle) returns (b: bool)
      requires Linked()
      ensures b <==> node in order
    {
      var found := Find(h => h == node);
      b := found.Some?;
    }

    /** The list's iterator: the values from `head` following `next` until `null`. */
    method Values() returns (vs: seq<T>)
      requires Linked()
      ensures vs == Contents()
    {
      var current := head;
      ghost var i := 0;
      vs := [];
      while current.Some?
        invariant 0 <= i <= |order|
        invariant current == if i < |order| then Some(order[i]) else None
        invariant vs == Contents()[..i]
        decreases |order| - i
      {
        vs := vs + [values[current.value]];
        current := Get(next, current.value);
        i := i + 1;
      }
    }

    /** Allocates a detached node holding `value` (the Node constructor). */
    method NewNode(value: T) returns (h: Handle)
      modifies this
      ensures h == old(nextFree) && nextFree == h + 1
      ensures values == old(values)[h := value]
      ensures head == old(head) && tail == old(tail) && order == old(order)
      ensures next == old(next) && prev == old(prev)
    {
      h := nextFree;
      values := values[h := value];
      nextFree := nextFree + 1;
    }

    /**
     * `Node.insertAfter`: splices a new node between `node` and its old
     * successor and fixes both `previous` links. Neither `head` nor `tail` is
     * touched, so inserting after the last node leaves `tail` behind.
     */
    method InsertAfter(node: Handle, value: T) returns (h: Handle)
      requires Linked() && node in order
      modifies this
      ensures Linked()
      ensures h == old(nextFree) && h !in old(values)
      ensures values == old(values)[h := value]
      ensures head == old(head) && tail == old(tail)
      ensures var i := IndexOf(old(order), node);
        order == old(order)[..i + 1] + [h] + old(order)[i + 1..]
      ensures var i := IndexOf(old(order), node);
        Contents() == old(Contents())[..i + 1] + [value] + old(Contents())[i + 1..]
    {
      ghost var i := IndexOf(order, node);
      var after := Get(next, node);
      ghost var h0 := nextFree;
      ghost var order1 := order[..i + 1] + [h0] + order[i + 1..];
      ghost var next1 := SetLink(next[node := h0], h0, after);
      ghost var prev1: map<Handle, Handle> := if after.Some? then prev[h0 := node][after.value := h0] else prev[h0 := node];
      InsertShape(order, head, tail, next, prev, values, nextFree, i, value, order1, next1, prev1, values[h0 := value]);
      h := NewNode(value);
      // this.next = newNode; newNode.previous = this; newNode.next = next; next.previous = newNode
      var next': map<Handle, Handle>, prev': map<Handle, Handle> := SetLink(next[node := h], h, after), prev[h := node];
      if after.Some? {
        prev' := prev'[after.value := h];
      }
      next, prev := next', prev';
      order := order[..i + 1] + [h] + order[i + 1..];
      assert order == order1 && next == next1 && prev == prev1 && values == old(values)[h0 := value];
    }

    /**
     * `push` with the append order the callers and tests expect: on an empty
     * list the new node becomes head and tail, otherwise it is inserted after
     * `tail` and becomes the new `tail`.
     */
    method Push(value: T) returns (h: Handle)
      requires Valid()
      modifies this
      ensures Valid()
      ensures h == old(nextFree) && h !in old(values)
      ensures values == old(values)[h := value]
      ensures order == old(order) + [h]
      ensures Contents() == old(Contents()) + [value]
    {
      if head.None? {
        FirstShape(order, head, tail, next, prev, values, nextFree, value);
        h := NewNode(value);
        head, tail := Some(h), Some(h);
        order := [h];
      } else {
        var last := tail.value;
        PositionOf(last, |order| - 1);
        h := InsertAfter(last, value);
        RetailShape(order, head, tail, next, prev, values, nextFree);
        tail := Some(h);
      }
    }

    /**
     * `push` exactly as written: on a non-empty list the new node goes after
     * `tail`, but `tail` is not moved to it.
     */
    method PushAsWritten(value: T) returns (h: Handle)
      requires Linked()
      modifies this
      ensures Linked()
      ensures old(order) == [] ==> order == [h] && tail == Some(h)
      ensures h == old(nextFree) && h !in old(values)
      ensures values == old(values)[h := value]
      ensures old(order) != [] ==> tail == old(tail)
      ensures old(order) != [] ==> var i := IndexOf(old(order), old(tail).value);
        order == old(order)[..i + 1] + [h] + old(order)[i + 1..]
      ensures old(order) != [] ==> var i := IndexOf(old(order), old(tail).value);
        Contents() == old(Contents())[..i + 1] + [value] + old(Contents())[i + 1..]
      ensures old(order) == [] ==> Contents() == [value]
      ensures old(Valid()) ==> order == old(order) + [h] && Contents() == old(Contents()) + [value]
    {
      if Valid() && tail.Some? {
        PositionOf(tail.value, |order| - 1);
      }
      if head.None? {
        FirstShape(order, head, tail, next, prev, values, nextFree, value);
        h := NewNode(value);
        head, tail := Some(h), Some(h);
        order := [h];
      } else {
        h := InsertAfter(tail.value, value);
      }
    }

    /**
     * `Node.remove`: links the node's previous and next to each other, then
     * clears its own links. The list's `head` and `tail` are not touched.
     */
    method Unlink(node: Handle)
      modifies this
      ensures next == UnlinkNext(old(next), old(prev), node)
      ensures prev == UnlinkPrev(old(next), old(prev), node)
      ensures head == old(head) && tail == old(tail) && order == old(order)
      ensures values == old(values) && nextFree == old(nextFree)
    {
      var p, n := Get(prev, node), Get(next, node);
      if p.Some? {
        next := SetLink(next, p.value, n);
      }
      if n.Some? {
        prev := SetLink(prev, n.value, p);
      }
      prev := prev - {node};
      next := next - {node};
    }

    /**
     * The list-level `remove(node)` the history needs: unlinks the node and
     * moves `head` past it when it is first. A `tail` naming the node moves
     * to its predecessor, or to its successor when it has none.
     */
    method Remove(node: Handle)
      requires Linked() && node in order
      modifies this
      ensures Linked() && (old(Valid()) ==> Valid())
      ensures var i := IndexOf(old(order), node);
        order == old(order)[..i] + old(order)[i + 1..]
      ensures var i := IndexOf(old(order), node);
        Contents() == old(Contents())[..i] + old(Contents())[i + 1..]
      ensures tail == TailAfterRemove(old(order), old(tail), IndexOf(old(order), node))
      ensures node !in next && node !in prev
      ensures values == old(values) && nextFree == old(nextFree)
    {
      ghost var i := IndexOf(order, node);
      ChainStep(order, next, prev, i);
      if i > 0 {
        ChainStep(order, next, prev, i - 1);
        assert Get(prev, order[i]) == Some(order[i - 1]);
      } else {
        assert Get(prev, order[i]) == None;
      }
      var p, n := Get(prev, node), Get(next, node);
      Unlink(node);
      if head == Some(node) {
        head := n;
      }
      if tail == Some(node) {
        tail := if p.Some? then p else n;
      }
      order := order[..i] + order[i + 1..];
      RemoveShape(old(order), old(head), old(tail), old(next), old(prev), values, nextFree, i,
                  order, head, tail, next, prev);
    }

    /**
     * `removeAfter`: throws when the node is not reachable from `head`;
     * otherwise detaches the node after it (whose own successors stay
     * detached with stale links) and makes `node` the tail.
     */
    method RemoveAfter(node: Handle) returns (r: Result<()>)
      requires Linked()
      modifies this
      ensures Linked() && (r.Ok? || old(Valid()) ==> Valid())
      ensures r.Err? <==> node !in old(order)
      ensures r.Err? ==> order == old(order) && r.message == "Node does not exist in this list"
      ensures r.Err? ==> head == old(head) && tail == old(tail) && next == old(next) && prev == old(prev)
      ensures r.Ok? ==> order == old(order)[..IndexOf(old(order), node) + 1]
      ensures r.Ok? ==> Contents() == old(Contents())[..IndexOf(old(order), node) + 1]
      ensures r.Ok? ==> tail == Some(node)
      ensures values == old(values) && nextFree == old(nextFree)
    {
      var present := HasNode(node);
      if !present {
        return Err("Node does not exist in this list");
      }
      ghost var i := IndexOf(order, node);
      assert i < |order| - 1 ==> Get(next, order[i]) == Some(order[i + 1]);
      if node in next {
        Unlink(next[node]);
        next := next - {node};
      }
      tail := Some(node);
      order := order[..i + 1];
      TruncateShape(old(order), head, old(tail), old(next), old(prev), values, nextFree, i, order, tail, next, prev);
      return Ok(());
    }

    /** `clear`: forgets every node. */
    method Clear()
      requires Linked()
      modifies this
      ensures Valid() && order == [] && Contents() == []
      ensures values == old(values) && nextFree == old(nextFree)
    {
      head, tail := None, None;
      order := [];
    }

    /** `popHead`: removes the first node and returns its value. */
    method PopHead() returns (v: T)
      requires Linked() && order != []
      modifies this
      ensures Linked() && (old(Valid()) ==> Valid())
      ensures v == old(Contents())[0] && Contents() == old(Contents())[1..]
      ensures order == old(order)[1..]
      ensures tail == TailAfterRemove(old(order), old(tail), 0)
      ensures values == old(values) && nextFree == old(nextFree)
    {
      var first := head.value;
      v := values[first];
      PositionOf(first, 0);
      Remove(first);
    }

    /** The last node, found by walking from `head`, since `tail` may have been left behind. */
    method LastNode() returns (last: Handle)
      requires Linked() && order != []
      ensures last == order[|order| - 1]
    {
      last := head.value;
      ghost var i := 0;
      while last in next
        invariant i < |order| && last == order[i]
        decreases |order| - i
      {
        ChainStep(order, next, prev, i);
        last := next[last];
        i := i + 1;
      }
      ChainStep(order, next, prev, i);
    }

    /** `popTail`: removes the last node and returns its value. */
    method PopTail() returns (v: T)
      requires Linked() && order != []
      modifies this
      ensures Linked() && (old(Valid()) ==> Valid())
      ensures v == old(Contents())[|old(Contents())| - 1]
      ensures Contents() == old(Contents())[..|old(Contents())| - 1]
      ensures order == old(order)[..|old(order)| - 1]
      ensures tail == TailAfterRemove(old(order), old(tail), |old(order)| - 1)
      ensures values == old(values) && nextFree == old(nextFree)
    {
      var last := LastNode();
      v := values[last];
      PositionOf(last, |order| - 1);
      Remove(last);
    }

    /**
     * `getNext(from, to)`: the values on the forward walk from `from` to `to`,
     * both included. `to` must be reachable from `from`: the ghost `f` and
     * `t` are their positions, `f` no later than `t`.
     */
    method GetNext(from: Handle, to: Handle, ghost f: nat, ghost t: nat) returns (vs: seq<T>)
      requires Linked() && f <= t < |order| && order[f] == from && order[t] == to
      ensures vs == Contents()[f..t + 1]
    {
      var current := from;
      ghost var i := f;
      vs := [values[current]];
      while current != to
        invariant f <= i <= t
        invariant current == order[i]
        invariant vs == Contents()[f..i + 1]
        decreases t - i
      {
        assert Get(next, order[i]) == Some(order[i + 1]);
        current := next[current];
        i := i + 1;
        vs := vs + [values[current]];
      }
      PositionOf(to, i);
      PositionOf(to, t);
    }

    /**
     * `getPrevious(from, to)`: the values on the backward walk from `from` to
     * `to`, both included, so the first value is at `from`. `to` must be
     * reachable from `from` walking backwards: the ghost `f` and `t` are
     * their positions, `t` no later than `f`.
     */
    method GetPrevious(from: Handle, to: Handle, ghost f: nat, ghost t: nat) returns (vs: seq<T>)
      requires Linked() && t <= f < |order| && order[f] == from && order[t] == to
      ensures |vs| == f - t + 1
      ensures forall k :: 0 <= k < |vs| ==> vs[k] == Contents()[f - k]
    {
      var current := from;
      ghost var i := f;
      vs := [values[current]];
      while current != to
        invariant t <= i <= f
        invariant current == order[i]
        invariant |vs| == f - i + 1
        invariant forall k :: 0 <= k < |vs| ==> vs[k] == Contents()[f - k]
        decreases i - t
      {
        assert Get(prev, order[i]) == Some(order[i - 1]);
        current := prev[current];
        i := i - 1;
        vs := vs + [values[current]];
      }
      PositionOf(to, i);
      PositionOf(to, t);
    }

    /**
     * `Node.allAfter`: a new list built by pushing, with `push` as written,
     * the values after `node`; this list is not changed. The new list's
     * `tail` stays at its first node, so the values come out in the order
     * `PushedAsWritten` gives.
     */
    method AllAfter(node: Handle) returns (list: DoublyLinkedList<T>)
      requires Linked() && node in order
      ensures fresh(list) && list.Linked()
      ensures list.Contents() == PushedAsWritten(Contents()[IndexOf(order, node) + 1..])
      ensures list.order == [] || list.tail == Some(list.order[0])
    {
      list := new DoublyLinkedList<T>();
      // This list is not modified, so its links and values can be read from a snapshot.
      var links, vals := next, values;
      ghost var o, back, start := order, prev, IndexOf(order, node) + 1;
      ghost var all := Project(o, vals);
      ghost var i := start;
      var current := Get(links, node);
      while current.Some?
        invariant start <= i <= |o|
        invariant current == if i < |o| then Some(o[i]) else None
        invariant fresh(list) && HoldsPushedAsWritten(list, all[start..i])
        decreases |o| - i
      {
        SliceSnoc(all, start, i);
        ChainStep(o, links, back, i);
        PushOnePushedAsWritten(list, vals[current.value], all[start..i]);
        current := Get(links, current.value);
        i := i + 1;
      }
    }
  }

  /**
   * The order a new list iterates in after the values of `s` are pushed
   * onto it one by one with `push` as written: the first value, then the
   * others newest first, since every later node goes right after the first
   * node, which stays the tail.
   */
  function PushedAsWritten<T>(s: seq<T>): (r: seq<T>)
    ensures |r| == |s|
    ensures s != [] ==> r[0] == s[0]
    ensures forall k :: 1 <= k < |s| ==> r[k] == s[|s| - k]
  {
    if |s| <= 1 then s
    else
      var p := PushedAsWritten(s[..|s| - 1]);
      p[..1] + [s[|s| - 1]] + p[1..]
  }

  /** `list` is what pushing `pushed` onto a new list with `push` as written builds. */
  ghost predicate HoldsPushedAsWritten<T>(list: DoublyLinkedList<T>, pushed: seq<T>)
    reads list
  {
    && list.Linked()
    && (list.order == [] <==> pushed == [])
    && (list.order == [] || list.tail == Some(list.order[0]))
    && list.Contents() == PushedAsWritten(pushed)
  }

  /** One `push` as written onto such a list extends what it holds by `v`. */
  method PushOnePushedAsWritten<T>(list: DoublyLinkedList<T>, v: T, ghost pushed: seq<T>)
    requires HoldsPushedAsWritten(list, pushed)
    modifies list
    ensures HoldsPushedAsWritten(list, pushed + [v])
  {
    PushedAsWrittenSnoc(pushed, v);
    if list.order != [] {
      list.PositionOf(list.tail.value, 0);
    }
    var _ := list.PushAsWritten(v);
  }

  /** One more push as written puts the value right after the first one. */
  lemma PushedAsWrittenSnoc<T>(s: seq<T>, v: T)
    ensures s == [] ==> PushedAsWritten(s + [v]) == [v]
    ensures s != [] ==> PushedAsWritten(s + [v]) == PushedAsWritten(s)[..1] + [v] + PushedAsWritten(s)[1..]
  {
    assert (s + [v])[..|s|] == s;
  }

  /** Three pushes onto a new list, with `push` as written: the third value lands second. */
  method PushThreeAsWritten() returns (vs: seq<int>)
    ensures vs == [0, 2, 1]
  {
    var list := new DoublyLinkedList<int>();
    var h0 := list.PushAsWritten(0);
    assert list.Contents() == [0] && list.tail == Some(h0);
    var h1 := list.PushAsWritten(1);
    assert IndexOf([h0], h0) == 0;
    assert list.Contents() == [0, 1] && list.order == [h0, h1];
    var h2 := list.PushAsWritten(2);
    IndexOfUnique([h0, h1], h0, 0);
    assert list.Contents() == [0, 2, 1];
    vs := list.Values();
  }

  /** Three pushes onto a new list with the appending `push`: insertion order. */
  method PushThree() returns (vs: seq<int>)
    ensures vs == [0, 1, 2]
  {
    var list := new DoublyLinkedList<int>();
    var _ := list.Push(0);
    var _ := list.Push(1);
    var _ := list.Push(2);
    vs := list.Values();
  }
}

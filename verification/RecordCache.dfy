/** The record cache of a table: hash-bucketed search trees over a ring of slots (src/db/BombayTable.cpp). */
module RecordCache {
  import opened CacheTree

  const INVALID_RECORD_OFFSET: nat := 0xFFFF_FFFF_FFFF_FFFF

  /** The parent of a node on the path is on it. */
  lemma {:induction false} ParentOnPath(t: Tree, root: int, par: int, k: Links, n: nat, off: seq<nat>, o: nat, h: nat)
    requires Linked(t, root, par, k, n) && Ordered(t, off) && OnPath(t, off, o, h) && h < n && root != h
    ensures 0 <= k.parent[h] < n && k.parent[h] != h && OnPath(t, off, o, k.parent[h])
  {
    if t.slot != h {
      var right := o > off[t.slot];
      var sub, subRoot := if right then t.r else t.l, if right then k.higher[t.slot] else k.lower[t.slot];
      LinkedBounds(sub, subRoot, t.slot, k, n);
      if subRoot != h {
        ParentOnPath(sub, subRoot, t.slot, k, n, off, o, h);
      }
    }
  }

  /** Nothing is found twice. */
  lemma {:induction false} OnceInTree(t: Tree, off: seq<nat>, x: nat, y: nat)
    requires Ordered(t, off) && x in Slots(t) && y in Slots(t) && x != y && x < |off| && y < |off|
    ensures off[x] != off[y]
  {
    if x in Slots(t.l) && y in Slots(t.l) {
      OnceInTree(t.l, off, x, y);
    } else if x in Slots(t.r) && y in Slots(t.r) {
      OnceInTree(t.r, off, x, y);
    }
  }

  function KeyOf(hash: nat -> nat, buckets: nat, o: nat): (b: nat)
    requires buckets > 0
    ensures b < buckets
  {
    hash(o) % buckets
  }

  predicate LiveIn(off: seq<nat>, used: nat, x: nat) {
    x < used && x < |off| && off[x] != INVALID_RECORD_OFFSET
  }

  ghost predicate AllLinked(trees: seq<Tree>, head: seq<int>, k: Links, n: nat) {
    |trees| == |head| && forall b :: 0 <= b < |trees| ==> Linked(trees[b], head[b], NIL, k, n)
  }

  ghost predicate AllOrdered(trees: seq<Tree>, off: seq<nat>) {
    forall b :: 0 <= b < |trees| ==> Ordered(trees[b], off)
  }

  /** The live slots but the hole are in the trees, each in its key's, and nothing else is. */
  ghost predicate Filed(trees: seq<Tree>, off: seq<nat>, used: nat, hash: nat -> nat, buckets: nat, hole: int) {
    && buckets == |trees| > 0
    && (forall b, x: nat {:trigger x in Slots(trees[b])} :: 0 <= b < |trees| && x in Slots(trees[b]) ==>
          x != hole && LiveIn(off, used, x) && KeyOf(hash, buckets, off[x]) == b)
    && (forall x: nat :: x != hole && LiveIn(off, used, x) ==> x in Slots(trees[KeyOf(hash, buckets, off[x])]))
  }

  /** Replacing one bucket's tree keeps the others linked, if their links and heads are as they were. */
  lemma AllRelinked(trees: seq<Tree>, head: seq<int>, head': seq<int>, k: Links, k': Links, n: nat, b: nat, t: Tree)
    requires AllLinked(trees, head, k, n) && b < |head| == |head'| && k.Sized(n) && k'.Sized(n)
    requires Linked(t, head'[b], NIL, k', n)
    requires forall b' :: 0 <= b' < |head| && b' != b ==> head'[b'] == head[b'] && SameAt(Slots(trees[b']), k, k', n)
    ensures AllLinked(trees[b := t], head', k', n)
  {
    forall b' | 0 <= b' < |head| && b' != b ensures Linked(trees[b'], head'[b'], NIL, k', n) {
      LinkedFrame(trees[b'], head[b'], NIL, k, k', n);
    }
  }

  lemma FiledWithout(trees: seq<Tree>, off: seq<nat>, used: nat, hash: nat -> nat, buckets: nat, b: nat, t: Tree,
                     x: nat)
    requires Filed(trees, off, used, hash, buckets, NIL) && b < buckets
    requires x in Slots(trees[b]) && Slots(t) == Slots(trees[b]) - {x}
    ensures Filed(trees[b := t], off, used, hash, buckets, x)
  {
    hide Slots, KeyOf;
  }

  lemma FiledApart(trees: seq<Tree>, off: seq<nat>, used: nat, hash: nat -> nat, buckets: nat, hole: int, b: nat)
    requires Filed(trees, off, used, hash, buckets, hole) && b < buckets
    ensures forall b' :: 0 <= b' < buckets && b' != b ==> Slots(trees[b']) !! Slots(trees[b])
  {}

  lemma FiledWith(trees: seq<Tree>, off: seq<nat>, used: nat, hash: nat -> nat, buckets: nat, s: nat, o: nat, t: Tree)
    requires Filed(trees, off, used, hash, buckets, s) && s < used && s < |off| && o != INVALID_RECORD_OFFSET
    requires Slots(t) == Slots(trees[KeyOf(hash, buckets, o)]) + {s}
    ensures Filed(trees[KeyOf(hash, buckets, o) := t], off[s := o], used, hash, buckets, NIL)
  {
    hide Slots, KeyOf;
  }

  lemma AllReordered(trees: seq<Tree>, off: seq<nat>, s: nat, o: nat)
    requires AllOrdered(trees, off) && s < |off| && forall b :: 0 <= b < |trees| ==> s !in Slots(trees[b])
    ensures AllOrdered(trees, off[s := o])
  {
    forall b | 0 <= b < |trees| ensures Ordered(trees[b], off[s := o]) {
      OrderedOff(trees[b], off, s, o);
    }
  }

  /** What was written, oldest first; a removed entry stays as an invalid one until its slot comes round. */
  function RingOf(off: seq<nat>, next: nat, full: bool): seq<nat>
    requires next <= |off|
  {
    if full then off[next..] + off[..next] else off[..next]
  }

  /** Writing the next slot drops the oldest entry of a full ring, and appends. */
  lemma RingPush(off: seq<nat>, next: nat, full: bool, o: nat)
    requires next < |off|
    ensures var wraps := next + 1 == |off|;
      RingOf(off[next := o], if wraps then 0 else next + 1, full || wraps)
      == (if full then RingOf(off, next, full)[1..] else RingOf(off, next, full)) + [o]
  {
    var wraps := next + 1 == |off|;
    var off' := off[next := o];
    if wraps {
      assert off' == off[..next] + [o];
    } else {
      assert off'[..next + 1] == off[..next] + [o];
      assert off'[next + 1..] == off[next..][1..];
    }
  }

  class Cache {
    const slots: nat            // records the cache memory holds
    const buckets: nat          // _hash_table_size
    const hash: nat -> nat      // GetHash64
    var parent: seq<int>
    var lower: seq<int>
    var higher: seq<int>
    var offset: seq<nat>
    var head: seq<int>          // _cache_hash_table
    var next: nat               // _next_cache_slot, in records
    var full: bool              // _cache_full
    ghost var trees: seq<Tree>

    constructor (slots: nat, buckets: nat, hash: nat -> nat, offset0: seq<nat>)
      requires slots > 0 && buckets > 0 && |offset0| == slots
      ensures this.slots == slots && this.buckets == buckets && this.hash == hash && Valid() && Ring() == []
    {
      this.slots, this.buckets, this.hash := slots, buckets, hash;
      parent, lower, higher := seq(slots, _ => NIL), seq(slots, _ => NIL), seq(slots, _ => NIL);
      offset := offset0;        // the memory is not cleared
      head := seq(buckets, _ => NIL);
      next, full := 0, false;
      trees := seq(buckets, _ => Leaf);
      new;
      assert |trees| == |head| == buckets && K().Sized(slots);
      assert AllLinked(trees, head, K(), slots) && AllOrdered(trees, offset)
             && Filed(trees, offset, Used(), hash, buckets, NIL);
    }

    function K(): Links
      reads this
    {
      Links(parent, lower, higher)
    }

    function Key(o: nat): (b: nat)
      requires buckets > 0
      ensures b < buckets
    {
      KeyOf(hash, buckets, o)
    }

    /** The slots written so far. */
    function Used(): nat
      reads this
    {
      if full then slots else next
    }

    predicate Live(x: nat)
      reads this
    {
      LiveIn(offset, Used(), x)
    }

    /** Every bucket is a search tree with consistent links; every live slot but the hole is in its bucket's tree. */
    ghost predicate ValidBut(hole: int)
      reads this
    {
      && slots > 0 && buckets > 0 && K().Sized(slots) && |offset| == slots
      && |head| == |trees| == buckets && next < slots
      && AllLinked(trees, head, K(), slots) && AllOrdered(trees, offset)
      && Filed(trees, offset, Used(), hash, buckets, hole)
    }

    ghost predicate Valid()
      reads this
    {
      ValidBut(NIL)
    }

    ghost function Ring(): seq<nat>
      reads this
      requires next <= |offset|
    {
      RingOf(offset, next, full)
    }

    /** The slot of the ring's i-th entry, and back. */
    function SlotAt(i: int): int
      reads this
    {
      if full then (if next + i < slots then next + i else next + i - slots) else i
    }

    function PlaceOf(x: int): int
      reads this
    {
      if full then (if x >= next then x - next else x + slots - next) else x
    }

    lemma RingSlots()
      requires |offset| == slots && next < slots
      ensures |Ring()| == Used()
      ensures forall i :: 0 <= i < Used() ==> 0 <= SlotAt(i) < Used() && Ring()[i] == offset[SlotAt(i)]
      ensures forall x :: 0 <= x < Used() ==> 0 <= PlaceOf(x) < Used() && SlotAt(PlaceOf(x)) == x
    {}

    /** An offset is live in at most one slot. */
    lemma OneSlot(x: nat, y: nat)
      requires Valid() && Live(x) && Live(y) && offset[x] == offset[y]
      ensures x == y
    {
      var t := trees[Key(offset[x])];
      assert x in Slots(t) && y in Slots(t);
      if x != y {
        OnceInTree(t, offset, x, y);
      }
    }

    /** The node with an offset, if it is cached. */
    method FindNode(o: nat) returns (node: int)
      requires Valid()
      ensures node != NIL ==> 0 <= node < slots && Live(node) && offset[node] == o
      ensures node == NIL ==> forall x :: 0 <= x < slots && Live(x) ==> offset[x] != o
    {
      node := head[Key(o)];
      ghost var t, cur, par := trees[Key(o)], trees[Key(o)], NIL;
      while node != NIL
        invariant Linked(cur, node, par, K(), slots) && Ordered(cur, offset) && Slots(cur) <= Slots(t)
        invariant forall x :: x in Slots(t) && offset[x] == o ==> x in Slots(cur)
        decreases cur
      {
        if offset[node] == o {
          assert node in Slots(cur);
          return;
        } else if o > offset[node] {
          par := node;
          cur := cur.r;
          node := higher[node];
        } else {
          par := node;
          cur := cur.l;
          node := lower[node];
        }
      }
    }

    /** The slot of a cached offset, or NIL. */
    method PeekOffset(o: nat) returns (slot: int)
      requires Valid() && o != INVALID_RECORD_OFFSET
      ensures slot != NIL <==> o in Ring()
      ensures slot != NIL ==> 0 <= slot < slots && Live(slot) && offset[slot] == o
    {
      slot := FindNode(o);
      RingLive(o);
    }

    lemma RingLive(o: nat)
      requires Valid() && o != INVALID_RECORD_OFFSET
      ensures o in Ring() <==> exists x :: 0 <= x < slots && Live(x) && offset[x] == o
    {
      hide AllLinked, AllOrdered, Filed;
      RingSlots();
      if o in Ring() {
        var i :| 0 <= i < |Ring()| && Ring()[i] == o;
        assert Live(SlotAt(i)) && offset[SlotAt(i)] == o;
      }
      if x :| 0 <= x < slots && Live(x) && offset[x] == o {
        assert Ring()[PlaceOf(x)] == o;
      }
    }

    /** Hangs the lower tree under the far left of the higher one. */
    method HangLower(low: int, high: int, ghost l: Tree, ghost r: Tree, ghost par: int)
      requires K().Sized(slots) && Linked(l, low, par, K(), slots) && Linked(r, high, par, K(), slots)
      requires l != Leaf && r != Leaf && Slots(l) !! Slots(r)
      modifies this`parent, this`lower
      ensures K().Sized(slots) && Linked(JoinLeft(l, r), high, par, K(), slots)
      ensures forall y :: 0 <= y < slots && y !in Slots(l) && y !in Slots(r) ==>
                parent[y] == old(parent)[y] && lower[y] == old(lower)[y]
    {
      ghost var k0 := K();
      LinkedBounds(l, low, par, k0, slots);
      LinkedBounds(r, high, par, k0, slots);
      var leftmost := high;
      ghost var cur, above := r, par;
      while lower[leftmost] != NIL
        invariant Linked(cur, leftmost, above, k0, slots) && cur != Leaf && Leftmost(cur) == Leftmost(r) && K() == k0
        decreases cur
      {
        LinkedBounds(cur.l, lower[leftmost], leftmost, k0, slots);
        above := leftmost;
        leftmost := lower[leftmost];
        cur := cur.l;
      }
      LinkedBounds(cur.l, lower[leftmost], leftmost, k0, slots);
      JoinLeftLinked(l, r, low, high, par, par, k0, slots);
      lower := lower[leftmost := low];
      parent := parent[low := leftmost];
    }

    /** Hangs the higher tree under the far right of the lower one. */
    method HangHigher(low: int, high: int, ghost l: Tree, ghost r: Tree, ghost par: int)
      requires K().Sized(slots) && Linked(l, low, par, K(), slots) && Linked(r, high, par, K(), slots)
      requires l != Leaf && r != Leaf && Slots(l) !! Slots(r)
      modifies this`parent, this`higher
      ensures K().Sized(slots) && Linked(JoinRight(l, r), low, par, K(), slots)
      ensures forall y :: 0 <= y < slots && y !in Slots(l) && y !in Slots(r) ==>
                parent[y] == old(parent)[y] && higher[y] == old(higher)[y]
    {
      ghost var k0 := K();
      LinkedBounds(l, low, par, k0, slots);
      LinkedBounds(r, high, par, k0, slots);
      var rightmost := low;
      ghost var cur, above := l, par;
      while higher[rightmost] != NIL
        invariant Linked(cur, rightmost, above, k0, slots) && cur != Leaf && Rightmost(cur) == Rightmost(l) && K() == k0
        decreases cur
      {
        LinkedBounds(cur.r, higher[rightmost], rightmost, k0, slots);
        above := rightmost;
        rightmost := higher[rightmost];
        cur := cur.r;
      }
      LinkedBounds(cur.r, higher[rightmost], rightmost, k0, slots);
      JoinRightLinked(l, r, low, high, par, par, k0, slots);
      higher := higher[rightmost := high];
      parent := parent[high := rightmost];
    }

    /** Joins a node's subtrees as its place asks, and gives their root the node's parent. */
    method JoinChildren(x: nat, asLower: bool, ghost sub: Tree) returns (child: int)
      requires K().Sized(slots) && x < slots && Linked(sub, x, parent[x], K(), slots) && sub != Leaf
      modifies this`parent, this`lower, this`higher
      ensures K().Sized(slots) && Linked(Joined(sub, asLower), child, old(parent[x]), K(), slots)
      ensures forall y :: 0 <= y < slots && (y !in Slots(sub) || y == x) ==>
                parent[y] == old(parent)[y] && lower[y] == old(lower)[y] && higher[y] == old(higher)[y]
    {
      hide Linked, JoinLeft, JoinRight;
      var low, high := lower[x], higher[x];
      SubLinks(sub, x, parent[x], K(), slots);
      JoinNothing(sub.l, sub.r);
      if low == NIL {
        child := high;
      } else if high == NIL {
        child := low;
      } else if asLower {
        child := high;
        HangLower(low, high, sub.l, sub.r, x);
      } else {
        child := low;
        HangHigher(low, high, sub.l, sub.r, x);
      }
      assert Linked(Joined(sub, asLower), child, x, K(), slots);
      RootOf(Joined(sub, asLower), child, x, K(), slots);
      if child != NIL {
        Reparent(Joined(sub, asLower), child, x, parent[x], K(), slots);
        parent := parent[child := parent[x]];
      } else {
        NoRoot(Joined(sub, asLower), x, parent[x], K(), slots);
      }
    }

    /** Takes the node at x out of the tree of bucket b, in the links. */
    method UnlinkLinks(x: nat, b: nat, ghost t: Tree)
      requires K().Sized(slots) && b < |head| && Linked(t, head[b], NIL, K(), slots) && x in Slots(t) && x < slots
      modifies this`parent, this`lower, this`higher, this`head
      ensures K().Sized(slots) && |head| == |old(head)|
      ensures Linked(Removed(t, x, true), head[b], NIL, K(), slots)
      ensures forall b' :: 0 <= b' < |head| && b' != b ==> head[b'] == old(head)[b']
      ensures forall y :: 0 <= y < slots && y !in Slots(t) ==>
                parent[y] == old(parent)[y] && lower[y] == old(lower)[y] && higher[y] == old(higher)[y]
    {
      hide Linked, JoinLeft, JoinRight, Removed, Sub, IsLower, Joined;
      ghost var root, k0 := head[b], K();
      SubLinked(t, root, NIL, x, true, k0, slots);
      ghost var sub := Sub(t, x);
      var p := parent[x];
      var asLower := p == NIL || lower[p] == x;
      var child := JoinChildren(x, asLower, sub);
      ghost var k1 := K();
      if p != NIL {
        if asLower {
          lower := lower[p := child];
        } else {
          higher := higher[p := child];
        }
      } else {
        head := head[b := child];
      }
      SpliceLinked(t, root, x, asLower, child, k0, k1, K(), slots);
    }

    /** Takes a live node out of its bucket's tree. */
    method UnlinkNode(x: nat)
      requires Valid() && x < slots && Live(x)
      modifies this`parent, this`lower, this`higher, this`head, this`trees
      ensures ValidBut(x)
      ensures trees == old(trees)[Key(offset[x]) := Removed(old(trees)[Key(offset[x])], x, true)]
    {
      hide Linked, Ordered, Slots, Removed, KeyOf;
      var b := Key(offset[x]);
      ghost var t, head0, k0 := trees[b], head, K();
      UnlinkLinks(x, b, t);
      RemovedOrdered(t, x, true, offset);
      RemovedSlots(t, x, true, offset);
      FiledWithout(trees, offset, Used(), hash, buckets, b, Removed(t, x, true), x);
      FiledApart(trees, offset, Used(), hash, buckets, NIL, b);
      AllRelinked(trees, head0, head, k0, K(), slots, b, Removed(t, x, true));
      trees := trees[b := Removed(t, x, true)];
    }

    /** Where an offset is, or else the last node its search visits. */
    method Search(o: nat) returns (insert: int, found: bool)
      requires Valid() && o != INVALID_RECORD_OFFSET
      ensures found ==> 0 <= insert < slots && Live(insert) && offset[insert] == o
      ensures !found ==> forall x: nat :: Live(x) ==> offset[x] != o
      ensures !found && insert != NIL ==> 0 <= insert < slots && OnPath(trees[Key(o)], offset, o, insert)
    {
      var b := Key(o);
      insert, found := head[b], false;
      ghost var t, cur, par := trees[b], trees[b], NIL;
      while insert != NIL
        invariant Linked(cur, insert, par, K(), slots) && Ordered(cur, offset) && Slots(cur) <= Slots(t)
        invariant forall x :: x in Slots(t) && offset[x] == o ==> x in Slots(cur)
        invariant insert != NIL ==> OnPath(t, offset, o, insert)
        decreases cur
      {
        PathDown(t, head[b], NIL, K(), slots, offset, o, insert);
        if offset[insert] == o {
          found := true;
          return;
        } else if o > offset[insert] {
          if higher[insert] == NIL {
            break;
          }
          par := insert;
          insert := higher[insert];
          cur := cur.r;
        } else {
          if lower[insert] == NIL {
            break;
          }
          par := insert;
          insert := lower[insert];
          cur := cur.l;
        }
      }
    }

    /** Searches on from a node of the search path to an empty link, and puts the slot there. */
    method LinkLeaf(o: nat, hint: nat, node: nat, ghost t: Tree, ghost root: int, ghost off: seq<nat>)
      requires K().Sized(slots) && |offset| == |off| == slots && node < slots && Linked(t, root, NIL, K(), slots)
      requires Ordered(t, off) && node !in Slots(t) && hint < slots && OnPath(t, off, o, hint)
      requires forall y :: 0 <= y < slots && y != node ==> offset[y] == off[y]
      requires lower[node] == NIL && higher[node] == NIL
      modifies this`parent, this`lower, this`higher
      ensures K().Sized(slots) && Linked(Inserted(t, off, o, node), root, NIL, K(), slots)
      ensures forall y :: 0 <= y < slots && y !in Slots(t) && y != node ==>
                parent[y] == old(parent)[y] && lower[y] == old(lower)[y] && higher[y] == old(higher)[y]
    {
      hide Linked, Ordered, OnPath, Inserted, Slots, Below;
      var h: nat := hint;
      ghost var k0 := K();
      while true
        invariant K() == k0 && h < slots && OnPath(t, off, o, h)
        decreases Below(t, off, o, h)
      {
        PathDown(t, root, NIL, k0, slots, off, o, h);
        if o > offset[h] {
          if higher[h] == NIL {
            higher := higher[h := node];
            break;
          }
          h := higher[h];
        } else {
          if lower[h] == NIL {
            lower := lower[h := node];
            break;
          }
          h := lower[h];
        }
      }
      parent := parent[node := h];
      InsertedLinked(t, root, NIL, k0, K(), slots, off, o, node, h);
    }

    /** Puts a free slot in the tree of a bucket, in the links. */
    method InsertLinks(o: nat, key: nat, hint: int, node: nat, ghost t: Tree, ghost off: seq<nat>)
      requires K().Sized(slots) && |offset| == |off| == slots && node < slots
      requires key < |head| && Linked(t, head[key], NIL, K(), slots)
      requires Ordered(t, off) && node !in Slots(t) && lower[node] == NIL && higher[node] == NIL
      requires hint != NIL ==> 0 <= hint < slots && OnPath(t, off, o, hint)
      requires forall y :: 0 <= y < slots && y != node ==> offset[y] == off[y]
      modifies this`parent, this`lower, this`higher, this`head
      ensures K().Sized(slots) && |head| == |old(head)| && Linked(Inserted(t, off, o, node), head[key], NIL, K(), slots)
      ensures forall b' :: 0 <= b' < |head| && b' != key ==> head[b'] == old(head)[b']
      ensures forall y :: 0 <= y < slots && y !in Slots(t) && y != node ==>
                parent[y] == old(parent)[y] && lower[y] == old(lower)[y] && higher[y] == old(higher)[y]
    {
      hide Linked, Ordered, OnPath, Inserted, Slots;
      var h := hint;
      if h == NIL {
        h := head[key];
        RootOnPath(t, h, NIL, K(), slots, off, o);
      }
      if h == NIL {
        head := head[key := node];
        parent := parent[node := NIL];
        InsertedAlone(off, o, node, K(), slots);
      } else {
        LinkLeaf(o, h, node, t, head[key], off);
      }
    }

    /** Puts a free slot in its bucket's tree, searching on from a node of its search path. */
    method InsertNode(o: nat, hint: int, node: nat)
      requires ValidBut(node) && node < slots && node < Used() && o != INVALID_RECORD_OFFSET
      requires forall x: nat :: x != node && Live(x) ==> offset[x] != o
      requires hint != NIL ==> 0 <= hint < slots && OnPath(trees[Key(o)], offset, o, hint)
      modifies this`parent, this`lower, this`higher, this`offset, this`head, this`trees
      ensures Valid() && offset == old(offset)[node := o]
    {
      hide Linked, Ordered, OnPath, Inserted, Slots, KeyOf;
      var key := Key(o);
      ghost var t, k0, head0, off := trees[key], K(), head, offset;
      ghost var t' := Inserted(t, off, o, node);
      lower, higher, offset := lower[node := NIL], higher[node := NIL], offset[node := o];
      LinkedFrame(t, head[key], NIL, k0, K(), slots);
      InsertLinks(o, key, hint, node, t, off);
      InsertedOrdered(t, off, o, node);
      AllReordered(trees, off, node, o);
      FiledApart(trees, off, Used(), hash, buckets, node, key);
      FiledWith(trees, off, Used(), hash, buckets, node, o, t');
      AllRelinked(trees, head0, head, k0, K(), slots, key, t');
      trees := trees[key := t'];
    }

    /** Frees the next slot of a full cache: its node is unlinked unless it was removed before. A hint on the
        search path for o moves to its parent if it is the evicted node, and then is still on the path. */
    method EvictNext(o: nat, insert: int) returns (hint: int)
      requires Valid() && forall x: nat :: Live(x) ==> offset[x] != o
      requires insert != NIL ==> 0 <= insert < slots && OnPath(trees[Key(o)], offset, o, insert)
      modifies this`parent, this`lower, this`higher, this`head, this`trees
      ensures ValidBut(next)
      ensures hint != NIL ==> 0 <= hint < slots && OnPath(trees[Key(o)], offset, o, hint)
    {
      hide Linked, Ordered, OnPath, Removed, Slots, KeyOf;
      hint := insert;
      ghost var t := trees[Key(o)];
      if offset[next] != INVALID_RECORD_OFFSET && full {
        ghost var x, b := next, Key(offset[next]);
        if hint == next {
          if next != head[Key(o)] {
            ParentOnPath(t, head[Key(o)], NIL, K(), slots, offset, o, next);
          } else {
            RootHasNoParent(t, head[Key(o)], NIL, K(), slots);
          }
          hint := parent[hint];
        }
        if hint != NIL && b == Key(o) {
          HintSurvives(t, offset, o, hint, x, true);
        }
        UnlinkNode(next);
      } else {
        FiledDead(trees, offset, Used(), hash, buckets, next);
      }
    }

    /** Moves on to the next cache slot; the one just passed counts as written from here on. */
    method Advance()
      requires ValidBut(next)
      modifies this`next, this`full
      ensures ValidBut(old(next)) && old(next) < Used()
      ensures next == (if old(next) + 1 == slots then 0 else old(next) + 1)
      ensures full == (old(full) || old(next) + 1 == slots)
    {
      hide Linked, Ordered, Slots, KeyOf;
      ghost var used, node := Used(), next;
      next := next + 1;
      if next >= slots {
        next := 0;
        full := true;
      }
      FiledGrows(trees, offset, used, Used(), hash, buckets, node);
    }

    /** The slot for an offset: its own if it is cached; otherwise the oldest slot is given to it. */
    method SetOffset(o: nat) returns (slot: nat)
      requires Valid() && o != INVALID_RECORD_OFFSET
      modifies this`parent, this`lower, this`higher, this`offset, this`head, this`next, this`full, this`trees
      ensures Valid() && slot < slots && Live(slot) && offset[slot] == o
      ensures Ring() == (if o in old(Ring()) then old(Ring())
                         else (if old(full) then old(Ring())[1..] else old(Ring())) + [o])
    {
      hide AllLinked, AllOrdered, Filed, OnPath, KeyOf, RingOf;
      RingLive(o);
      var insert, found := Search(o);
      if found {
        return insert;
      }
      var node := next;
      RingPush(offset, next, full, o);
      insert := EvictNext(o, insert);
      ghost var full0 := full;
      Advance();
      InsertNode(o, insert, node);
      slot := node;
    }

    /** SetOffset for an offset that is not cached. */
    method InsertOffset(o: nat) returns (slot: nat)
      requires Valid() && o != INVALID_RECORD_OFFSET && o !in Ring()
      modifies this`parent, this`lower, this`higher, this`offset, this`head, this`next, this`full, this`trees
      ensures Valid() && slot < slots && Live(slot) && offset[slot] == o
      ensures Ring() == (if old(full) then old(Ring())[1..] else old(Ring())) + [o]
    {
      hide AllLinked, AllOrdered, Filed, OnPath, KeyOf, RingOf;
      RingLive(o);
      var node := next;
      RingPush(offset, next, full, o);
      var none := EvictNext(o, NIL);
      Advance();
      var insert := head[Key(o)];
      BucketRoot(node, Key(o), o);
      InsertNode(o, insert, node);
      slot := node;
    }

    lemma BucketRoot(hole: nat, b: nat, o: nat)
      requires ValidBut(hole) && b < buckets
      ensures head[b] != NIL ==> 0 <= head[b] < slots && OnPath(trees[b], offset, o, head[b])
    {
      RootOnPath(trees[b], head[b], NIL, K(), slots, offset, o);
    }

    /** Forgets an offset. */
    method RemoveOffset(o: nat) returns (removed: bool)
      requires Valid() && o != INVALID_RECORD_OFFSET
      modifies this`parent, this`lower, this`higher, this`offset, this`head, this`trees
      ensures Valid() && (removed <==> o in old(Ring())) && o !in Ring()
      ensures !removed ==> Ring() == old(Ring())
      ensures removed ==>
                exists i :: 0 <= i < |old(Ring())| && old(Ring())[i] == o
                            && Ring() == old(Ring())[i := INVALID_RECORD_OFFSET]
    {
      hide AllLinked, AllOrdered, Filed, KeyOf, RingOf;
      RingLive(o);
      var node := FindNode(o);
      removed := node != NIL;
      if removed {
        forall x: nat | Live(x) && offset[x] == o ensures x == node {
          OneSlot(x, node);
        }
        RingForgets(offset, next, full, node);
        UnlinkNode(node);
        FiledForgets(trees, offset, Used(), hash, buckets, node);
        AllReordered(trees, offset, node, INVALID_RECORD_OFFSET);
        offset := offset[node := INVALID_RECORD_OFFSET];
        RingLive(o);
      }
    }
  }

  lemma RootHasNoParent(t: Tree, root: int, par: int, k: Links, n: nat)
    requires Linked(t, root, par, k, n) && 0 <= root < n
    ensures k.parent[root] == par
  {}

  /** A slot that is not live is in no tree. */
  lemma FiledDead(trees: seq<Tree>, off: seq<nat>, used: nat, hash: nat -> nat, buckets: nat, x: nat)
    requires Filed(trees, off, used, hash, buckets, NIL) && !LiveIn(off, used, x)
    ensures Filed(trees, off, used, hash, buckets, x)
  {
    hide Slots, KeyOf;
  }

  lemma FiledForgets(trees: seq<Tree>, off: seq<nat>, used: nat, hash: nat -> nat, buckets: nat, x: nat)
    requires Filed(trees, off, used, hash, buckets, x) && x < |off|
    ensures Filed(trees, off[x := INVALID_RECORD_OFFSET], used, hash, buckets, NIL)
    ensures forall b :: 0 <= b < buckets ==> x !in Slots(trees[b])
  {
    hide Slots, KeyOf;
  }

  lemma RingForgets(off: seq<nat>, next: nat, full: bool, x: nat)
    requires next < |off| && x < (if full then |off| else next)
    ensures exists i :: 0 <= i < |RingOf(off, next, full)| && RingOf(off, next, full)[i] == off[x]
                        && RingOf(off[x := INVALID_RECORD_OFFSET], next, full)
                             == RingOf(off, next, full)[i := INVALID_RECORD_OFFSET]
  {
    var i := if !full then x else if x >= next then x - next else x + |off| - next;
    assert RingOf(off, next, full)[i] == off[x];
    assert RingOf(off[x := INVALID_RECORD_OFFSET], next, full) == RingOf(off, next, full)[i := INVALID_RECORD_OFFSET];
  }

  lemma FiledGrows(trees: seq<Tree>, off: seq<nat>, used: nat, used': nat, hash: nat -> nat, buckets: nat, x: nat)
    requires Filed(trees, off, used, hash, buckets, x) && (used' == used || (x == used && used' == used + 1))
    ensures Filed(trees, off, used', hash, buckets, x)
  {
    hide Slots, KeyOf;
  }

  lemma RootOnPath(t: Tree, root: int, par: int, k: Links, n: nat, off: seq<nat>, o: nat)
    requires Linked(t, root, par, k, n) && Ordered(t, off)
    ensures root == NIL ==> t == Leaf
    ensures root != NIL ==> 0 <= root < n && OnPath(t, off, o, root)
  {}

  lemma InsertedAlone(off: seq<nat>, o: nat, s: nat, k: Links, n: nat)
    requires k.Sized(n) && s < n && k.parent[s] == k.lower[s] == k.higher[s] == NIL
    ensures Linked(Inserted(Leaf, off, o, s), s, NIL, k, n)
  {}

  /** The links after one step of an unlinking: the subtree at x joined, then its parent's link moved. */
  ghost predicate Spliced(sub: Tree, p: int, asLower: bool, child: int, k0: Links, k1: Links, k2: Links, n: nat) {
    && sub != Leaf && k0.Sized(n) && k1.Sized(n) && (p == NIL || 0 <= p < n)
    && (forall y :: 0 <= y < n && (y !in Slots(sub) || y == sub.slot) ==>
          k1.parent[y] == k0.parent[y] && k1.lower[y] == k0.lower[y] && k1.higher[y] == k0.higher[y])
    && k2 == if p == NIL then k1
             else if asLower then k1.(lower := k1.lower[p := child]) else k1.(higher := k1.higher[p := child])
  }

  lemma SpliceLinked(t: Tree, root: int, x: nat, asLower: bool, child: int, k0: Links, k1: Links, k2: Links, n: nat)
    requires Linked(t, root, NIL, k0, n) && x in Slots(t) && x < n && k0.Sized(n)
    requires asLower == (k0.parent[x] == NIL || (0 <= k0.parent[x] < n && k0.lower[k0.parent[x]] == x))
    requires Spliced(Sub(t, x), k0.parent[x], asLower, child, k0, k1, k2, n)
    requires Linked(Joined(Sub(t, x), asLower), child, k0.parent[x], k1, n)
    ensures k2.Sized(n) && Linked(Removed(t, x, true), if k0.parent[x] == NIL then child else root, NIL, k2, n)
    ensures forall y :: 0 <= y < n && y !in Slots(t) ==>
              k2.parent[y] == k0.parent[y] && k2.lower[y] == k0.lower[y] && k2.higher[y] == k0.higher[y]
  {
    hide Linked, JoinLeft, JoinRight, Removed, Sub, IsLower, Rest;
    var sub, p := Sub(t, x), k0.parent[x];
    SubLinked(t, root, NIL, x, true, k0, n);
    OnlyParentLinks(t, root, NIL, x, k0, n);
    RootParent(t, root, x, k0, n);
    SubSlots(sub);
    LinkedFrame(Joined(sub, asLower), child, p, k1, k2, n);
    RestIs(t, x, true, asLower);
    RemovedLinked(t, root, NIL, x, true, child, k0, k2, n);
  }

  lemma RootParent(t: Tree, root: int, x: nat, k: Links, n: nat)
    requires Linked(t, root, NIL, k, n) && x in Slots(t) && x < n
    ensures x == root <==> k.parent[x] == NIL
  {
    SubLinked(t, root, NIL, x, true, k, n);
  }

  lemma SubSlots(sub: Tree)
    requires sub != Leaf
    ensures Slots(sub.l) + Slots(sub.r) <= Slots(sub)
  {}

  lemma RestIs(t: Tree, x: nat, top: bool, asLower: bool)
    requires x in Slots(t) && asLower == IsLower(t, x, top)
    ensures Rest(t, x, top) == Joined(Sub(t, x), asLower)
  {}

  /** What is left of a subtree without its root. */
  function Joined(sub: Tree, asLower: bool): (t: Tree)
    requires sub != Leaf
    ensures Slots(t) == Slots(sub.l) + Slots(sub.r)
  {
    if asLower then JoinLeft(sub.l, sub.r) else JoinRight(sub.l, sub.r)
  }

  lemma SubLinks(sub: Tree, x: nat, par: int, k: Links, n: nat)
    requires Linked(sub, x, par, k, n) && sub != Leaf
    ensures x < n && sub.slot == x && k.Sized(n) && x !in Slots(sub.l)
    ensures x !in Slots(sub.r) && Slots(sub.l) !! Slots(sub.r)
    ensures Linked(sub.l, k.lower[x], x, k, n) && Linked(sub.r, k.higher[x], x, k, n)
    ensures (sub.l == Leaf <==> k.lower[x] == NIL) && (sub.r == Leaf <==> k.higher[x] == NIL)
  {
    LinkedBounds(sub.l, k.lower[x], x, k, n);
    LinkedBounds(sub.r, k.higher[x], x, k, n);
  }

  lemma RootOf(t: Tree, root: int, par: int, k: Links, n: nat)
    requires Linked(t, root, par, k, n)
    ensures t == Leaf <==> root == NIL
    ensures t != Leaf ==> root == t.slot < n && t.slot in Slots(t)
  {}

  lemma NoRoot(t: Tree, par: int, par': int, k: Links, n: nat)
    requires Linked(t, NIL, par, k, n)
    ensures Linked(t, NIL, par', k, n)
  {}

  lemma JoinNothing(l: Tree, r: Tree)
    ensures l == Leaf ==> JoinLeft(l, r) == r && JoinRight(l, r) == r
    ensures r == Leaf ==> JoinLeft(l, r) == l && JoinRight(l, r) == l
  {
    if l == Leaf {
      JoinLeaf(r);
    }
    if r == Leaf {
      JoinLeaf(l);
    }
  }

  lemma {:induction false} JoinLeaf(t: Tree)
    ensures JoinLeft(Leaf, t) == t && JoinRight(t, Leaf) == t
  {
    if t != Leaf {
      JoinLeaf(t.l);
      JoinLeaf(t.r);
    }
  }
}

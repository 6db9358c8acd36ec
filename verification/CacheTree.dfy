/** The search trees of the record cache, and how they lie in the nodes' links (src/db/BombayTable.cpp). */
module CacheTree {
  const NIL: int := -1

  /** A bucket's tree, by the cache slots of its nodes. */
  datatype Tree = Leaf | Node(l: Tree, slot: nat, r: Tree)

  function Slots(t: Tree): set<nat> {
    if t == Leaf then {} else Slots(t.l) + {t.slot} + Slots(t.r)
  }

  /** The links of every cache slot. */
  datatype Links = Links(parent: seq<int>, lower: seq<int>, higher: seq<int>) {
    predicate Sized(n: nat) { |parent| == |lower| == |higher| == n }
  }

  /** The tree is what the links spell from root on, with consistent parents and every slot once. */
  ghost predicate Linked(t: Tree, root: int, par: int, k: Links, n: nat) {
    && k.Sized(n)
    && match t
       case Leaf => root == NIL
       case Node(l, s, r) =>
         && root == s < n && k.parent[s] == par
         && Linked(l, k.lower[s], s, k, n) && Linked(r, k.higher[s], s, k, n)
         && s !in Slots(l) && s !in Slots(r) && Slots(l) !! Slots(r)
  }

  /** Offsets grow from left to right. */
  ghost predicate Ordered(t: Tree, off: seq<nat>) {
    t != Leaf ==>
      && t.slot < |off| && (forall x :: x in Slots(t.l) ==> x < |off| && off[x] < off[t.slot])
      && (forall x :: x in Slots(t.r) ==> x < |off| && off[t.slot] < off[x])
      && Ordered(t.l, off) && Ordered(t.r, off)
  }

  ghost predicate SameAt(xs: set<nat>, k: Links, k': Links, n: nat) {
    && k.Sized(n) && k'.Sized(n)
    && forall x :: x in xs && x < n ==>
         k'.parent[x] == k.parent[x] && k'.lower[x] == k.lower[x] && k'.higher[x] == k.higher[x]
  }

  lemma {:induction false} LinkedBounds(t: Tree, root: int, par: int, k: Links, n: nat)
    requires Linked(t, root, par, k, n)
    ensures forall x :: x in Slots(t) ==> x < n
    ensures t == Leaf <==> root == NIL
    ensures root != NIL ==> 0 <= root < n && root in Slots(t)
  {
    if t != Leaf {
      LinkedBounds(t.l, k.lower[t.slot], t.slot, k, n);
      LinkedBounds(t.r, k.higher[t.slot], t.slot, k, n);
    }
  }

  /** Links outside the tree do not matter to it. */
  lemma {:induction false} LinkedFrame(t: Tree, root: int, par: int, k: Links, k': Links, n: nat)
    requires Linked(t, root, par, k, n) && SameAt(Slots(t), k, k', n)
    ensures Linked(t, root, par, k', n)
  {
    if t != Leaf {
      assert t.slot in Slots(t);
      LinkedFrame(t.l, k.lower[t.slot], t.slot, k, k', n);
      LinkedFrame(t.r, k.higher[t.slot], t.slot, k, k', n);
    }
  }

  /** Giving a tree's root a new parent. */
  lemma Reparent(t: Tree, root: int, par: int, par': int, k: Links, n: nat)
    requires Linked(t, root, par, k, n) && t != Leaf
    ensures Linked(t, root, par', k.(parent := k.parent[t.slot := par']), n)
  {
    var k' := k.(parent := k.parent[t.slot := par']);
    LinkedFrame(t.l, k.lower[t.slot], t.slot, k, k', n);
    LinkedFrame(t.r, k.higher[t.slot], t.slot, k, k', n);
  }

  // ---- Taking a node out ----

  /** l hung under the far left of r, or r under the far right of l. */
  function JoinLeft(l: Tree, r: Tree): (t: Tree)
    ensures Slots(t) == Slots(l) + Slots(r)
  {
    if r == Leaf then l else Node(JoinLeft(l, r.l), r.slot, r.r)
  }

  function JoinRight(l: Tree, r: Tree): (t: Tree)
    ensures Slots(t) == Slots(l) + Slots(r)
  {
    if l == Leaf then r else Node(l.l, l.slot, JoinRight(l.r, r))
  }

  function Leftmost(t: Tree): (s: nat)
    requires t != Leaf
    ensures s in Slots(t)
  {
    if t.l == Leaf then t.slot else Leftmost(t.l)
  }

  function Rightmost(t: Tree): (s: nat)
    requires t != Leaf
    ensures s in Slots(t)
  {
    if t.r == Leaf then t.slot else Rightmost(t.r)
  }

  /** The tree without slot x: a node that is a lower child, or the root, is replaced by its subtrees joined
      on the left; a higher child by them joined on the right. */
  function Removed(t: Tree, x: nat, asLower: bool): Tree {
    if t == Leaf then Leaf
    else if t.slot == x then (if asLower then JoinLeft(t.l, t.r) else JoinRight(t.l, t.r))
    else if x in Slots(t.l) then Node(Removed(t.l, x, true), t.slot, t.r)
    else Node(t.l, t.slot, Removed(t.r, x, false))
  }

  lemma {:induction false} RemovedSlots(t: Tree, x: nat, asLower: bool, off: seq<nat>)
    requires Ordered(t, off)
    ensures Slots(Removed(t, x, asLower)) == Slots(t) - {x}
  {
    if t != Leaf {
      RemovedSlots(t.l, x, true, off);
      RemovedSlots(t.r, x, false, off);
    }
  }

  ghost predicate Before(xs: set<nat>, ys: set<nat>, off: seq<nat>) {
    && (forall x :: x in xs ==> x < |off|) && (forall y :: y in ys ==> y < |off|)
    && forall x, y :: x in xs && y in ys ==> off[x] < off[y]
  }

  lemma {:induction false} JoinLeftOrdered(l: Tree, r: Tree, off: seq<nat>)
    requires Ordered(l, off) && Ordered(r, off) && Before(Slots(l), Slots(r), off)
    ensures Ordered(JoinLeft(l, r), off)
  {
    if r != Leaf {
      assert r.slot in Slots(r);
      JoinLeftOrdered(l, r.l, off);
    }
  }

  lemma {:induction false} JoinRightOrdered(l: Tree, r: Tree, off: seq<nat>)
    requires Ordered(l, off) && Ordered(r, off) && Before(Slots(l), Slots(r), off)
    ensures Ordered(JoinRight(l, r), off)
  {
    if l != Leaf {
      assert l.slot in Slots(l);
      JoinRightOrdered(l.r, r, off);
    }
  }

  lemma ChildrenBefore(t: Tree, off: seq<nat>)
    requires t != Leaf && Ordered(t, off)
    ensures Before(Slots(t.l), Slots(t.r), off)
  {}

  /** Removal keeps the search order. */
  lemma {:induction false} RemovedOrdered(t: Tree, x: nat, asLower: bool, off: seq<nat>)
    requires Ordered(t, off)
    ensures Ordered(Removed(t, x, asLower), off)
  {
    if t != Leaf {
      if t.slot == x {
        ChildrenBefore(t, off);
        JoinLeftOrdered(t.l, t.r, off);
        JoinRightOrdered(t.l, t.r, off);
      } else {
        RemovedOrdered(t.l, x, true, off);
        RemovedOrdered(t.r, x, false, off);
        RemovedSlots(t.l, x, true, off);
        RemovedSlots(t.r, x, false, off);
      }
    }
  }

  // ---- Search paths ----

  /** The search for offset o in t visits slot h. */
  ghost predicate OnPath(t: Tree, off: seq<nat>, o: nat, h: nat)
    requires Ordered(t, off)
  {
    t != Leaf && (t.slot == h || (if o > off[t.slot] then OnPath(t.r, off, o, h) else OnPath(t.l, off, o, h)))
  }

  lemma {:induction false} PathJoinLeft(l: Tree, r: Tree, off: seq<nat>, o: nat, h: nat)
    requires Ordered(l, off) && Ordered(r, off) && Ordered(JoinLeft(l, r), off)
    ensures OnPath(r, off, o, h) ==> OnPath(JoinLeft(l, r), off, o, h)
    ensures OnPath(l, off, o, h) && (forall y :: y in Slots(r) ==> y < |off| && o < off[y]) ==>
              OnPath(JoinLeft(l, r), off, o, h)
  {
    if r != Leaf {
      PathJoinLeft(l, r.l, off, o, h);
    }
  }

  lemma {:induction false} PathJoinRight(l: Tree, r: Tree, off: seq<nat>, o: nat, h: nat)
    requires Ordered(l, off) && Ordered(r, off) && Ordered(JoinRight(l, r), off)
    ensures OnPath(l, off, o, h) ==> OnPath(JoinRight(l, r), off, o, h)
    ensures OnPath(r, off, o, h) && (forall x :: x in Slots(l) ==> x < |off| && off[x] < o) ==>
              OnPath(JoinRight(l, r), off, o, h)
  {
    if l != Leaf {
      PathJoinRight(l.r, r, off, o, h);
    }
  }

  /** A node the search for o visits is still visited after any other node is taken out: an insertion hint
      outlives the eviction. */
  lemma {:induction false} HintSurvives(t: Tree, off: seq<nat>, o: nat, h: nat, x: nat, asLower: bool)
    requires Ordered(t, off) && OnPath(t, off, o, h) && h != x && forall y :: y in Slots(t) && y < |off| ==> off[y] != o
    ensures Ordered(Removed(t, x, asLower), off) && OnPath(Removed(t, x, asLower), off, o, h)
  {
    RemovedOrdered(t, x, asLower, off);
    if t.slot == x {
      ChildrenBefore(t, off);
      JoinLeftOrdered(t.l, t.r, off);
      JoinRightOrdered(t.l, t.r, off);
      PathJoinLeft(t.l, t.r, off, o, h);
      PathJoinRight(t.l, t.r, off, o, h);
    } else if t.slot != h {
      if o > off[t.slot] {
        HintSurvives(t.r, off, o, h, x, false);
      } else {
        HintSurvives(t.l, off, o, h, x, true);
      }
    }
  }

  // ---- Removal in the links ----

  /** The links after the lower tree is hung under the far left of the higher one. */
  lemma {:induction false} JoinLeftLinked(l: Tree, r: Tree, lroot: int, rroot: int, lpar: int, rpar: int, k: Links,
                                          n: nat)
    requires Linked(l, lroot, lpar, k, n) && Linked(r, rroot, rpar, k, n)
    requires l != Leaf && r != Leaf && Slots(l) !! Slots(r)
    ensures 0 <= lroot < n && Leftmost(r) < n
    ensures Linked(JoinLeft(l, r), rroot, rpar,
                   k.(lower := k.lower[Leftmost(r) := lroot], parent := k.parent[lroot := Leftmost(r)]), n)
    decreases r
  {
    LinkedBounds(l, lroot, lpar, k, n);
    LinkedBounds(r, rroot, rpar, k, n);
    var m := Leftmost(r);
    var k' := k.(lower := k.lower[m := lroot], parent := k.parent[lroot := m]);
    LinkedFrame(r.r, k.higher[r.slot], r.slot, k, k', n);
    if r.l == Leaf {
      Reparent(l, lroot, lpar, m, k, n);
      var k1 := k.(parent := k.parent[lroot := m]);
      LinkedFrame(l, lroot, m, k1, k', n);
    } else {
      LinkedBounds(r.l, k.lower[r.slot], r.slot, k, n);
      JoinLeftLinked(l, r.l, lroot, k.lower[r.slot], lpar, r.slot, k, n);
    }
  }

  lemma {:induction false} JoinRightLinked(l: Tree, r: Tree, lroot: int, rroot: int, lpar: int, rpar: int, k: Links,
                                           n: nat)
    requires Linked(l, lroot, lpar, k, n) && Linked(r, rroot, rpar, k, n)
    requires l != Leaf && r != Leaf && Slots(l) !! Slots(r)
    ensures 0 <= rroot < n && Rightmost(l) < n
    ensures Linked(JoinRight(l, r), lroot, lpar,
                   k.(higher := k.higher[Rightmost(l) := rroot], parent := k.parent[rroot := Rightmost(l)]), n)
    decreases l
  {
    LinkedBounds(l, lroot, lpar, k, n);
    LinkedBounds(r, rroot, rpar, k, n);
    var m := Rightmost(l);
    var k' := k.(higher := k.higher[m := rroot], parent := k.parent[rroot := m]);
    LinkedFrame(l.l, k.lower[l.slot], l.slot, k, k', n);
    if l.r == Leaf {
      Reparent(r, rroot, rpar, m, k, n);
      var k1 := k.(parent := k.parent[rroot := m]);
      LinkedFrame(r, rroot, m, k1, k', n);
    } else {
      LinkedBounds(l.r, k.higher[l.slot], l.slot, k, n);
      JoinRightLinked(l.r, r, k.higher[l.slot], rroot, l.slot, rpar, k, n);
    }
  }

  /** The subtree rooted at slot x, and whether x is a lower child (the root counts as one). */
  function Sub(t: Tree, x: nat): (sub: Tree)
    ensures sub != Leaf ==> sub.slot == x && Slots(sub) <= Slots(t)
    ensures x in Slots(t) ==> sub != Leaf
  {
    if t == Leaf then Leaf else if t.slot == x then t else if x in Slots(t.l) then Sub(t.l, x) else Sub(t.r, x)
  }

  function IsLower(t: Tree, x: nat, asLower: bool): bool {
    if t == Leaf || t.slot == x then asLower
    else if x in Slots(t.l) then IsLower(t.l, x, true)
    else IsLower(t.r, x, false)
  }

  /** What replaces the subtree at x. */
  function Rest(t: Tree, x: nat, asLower: bool): Tree
    requires x in Slots(t)
  {
    var sub := Sub(t, x);
    if IsLower(t, x, asLower) then JoinLeft(sub.l, sub.r) else JoinRight(sub.l, sub.r)
  }

  /** The node's subtree, its parent link, and the parent's link to it, as the links have them. */
  lemma {:induction false} SubLinked(t: Tree, root: int, par: int, x: nat, asLower: bool, k: Links, n: nat)
    requires Linked(t, root, par, k, n) && x in Slots(t)
    ensures x < n && Linked(Sub(t, x), x, k.parent[x], k, n)
    ensures x == root ==> k.parent[x] == par && Sub(t, x) == t && IsLower(t, x, asLower) == asLower
    ensures x != root ==> k.parent[x] in Slots(t) - Slots(Sub(t, x)) && 0 <= k.parent[x] < n
    ensures x != root ==>
              (IsLower(t, x, asLower) <==> k.lower[k.parent[x]] == x)
              && (!IsLower(t, x, asLower) ==> k.higher[k.parent[x]] == x)
  {
    LinkedBounds(t, root, par, k, n);
    if t.slot != x {
      LinkedBounds(t.l, k.lower[t.slot], t.slot, k, n);
      LinkedBounds(t.r, k.higher[t.slot], t.slot, k, n);
      if x in Slots(t.l) {
        SubLinked(t.l, k.lower[t.slot], t.slot, x, true, k, n);
      } else {
        SubLinked(t.r, k.higher[t.slot], t.slot, x, false, k, n);
      }
    }
  }

  /** Outside the subtree at x, links to x have become links to its replacement, and nothing else has changed. */
  ghost predicate Relinked(xs: set<nat>, x: nat, child: int, k: Links, k': Links, n: nat) {
    && k.Sized(n) && k'.Sized(n)
    && forall y :: y in xs && y < n ==>
         && k'.parent[y] == k.parent[y]
         && k'.lower[y] == (if k.lower[y] == x then child else k.lower[y])
         && k'.higher[y] == (if k.higher[y] == x then child else k.higher[y])
  }

  /** Replacing the subtree in the links replaces it in the tree. */
  lemma {:induction false} RemovedLinked(t: Tree, root: int, par: int, x: nat, asLower: bool, child: int, k: Links,
                                         k': Links, n: nat)
    requires Linked(t, root, par, k, n) && x in Slots(t) && x < n
    requires Linked(Rest(t, x, asLower), child, k.parent[x], k', n)
    requires Relinked(Slots(t) - Slots(Sub(t, x)), x, child, k, k', n)
    ensures Linked(Removed(t, x, asLower), if x == root then child else root, par, k', n)
  {
    LinkedBounds(t, root, par, k, n);
    if t.slot != x {
      LinkedBounds(t.l, k.lower[t.slot], t.slot, k, n);
      LinkedBounds(t.r, k.higher[t.slot], t.slot, k, n);
      assert t.slot in Slots(t) - Slots(Sub(t, x));
      if x in Slots(t.l) {
        RemovedLinked(t.l, k.lower[t.slot], t.slot, x, true, child, k, k', n);
        NoLinkTo(t.r, k.higher[t.slot], t.slot, x, k, n);
        LinkedFrame(t.r, k.higher[t.slot], t.slot, k, k', n);
        RemovedWithin(t.l, x, true);
      } else {
        RemovedLinked(t.r, k.higher[t.slot], t.slot, x, false, child, k, k', n);
        NoLinkTo(t.l, k.lower[t.slot], t.slot, x, k, n);
        LinkedFrame(t.l, k.lower[t.slot], t.slot, k, k', n);
        RemovedWithin(t.r, x, false);
      }
    }
  }

  lemma {:induction false} RemovedWithin(t: Tree, x: nat, asLower: bool)
    ensures Slots(Removed(t, x, asLower)) <= Slots(t)
  {
    if t != Leaf && t.slot != x {
      RemovedWithin(t.l, x, true);
      RemovedWithin(t.r, x, false);
    }
  }

  lemma {:induction false} NoLinkTo(t: Tree, root: int, par: int, x: nat, k: Links, n: nat)
    requires Linked(t, root, par, k, n) && x !in Slots(t)
    ensures root != x && forall y :: y in Slots(t) && y < n ==> k.lower[y] != x && k.higher[y] != x
  {
    LinkedBounds(t, root, par, k, n);
    if t != Leaf {
      NoLinkTo(t.l, k.lower[t.slot], t.slot, x, k, n);
      NoLinkTo(t.r, k.higher[t.slot], t.slot, x, k, n);
    }
  }

  // ---- Insertion ----

  function Inserted(t: Tree, off: seq<nat>, o: nat, s: nat): (t': Tree)
    requires Ordered(t, off)
    ensures Slots(t') == Slots(t) + {s}
  {
    if t == Leaf then Node(Leaf, s, Leaf)
    else if o > off[t.slot] then Node(t.l, t.slot, Inserted(t.r, off, o, s))
    else Node(Inserted(t.l, off, o, s), t.slot, t.r)
  }

  lemma {:induction false} InsertedOrdered(t: Tree, off: seq<nat>, o: nat, s: nat)
    requires Ordered(t, off) && s < |off| && s !in Slots(t) && forall x :: x in Slots(t) && x < |off| ==> off[x] != o
    ensures Ordered(Inserted(t, off, o, s), off[s := o])
  {
    OrderedOff(t, off, s, o);
    if t != Leaf {
      InsertedOrdered(t.l, off, o, s);
      InsertedOrdered(t.r, off, o, s);
      OrderedOff(t.l, off, s, o);
      OrderedOff(t.r, off, s, o);
    }
  }

  /** Offsets of slots outside the tree do not matter. */
  lemma {:induction false} OrderedOff(t: Tree, off: seq<nat>, s: nat, o: nat)
    requires Ordered(t, off) && s < |off| && s !in Slots(t)
    ensures Ordered(t, off[s := o])
  {
    if t != Leaf {
      OrderedOff(t.l, off, s, o);
      OrderedOff(t.r, off, s, o);
    }
  }

  /** Descending one link stays on the path. */
  lemma {:induction false} PathDown(t: Tree, root: int, par: int, k: Links, n: nat, off: seq<nat>, o: nat, h: nat)
    requires Linked(t, root, par, k, n) && Ordered(t, off) && OnPath(t, off, o, h)
    ensures h in Slots(t) && h < n && h < |off|
    ensures var c := if o > off[h] then k.higher[h] else k.lower[h];
            c != NIL ==> 0 <= c < n && c in Slots(t) && OnPath(t, off, o, c)
                         && Below(t, off, o, c) < Below(t, off, o, h)
  {
    LinkedBounds(t, root, par, k, n);
    LinkedBounds(t.l, k.lower[t.slot], t.slot, k, n);
    LinkedBounds(t.r, k.higher[t.slot], t.slot, k, n);
    if t.slot != h {
      if o > off[t.slot] {
        PathDown(t.r, k.higher[t.slot], t.slot, k, n, off, o, h);
      } else {
        PathDown(t.l, k.lower[t.slot], t.slot, k, n, off, o, h);
      }
    }
  }

  /** The nodes below h on the search path, and h. */
  ghost function Below(t: Tree, off: seq<nat>, o: nat, h: nat): nat
    requires Ordered(t, off)
  {
    if t == Leaf then 0
    else if t.slot == h then Height(t)
    else if o > off[t.slot] then Below(t.r, off, o, h)
    else Below(t.l, off, o, h)
  }

  function Height(t: Tree): nat {
    if t == Leaf then 0 else Height(t.l) + Height(t.r) + 1
  }

  lemma {:induction false} BelowBound(t: Tree, off: seq<nat>, o: nat, h: nat)
    requires Ordered(t, off)
    ensures Below(t, off, o, h) <= Height(t)
  {
    if t != Leaf {
      BelowBound(t.l, off, o, h);
      BelowBound(t.r, off, o, h);
    }
  }

  /** Linking slot s under the last node of the search path inserts it. */
  lemma {:induction false} InsertedLinked(t: Tree, root: int, par: int, k: Links, k': Links, n: nat, off: seq<nat>,
                                          o: nat, s: nat, h: nat)
    requires Linked(t, root, par, k, n) && Ordered(t, off) && OnPath(t, off, o, h)
    requires s < n && s !in Slots(t) && h < n && h < |off|
    requires k'.Sized(n) && k'.parent[s] == h && k'.lower[s] == NIL && k'.higher[s] == NIL
    requires forall y :: y in Slots(t) && y < n ==>
      && k'.parent[y] == k.parent[y]
      && k'.lower[y] == (if y == h && !(o > off[h]) then s else k.lower[y])
      && k'.higher[y] == (if y == h && o > off[h] then s else k.higher[y])
    requires if o > off[h] then k.higher[h] == NIL else k.lower[h] == NIL
    ensures Linked(Inserted(t, off, o, s), root, par, k', n)
  {
    LinkedBounds(t, root, par, k, n);
    assert t.slot in Slots(t);
    if t.slot == h {
      LinkedFrame(t.l, k.lower[t.slot], t.slot, k, k', n);
      LinkedFrame(t.r, k.higher[t.slot], t.slot, k, k', n);
      LinkedBounds(t.l, k.lower[t.slot], t.slot, k, n);
      LinkedBounds(t.r, k.higher[t.slot], t.slot, k, n);
    } else if o > off[t.slot] {
      PathDown(t.r, k.higher[t.slot], t.slot, k, n, off, o, h);
      LinkedFrame(t.l, k.lower[t.slot], t.slot, k, k', n);
      InsertedLinked(t.r, k.higher[t.slot], t.slot, k, k', n, off, o, s, h);
    } else {
      PathDown(t.l, k.lower[t.slot], t.slot, k, n, off, o, h);
      LinkedFrame(t.r, k.higher[t.slot], t.slot, k, k', n);
      InsertedLinked(t.l, k.lower[t.slot], t.slot, k, k', n, off, o, s, h);
    }
  }

  /** Only a node's parent links to it, and by one link. */
  lemma {:induction false} OnlyParentLinks(t: Tree, root: int, par: int, x: nat, k: Links, n: nat)
    requires Linked(t, root, par, k, n) && x in Slots(t) && x < n
    ensures forall y :: y in Slots(t) && y < n && (k.lower[y] == x || k.higher[y] == x) ==> y == k.parent[x]
    ensures forall y :: y in Slots(t) && y < n ==> !(k.lower[y] == x && k.higher[y] == x)
  {
    LinkedBounds(t, root, par, k, n);
    LinkedBounds(t.l, k.lower[t.slot], t.slot, k, n);
    LinkedBounds(t.r, k.higher[t.slot], t.slot, k, n);
    if t.slot == x {
      NoLinkTo(t.l, k.lower[t.slot], t.slot, x, k, n);
      NoLinkTo(t.r, k.higher[t.slot], t.slot, x, k, n);
    } else if x in Slots(t.l) {
      OnlyParentLinks(t.l, k.lower[t.slot], t.slot, x, k, n);
      NoLinkTo(t.r, k.higher[t.slot], t.slot, x, k, n);
      LinkMeansParent(t, root, par, x, k, n);
    } else {
      OnlyParentLinks(t.r, k.higher[t.slot], t.slot, x, k, n);
      NoLinkTo(t.l, k.lower[t.slot], t.slot, x, k, n);
      LinkMeansParent(t, root, par, x, k, n);
    }
  }

  lemma LinkMeansParent(t: Tree, root: int, par: int, x: nat, k: Links, n: nat)
    requires Linked(t, root, par, k, n) && t != Leaf && x < n
    ensures k.lower[t.slot] == x || k.higher[t.slot] == x ==> k.parent[x] == t.slot
  {}
}

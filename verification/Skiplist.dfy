/**
  skiplist.c in place: nodes with one `next` pointer for each level below their height.  The ghost
  field `model` is the value that the list stands for, and `all` names its nodes in list order,
  the head first; each method moves `model` exactly as the function in `SkipModel` does.
 */
module Skiplist {
  import opened Bytes
  import opened Options
  import opened SkipModel

  class Node {
    const key: bytes
    var val: bytes
    const height: nat
    var next: seq<Node?>

    constructor (height: nat, key: bytes, val: bytes)
      ensures this.height == height && this.key == key && this.val == val
      ensures next == seq(height, _ => null)
    {
      this.height, this.key, this.val := height, key, val;
      next := seq(height, _ => null);
    }
  }

  /** The first node after node number `p` that reaches level `i`; the number of nodes when there is none. */
  ghost function NextIndex(all: seq<Node>, p: nat, i: int): (n: nat)
    requires p < |all|
    ensures p < n <= |all|
    ensures n < |all| ==> all[n].height > i
    ensures forall m :: p < m < n ==> all[m].height <= i
    decreases |all| - p
  {
    if p + 1 == |all| || all[p + 1].height > i then p + 1 else NextIndex(all, p + 1, i)
  }

  lemma NextIndexIs(all: seq<Node>, p: nat, i: int, n: nat)
    requires p < n <= |all|
    requires n < |all| ==> all[n].height > i
    requires forall m :: p < m < n ==> all[m].height <= i
    ensures NextIndex(all, p, i) == n
  {
    assert NextIndex(all, p, i) >= n;
  }

  ghost function At(all: seq<Node>, n: nat): Node? { if n < |all| then all[n] else null }

  /** At level `i`, each node that reaches it points to the next node that does. */
  ghost predicate Linked(all: seq<Node>, i: int)
    reads all`next
  {
    forall p {:trigger all[p].next} :: 0 <= p < |all| && 0 <= i < all[p].height ==>
      |all[p].next| == all[p].height && all[p].next[i] == At(all, NextIndex(all, p, i))
  }

  // ---------- Splicing a node in ----------

  ghost function With(all: seq<Node>, p: nat, q: Node): (r: seq<Node>)
    requires p < |all|
    ensures |r| == |all| + 1
    ensures forall m :: 0 <= m < |r| ==> r[m] == if m <= p then all[m] else if m == p + 1 then q else all[m - 1]
  {
    all[..p + 1] + [q] + all[p + 1..]
  }

  /** The next node at level `i` for a node up to number `p`, after `q` comes in behind number `p`. */
  lemma NextBefore(all: seq<Node>, p: nat, q: Node, m: nat, i: int)
    requires m <= p < |all|
    ensures var n := NextIndex(all, m, i);
      NextIndex(With(all, p, q), m, i) == if n <= p then n else if q.height > i then p + 1 else n + 1
  {
    var n, all' := NextIndex(all, m, i), With(all, p, q);
    hide NextIndex;
    if n <= p {
      NextIndexIs(all', m, i, n);
    } else if q.height > i {
      NextIndexIs(all', m, i, p + 1);
    } else {
      NextIndexIs(all', m, i, n + 1);
    }
  }

  /** The same for the nodes behind it. */
  lemma NextAfter(all: seq<Node>, p: nat, q: Node, m: nat, i: int)
    requires p <= m < |all|
    ensures NextIndex(With(all, p, q), m + 1, i) == NextIndex(all, m, i) + 1
  {
    var n := NextIndex(all, m, i);
    hide NextIndex;
    NextIndexIs(With(all, p, q), m + 1, i, n + 1);
  }

  /** The next nodes at level `i` after `q` comes in behind node number `p`. */
  lemma NextWith(all: seq<Node>, p: nat, q: Node, m: nat, i: int)
    requires p < |all| && m < |all|
    ensures var n, all' := NextIndex(all, m, i), With(all, p, q);
      && (m <= p ==> NextIndex(all', m, i) == if n <= p then n else if q.height > i then p + 1 else n + 1)
      && (m >= p ==> NextIndex(all', m + 1, i) == n + 1)
  {
    hide *;
    if m <= p { NextBefore(all, p, q, m, i); }
    if m >= p { NextAfter(all, p, q, m, i); }
  }

  /** At a level that the new node does not reach the next node of each other node is the same one. */
  lemma SameNext(all: seq<Node>, p: nat, q: Node, i: int, x: nat)
    requires p < |all| && i >= q.height && x < |all|
    ensures var all', m := With(all, p, q), if x <= p then x else x + 1;
      all'[m] == all[x] && At(all', NextIndex(all', m, i)) == At(all, NextIndex(all, x, i))
  {
    NextWith(all, p, q, x, i);
    hide NextIndex;
  }

  /** A level that the new node does not reach stays as it is. */
  lemma LinkedBelow(all: seq<Node>, p: nat, q: Node, i: int)
    requires p < |all| && Linked(all, i) && i >= q.height
    ensures Linked(With(all, p, q), i)
  {
    var all' := With(all, p, q);
    hide NextIndex, At, With;
    forall m | 0 <= m < |all'| && 0 <= i < all'[m].height
      ensures |all'[m].next| == all'[m].height && all'[m].next[i] == At(all', NextIndex(all', m, i))
    {
      assert all'[p + 1] == q && m != p + 1;
      var x := if m <= p then m else m - 1;
      SameNext(all, p, q, i, x);
      assert |all[x].next| == all[x].height && all[x].next[i] == At(all, NextIndex(all, x, i));
    }
  }

  /** What the nodes must point to at a level that the new node reaches; node `m` is the last one before it there. */
  lemma NextSpliced(all: seq<Node>, p: nat, q: Node, m: nat, i: int, x: nat)
    requires p < |all| && i < q.height && m < |all| && all[m].height > i && m <= p < NextIndex(all, m, i)
    requires x < |With(all, p, q)| && With(all, p, q)[x].height > i
    ensures var all' := With(all, p, q); var y := if x <= p then x else x - 1;
      At(all', NextIndex(all', x, i)) ==
        if x == p + 1 then At(all, NextIndex(all, m, i)) else if y == m then q else At(all, NextIndex(all, y, i))
  {
    hide NextIndex;
    var all', n := With(all, p, q), NextIndex(all, m, i);
    if x == p + 1 {
      NextWith(all, p, q, p, i);
      NextIndexIs(all, p, i, n);
    } else {
      var y := if x <= p then x else x - 1;
      NextWith(all, p, q, y, i);
      assert y < m ==> NextIndex(all, y, i) <= m;
    }
  }

  /** One turn of the loop of insert_skiplist that sets the pointers. */
  method LinkLevel(ghost all: seq<Node>, ghost p: nat, q: Node, u: Node, ghost m: nat, i: nat)
    requires p < |all| && Linked(all, i) && q !in all && i < q.height == |q.next|
    requires Pred(all, p, i, m) && u == all[m]
    requires forall a, b :: 0 <= a < b < |all| ==> all[a] != all[b]
    modifies q`next, u`next
    ensures Linked(With(all, p, q), i)
    ensures |q.next| == q.height && |u.next| == |old(u.next)|
    ensures forall j :: 0 <= j < |q.next| && j != i ==> q.next[j] == old(q.next[j])
    ensures forall j :: 0 <= j < |u.next| && j != i ==> u.next[j] == old(u.next[j])
  {
    hide NextIndex;
    assert |all[m].next| == all[m].height && all[m].next[i] == At(all, NextIndex(all, m, i));
    ghost var all' := With(all, p, q);
    q.next := q.next[i := u.next[i]];
    u.next := u.next[i := q];
    forall x | 0 <= x < |all'| && i < all'[x].height
      ensures |all'[x].next| == all'[x].height && all'[x].next[i] == At(all', NextIndex(all', x, i))
    {
      NextSpliced(all, p, q, m, i, x);
      ghost var y := if x <= p then x else x - 1;
      if x != p + 1 {
        assert all'[x] == all[y] && old(|all[y].next| == all[y].height && all[y].next[i] == At(all, NextIndex(all, y, i)));
      }
    }
  }

  twostate predicate SameBut(n: Node, i: int)
    reads n`next
  {
    && |n.next| == |old(n.next)|
    && forall j :: 0 <= j < |n.next| && j != i ==> n.next[j] == old(n.next[j])
  }

  /** Only pointers at level `i` have changed. */
  twostate predicate OnlyLevel(s: seq<Node>, i: int)
    reads s`next
  {
    forall x {:trigger s[x]} :: 0 <= x < |s| ==> SameBut(s[x], i)
  }

  /** Every level from `lo` up to `hi` is linked. */
  ghost predicate Levels(s: seq<Node>, lo: int, hi: int)
    reads s`next
  {
    forall j :: lo <= j < hi ==> Linked(s, j)
  }

  /** The levels where no pointer has changed are still linked. */
  twostate lemma StillLinked(s: seq<Node>)
    ensures forall i, j :: OnlyLevel(s, i) && j != i && old(Linked(s, j)) ==> Linked(s, j)
  {
    forall i, j, x | OnlyLevel(s, i) && j != i && old(Linked(s, j)) && 0 <= x < |s| && 0 <= j < s[x].height
      ensures |s[x].next| == s[x].height && s[x].next[j] == At(s, NextIndex(s, x, j))
    {
      assert SameBut(s[x], i);
      assert old(|s[x].next| == s[x].height && s[x].next[j] == At(s, NextIndex(s, x, j)));
    }
  }

  lemma LevelOf(s: seq<Node>, i: int, lo: int, hi: int)
    requires Levels(s, lo, hi) && lo <= i < hi
    ensures Linked(s, i)
  {
  }

  ghost predicate Sized(s: seq<Node>)
    reads s`next
  {
    forall a {:trigger s[a]} :: 0 <= a < |s| ==> |s[a].next| == s[a].height
  }

  ghost predicate NoRepeat(s: seq<Node>) { forall a, b :: 0 <= a < b < |s| ==> s[a] != s[b] }

  /** One turn, and what it leaves alone. */
  method LinkTurn(ghost all: seq<Node>, ghost p: nat, q: Node, u: Node, ghost m: nat, i: nat)
    requires p < |all| && Levels(all, 0, i + 1) && q !in all && i < q.height == |q.next|
    requires Pred(all, p, i, m) && u == all[m]
    requires NoRepeat(all) && Sized(all)
    requires Levels(all, q.height, MAX_LEVEL) && Levels(With(all, p, q), i + 1, q.height)
    modifies q`next, u`next
    ensures |q.next| == q.height && Sized(all)
    ensures Levels(all, 0, i) && Levels(all, q.height, MAX_LEVEL) && Levels(With(all, p, q), i, q.height)
  {
    hide NextIndex;
    ghost var all' := With(all, p, q);
    LinkLevel(all, p, q, u, m, i);
    assert OnlyLevel(all, i);
    assert OnlyLevel(all', i);
    hide Linked;
    StillLinked(all);
    StillLinked(all');
  }

  /** The pointer loop of insert_skiplist: afterwards every level is linked with the new node in it. */
  method LinkNode(ghost all: seq<Node>, ghost p: nat, q: Node, update: seq<Node>, ghost us: seq<nat>)
    requires p < |all| && q !in all && |q.next| == q.height <= MAX_LEVEL == |update| == |us|
    requires NoRepeat(all) && Sized(all) && Levels(all, 0, MAX_LEVEL)
    requires Preds(all, p, update, us, 0, q.height)
    modifies q`next, all`next
    ensures Sized(With(all, p, q)) && Levels(With(all, p, q), 0, MAX_LEVEL)
  {
    hide NextIndex, Linked;
    for i := q.height downto 0
      invariant |q.next| == q.height && Sized(all)
      invariant Levels(With(all, p, q), i, q.height) && Levels(all, 0, i) && Levels(all, q.height, MAX_LEVEL)
    {
      assert Pred(all, p, i, us[i]);
      LinkTurn(all, p, q, update[i], us[i], i);
    }
    forall i | q.height <= i < MAX_LEVEL
      ensures Linked(With(all, p, q), i)
    {
      LinkedBelow(all, p, q, i);
    }
  }

  // ---------- Taking a node out ----------

  ghost function Without(all: seq<Node>, p: nat): (r: seq<Node>)
    requires p + 1 < |all|
    ensures |r| == |all| - 1
    ensures forall m :: 0 <= m < |r| ==> r[m] == if m <= p then all[m] else all[m + 1]
  {
    all[..p + 1] + all[p + 2..]
  }

  lemma NextKept(all: seq<Node>, p: nat, m: nat, i: int)
    requires p + 1 < |all| && m <= p
    ensures var n := NextIndex(all, m, i);
      NextIndex(Without(all, p), m, i) == if n <= p then n else if n > p + 1 then n - 1 else NextIndex(all, p + 1, i) - 1
  {
    var n, all' := NextIndex(all, m, i), Without(all, p);
    hide NextIndex;
    if n <= p {
      NextIndexIs(all', m, i, n);
    } else if n > p + 1 {
      NextIndexIs(all', m, i, n - 1);
    } else {
      NextOver(all, p, m, i);
    }
  }

  lemma NextOver(all: seq<Node>, p: nat, m: nat, i: int)
    requires p + 1 < |all| && m <= p && NextIndex(all, m, i) == p + 1
    ensures NextIndex(Without(all, p), m, i) == NextIndex(all, p + 1, i) - 1
  {
    var all', k := Without(all, p), NextIndex(all, p + 1, i);
    hide NextIndex;
    forall x | m < x < k - 1 ensures all'[x].height <= i { assert all'[x] == all[if x <= p then x else x + 1]; }
    NextIndexIs(all', m, i, k - 1);
  }

  lemma NextMoved(all: seq<Node>, p: nat, m: nat, i: int)
    requires p + 1 < m < |all|
    ensures NextIndex(Without(all, p), m - 1, i) == NextIndex(all, m, i) - 1
  {
    var n := NextIndex(all, m, i);
    hide NextIndex;
    NextIndexIs(Without(all, p), m - 1, i, n - 1);
  }

  /** The next nodes at level `i` after the node behind number `p` has gone. */
  lemma NextWithout(all: seq<Node>, p: nat, m: nat, i: int)
    requires p + 1 < |all| && m < |all|
    ensures var n, all' := NextIndex(all, m, i), Without(all, p);
      && (m <= p ==> NextIndex(all', m, i) == if n <= p then n else if n > p + 1 then n - 1 else NextIndex(all, p + 1, i) - 1)
      && (m > p + 1 ==> NextIndex(all', m - 1, i) == n - 1)
  {
    hide *;
    if m <= p { NextKept(all, p, m, i); }
    if m > p + 1 { NextMoved(all, p, m, i); }
  }

  /** At a level that the node does not reach the next node of each other node is the same one. */
  lemma SameNextWithout(all: seq<Node>, p: nat, i: int, x: nat)
    requires p + 1 < |all| && i >= all[p + 1].height && x < |all| && x != p + 1
    ensures var all', m := Without(all, p), if x <= p then x else x - 1;
      all'[m] == all[x] && At(all', NextIndex(all', m, i)) == At(all, NextIndex(all, x, i))
  {
    NextWithout(all, p, x, i);
    hide NextIndex;
  }

  /** A level that the node does not reach stays as it is. */
  lemma UnlinkedBelow(all: seq<Node>, p: nat, i: int)
    requires p + 1 < |all| && Linked(all, i) && i >= all[p + 1].height
    ensures Linked(Without(all, p), i)
  {
    var all' := Without(all, p);
    hide NextIndex, At, Without;
    forall x | 0 <= x < |all'| && 0 <= i < all'[x].height
      ensures |all'[x].next| == all'[x].height && all'[x].next[i] == At(all', NextIndex(all', x, i))
    {
      var y := if x <= p then x else x + 1;
      SameNextWithout(all, p, i, y);
      assert |all[y].next| == all[y].height && all[y].next[i] == At(all, NextIndex(all, y, i));
    }
  }

  /** What the nodes must point to at a level that the lost node reached; node `m` was the last one before it there. */
  lemma NextCut(all: seq<Node>, p: nat, m: nat, i: int, x: nat)
    requires p + 1 < |all| && i < all[p + 1].height && m < |all| && all[m].height > i && m <= p < NextIndex(all, m, i)
    requires x < |Without(all, p)| && Without(all, p)[x].height > i
    ensures var all', y := Without(all, p), if x <= p then x else x + 1;
      At(all', NextIndex(all', x, i)) == At(all, NextIndex(all, if y == m then p + 1 else y, i))
  {
    hide NextIndex;
    var y := if x <= p then x else x + 1;
    NextWithout(all, p, y, i);
    NextIndexIs(all, m, i, p + 1);
    assert y < m ==> NextIndex(all, y, i) <= m;
  }

  method UnlinkLevel(ghost all: seq<Node>, ghost p: nat, q: Node, u: Node, ghost m: nat, i: nat)
    requires p + 1 < |all| && Linked(all, i) && q == all[p + 1] && i < q.height
    requires Pred(all, p, i, m) && u == all[m]
    requires NoRepeat(all) && Sized(all)
    modifies u`next
    ensures Linked(Without(all, p), i)
    ensures |u.next| == |old(u.next)|
    ensures forall j :: 0 <= j < |u.next| && j != i ==> u.next[j] == old(u.next[j])
  {
    hide NextIndex;
    assert all[p + 1].next[i] == At(all, NextIndex(all, p + 1, i));
    ghost var all' := Without(all, p);
    u.next := u.next[i := q.next[i]];
    forall x | 0 <= x < |all'| && i < all'[x].height
      ensures |all'[x].next| == all'[x].height && all'[x].next[i] == At(all', NextIndex(all', x, i))
    {
      NextCut(all, p, m, i, x);
      ghost var y := if x <= p then x else x + 1;
      assert all'[x] == all[y] && old(|all[y].next| == all[y].height && all[y].next[i] == At(all, NextIndex(all, y, i)));
    }
  }

  /** The same, with what it leaves alone. */
  method CutLevel(ghost all: seq<Node>, ghost p: nat, q: Node, u: Node, ghost m: nat, i: nat)
    requires p + 1 < |all| && Levels(all, 0, i + 1) && q == all[p + 1] && i < q.height
    requires Pred(all, p, i, m) && u == all[m]
    requires NoRepeat(all) && Sized(all) && Levels(Without(all, p), i + 1, MAX_LEVEL)
    modifies u`next
    ensures Sized(all) && Levels(all, 0, i) && Levels(Without(all, p), i, MAX_LEVEL)
  {
    hide NextIndex;
    ghost var all' := Without(all, p);
    UnlinkLevel(all, p, q, u, m, i);
    assert OnlyLevel(all, i);
    assert OnlyLevel(all', i);
    hide Linked;
    StillLinked(all);
    StillLinked(all');
  }

  /** The last node before the place points to the node there at the levels that this node reaches. */
  lemma PointsAt(all: seq<Node>, p: nat, m: nat, i: nat)
    requires p + 1 < |all| && Levels(all, 0, i + 1) && Pred(all, p, i, m) && NoRepeat(all)
    ensures |all[m].next| > i && (all[m].next[i] == all[p + 1] <==> all[p + 1].height > i)
  {
    LevelOf(all, i, 0, i + 1);
    assert all[m].next[i] == At(all, NextIndex(all, m, i));
    if all[p + 1].height > i { NextIndexIs(all, m, i, p + 1); }
  }

  lemma StaysLinked(all: seq<Node>, p: nat, i: nat)
    requires p + 1 < |all| && Levels(all, 0, i + 1) && i >= all[p + 1].height
    requires Levels(Without(all, p), i + 1, MAX_LEVEL)
    ensures Levels(all, 0, i) && Levels(Without(all, p), i, MAX_LEVEL)
  {
    UnlinkedBelow(all, p, i);
  }

  /** One turn of the pointer loop of delete_skiplist, without its change of `level`. */
  method UnlinkTurn(ghost all: seq<Node>, ghost p: nat, q: Node, u: Node, ghost m: nat, i: nat) returns (cut: bool)
    requires p + 1 < |all| && Levels(all, 0, i + 1) && q == all[p + 1] && i < MAX_LEVEL
    requires Pred(all, p, i, m) && u == all[m]
    requires NoRepeat(all) && Sized(all) && Levels(Without(all, p), i + 1, MAX_LEVEL)
    modifies u`next
    ensures Sized(all) && cut == (q.height > i)
    ensures Levels(all, 0, i) && Levels(Without(all, p), i, MAX_LEVEL)
  {
    PointsAt(all, p, m, i);
    hide NextIndex, Linked, Levels, Pred, NoRepeat;
    cut := u.next[i] == q;
    if cut {
      CutLevel(all, p, q, u, m, i);
    } else {
      StaysLinked(all, p, i);
    }
  }

  // ---------- The items ----------

  /** The nodes behind the head stand for the items. */
  ghost predicate Stands(all: seq<Node>, items: seq<Item>)
    reads all`val
  {
    && |all| == |items| + 1
    && forall p {:trigger all[p]} :: 0 < p < |all| ==> Item(all[p].key, all[p].val, all[p].height) == items[p - 1]
  }

  lemma StandsWith(all: seq<Node>, items: seq<Item>, p: nat, q: Node)
    requires Stands(all, items) && NoRepeat(all) && p < |all| && q !in all
    ensures Stands(With(all, p, q), items[..p] + [Item(q.key, q.val, q.height)] + items[p..])
    ensures NoRepeat(With(all, p, q)) && With(all, p, q)[0] == all[0]
    ensures forall x :: 0 <= x < |With(all, p, q)| ==> With(all, p, q)[x] in all || With(all, p, q)[x] == q
  {
  }

  lemma StandsWithout(all: seq<Node>, items: seq<Item>, p: nat)
    requires Stands(all, items) && NoRepeat(all) && p + 1 < |all|
    ensures Stands(Without(all, p), items[..p] + items[p + 1..])
    ensures NoRepeat(Without(all, p)) && Without(all, p)[0] == all[0]
    ensures forall x :: 0 <= x < |Without(all, p)| ==> Without(all, p)[x] in all
  {
  }

  /** Node number `u` is the last one up to number `p` that reaches level `i`. */
  ghost predicate Pred(all: seq<Node>, p: nat, i: nat, u: nat) {
    u < |all| && all[u].height > i && u <= p < NextIndex(all, u, i)
  }

  /** At the levels from `lo` up to `hi`, `update` holds the last node up to number `p` that reaches the level. */
  ghost predicate Preds(all: seq<Node>, p: nat, update: seq<Node>, us: seq<nat>, lo: int, hi: int) {
    && |update| == |us| == MAX_LEVEL
    && forall i {:trigger us[i]} :: 0 <= i < MAX_LEVEL && lo <= i < hi ==> Pred(all, p, i, us[i]) && update[i] == all[us[i]]
  }

  /** Makes a node and puts it behind node number `p`. */
  method Graft(ghost all: seq<Node>, ghost items: seq<Item>, k: bytes, v: bytes, height: nat, update: seq<Node>,
      ghost us: seq<nat>, ghost p: nat)
      returns (q: Node)
    requires p < |all| && height <= MAX_LEVEL && Preds(all, p, update, us, 0, height)
    requires Stands(all, items) && NoRepeat(all) && Sized(all) && Levels(all, 0, MAX_LEVEL)
    modifies all`next
    ensures fresh(q) && With(all, p, q)[0] == all[0]
    ensures forall x :: 0 <= x < |With(all, p, q)| ==> With(all, p, q)[x] in all || With(all, p, q)[x] == q
    ensures Stands(With(all, p, q), items[..p] + [Item(k, v, height)] + items[p..])
    ensures NoRepeat(With(all, p, q)) && Sized(With(all, p, q)) && Levels(With(all, p, q), 0, MAX_LEVEL)
  {
    hide Levels, Linked;
    q := new Node(height, k, v);
    StandsWith(all, items, p, q);
    hide Stands, NoRepeat;
    LinkNode(all, p, q, update, us);
  }

  /** What the test of the head's pointer tells. */
  lemma HeadTest(rest: seq<Node>, items: seq<Item>, i: nat)
    requires Stands(rest, items) && Linked(rest, i) && i < rest[0].height
    ensures |rest[0].next| == rest[0].height && (rest[0].next[i] == null <==> !Reaches(items, i))
  {
    assert |rest[0].next| == rest[0].height && rest[0].next[i] == At(rest, NextIndex(rest, 0, i));
    ReachesIff(items, i);
    HeightBound(items);
    var n := NextIndex(rest, 0, i);
    if Reaches(items, i) {
      var x :| 0 <= x < |items| && items[x].height == MaxHeight(items);
      assert rest[x + 1].height > i;
    }
    if n < |rest| { assert items[n - 1].height > i; }
  }

  /** One turn of the loop that lowers `level`, with the test of the head's pointer. */
  lemma LowerStep(rest: seq<Node>, items: seq<Item>, height: nat, level: nat, i: nat)
    requires Stands(rest, items) && Levels(rest, i, MAX_LEVEL) && i < MAX_LEVEL == rest[0].height && level > i
    ensures |rest[0].next| == rest[0].height
    ensures Lower(items, height, level, i + 1) == Lower(items, height, if i < height && rest[0].next[i] == null then level - 1 else level, i)
  {
    LevelOf(rest, i, i, MAX_LEVEL);
    HeadTest(rest, items, i);
  }

  lemma LowerDone(rest: seq<Item>, height: nat, level: nat)
    ensures Lower(rest, height, level, 0) == level
  {
  }

  /** The pointer loop of delete_skiplist, which lowers `level` as it goes. */
  method CutNode(ghost all: seq<Node>, ghost rest: seq<Item>, head: Node, ghost p: nat, q: Node,
      update: seq<Node>, ghost us: seq<nat>, top: nat)
      returns (level: nat)
    requires p + 1 < |all| && head == all[0] && q == all[p + 1] && top <= MAX_LEVEL == head.height
    requires NoRepeat(all) && Sized(all) && Levels(all, 0, top) && Levels(Without(all, p), top, MAX_LEVEL)
    requires Preds(all, p, update, us, 0, top) && Stands(Without(all, p), rest)
    modifies all`next
    ensures Sized(Without(all, p)) && Levels(Without(all, p), 0, MAX_LEVEL)
    ensures level == Lower(rest, q.height, top, top)
  {
    ghost var all' := Without(all, p);
    level := top;
    hide NextIndex, Linked, Levels, NoRepeat, Stands, Lower;
    for i := top downto 0
      invariant Sized(all) && Levels(all, 0, i) && Levels(all', i, MAX_LEVEL)
      invariant i <= level <= top && Lower(rest, q.height, level, i) == Lower(rest, q.height, top, top)
    {
      assert Pred(all, p, i, us[i]);
      var cut := UnlinkTurn(all, p, q, update[i], us[i], i);
      LowerStep(all', rest, q.height, level, i);
      if cut && head.next[i] == null { level := level - 1; }
    }
    LowerDone(rest, q.height, level);
  }

  /** Along the bottom level to the last node. */
  method Last(ghost all: seq<Node>, start: Node, ghost from: nat) returns (node: Node)
    requires Linked(all, 0) && from < |all| && start == all[from]
    requires forall x :: 0 <= x < |all| ==> all[x].height >= 1
    ensures node == all[|all| - 1]
  {
    hide NextIndex;
    node := start;
    ghost var m := from;
    assert NextIndex(all, m, 0) == m + 1 by { NextIndexIs(all, m, 0, m + 1); }
    assert |all[m].next| == all[m].height && all[m].next[0] == At(all, NextIndex(all, m, 0));
    while node.next[0] != null
      invariant m < |all| && node == all[m] && |node.next| > 0 && node.next[0] == At(all, m + 1)
      decreases |all| - m
    {
      node, m := node.next[0], m + 1;
      assert |all[m].next| == all[m].height && all[m].next[0] == At(all, NextIndex(all, m, 0));
      NextIndexIs(all, m, 0, m + 1);
    }
  }

  // ---------- The chain of a level ----------

  /** The nodes that a walk along the pointers of level `i` meets behind node number `p`. */
  ghost function Along(all: seq<Node>, p: nat, i: nat): seq<Node>
    requires p < |all| && i < all[p].height && Linked(all, i)
    reads all`next
    decreases |all| - p
  {
    assert |all[p].next| == all[p].height;
    var q := all[p].next[i];
    if q == null then [] else [q] + Along(all, NextIndex(all, p, i), i)
  }

  /** The nodes of a list that reach level `i`. */
  ghost function Reaching(nodes: seq<Node>, i: int): seq<Node> {
    if nodes == [] then [] else (if nodes[0].height > i then [nodes[0]] else []) + Reaching(nodes[1..], i)
  }

  lemma {:induction false} ReachingFrom(all: seq<Node>, p: nat, i: int)
    requires p < |all|
    ensures var n := NextIndex(all, p, i);
      Reaching(all[p + 1..], i) == if n < |all| then [all[n]] + Reaching(all[n + 1..], i) else []
    decreases |all| - p
  {
    if p + 1 < |all| {
      assert all[p + 1..][0] == all[p + 1] && all[p + 1..][1..] == all[p + 2..];
      if all[p + 1].height <= i { ReachingFrom(all, p + 1, i); }
    }
  }

  lemma {:induction false} AlongIs(all: seq<Node>, p: nat, i: nat)
    requires p < |all| && i < all[p].height && Linked(all, i)
    ensures Along(all, p, i) == Reaching(all[p + 1..], i)
    decreases |all| - p
  {
    hide Reaching, NextIndex;
    var n := NextIndex(all, p, i);
    assert all[p].next[i] == At(all, n);
    ReachingFrom(all, p, i);
    if n < |all| { AlongIs(all, n, i); }
  }

  lemma {:induction false} ReachingTwice(nodes: seq<Node>, i: int, j: int)
    requires i <= j
    ensures Reaching(Reaching(nodes, i), j) == Reaching(nodes, j)
    ensures (forall x :: x in Reaching(nodes, i) ==> x in nodes)
  {
    if nodes != [] {
      ReachingTwice(nodes[1..], i, j);
      if nodes[0].height > i {
        assert Reaching(nodes, i)[1..] == Reaching(nodes[1..], i);
      } else {
        assert [] + Reaching(nodes[1..], i) == Reaching(nodes[1..], i) && [] + Reaching(nodes[1..], j) == Reaching(nodes[1..], j);
      }
    }
  }

  ghost predicate Ascends(nodes: seq<Node>) {
    forall a, b :: 0 <= a < b < |nodes| ==> KeyCompare(nodes[a].key, nodes[b].key) < 0
  }

  lemma {:induction false} ReachingAscends(nodes: seq<Node>, i: int)
    requires Ascends(nodes)
    ensures Ascends(Reaching(nodes, i))
  {
    if nodes != [] {
      var rest := Reaching(nodes[1..], i);
      ReachingAscends(nodes[1..], i);
      ReachingTwice(nodes[1..], i, i);
      forall b | 0 <= b < |rest| ensures KeyCompare(nodes[0].key, rest[b].key) < 0 {
        assert rest[b] in nodes[1..];
        var c :| 0 <= c < |nodes[1..]| && nodes[1..][c] == rest[b];
        assert nodes[c + 1] == rest[b];
      }
    }
  }

  lemma {:induction false} ReachingAll(nodes: seq<Node>, i: int)
    ensures (forall x :: x in nodes ==> x.height > i) ==> Reaching(nodes, i) == nodes
    ensures (forall x :: x in nodes ==> x.height <= i) ==> Reaching(nodes, i) == []
  {
    if nodes != [] {
      ReachingAll(nodes[1..], i);
      assert nodes == [nodes[0]] + nodes[1..];
    }
  }

  class Skiplist {
    var level: nat
    var length: int
    const head: Node

    ghost const keyLen: nat
    ghost var all: seq<Node>
    ghost var model: SkipList
    ghost var Repr: set<object>

    ghost predicate Valid()
      reads this, Repr
      ensures Valid() ==> this in Repr
    {
      && this in Repr && (forall p :: 0 <= p < |all| ==> all[p] in Repr)
      && Stands(all, model.items) && all[0] == head && head.height == MAX_LEVEL
      && NoRepeat(all) && Sized(all) && Levels(all, 0, MAX_LEVEL)
      && level == model.level && length == model.length
      && WF(keyLen, model)
    }

    /**
      The pointer chains of the levels.  The bottom one holds all nodes; each is strictly sorted by
      key; each is a part of the one below, the nodes of it that reach one level further; and
      the chains at `level` and above are empty.
     */
    lemma LevelChains(i: nat)
      requires Valid() && i < MAX_LEVEL
      ensures Linked(all, i) && Linked(all, 0) && (i > 0 ==> Linked(all, i - 1))
      ensures Along(all, 0, 0) == all[1..] && |all| == |model.items| + 1
      ensures Ascends(Along(all, 0, i))
      ensures i > 0 ==> Along(all, 0, i) == Reaching(Along(all, 0, i - 1), i)
      ensures i >= level ==> Along(all, 0, i) == []
    {
      hide Valid, Linked, Along, Reaching, Ascends;
      ChainIs(0);
      ChainIs(i);
      NodesAscend();
      ReachingAll(all[1..], 0);
      ReachingAscends(all[1..], i);
      if i > 0 {
        ChainIs(i - 1);
        ReachingTwice(all[1..], i - 1, i);
      }
      if i >= level { ReachingAll(all[1..], i); }
    }

    lemma ChainIs(i: nat)
      requires Valid() && i < MAX_LEVEL
      ensures |all| == |model.items| + 1 && all[0].height == MAX_LEVEL
      ensures Linked(all, i) && Along(all, 0, i) == Reaching(all[1..], i)
    {
      assert Linked(all, i);
      hide Linked;
      AlongIs(all, 0, i);
    }

    lemma NodesAscend()
      requires Valid()
      ensures Ascends(all[1..])
      ensures forall x :: x in all[1..] ==> 0 < x.height <= level
    {
      var nodes, items := all[1..], model.items;
      HeightBound(items);
      assert forall a :: 0 <= a < |nodes| ==> nodes[a].key == items[a].key && nodes[a].height == items[a].height by {
        assert forall a :: 0 <= a < |nodes| ==> Item(all[a + 1].key, all[a + 1].val, all[a + 1].height) == items[a];
      }
      forall a, b | 0 <= a < b < |nodes| ensures KeyCompare(nodes[a].key, nodes[b].key) < 0 {
        assert KeyCompare(items[a].key, items[b].key) < 0;
      }
    }

    /** create_skiplist. */
    constructor (ghost keyLen: nat)
      ensures Valid() && fresh(Repr)
      ensures this.keyLen == keyLen && model == Empty()
    {
      this.keyLen := keyLen;
      level, length := 1, 0;
      head := new Node(MAX_LEVEL, [], []);
      model := Empty();
      new;
      all, Repr := [head], {this, head};
    }

    /** The nodes up to number `pos` come before `k`. */
    ghost predicate Before(pos: nat, k: bytes)
      reads this
    {
      pos <= Place(model.items, k)
    }

    /** The search of search_skiplist and replace_skiplist: it may stop above the bottom level. */
    method FindNode(k: bytes) returns (q: Node?, ghost m: nat)
      requires Valid() && |k| == keyLen
      ensures q == null ==> !Found(model.items, k)
      ensures q != null ==> 0 < m < |all| && q == all[m] && Found(model.items, k) && Place(model.items, k) == m - 1
    {
      var p := head;
      ghost var pos: nat := 0;
      var i := level - 1;
      TopLevel(keyLen, model);
      m := 0;
      while i >= 0
        invariant -1 <= i < MAX_LEVEL
        invariant pos < |all| && p == all[pos] && p.height > i && Before(pos, k)
        invariant i < 0 ==> !Found(model.items, k)
      {
        q, p, pos := Walk(k, i, p, pos);
        m := NextIndex(all, pos, i);
        Decide(k, i, pos, m);
        if q != null && KeyCompare(k, q.key) == 0 { return; }
        i := i - 1;
      }
      q := null;
    }

    /** search_skiplist. */
    method Search(k: bytes) returns (r: Option<bytes>)
      requires Valid() && |k| == keyLen
      ensures r == SkipModel.Search(model, k)
    {
      var q, m := FindNode(k);
      if q == null { return None; }
      assert Item(all[m].key, all[m].val, all[m].height) == model.items[m - 1];
      return Some(q.val);
    }

    /** replace_skiplist. */
    method Replace(k: bytes, v: bytes) returns (found: bool)
      requires Valid() && |k| == keyLen
      modifies Repr
      ensures Valid() && Repr == old(Repr) && (model, found) == SkipModel.Replace(old(model), k, v)
    {
      var q, m := FindNode(k);
      found := q != null;
      if q != null { SetVal(q, m, v); }
    }

    /** Changes the value of node number `m`. */
    method SetVal(q: Node, ghost m: nat, v: bytes)
      requires Valid() && 0 < m < |all| && q == all[m]
      modifies this, q`val
      ensures Valid() && Repr == old(Repr) && all == old(all)
      ensures model == old(model).(items := old(model).items[m - 1 := old(model).items[m - 1].(val := v)])
    {
      ghost var s := model.(items := model.items[m - 1 := model.items[m - 1].(val := v)]);
      assert WF(keyLen, s) by { SameHeights(model.items, s.items); }
      assert Item(all[m].key, all[m].val, all[m].height) == model.items[m - 1];
      hide WF;
      q.val := v;
      model := s;
    }

    /** The search of insert_skiplist and delete_skiplist: for each level, the last node before `k`. */
    method FindUpdate(k: bytes) returns (update: seq<Node>, q: Node?, ghost us: seq<nat>)
      requires Valid() && |k| == keyLen
      ensures Preds(all, Place(model.items, k), update, us, 0, level)
      ensures q == At(all, Place(model.items, k) + 1)
    {
      ghost var pos;
      update, q, us, pos := Descend(k);
      TopLevel(keyLen, model);
      if level > 0 { Bottom(k, pos); }
    }

    method Descend(k: bytes) returns (update: seq<Node>, q: Node?, ghost us: seq<nat>, ghost pos: nat)
      requires Valid() && |k| == keyLen
      ensures Preds(all, Place(model.items, k), update, us, 0, level)
      ensures pos < |all| && Before(pos, k)
      ensures if level == 0 then q == null
              else q == At(all, NextIndex(all, pos, 0)) && NextIndex(all, pos, 0) > Place(model.items, k)
    {
      update := seq(MAX_LEVEL, _ => head);
      us := seq(MAX_LEVEL, _ => 0);
      q, pos := null, 0;
      var x := head;
      TopLevel(keyLen, model);
      for i := level downto 0
        invariant pos < |all| && x == all[pos] && x.height >= i && Before(pos, k)
        invariant Preds(all, Place(model.items, k), update, us, i, level)
        invariant if i == level then q == null && x == head
                  else q == At(all, NextIndex(all, pos, i)) && NextIndex(all, pos, i) > Place(model.items, k)
      {
        q, x, pos := Walk(k, i, x, pos);
        update := update[i := x];
        us := us[i := pos];
      }
    }

    /** Above `level` there is no node behind the head. */
    lemma AboveLevel(i: nat)
      requires Valid() && level <= i < MAX_LEVEL
      ensures Pred(all, |model.items|, i, 0) && NextIndex(all, 0, i) == |all|
    {
      HeightBound(model.items);
      forall m | 0 < m < |all| ensures all[m].height <= i {
        assert Item(all[m].key, all[m].val, all[m].height) == model.items[m - 1];
      }
    }

    /** The levels that only the new node reaches start at the head. */
    method FillUpdate(before: seq<Node>, ghost usBefore: seq<nat>, height: nat,
        ghost p: nat) returns (update: seq<Node>, ghost us: seq<nat>)
      requires Valid() && height <= MAX_LEVEL && p <= |model.items| && Preds(all, p, before, usBefore, 0, level)
      ensures Preds(all, p, update, us, 0, height)
    {
      update, us := before, usBefore;
      if height > level {
        for i := level to height
          invariant Preds(all, p, update, us, 0, i)
        {
          AboveLevel(i);
          update := update[i := head];
          us := us[i := 0];
        }
      }
    }

    /** insert_skiplist; `height` is the level that gen_random_level draws. */
    method Insert(k: bytes, v: bytes, height: nat)
      requires Valid() && |k| == keyLen && 1 <= height <= 16
      modifies Repr
      ensures Valid() && fresh(Repr - old(Repr)) && model == SkipModel.Insert(old(model), k, v, height)
    {
      var update, q, us := FindUpdate(k);
      ghost var p := Place(model.items, k);
      FoundNode(k, p, q);
      if q != null && KeyCompare(q.key, k) == 0 {
        SetVal(q, p + 1, v);
        length := length + 1;
        model := model.(length := model.length + 1);
      } else {
        update, us := FillUpdate(update, us, height, p);
        Splice(k, v, height, update, us, p);
      }
    }

    lemma FoundNode(k: bytes, p: nat, q: Node?)
      requires Valid() && p == Place(model.items, k) && q == At(all, p + 1)
      ensures Found(model.items, k) <==> q != null && KeyCompare(q.key, k) == 0
    {
      if p + 1 < |all| { assert Item(all[p + 1].key, all[p + 1].val, all[p + 1].height) == model.items[p]; }
    }

    /** The second half of insert_skiplist: a new node behind number `p`. */
    method Splice(k: bytes, v: bytes, height: nat, update: seq<Node>, ghost us: seq<nat>, ghost p: nat)
      requires Valid() && |k| == keyLen && 1 <= height <= 16
      requires p == Place(model.items, k) && !Found(model.items, k) && Preds(all, p, update, us, 0, height)
      modifies Repr
      ensures Valid() && fresh(Repr - old(Repr)) && model == SkipModel.Insert(old(model), k, v, height)
    {
      ghost var s := SkipModel.Insert(model, k, v, height);
      FoundIffPresent(keyLen, model, k);
      InsertRefinesMap(keyLen, model, k, v, height);
      assert p < |all|;
      assert s.level == (if height > level then height else level) && s.length == length + 1;
      hide WF, Place, Levels, NoRepeat, Stands, Sized, Preds, With, SkipModel.Insert, Found;
      var q := Graft(all, model.items, k, v, height, update, us, p);
      ghost var all' := With(all, p, q);
      assert forall x :: 0 <= x < |all'| ==> all'[x] in Repr + {q};
      Adopt(all', s, {q}, if height > level then height else level, length + 1);
    }

    /** The fields for another list of nodes. */
    method Adopt(ghost all': seq<Node>, ghost s: SkipList, ghost more: set<object>, level': nat, length': int)
      requires this in Repr && WF(keyLen, s) && s.level == level' && s.length == length' && head.height == MAX_LEVEL
      requires Stands(all', s.items) && NoRepeat(all') && Sized(all') && Levels(all', 0, MAX_LEVEL) && all'[0] == head
      requires forall x :: 0 <= x < |all'| ==> all'[x] in Repr + more
      modifies this
      ensures Valid() && Repr == old(Repr) + more && model == s
    {
      hide WF, Levels, NoRepeat, Stands, Sized;
      all, model, Repr := all', s, Repr + more;
      level, length := level', length';
    }

    /** Above `level` no pointer leads to the node that goes. */
    lemma Untouched(p: nat)
      requires Valid() && p + 1 < |all|
      ensures Levels(Without(all, p), level, MAX_LEVEL)
    {
      HeightBound(model.items);
      assert Item(all[p + 1].key, all[p + 1].val, all[p + 1].height) == model.items[p];
      forall i | level <= i < MAX_LEVEL
        ensures Linked(Without(all, p), i)
      {
        UnlinkedBelow(all, p, i);
      }
    }

    /** delete_skiplist. */
    method Delete(k: bytes) returns (found: bool)
      requires Valid() && |k| == keyLen
      modifies Repr
      ensures Valid() && Repr == old(Repr) && (model, found) == SkipModel.Delete(old(model), k)
    {
      var update, q, us := FindUpdate(k);
      ghost var p := Place(model.items, k);
      FoundNode(k, p, q);
      if q == null || KeyCompare(q.key, k) != 0 { return false; }
      Remove(k, q, update, us, p);
      return true;
    }

    /** The second half of delete_skiplist. */
    method Remove(k: bytes, q: Node, update: seq<Node>, ghost us: seq<nat>, ghost p: nat)
      requires Valid() && |k| == keyLen && p == Place(model.items, k) && Found(model.items, k)
      requires q == At(all, p + 1) && Preds(all, p, update, us, 0, level)
      modifies Repr
      ensures Valid() && Repr == old(Repr) && (model, true) == SkipModel.Delete(old(model), k)
    {
      ghost var s := SkipModel.Delete(model, k).0;
      BeforeRemove(k, p, s);
      hide WF, Place, Levels, NoRepeat, Preds, Stands, Sized, Lower, Found, SkipModel.Delete, Without, At;
      var lowered := CutNode(all, s.items, head, p, q, update, us, level);
      assert Stands(Without(all, p), s.items);
      Adopt(Without(all, p), s, {}, lowered, length - 1);
    }

    /** What is known before the pointers change. */
    lemma BeforeRemove(k: bytes, p: nat, s: SkipList)
      requires Valid() && |k| == keyLen && p == Place(model.items, k) && Found(model.items, k)
      requires s == SkipModel.Delete(model, k).0
      ensures p + 1 < |all| && WF(keyLen, s) && level <= MAX_LEVEL && (s, true) == SkipModel.Delete(model, k)
      ensures s.level == Lower(s.items, all[p + 1].height, level, level) && s.length == length - 1
      ensures Levels(all, 0, level) && Levels(Without(all, p), level, MAX_LEVEL)
      ensures Stands(Without(all, p), s.items) && NoRepeat(Without(all, p)) && Without(all, p)[0] == all[0]
      ensures forall x :: 0 <= x < |Without(all, p)| ==> Without(all, p)[x] in Repr
    {
      DeleteRefinesMap(keyLen, model, k);
      TopLevel(keyLen, model);
      Untouched(p);
      StandsWithout(all, model.items, p);
      assert Item(all[p + 1].key, all[p + 1].val, all[p + 1].height) == model.items[p];
      hide WF, Linked, Place;
    }

    /** Every node reaches the bottom level, and the last one has the last key. */
    lemma AtBottom()
      requires Valid() && model.items != []
      ensures Linked(all, 0) && all[|all| - 1].key == model.items[|model.items| - 1].key
      ensures forall y {:trigger all[y]} :: 0 <= y < |all| ==> all[y].height >= 1
    {
      hide Linked;
      forall y | 0 < y < |all| ensures all[y].height >= 1 {
        assert Item(all[y].key, all[y].val, all[y].height) == model.items[y - 1];
      }
      var z := |all| - 1;
      assert Item(all[z].key, all[z].val, all[z].height) == model.items[z - 1];
    }

    /** Some node reaches the top level. */
    lemma AtTop()
      requires Valid() && model.items != []
      ensures 1 <= level <= MAX_LEVEL == head.height && NextIndex(all, 0, level - 1) < |all|
      ensures |head.next| == MAX_LEVEL && head.next[level - 1] == all[NextIndex(all, 0, level - 1)]
    {
      HeightBound(model.items);
      var x :| 0 <= x < |model.items| && model.items[x].height == MaxHeight(model.items);
      assert all[x + 1].height == model.items[x].height;
      hide NoRepeat, Levels;
      LevelOf(all, level - 1, 0, MAX_LEVEL);
      assert |all[0].next| == MAX_LEVEL && all[0].next[level - 1] == At(all, NextIndex(all, 0, level - 1));
    }

    lemma OnTop()
      requires Valid() && model.items != []
      ensures 1 <= level <= MAX_LEVEL == head.height && NextIndex(all, 0, level - 1) < |all|
      ensures |head.next| == MAX_LEVEL && head.next[level - 1] == all[NextIndex(all, 0, level - 1)]
      ensures Linked(all, 0) && all[|all| - 1].key == model.items[|model.items| - 1].key
      ensures forall y {:trigger all[y]} :: 0 <= y < |all| ==> all[y].height >= 1
    {
      hide *;
      AtTop();
      AtBottom();
    }

    /** The node behind another one on the bottom level, with its item. */
    method BottomNext(p: Node, ghost m: nat) returns (q: Node?)
      requires Valid() && m < |all| && p == all[m]
      ensures m <= |model.items| && (q == null <==> m == |model.items|)
      ensures q != null ==> q == all[m + 1] && q.key == model.items[m].key
    {
      assert m + 1 < |all| ==> Item(all[m + 1].key, all[m + 1].val, all[m + 1].height) == model.items[m];
      assert m > 0 ==> Item(all[m].key, all[m].val, all[m].height) == model.items[m - 1];
      NextIndexIs(all, m, 0, m + 1);
      hide WF, Linked;
      q := Follow(p, m, 0);
    }

    /** find_max_skiplist. */
    method FindMax() returns (k: bytes)
      requires Valid() && model.items != []
      ensures k == model.items[|model.items| - 1].key
    {
      hide Valid, Linked, NextIndex;
      OnTop();
      var node := Last(all, head.next[level - 1], NextIndex(all, 0, level - 1));
      return node.key;
    }

    /** A node with key `k` is at the place of `k`. */
    lemma AtPlace(k: bytes, m: nat)
      requires Valid() && |k| == keyLen && 0 < m < |all| && KeyCompare(k, all[m].key) == 0
      ensures Place(model.items, k) == m - 1 && Found(model.items, k) && all[m].val == model.items[m - 1].val
    {
      assert Item(all[m].key, all[m].val, all[m].height) == model.items[m - 1];
      KeyOrder(keyLen, k, all[m].key);
      PlaceOfItem(keyLen, model, m - 1);
    }

    /** At the bottom level the node after the last one before `k` is the only one that can have key `k`. */
    lemma Bottom(k: bytes, pos: nat)
      requires Valid() && |k| == keyLen && pos < |all| && Before(pos, k)
      requires NextIndex(all, pos, 0) > Place(model.items, k)
      ensures pos == Place(model.items, k) && NextIndex(all, pos, 0) == pos + 1
      ensures Found(model.items, k) <==> pos + 1 < |all| && KeyCompare(all[pos + 1].key, k) == 0
    {
      if pos + 1 < |all| {
        assert Item(all[pos + 1].key, all[pos + 1].val, all[pos + 1].height) == model.items[pos];
        assert all[pos + 1].height >= 1;
      }
    }

    /** What the comparison after the walk along level `i` tells. */
    lemma Decide(k: bytes, i: nat, pos: nat, m: nat)
      requires Valid() && |k| == keyLen && pos < |all| && Before(pos, k)
      requires m == NextIndex(all, pos, i) > Place(model.items, k)
      ensures m < |all| && KeyCompare(k, all[m].key) == 0 ==> Found(model.items, k) && Place(model.items, k) == m - 1
      ensures i == 0 && !(m < |all| && KeyCompare(k, all[m].key) == 0) ==> !Found(model.items, k)
    {
      if m < |all| && KeyCompare(k, all[m].key) == 0 {
        AtPlace(k, m);
      } else if i == 0 {
        Bottom(k, pos);
        if m < |all| {
          assert Item(all[m].key, all[m].val, all[m].height) == model.items[m - 1];
          KeyOrder(keyLen, k, all[m].key);
        }
      }
    }

    /** The inner loop of every search: along level `i` as long as the keys come before `k`. */
    method Walk(k: bytes, i: int, x: Node, ghost from: nat) returns (q: Node?, p: Node, ghost pos: nat)
      requires Valid() && |k| == keyLen && 0 <= i < MAX_LEVEL
      requires from < |all| && x == all[from] && x.height > i && Before(from, k)
      ensures pos < |all| && p == all[pos] && p.height > i && Before(pos, k)
      ensures q == At(all, NextIndex(all, pos, i)) && NextIndex(all, pos, i) > Place(model.items, k)
      ensures Pred(all, Place(model.items, k), i, pos)
    {
      p, pos := x, from;
      q := Follow(p, pos, i);
      while q != null && KeyCompare(q.key, k) < 0
        invariant pos < |all| && p == all[pos] && p.height > i && Before(pos, k)
        invariant q == At(all, NextIndex(all, pos, i))
        decreases |all| - pos
      {
        Onward(k, NextIndex(all, pos, i));
        p, pos := q, NextIndex(all, pos, i);
        q := Follow(p, pos, i);
      }
      if q != null { Onward(k, NextIndex(all, pos, i)); }
    }

    /** Reads one pointer. */
    method Follow(p: Node, ghost pos: nat, i: int) returns (q: Node?)
      requires Valid() && 0 <= i < MAX_LEVEL && pos < |all| && p == all[pos] && p.height > i
      ensures q == At(all, NextIndex(all, pos, i))
    {
      assert Linked(all, i);
      q := p.next[i];
    }

    lemma Onward(k: bytes, m: nat)
      requires Valid() && |k| == keyLen && 0 < m < |all|
      ensures Before(m, k) <==> KeyCompare(all[m].key, k) < 0
    {
      assert Item(all[m].key, all[m].val, all[m].height) == model.items[m - 1];
      PlaceSplits(keyLen, model, k, m - 1);
    }
  }

  lemma TopLevel(n: nat, s: SkipList)
    requires WF(n, s)
    ensures s.level <= MAX_LEVEL
    ensures s.level == 0 ==> s.items == []
  {
    HeightBound(s.items);
  }

  lemma {:induction false} SameHeights(a: seq<Item>, b: seq<Item>)
    requires |a| == |b| && forall i :: 0 <= i < |a| ==> a[i].height == b[i].height
    ensures MaxHeight(a) == MaxHeight(b)
  {
    if a != [] {
      assert forall i :: 0 <= i < |a[1..]| ==> a[1..][i] == a[i + 1] && b[1..][i] == b[i + 1];
      SameHeights(a[1..], b[1..]);
    }
  }
}

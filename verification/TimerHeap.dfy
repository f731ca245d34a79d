/** The 4-ary timer heap of ev.c, with the position of every watcher kept in the watcher itself. */
module TimerHeap {
  import opened Pending

  /** DHEAP = 4 children; index 0 of the heap is slot HEAP0 of the array. */
  const HEAP0: nat := 3

  /** ANHE: a watcher and its cached time. */
  datatype Node = Node(at: real, w: Watcher)

  /** HPARENT, which is the root itself for the root: C divides -1 by 4 to 0. */
  function Parent(k: nat): nat {
    if k == 0 then 0 else (k - 1) / 4
  }

  ghost predicate Distinct(h: seq<Node>) {
    forall i, j :: 0 <= i < j < |h| ==> h[i].w != h[j].w
  }

  /** The heap condition below n, except between k and its parent. */
  ghost predicate OrderedBut(h: seq<Node>, n: nat, k: nat)
    requires n <= |h|
  {
    forall i :: 0 < i < n && i != k ==> h[Parent(i)].at <= h[i].at
  }

  ghost predicate Ordered(h: seq<Node>) {
    forall i :: 0 < i < |h| ==> h[Parent(i)].at <= h[i].at
  }

  /** The children of k do not precede its parent. */
  ghost predicate SkipsOver(h: seq<Node>, n: nat, k: nat)
    requires n <= |h| && k < |h|
  {
    k > 0 ==> forall i :: 0 < i < n && Parent(i) == k ==> h[Parent(k)].at <= h[i].at
  }

  ghost function Swapped(h: seq<Node>, i: nat, j: nat): seq<Node>
    requires i < |h| && j < |h|
  {
    h[i := h[j]][j := h[i]]
  }

  lemma SwapKeeps(h: seq<Node>, i: nat, j: nat)
    requires i < |h| && j < |h|
    ensures multiset(Swapped(h, i, j)) == multiset(h)
    ensures Distinct(h) ==> Distinct(Swapped(h, i, j))
  {
  }

  /** An element earlier than its parent changes places with it. */
  lemma SwapUp(h: seq<Node>, n: nat, k: nat)
    requires 0 < k < n <= |h| && OrderedBut(h, n, k) && SkipsOver(h, n, k) && h[k].at < h[Parent(k)].at
    ensures OrderedBut(Swapped(h, k, Parent(k)), n, Parent(k)) && SkipsOver(Swapped(h, k, Parent(k)), n, Parent(k))
  {
  }

  /** The heap condition, except between k and its children. */
  ghost predicate OrderedAbove(h: seq<Node>, k: nat) {
    forall i :: 0 < i < |h| && Parent(i) != k ==> h[Parent(i)].at <= h[i].at
  }

  /** The heap condition among all nodes but k, across which it holds as well. */
  ghost predicate OrderedAround(h: seq<Node>, k: nat)
    requires k < |h|
  {
    (forall i :: 0 < i < |h| && i != k && Parent(i) != k ==> h[Parent(i)].at <= h[i].at) && SkipsOver(h, |h|, k)
  }

  ghost predicate EarliestChild(h: seq<Node>, k: nat, c: nat) {
    0 < c < |h| && Parent(c) == k && forall i :: 0 < i < |h| && Parent(i) == k ==> h[c].at <= h[i].at
  }

  lemma Settles(h: seq<Node>, k: nat, c: nat)
    requires EarliestChild(h, k, c) && OrderedAbove(h, k) && h[k].at <= h[c].at
    ensures Ordered(h)
  {
  }

  /** A node later than its earliest child changes places with it. */
  lemma SwapDown(h: seq<Node>, k: nat, c: nat)
    requires EarliestChild(h, k, c) && OrderedAbove(h, k) && SkipsOver(h, |h|, k) && h[c].at < h[k].at
    ensures OrderedAbove(Swapped(h, k, c), c) && SkipsOver(Swapped(h, k, c), |h|, c)
  {
  }

  /** In a heap nothing comes before the root. */
  lemma {:induction false} RootIsFirst(h: seq<Node>, i: nat)
    requires i < |h| && Ordered(h)
    ensures h[0].at <= h[i].at
  {
    if i > 0 { RootIsFirst(h, Parent(i)); }
  }

  ghost function Ws(h: seq<Node>): set<Watcher> {
    set i | 0 <= i < |h| :: h[i].w
  }

  lemma SameWatchers(h: seq<Node>, g: seq<Node>)
    requires multiset(h) == multiset(g)
    ensures Ws(h) == Ws(g)
  {
    forall i | 0 <= i < |h|
      ensures h[i].w in Ws(g)
    {
      assert h[i] in multiset(g);
    }
    forall i | 0 <= i < |g|
      ensures g[i].w in Ws(h)
    {
      assert g[i] in multiset(h);
    }
  }

  /** Every watcher knows its index, those at a and b excepted. */
  ghost predicate IndexedBut(h: seq<Node>, a: int, b: int)
    reads Ws(h)`active
  {
    forall i :: 0 <= i < |h| && i != a && i != b ==> h[i].w.active == i + HEAP0
  }

  ghost predicate Indexed(h: seq<Node>)
    reads Ws(h)`active
  {
    forall i :: 0 <= i < |h| ==> h[i].w.active == i + HEAP0
  }

  /** ev_active (ANHE_w (heap [k])) = k, where a second watcher, at `hole`, still has to be told. */
  method SetIndex(w: Watcher, k: nat, ghost h: seq<Node>, ghost hole: int)
    requires k < |h| && h[k].w == w && Distinct(h) && IndexedBut(h, k, hole)
    modifies w`active
    ensures IndexedBut(h, hole, hole) && (hole == k ==> Indexed(h))
  {
    w.active := k + HEAP0;
  }

  /** v holds the nodes of h in another order, the same from n on. */
  ghost predicate Shuffled(v: seq<Node>, h: seq<Node>, n: nat) {
    n <= |v| == |h| && multiset(v) == multiset(h) && Distinct(v) && v[n..] == h[n..] && Ws(v) == Ws(h)
  }

  lemma SwapShuffled(v: seq<Node>, i: nat, j: nat, h: seq<Node>, n: nat)
    requires Shuffled(v, h, n) && i < n && j < n
    ensures Shuffled(Swapped(v, i, j), h, n)
  {
    SwapKeeps(v, i, j);
    SameWatchers(Swapped(v, i, j), h);
  }

  class Heap {
    var nodes: seq<Node>

    constructor ()
      ensures nodes == []
    {
      nodes := [];
    }

    /** upheap: the node at `from` moves towards the root. Only what lies below n need be a heap. */
    method UpHeap(ghost n: nat, from: nat)
      requires from < n <= |nodes| && Distinct(nodes) && IndexedBut(nodes, from, from)
      requires OrderedBut(nodes, n, from) && SkipsOver(nodes, n, from)
      modifies `nodes, Ws(nodes)`active
      ensures Shuffled(nodes, old(nodes), n) && Indexed(nodes) && OrderedBut(nodes, n, 0)
    {
      var he, k := nodes[from], from;
      ghost var v := nodes;
      while k != Parent(k) && !(nodes[Parent(k)].at <= he.at)
        invariant 0 <= k < n && |nodes| == |v| == |old(nodes)| && v == nodes[k := he]
        invariant Shuffled(v, old(nodes), n)
        invariant OrderedBut(v, n, k) && SkipsOver(v, n, k)
        invariant IndexedBut(v, k, k)
        decreases k
      {
        SwapUp(v, n, k);
        assert v[Parent(k)].w in Ws(v);
        k, v := MoveNode(k, Parent(k), he, v, old(nodes), n);
      }
      nodes := nodes[k := he];
      assert v[k].w in Ws(v);
      SetIndex(he.w, k, v, k);
    }

    /** One round of either loop: the node at c goes to k, which leaves the gap at c. */
    method MoveNode(k: nat, c: nat, he: Node, ghost v: seq<Node>, ghost h: seq<Node>, ghost n: nat)
      returns (next: nat, ghost g: seq<Node>)
      requires n <= |nodes| && k < n && c < n && k != c && v == nodes[k := he] && Shuffled(v, h, n)
      requires IndexedBut(v, k, k)
      modifies `nodes, nodes[c].w`active
      ensures next == c && g == Swapped(v, k, c) && Shuffled(g, h, n)
      ensures |nodes| == old(|nodes|) && g == nodes[c := he] && IndexedBut(g, c, c)
    {
      g, next := Swapped(v, k, c), c;
      SwapShuffled(v, k, c, h, n);
      nodes := nodes[k := nodes[c]];
      SetIndex(nodes[k].w, k, g, c);
    }

    /**
     The earliest child of k: the fast path when there are four, the slow one otherwise, whose
     test of a fourth child can never succeed.
     */
    method MinChild(k: nat) returns (c: nat)
      requires 4 * k + 1 < |nodes|
      ensures EarliestChild(nodes, k, c)
    {
      var pos := 4 * k + 1;
      c := pos;
      if pos + 3 < |nodes| {
        if nodes[pos + 1].at < nodes[c].at { c := pos + 1; }
        if nodes[pos + 2].at < nodes[c].at { c := pos + 2; }
        if nodes[pos + 3].at < nodes[c].at { c := pos + 3; }
      } else {
        if pos + 1 < |nodes| && nodes[pos + 1].at < nodes[c].at { c := pos + 1; }
        if pos + 2 < |nodes| && nodes[pos + 2].at < nodes[c].at { c := pos + 2; }
      }
    }

    /** downheap: the node at `from` moves away from the root. */
    method DownHeap(from: nat)
      requires from < |nodes| && Distinct(nodes) && IndexedBut(nodes, from, from)
      requires OrderedAbove(nodes, from) && SkipsOver(nodes, |nodes|, from)
      modifies `nodes, Ws(nodes)`active
      ensures Shuffled(nodes, old(nodes), |nodes|) && Indexed(nodes) && Ordered(nodes)
    {
      var he, k, done := nodes[from], from, false;
      ghost var v := nodes;
      while !done
        invariant Sinking(v, k, he, old(nodes)) && (done ==> Ordered(v))
        invariant IndexedBut(v, k, k)
        decreases !done, |nodes| - k
      {
        k, done, v := DownRound(k, he, v, old(nodes));
      }
      nodes := nodes[k := he];
      assert v[k].w in Ws(v);
      SetIndex(he.w, k, v, k);
    }

    /** v is the heap with `he` in the gap at k: the nodes of h, in order above k. */
    ghost predicate Sinking(v: seq<Node>, k: nat, he: Node, h: seq<Node>)
      reads `nodes
    {
      k < |nodes| == |v| && v == nodes[k := he] && Shuffled(v, h, |v|) && OrderedAbove(v, k) && SkipsOver(v, |v|, k)
    }

    method DownRound(k: nat, he: Node, ghost v: seq<Node>, ghost h: seq<Node>)
      returns (next: nat, done: bool, ghost g: seq<Node>)
      requires Sinking(v, k, he, h) && IndexedBut(v, k, k)
      modifies `nodes, Ws(v)`active
      ensures Sinking(g, next, he, h) && IndexedBut(g, next, next) && |nodes| == old(|nodes|)
      ensures if done then Ordered(g) else k < next
    {
      next, done, g := k, true, v;
      if 4 * k + 1 < |nodes| {
        var c := MinChild(k);
        assert EarliestChild(v, k, c);
        if he.at <= nodes[c].at {
          Settles(v, k, c);
        } else {
          SwapDown(v, k, c);
          assert v[c].w in Ws(v);
          done := false;
          next, g := MoveNode(k, c, he, v, h, |nodes|);
        }
      }
    }

    /** adjustheap: the node at k may be too early or too late for its place. */
    method AdjustHeap(k: nat)
      requires k < |nodes| && Distinct(nodes) && IndexedBut(nodes, k, k) && OrderedAround(nodes, k)
      modifies `nodes, Ws(nodes)`active
      ensures Shuffled(nodes, old(nodes), |nodes|) && Indexed(nodes) && Ordered(nodes)
    {
      if k > 0 && nodes[k].at <= nodes[Parent(k)].at {
        UpHeap(|nodes|, k);
      } else {
        DownHeap(k);
      }
    }

    /** reheap: any order becomes a heap, one node at a time. */
    method ReHeap()
      requires Distinct(nodes) && Indexed(nodes)
      modifies `nodes, Ws(nodes)`active
      ensures Shuffled(nodes, old(nodes), |nodes|) && Indexed(nodes) && Ordered(nodes)
    {
      var n := |nodes|;
      for i := 0 to n
        invariant |nodes| == n && Shuffled(nodes, old(nodes), n) && Indexed(nodes)
        invariant OrderedBut(nodes, i, 0)
      {
        UpHeap(i + 1, i);
      }
    }

    /** A new node goes to the end and up. */
    method Insert(node: Node)
      requires Distinct(nodes) && Indexed(nodes) && Ordered(nodes) && node.w !in Ws(nodes)
      modifies `nodes, Ws(nodes)`active, node.w`active
      ensures Distinct(nodes) && Indexed(nodes) && Ordered(nodes)
      ensures Items(nodes) == Items(old(nodes)) + {node} && Ws(nodes) == Ws(old(nodes)) + {node.w}
    {
      nodes := nodes + [node];
      AppendItems(old(nodes), node);
      UpHeap(|nodes|, |nodes| - 1);
      ShuffleItems(nodes, old(nodes) + [node]);
    }

    /** The last node takes the place of the one at k and finds its own. */
    method Remove(k: nat)
      requires k < |nodes| && Distinct(nodes) && Indexed(nodes) && Ordered(nodes)
      modifies `nodes, Ws(nodes)`active
      ensures Distinct(nodes) && Indexed(nodes) && Ordered(nodes)
      ensures Items(nodes) == Items(old(nodes)) - {old(nodes)[k]} && Ws(nodes) == Ws(old(nodes)) - {old(nodes)[k].w}
    {
      var last := |nodes| - 1;
      var g := nodes[k := nodes[last]][..last];
      WithoutNode(nodes, k);
      WithoutOrder(nodes, k);
      assert IndexedBut(g, k, k);
      nodes := g;
      if k < last {
        AdjustHeap(k);
        ShuffleItems(nodes, g);
      }
    }

    /** The node at k has a new time. */
    method Retime(k: nat, at: real)
      requires k < |nodes| && Distinct(nodes) && Indexed(nodes) && Ordered(nodes)
      modifies `nodes, Ws(nodes)`active
      ensures Distinct(nodes) && Indexed(nodes) && Ordered(nodes) && Ws(nodes) == Ws(old(nodes))
      ensures Items(nodes) == Items(old(nodes)) - {old(nodes)[k]} + {Node(at, old(nodes)[k].w)}
    {
      nodes := nodes[k := Node(at, nodes[k].w)];
      RetimedNode(old(nodes), k, at);
      AroundNode(old(nodes), k, nodes[k]);
      AdjustHeap(k);
      ShuffleItems(nodes, old(nodes)[k := Node(at, old(nodes)[k].w)]);
    }

    /** The root has a later time. */
    method Postpone(at: real)
      requires nodes != [] && Distinct(nodes) && Indexed(nodes) && Ordered(nodes) && nodes[0].at <= at
      modifies `nodes, Ws(nodes)`active
      ensures Distinct(nodes) && Indexed(nodes) && Ordered(nodes) && Ws(nodes) == Ws(old(nodes))
      ensures Items(nodes) == Items(old(nodes)) - {old(nodes)[0]} + {Node(at, old(nodes)[0].w)}
    {
      nodes := nodes[0 := Node(at, nodes[0].w)];
      RetimedNode(old(nodes), 0, at);
      AroundNode(old(nodes), 0, nodes[0]);
      DownHeap(0);
      ShuffleItems(nodes, old(nodes)[0 := Node(at, old(nodes)[0].w)]);
    }
  }

  ghost function Items(h: seq<Node>): set<Node> {
    set i | 0 <= i < |h| :: h[i]
  }

  lemma ShuffleItems(v: seq<Node>, h: seq<Node>)
    requires multiset(v) == multiset(h)
    ensures Items(v) == Items(h)
  {
    forall i | 0 <= i < |v|
      ensures v[i] in Items(h)
    {
      assert v[i] in multiset(h);
    }
    forall i | 0 <= i < |h|
      ensures h[i] in Items(v)
    {
      assert h[i] in multiset(v);
    }
  }

  lemma AppendItems(h: seq<Node>, node: Node)
    ensures Items(h + [node]) == Items(h) + {node} && Ws(h + [node]) == Ws(h) + {node.w}
  {
    var g := h + [node];
    assert g[|h|] == node;
    forall i | 0 <= i < |h|
      ensures h[i] in Items(g) && h[i].w in Ws(g)
    {
      assert g[i] == h[i];
    }
  }

  /** In a heap the order holds across k as well, whatever is at k. */
  lemma AroundNode(h: seq<Node>, k: nat, x: Node)
    requires k < |h| && Ordered(h)
    ensures OrderedAround(h[k := x], k) && (k == 0 && h[0].at <= x.at ==> OrderedAbove(h[k := x], 0))
  {
    var g := h[k := x];
    forall i | 0 < i < |g| && Parent(i) == k
      ensures g[Parent(k)].at <= g[i].at || k == 0
    {
      assert h[Parent(i)].at <= h[i].at && (k > 0 ==> h[Parent(k)].at <= h[k].at);
    }
  }

  lemma RetimedNode(h: seq<Node>, k: nat, at: real)
    requires k < |h| && Distinct(h)
    ensures var g := h[k := Node(at, h[k].w)];
      Distinct(g) && Items(g) == Items(h) - {h[k]} + {Node(at, h[k].w)} && Ws(g) == Ws(h)
  {
    var g := h[k := Node(at, h[k].w)];
    assert g[k] in Items(g);
    forall i | 0 <= i < |h|
      ensures (i != k ==> h[i] in Items(g) && h[i] != h[k]) && h[i].w in Ws(g)
    {
      assert g[i].w == h[i].w && (i != k ==> g[i] == h[i]);
    }
  }

  lemma WithoutOrder(h: seq<Node>, k: nat)
    requires k < |h| && Ordered(h)
    ensures var g := h[k := h[|h| - 1]][..|h| - 1];
      if k < |h| - 1 then OrderedAround(g, k) else Ordered(g)
  {
    AroundNode(h, k, h[|h| - 1]);
  }

  lemma WithoutNode(h: seq<Node>, k: nat)
    requires k < |h| && Distinct(h)
    ensures var g := h[k := h[|h| - 1]][..|h| - 1];
      Distinct(g) && Items(g) == Items(h) - {h[k]} && Ws(g) == Ws(h) - {h[k].w}
  {
    var last := |h| - 1;
    var g := h[k := h[last]][..last];
    forall i | 0 <= i < |h| && i != k
      ensures h[i] in Items(g) && h[i].w in Ws(g) && h[i].w != h[k].w
    {
      var j := if i == last then k else i;
      assert g[j] == h[i];
    }
    forall i | 0 <= i < |g|
      ensures g[i] in Items(h) && g[i].w in Ws(h) && g[i].w != h[k].w
    {
      var j := if i == k then last else i;
      assert g[i] == h[j];
    }
  }
}

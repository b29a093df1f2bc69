/**
 * The doubly-linked list of opaque payloads and its cursor. The list keeps a
 * head, a tail and an element count; every node links to its neighbours in
 * both directions. The ghost sequence `nodes` names the nodes in list order
 * and `Contents` their payloads, so each operation can be stated as a change
 * of `Contents`.
 */
module LinkedLists {

  class Node<T> {
    var payload: T
    var next: Node?<T>
    var prev: Node?<T>

    constructor (payload: T)
      ensures this.payload == payload && next == null && prev == null
    {
      this.payload := payload;
      next := null;
      prev := null;
    }
  }

  // ---------------------------------------------------------------------------
  // The order Sort establishes

  /**
   * Sort's swap test: the comparator's answer, negated when sorting in
   * ascending order; a negative value swaps the pair.
   */
  predicate Swaps<T>(ascending: bool, cmp: (T, T) -> int, a: T, b: T) {
    var compareResult := if ascending then cmp(a, b) * -1 else cmp(a, b);
    compareResult < 0
  }

  /** Two payloads that Sort leaves where they are. */
  predicate InOrder<T>(ascending: bool, cmp: (T, T) -> int, a: T, b: T) {
    !Swaps(ascending, cmp, a, b)
  }

  /**
   * What Sort needs of a comparator: it answers consistently in both
   * directions (negative one way exactly when positive the other way) and
   * "not greater" is transitive.
   */
  ghost predicate Comparator<T(!new)>(cmp: (T, T) -> int) {
    (forall a, b :: cmp(a, b) < 0 <==> cmp(b, a) > 0) &&
    (forall a, b, c {:trigger cmp(a, b), cmp(b, c), cmp(a, c)} :: cmp(a, b) <= 0 && cmp(b, c) <= 0 ==> cmp(a, c) <= 0)
  }

  lemma {:induction false} SwapsFlip<T(!new)>(ascending: bool, cmp: (T, T) -> int, a: T, b: T)
    requires Comparator(cmp)
    requires Swaps(ascending, cmp, a, b)
    ensures InOrder(ascending, cmp, b, a)
  {
    assert cmp(a, b) < 0 <==> cmp(b, a) > 0;
  }

  lemma {:induction false} InOrderTransitive<T(!new)>(ascending: bool, cmp: (T, T) -> int, a: T, b: T, c: T)
    requires Comparator(cmp)
    requires InOrder(ascending, cmp, a, b) && InOrder(ascending, cmp, b, c)
    ensures InOrder(ascending, cmp, a, c)
  {
    if ascending {
      assert cmp(a, b) <= 0 && cmp(b, c) <= 0 ==> cmp(a, c) <= 0;
    } else {
      assert cmp(b, a) <= 0 by {
        assert cmp(b, a) > 0 <==> cmp(a, b) < 0;
      }
      assert cmp(c, b) <= 0 by {
        assert cmp(c, b) > 0 <==> cmp(b, c) < 0;
      }
      assert cmp(c, b) <= 0 && cmp(b, a) <= 0 ==> cmp(c, a) <= 0;
      assert cmp(c, a) > 0 <==> cmp(a, c) < 0;
    }
  }

  /** No neighbouring pair of s is one Sort would swap. */
  predicate SortedBy<T>(ascending: bool, cmp: (T, T) -> int, s: seq<T>) {
    forall i :: 0 <= i < |s| - 1 ==> InOrder(ascending, cmp, s[i], s[i + 1])
  }

  /** Sorted neighbours make a sorted sequence: every earlier payload is in order with every later one. */
  lemma {:induction false} SortedByAllPairs<T(!new)>(ascending: bool, cmp: (T, T) -> int, s: seq<T>)
    requires Comparator(cmp)
    requires SortedBy(ascending, cmp, s)
    ensures forall i, j {:trigger InOrder(ascending, cmp, s[i], s[j])} :: 0 <= i < j < |s| ==> InOrder(ascending, cmp, s[i], s[j])
  {
    if |s| > 1 {
      SortedByAllPairs(ascending, cmp, s[1..]);
      forall j | 1 < j < |s|
        ensures InOrder(ascending, cmp, s[0], s[j])
      {
        assert InOrder(ascending, cmp, s[1..][0], s[1..][j - 1]);
        InOrderTransitive(ascending, cmp, s[0], s[1], s[j]);
      }
    }
  }

  /** In ascending order the comparator never answers "greater" for an earlier payload. */
  lemma {:induction false} SortedAscending<T(!new)>(cmp: (T, T) -> int, s: seq<T>)
    requires Comparator(cmp)
    requires SortedBy(true, cmp, s)
    ensures forall i, j :: 0 <= i < j < |s| ==> cmp(s[i], s[j]) <= 0
  {
    SortedByAllPairs(true, cmp, s);
    forall i, j | 0 <= i < j < |s|
      ensures cmp(s[i], s[j]) <= 0
    {
      assert InOrder(true, cmp, s[i], s[j]);
    }
  }

  /** In descending order the comparator never answers "less" for an earlier payload. */
  lemma {:induction false} SortedDescending<T(!new)>(cmp: (T, T) -> int, s: seq<T>)
    requires Comparator(cmp)
    requires SortedBy(false, cmp, s)
    ensures forall i, j :: 0 <= i < j < |s| ==> cmp(s[i], s[j]) >= 0
  {
    SortedByAllPairs(false, cmp, s);
    forall i, j | 0 <= i < j < |s|
      ensures cmp(s[i], s[j]) >= 0
    {
      assert InOrder(false, cmp, s[i], s[j]);
    }
  }

  /**
   * After k bubble passes the last k payloads are final: each is in order
   * with every payload before it.
   */
  ghost predicate Settled<T>(ascending: bool, cmp: (T, T) -> int, s: seq<T>, k: int) {
    forall i, l {:trigger InOrder(ascending, cmp, s[i], s[l])} :: 0 <= i < l < |s| && l >= |s| - k ==> InOrder(ascending, cmp, s[i], s[l])
  }

  // ---------------------------------------------------------------------------
  // The list

  class LinkedList<T(!new)> {
    var numElements: int
    var head: Node?<T>
    var tail: Node?<T>
    ghost var nodes: seq<Node<T>>
    ghost var Contents: seq<T>

    /**
     * The chain of nodes: the count, the two ends, and links in both
     * directions between neighbours, with no node appearing twice.
     */
    ghost predicate Linked()
      reads this`numElements, this`head, this`tail, this`nodes, nodes`next, nodes`prev
    {
      numElements == |nodes| &&
      (nodes == [] ==> head == null && tail == null) &&
      (nodes != [] ==> head == nodes[0] && tail == nodes[|nodes| - 1]) &&
      (nodes != [] ==> nodes[0].prev == null && nodes[|nodes| - 1].next == null) &&
      (forall i :: 0 < i < |nodes| ==> nodes[i].prev == nodes[i - 1]) &&
      (forall i :: 0 <= i < |nodes| - 1 ==> nodes[i].next == nodes[i + 1]) &&
      (forall i, j :: 0 <= i < j < |nodes| ==> nodes[i] != nodes[j])
    }

    /** Only the first node has no predecessor and only the last has no successor. */
    lemma {:induction false} ChainEnds(i: int)
      requires Linked() && 0 <= i < |nodes|
      ensures nodes[i].prev == null <==> i == 0
      ensures nodes[i].next == null <==> i == |nodes| - 1
    {
      if i > 0 {
        assert nodes[i].prev == nodes[i - 1];
      }
      if i < |nodes| - 1 {
        assert nodes[i].next == nodes[i + 1];
      }
    }

    ghost predicate Valid()
      reads this, nodes
    {
      Linked() && |Contents| == |nodes| &&
      forall i :: 0 <= i < |nodes| ==> nodes[i].payload == Contents[i]
    }

    /** LinkedList_Allocate: an empty list. */
    constructor ()
      ensures Valid() && Contents == [] && nodes == []
    {
      numElements := 0;
      head := null;
      tail := null;
      nodes := [];
      Contents := [];
    }

    /** LinkedList_NumElements. */
    method NumElements() returns (n: int)
      requires Valid()
      ensures n == |Contents|
    {
      n := numElements;
    }

    /** LinkedList_Push: a new node in front of the head. */
    method Push(payload: T)
      requires Valid()
      modifies this, nodes
      ensures Valid()
      ensures Contents == [payload] + old(Contents)
      ensures |nodes| > 0 && fresh(nodes[0]) && nodes[1..] == old(nodes)
    {
      ghost var ns := nodes;
      var ln := new Node(payload);
      if numElements == 0 {
        ln.next, ln.prev := null, null;
        head, tail := ln, ln;
        numElements := 1;
      } else {
        ln.prev := null;
        ln.next := head;
        head.prev := ln;
        head := ln;
        numElements := numElements + 1;
      }
      nodes := [ln] + ns;
      Contents := [payload] + Contents;
      assert forall i :: 1 <= i < |nodes| ==> nodes[i] == ns[i - 1];
    }

    /**
     * LinkedList_Pop: fails on an empty list, leaving the caller's slot as it
     * was; otherwise removes the head and hands back its payload. A one-node
     * list is emptied through Slice.
     */
    method Pop(slot: T) returns (ok: bool, payload: T)
      requires Valid()
      modifies this, nodes
      ensures Valid()
      ensures ok <==> old(|Contents|) > 0
      ensures !ok ==> payload == slot && Contents == old(Contents) && nodes == old(nodes)
      ensures ok ==> payload == old(Contents[0]) && Contents == old(Contents[1..]) && nodes == old(nodes[1..])
    {
      if numElements == 0 {
        return false, slot;
      }
      payload := head.payload;
      if numElements == 1 {
        ok, payload := Slice(payload);
        return;
      }
      ghost var ns := nodes;
      assert head.next == ns[1];
      head := head.next;
      head.prev := null;
      numElements := numElements - 1;
      nodes := ns[1..];
      assert forall i :: 0 <= i < |nodes| ==> nodes[i] == ns[i + 1];
      Contents := Contents[1..];
      ok := true;
    }

    /** LinkedList_Append: a new node after the tail. */
    method Append(payload: T)
      requires Valid()
      modifies this, nodes
      ensures Valid()
      ensures Contents == old(Contents) + [payload]
      ensures |nodes| > 0 && fresh(nodes[|nodes| - 1]) && nodes[..|nodes| - 1] == old(nodes)
    {
      ghost var ns := nodes;
      var ln := new Node(payload);
      if numElements == 0 {
        ln.next := null;
        ln.prev := null;
        head := ln;
        tail := ln;
      } else {
        ln.next := null;
        ln.prev := tail;
        tail.next := ln;
        tail := ln;
      }
      numElements := numElements + 1;
      nodes := ns + [ln];
      assert forall i :: 0 <= i < |ns| ==> nodes[i] == ns[i];
      Contents := Contents + [payload];
    }

    /**
     * LLSlice: fails on an empty list, leaving the caller's slot as it was;
     * otherwise removes the tail and hands back its payload.
     */
    method Slice(slot: T) returns (ok: bool, payload: T)
      requires Valid()
      modifies this, nodes
      ensures Valid()
      ensures ok <==> old(|Contents|) > 0
      ensures !ok ==> payload == slot && Contents == old(Contents) && nodes == old(nodes)
      ensures ok ==> payload == old(Contents[|Contents| - 1]) &&
                     Contents == old(Contents[..|Contents| - 1]) && nodes == old(nodes[..|nodes| - 1])
    {
      if numElements == 0 {
        return false, slot;
      }
      payload := tail.payload;
      ghost var ns := nodes;
      if numElements == 1 {
        head := null;
        tail := null;
      } else {
        assert tail.prev == ns[|ns| - 2];
        tail := tail.prev;
        tail.next := null;
      }
      numElements := numElements - 1;
      nodes := ns[..|ns| - 1];
      assert forall i :: 0 <= i < |nodes| ==> nodes[i] == ns[i];
      Contents := Contents[..|Contents| - 1];
      ok := true;
    }

    /**
     * Unlinks an inner node: its neighbours are joined to each other and
     * the node with its payload leaves the list.
     */
    method Unlink(node: Node<T>, ghost p: int)
      requires Valid() && 0 < p < |nodes| - 1 && node == nodes[p]
      modifies this, nodes
      ensures Valid()
      ensures nodes == old(nodes[..p] + nodes[p + 1..])
      ensures Contents == old(Contents[..p] + Contents[p + 1..])
    {
      ghost var ns := nodes;
      ghost var n := |ns|;
      assert node.prev == ns[p - 1] && node.next == ns[p + 1];
      node.prev.next := node.next;
      node.next.prev := node.prev;
      numElements := numElements - 1;
      nodes := ns[..p] + ns[p + 1..];
      Contents := Contents[..p] + Contents[p + 1..];
      ghost var rest := nodes;
      assert forall i :: 0 <= i < |rest| ==> rest[i] == (if i < p then ns[i] else ns[i + 1]);
      forall i | 0 <= i < n - 2
        ensures rest[i].next == rest[i + 1]
      {
        if i != p - 1 {
          assert rest[i] != ns[p - 1];
        }
      }
      forall i | 0 < i < n - 1
        ensures rest[i].prev == rest[i - 1]
      {
        if i != p {
          assert rest[i] != ns[p + 1];
        }
      }
      assert Linked();
      forall i | 0 <= i < n - 1
        ensures rest[i].payload == Contents[i]
      {
        if i < p {
          assert rest[i] == ns[i] && Contents[i] == old(Contents[i]);
        } else {
          assert rest[i] == ns[i + 1] && Contents[i] == old(Contents[i + 1]);
        }
      }
    }

    /**
     * LinkedList_Sort: bubble sort that swaps payloads between neighbouring
     * nodes, pass after pass, until a pass swaps nothing. The nodes and their
     * links stay as they were.
     */
    method Sort(ascending: bool, cmp: (T, T) -> int)
      requires Valid()
      requires Comparator(cmp)
      modifies this, nodes
      ensures Valid() && nodes == old(nodes)
      ensures multiset(Contents) == multiset(old(Contents))
      ensures SortedBy(ascending, cmp, Contents)
    {
      if numElements < 2 {
        return;
      }
      ghost var k := 0;
      var swapped := true;
      while swapped
        invariant Valid() && nodes == old(nodes)
        invariant multiset(Contents) == multiset(old(Contents))
        invariant 0 <= k <= |nodes|
        invariant Settled(ascending, cmp, Contents, k)
        invariant swapped ==> k < |nodes|
        invariant !swapped ==> SortedBy(ascending, cmp, Contents)
        decreases |nodes| - k + (if swapped then 1 else 0)
      {
        swapped := BubblePass(ascending, cmp, k);
        k := k + 1;
      }
    }

    /**
     * The body of Sort's do-while loop: one walk from the head to the tail,
     * swapping every neighbouring pair the comparator puts out of order. After
     * k earlier passes the last k payloads are final; this pass settles one
     * more, and a pass that swaps nothing finds the payloads sorted.
     */
    method BubblePass(ascending: bool, cmp: (T, T) -> int, ghost k: int) returns (swapped: bool)
      requires Valid() && Comparator(cmp)
      requires 0 <= k < |nodes| && Settled(ascending, cmp, Contents, k)
      modifies nodes, this`Contents
      ensures Valid() && nodes == old(nodes)
      ensures multiset(Contents) == multiset(old(Contents))
      ensures Settled(ascending, cmp, Contents, k + 1)
      ensures swapped ==> k + 1 < |nodes|
      ensures !swapped ==> Contents == old(Contents) && SortedBy(ascending, cmp, Contents)
    {
      swapped := false;
      var curnode := head;
      ghost var j := 0;
      ChainEnds(0);
      PassStart(ascending, cmp, Contents, k);
      while curnode.next != null
        invariant Valid() && nodes == old(nodes)
        invariant 0 <= j < |nodes| && curnode == nodes[j]
        invariant curnode.next != null <==> j < |nodes| - 1
        invariant multiset(Contents) == multiset(old(Contents))
        invariant !swapped ==> Contents == old(Contents)
        invariant PassInvariant(ascending, cmp, Contents, k, j, swapped)
        decreases |nodes| - j
      {
        swapped := BubbleStep(ascending, cmp, k, curnode, j, swapped);
        assert curnode.next == nodes[j + 1];
        curnode := curnode.next;
        j := j + 1;
        ChainEnds(j);
      }
      PassEnd(ascending, cmp, Contents, k, j, swapped);
    }

    /**
     * One comparison of a bubble pass: the payloads at j and j + 1 trade
     * places exactly when the comparator puts them out of order.
     */
    method BubbleStep(ascending: bool, cmp: (T, T) -> int, ghost k: int, curnode: Node<T>, ghost j: int, swapped: bool)
      returns (swappedAfter: bool)
      requires Valid() && Comparator(cmp)
      requires 0 <= j < |nodes| - 1 && curnode == nodes[j]
      requires PassInvariant(ascending, cmp, Contents, k, j, swapped)
      modifies nodes, this`Contents
      ensures Valid() && nodes == old(nodes)
      ensures multiset(Contents) == multiset(old(Contents))
      ensures swappedAfter <==> swapped || Swaps(ascending, cmp, old(Contents[j]), old(Contents[j + 1]))
      ensures !swappedAfter ==> Contents == old(Contents)
      ensures PassInvariant(ascending, cmp, Contents, k, j + 1, swappedAfter)
    {
      assert curnode.next == nodes[j + 1];
      assert curnode.payload == Contents[j] && curnode.next.payload == Contents[j + 1];
      var compareResult := cmp(curnode.payload, curnode.next.payload);
      if ascending {
        compareResult := compareResult * -1;
      }
      assert compareResult < 0 <==> Swaps(ascending, cmp, Contents[j], Contents[j + 1]);
      if compareResult < 0 {
        PassSwap(ascending, cmp, Contents, k, j, swapped);
        SwapWithNext(curnode, j);
        swappedAfter := true;
      } else {
        PassKeep(ascending, cmp, Contents, k, j, swapped);
        swappedAfter := swapped;
      }
    }

    /** Sort's bubble step: the node at j and its successor trade payloads. */
    method SwapWithNext(curnode: Node<T>, ghost j: int)
      requires Valid() && 0 <= j < |nodes| - 1 && curnode == nodes[j]
      modifies nodes
      modifies this`Contents
      ensures Valid() && nodes == old(nodes)
      ensures Contents == old(Contents[j := Contents[j + 1]][j + 1 := Contents[j]])
    {
      assert curnode.next == nodes[j + 1];
      var tmp := curnode.payload;
      curnode.payload := curnode.next.payload;
      curnode.next.payload := tmp;
      Contents := Contents[j := Contents[j + 1]][j + 1 := Contents[j]];
      forall i | 0 <= i < |nodes| && i != j && i != j + 1
        ensures nodes[i].payload == Contents[i]
      {
        assert nodes[i] != nodes[j] && nodes[i] != nodes[j + 1];
      }
    }
  }

  /**
   * Part-way through a bubble pass at position j, after k earlier passes:
   * the settled suffix is intact, the payload at j is in order with all
   * before it, once the pass has reached the settled suffix the payload just
   * before it is final, a swap was only possible while unsettled payloads
   * remained, and without a swap so far the payloads up to j are in order.
   */
  ghost predicate PassInvariant<T>(ascending: bool, cmp: (T, T) -> int, s: seq<T>, k: int, j: int, swapped: bool) {
    0 <= j < |s| && 0 <= k < |s| &&
    Settled(ascending, cmp, s, k) &&
    (forall i {:trigger InOrder(ascending, cmp, s[i], s[j])} :: 0 <= i < j ==> InOrder(ascending, cmp, s[i], s[j])) &&
    (j >= |s| - k - 1 ==> forall i :: 0 <= i < |s| - k - 1 ==> InOrder(ascending, cmp, s[i], s[|s| - k - 1])) &&
    (swapped ==> k + 1 < |s|) &&
    (!swapped ==> forall i :: 0 <= i < j ==> InOrder(ascending, cmp, s[i], s[i + 1]))
  }

  lemma {:induction false} PassStart<T>(ascending: bool, cmp: (T, T) -> int, s: seq<T>, k: int)
    requires 0 <= k < |s| && Settled(ascending, cmp, s, k)
    ensures PassInvariant(ascending, cmp, s, k, 0, false)
  {
    if 0 >= |s| - k - 1 {
      assert |s| - k - 1 == 0;
    }
  }

  /** A swap at j moves the payload that is in order with all before it one step on. */
  lemma {:induction false} PassSwap<T(!new)>(ascending: bool, cmp: (T, T) -> int, s: seq<T>, k: int, j: int, swapped: bool)
    requires Comparator(cmp)
    requires PassInvariant(ascending, cmp, s, k, j, swapped) && j < |s| - 1
    requires Swaps(ascending, cmp, s[j], s[j + 1])
    ensures var t := s[j := s[j + 1]][j + 1 := s[j]];
      multiset(t) == multiset(s) && PassInvariant(ascending, cmp, t, k, j + 1, true)
  {
    var t := s[j := s[j + 1]][j + 1 := s[j]];
    assert !InOrder(ascending, cmp, s[j], s[j + 1]);
    assert j + 1 < |s| - k;
    SwapsFlip(ascending, cmp, s[j], s[j + 1]);
    SwapPermutes(s, j);
    SwapKeepsSettled(ascending, cmp, s, k, j);
    forall i | 0 <= i < j + 1
      ensures InOrder(ascending, cmp, t[i], t[j + 1])
    {
      if i < j {
        assert InOrder(ascending, cmp, s[i], s[j]);
      }
    }
  }

  /** Exchanging two neighbours keeps the same payloads. */
  lemma {:induction false} SwapPermutes<T>(s: seq<T>, j: int)
    requires 0 <= j < |s| - 1
    ensures multiset(s[j := s[j + 1]][j + 1 := s[j]]) == multiset(s)
  {
    assert s[j := s[j + 1]][j + 1 := s[j]] == s[..j] + [s[j + 1], s[j]] + s[j + 2..];
    assert s == s[..j] + [s[j], s[j + 1]] + s[j + 2..];
  }

  /** An exchange in front of the settled tail leaves the tail settled. */
  lemma {:induction false} SwapKeepsSettled<T>(ascending: bool, cmp: (T, T) -> int, s: seq<T>, k: int, j: int)
    requires 0 <= j && 0 <= k && j + 1 < |s| - k && Settled(ascending, cmp, s, k)
    ensures Settled(ascending, cmp, s[j := s[j + 1]][j + 1 := s[j]], k)
  {
    var t := s[j := s[j + 1]][j + 1 := s[j]];
    forall i, l | 0 <= i < l < |t| && l >= |t| - k
      ensures InOrder(ascending, cmp, t[i], t[l])
    {
      assert t[l] == s[l];
      if i == j {
        assert InOrder(ascending, cmp, s[j + 1], s[l]);
      } else if i == j + 1 {
        assert InOrder(ascending, cmp, s[j], s[l]);
      } else {
        assert InOrder(ascending, cmp, s[i], s[l]);
      }
    }
  }

  /** Without a swap at j, the payload at j + 1 is in order with all before it. */
  lemma {:induction false} PassKeep<T(!new)>(ascending: bool, cmp: (T, T) -> int, s: seq<T>, k: int, j: int, swapped: bool)
    requires Comparator(cmp)
    requires PassInvariant(ascending, cmp, s, k, j, swapped) && j < |s| - 1
    requires !Swaps(ascending, cmp, s[j], s[j + 1])
    ensures PassInvariant(ascending, cmp, s, k, j + 1, swapped)
  {
    forall i | 0 <= i < j
      ensures InOrder(ascending, cmp, s[i], s[j + 1])
    {
      InOrderTransitive(ascending, cmp, s[i], s[j], s[j + 1]);
    }
  }

  /** A finished pass settles one more payload; a pass without swaps leaves the payloads sorted. */
  lemma {:induction false} PassEnd<T>(ascending: bool, cmp: (T, T) -> int, s: seq<T>, k: int, j: int, swapped: bool)
    requires PassInvariant(ascending, cmp, s, k, j, swapped) && j == |s| - 1
    ensures Settled(ascending, cmp, s, k + 1)
    ensures !swapped ==> SortedBy(ascending, cmp, s)
  {
    forall i, l | 0 <= i < l < |s| && l >= |s| - (k + 1)
      ensures InOrder(ascending, cmp, s[i], s[l])
    {
      if l >= |s| - k {
        assert InOrder(ascending, cmp, s[i], s[l]);
      }
    }
  }

  // ---------------------------------------------------------------------------
  // The cursor

  class LLIterator<T(!new)> {
    var list: LinkedList<T>
    var node: Node?<T>
    /** Index of `node` in the list, or the list's length once past the end. */
    ghost var pos: nat

    ghost predicate Valid()
      reads this, list, list.nodes
    {
      list.Valid() && pos <= |list.nodes| &&
      node == (if pos < |list.nodes| then list.nodes[pos] else null)
    }

    /** LLIterator_Allocate: a cursor at the head (past the end for an empty list). */
    constructor (list: LinkedList<T>)
      requires list.Valid()
      ensures Valid() && this.list == list && pos == 0
    {
      this.list := list;
      node := list.head;
      pos := 0;
    }

    /** LLIterator_IsValid: the cursor is on an element. */
    method IsValid() returns (valid: bool)
      requires Valid()
      ensures valid <==> pos < |list.Contents|
    {
      valid := node != null;
    }

    /**
     * LLIterator_Next: one step forward; from the last node the cursor moves
     * past the end and the answer is false.
     */
    method Next() returns (advanced: bool)
      requires Valid() && pos < |list.Contents|
      modifies this
      ensures Valid() && list == old(list)
      ensures pos == old(pos) + 1
      ensures advanced <==> pos < |list.Contents|
    {
      if node.next == null {
        node := null;
        pos := pos + 1;
        return false;
      }
      assert node.next == list.nodes[pos + 1];
      node := node.next;
      pos := pos + 1;
      return true;
    }

    /** LLIterator_Get: the payload under the cursor. */
    method Get() returns (payload: T)
      requires Valid() && pos < |list.Contents|
      ensures payload == list.Contents[pos]
    {
      payload := node.payload;
    }

    /**
     * LLIterator_Remove: unlinks the node under the cursor and hands its
     * payload to the caller's free function (returned here as `freed`). The
     * cursor moves to the following node, or to the new tail when the last
     * node was removed; the answer says whether the list is still non-empty.
     */
    method Remove() returns (nonEmpty: bool, freed: T)
      requires Valid() && pos < |list.Contents|
      modifies this, list, list.nodes
      ensures Valid() && list == old(list)
      ensures freed == old(list.Contents[pos])
      ensures list.Contents == old(list.Contents[..pos] + list.Contents[pos + 1..])
      ensures nonEmpty <==> |list.Contents| > 0
      ensures pos == if old(pos) == |list.Contents| && old(pos) > 0 then old(pos) - 1 else old(pos)
      ensures nonEmpty ==> pos < |list.Contents|
    {
      freed := node.payload;
      list.ChainEnds(pos);
      if list.numElements == 1 {
        RemoveOnly();
      } else if node.prev == null {
        RemoveHead();
      } else if node.next == null {
        RemoveTail();
      } else {
        RemoveInside();
      }
      nonEmpty := list.numElements > 0;
    }

    /** Remove, case (a): the only node goes and the list is empty. */
    method RemoveOnly()
      requires Valid() && pos < |list.Contents| && list.numElements == 1
      modifies this, list
      ensures Valid() && list == old(list)
      ensures list.Contents == [] && pos == 0
    {
      list.head := null;
      list.tail := null;
      node := null;
      list.numElements := list.numElements - 1;
      list.nodes := [];
      list.Contents := [];
      pos := 0;
    }

    /** Remove, case (b): the head goes and the cursor moves to the new head. */
    method RemoveHead()
      requires Valid() && pos == 0 && |list.Contents| > 1
      modifies this, list, list.nodes
      ensures Valid() && list == old(list)
      ensures old(pos) == 0 && pos == 0
      ensures list.Contents == old(list.Contents[1..])
    {
      ghost var ns := list.nodes;
      assert node == ns[0] && node.next == ns[1];
      list.head := node.next;
      list.head.prev := null;
      node := list.head;
      list.numElements := list.numElements - 1;
      list.nodes := ns[1..];
      list.Contents := list.Contents[1..];
      assert forall i :: 0 <= i < |list.nodes| ==> list.nodes[i] == ns[i + 1];
    }

    /** Remove, case (c): the tail goes and the cursor moves to the new tail. */
    method RemoveTail()
      requires Valid() && pos == |list.Contents| - 1 && |list.Contents| > 1
      modifies this, list, list.nodes
      ensures Valid() && list == old(list)
      ensures old(pos) == |list.Contents| && pos == old(pos) - 1
      ensures list.Contents == old(list.Contents[..pos])
    {
      ghost var ns := list.nodes;
      ghost var n := |ns|;
      assert node == ns[n - 1] && node.prev == ns[n - 2];
      list.tail := node.prev;
      list.tail.next := null;
      node := list.tail;
      list.numElements := list.numElements - 1;
      list.nodes := ns[..n - 1];
      list.Contents := list.Contents[..n - 1];
      pos := pos - 1;
      assert forall i :: 0 <= i < |list.nodes| ==> list.nodes[i] == ns[i];
    }

    /** Remove, case (d): a node with neighbours on both sides is spliced out; the cursor moves to its successor. */
    method RemoveInside()
      requires Valid() && 0 < pos < |list.Contents| - 1
      modifies this, list, list.nodes
      ensures Valid() && list == old(list)
      ensures 0 < pos < |list.Contents| && pos == old(pos)
      ensures list.Contents == old(list.Contents[..pos] + list.Contents[pos + 1..])
    {
      assert node.next == list.nodes[pos + 1];
      var successor := node.next;
      list.Unlink(node, pos);
      node := successor;
    }

    /** LLIteratorRewind: back to the head. */
    method Rewind()
      requires Valid()
      modifies this
      ensures Valid() && list == old(list) && pos == 0
    {
      node := list.head;
      pos := 0;
    }
  }
}

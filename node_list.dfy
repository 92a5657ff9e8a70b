/** The recency list as values: node records in numbered slots, linked by
    slot number, and the two rewirings the cache performs on them. */
module NodeList {
  import opened Recency

  /** The null link. */
  const Nil := -1

  /** One list node: the cached entry and its two links. */
  datatype Node = Node(key: int, value: int, prev: int, next: int)

  /** The node at position `j` of the slot list `sl` links back to the
      previous position and forward to the next one (`Nil` at the ends). */
  ghost predicate LinkedAt(ns: seq<Node>, sl: seq<int>, j: int)
  {
    && 0 <= j < |sl|
    && 0 <= sl[j] < |ns|
    && ns[sl[j]].next == (if j + 1 < |sl| then sl[j + 1] else Nil)
    && ns[sl[j]].prev == (if j == 0 then Nil else sl[j - 1])
  }

  /** `ns`, entered at `head` and left at `tail`, is a doubly linked list
      whose nodes are the slots `sl`, in order. */
  ghost predicate ListOf(ns: seq<Node>, sl: seq<int>, head: int, tail: int)
  {
    && (forall j :: 0 <= j < |sl| ==> 0 <= sl[j] < |ns|)
    && NoDup(sl)
    && head == (if sl == [] then Nil else sl[0])
    && tail == (if sl == [] then Nil else sl[|sl| - 1])
    && (forall j :: 0 <= j < |sl| ==> LinkedAt(ns, sl, j))
  }

  /** The list depends only on the links of the nodes on it: rewriting
      payloads, or any node off the list, keeps it intact. */
  lemma SameLinks(ns: seq<Node>, ns': seq<Node>, sl: seq<int>, head: int, tail: int)
    requires ListOf(ns, sl, head, tail) && |ns'| == |ns|
    requires forall x :: x in sl ==> ns'[x].prev == ns[x].prev && ns'[x].next == ns[x].next
    ensures ListOf(ns', sl, head, tail)
  {
    forall j | 0 <= j < |sl| ensures LinkedAt(ns', sl, j) {
      assert LinkedAt(ns, sl, j);
    }
  }

  /** Storing a node into one slot keeps the list intact when the slot is
      off the list, or when the stored node keeps the slot's links. */
  lemma WriteKeepsList(ns: seq<Node>, ns': seq<Node>, sl: seq<int>, head: int, tail: int, x: int)
    requires ListOf(ns, sl, head, tail) && |ns'| == |ns|
    requires forall y :: 0 <= y < |ns| && y != x ==> ns'[y] == ns[y]
    requires x in sl ==> 0 <= x < |ns| && ns'[x].prev == ns[x].prev && ns'[x].next == ns[x].next
    ensures ListOf(ns', sl, head, tail)
  {
    SameLinks(ns, ns', sl, head, tail);
  }

  /** `ns'` holds the same entries as `ns`, slot by slot; only links may differ. */
  ghost predicate SamePayload(ns: seq<Node>, ns': seq<Node>)
  {
    |ns'| == |ns| &&
    forall x :: 0 <= x < |ns| ==> ns'[x].key == ns[x].key && ns'[x].value == ns[x].value
  }

  /** Relinking leaves every entry where it was. */
  lemma RelinkKeepsPayload(ns: seq<Node>, a: int, b: int, c: int, d: int)
    requires (a == Nil || 0 <= a < |ns|) && (c == Nil || 0 <= c < |ns|)
    ensures SamePayload(ns, SetPrev(SetNext(ns, a, b), c, d))
  {
  }

  /** Point the `next` link of node `at` (when not `Nil`) to `to`. */
  function SetNext(ns: seq<Node>, at: int, to: int): (r: seq<Node>)
    requires at == Nil || 0 <= at < |ns|
    ensures |r| == |ns|
    ensures forall x :: 0 <= x < |ns| ==>
      r[x] == if x == at then ns[x].(next := to) else ns[x]
  {
    if at == Nil then ns else ns[at := ns[at].(next := to)]
  }

  /** Point the `prev` link of node `at` (when not `Nil`) to `to`. */
  function SetPrev(ns: seq<Node>, at: int, to: int): (r: seq<Node>)
    requires at == Nil || 0 <= at < |ns|
    ensures |r| == |ns|
    ensures forall x :: 0 <= x < |ns| ==>
      r[x] == if x == at then ns[x].(prev := to) else ns[x]
  {
    if at == Nil then ns else ns[at := ns[at].(prev := to)]
  }

  /** The neighbours of a node on the list are `Nil` or slots of `ns`. */
  lemma Neighbours(ns: seq<Node>, sl: seq<int>, head: int, tail: int, i: int)
    requires ListOf(ns, sl, head, tail) && 0 <= i < |sl|
    ensures 0 <= sl[i] < |ns|
    ensures var p, n := ns[sl[i]].prev, ns[sl[i]].next;
      (p == Nil || 0 <= p < |ns|) && (n == Nil || 0 <= n < |ns|)
  {
    assert LinkedAt(ns, sl, i);
  }

  /** Bridging a node's predecessor and successor to each other unlinks the
      node: the list then visits the other slots in their original order,
      and entering/leaving it moves off the node when it was at an end. */
  lemma Unlink(ns: seq<Node>, sl: seq<int>, head: int, tail: int, i: int,
               ns': seq<Node>, sl': seq<int>, head': int, tail': int)
    requires ListOf(ns, sl, head, tail) && 0 <= i < |sl| && 0 <= sl[i] < |ns|
    requires var p, n := ns[sl[i]].prev, ns[sl[i]].next;
      && (p == Nil || 0 <= p < |ns|) && (n == Nil || 0 <= n < |ns|)
      && ns' == SetPrev(SetNext(ns, p, n), n, p)
      && head' == (if p == Nil then n else head)
      && tail' == (if n == Nil then p else tail)
    requires sl' == sl[..i] + sl[i + 1..]
    ensures ListOf(ns', sl', head', tail')
  {
    var x := sl[i];
    assert LinkedAt(ns, sl, i);
    var p, n := ns[x].prev, ns[x].next;
    if i > 0 { assert LinkedAt(ns, sl, i - 1); }
    if i + 1 < |sl| { assert LinkedAt(ns, sl, i + 1); }
    RemoveAtNoDup(sl, i);
    forall j | 0 <= j < |sl'| ensures LinkedAt(ns', sl', j) {
      assert LinkedAt(ns, sl, if j < i then j else j + 1);
      UnlinkKeepsLink(ns, sl, i, j);
    }
    forall j | 0 <= j < |sl'| ensures 0 <= sl'[j] < |ns'| {
      assert LinkedAt(ns', sl', j);
    }
    if sl' != [] {
      assert sl'[0] == if i == 0 then sl[1] else sl[0];
      assert sl'[|sl'| - 1] == if i == |sl| - 1 then sl[|sl| - 2] else sl[|sl| - 1];
    }
  }

  /** One position of the list left after unlinking position `i`: its node
      is linked exactly as before, except that the unlinked node's
      neighbours now point at each other. */
  lemma UnlinkKeepsLink(ns: seq<Node>, sl: seq<int>, i: int, j: int)
    requires NoDup(sl) && 0 <= i < |sl| && 0 <= j < |sl| - 1
    requires forall k :: 0 <= k < |sl| ==> 0 <= sl[k] < |ns|
    requires LinkedAt(ns, sl, i) && LinkedAt(ns, sl, if j < i then j else j + 1)
    ensures var p, n := ns[sl[i]].prev, ns[sl[i]].next;
      && (p == Nil || 0 <= p < |ns|) && (n == Nil || 0 <= n < |ns|)
      && LinkedAt(SetPrev(SetNext(ns, p, n), n, p), sl[..i] + sl[i + 1..], j)
  {
    var x := sl[i];
    var p, n := ns[x].prev, ns[x].next;
    var ns' := SetPrev(SetNext(ns, p, n), n, p);
    var sl' := sl[..i] + sl[i + 1..];
    var oj := if j < i then j else j + 1;
    var y := sl[oj];
    assert sl'[j] == y && y != x;
    if j + 1 < |sl'| {
      assert sl'[j + 1] == if j + 1 < i then sl[j + 1] else sl[j + 2];
    }
    if j > 0 {
      assert sl'[j - 1] == if j - 1 < i then sl[j - 1] else sl[j];
    }
  }

  /** Linking a node that is not on the list in before the head makes it
      the new head, and also the tail when the list was empty. */
  lemma LinkFront(ns: seq<Node>, sl: seq<int>, head: int, tail: int, x: int)
    requires ListOf(ns, sl, head, tail) && 0 <= x < |ns| && x !in sl
    ensures ListOf(SetPrev(ns[x := ns[x].(prev := Nil, next := head)], head, x), [x] + sl,
                   x, if tail == Nil then x else tail)
  {
    var ns' := SetPrev(ns[x := ns[x].(prev := Nil, next := head)], head, x);
    var sl' := [x] + sl;
    if sl != [] { assert LinkedAt(ns, sl, 0); }
    forall a, b | 0 <= a < b < |sl'| ensures sl'[a] != sl'[b] {
      assert sl'[b] == sl[b - 1];
      if a > 0 { assert sl'[a] == sl[a - 1]; }
    }
    forall j | 0 <= j < |sl'| ensures LinkedAt(ns', sl', j) {
      if j > 0 {
        assert LinkedAt(ns, sl, j - 1);
        assert sl'[j] == sl[j - 1];
        assert sl[j - 1] != x;
      }
    }
  }
}

/**
 * The browsing history of the final manager: a doubly linked list of nodes, most recent
 * at the tail, with a map from entity id to its node so that each id occurs at most once.
 *
 * `Nodes` is the chain from head to tail and `Contents` the entities it holds; both are
 * ghost and exist only to state what the list means.
 */
module History {
  import opened Wrappers
  import opened Model
  import opened Seqs
  import opened Schedule

  /** No id occurs twice. */
  ghost predicate UniqueIds(s: seq<Item>) {
    forall i, j :: 0 <= i < j < |s| ==> s[i].id != s[j].id
  }

  /** The ids occurring in `s`. */
  ghost function IdSet(s: seq<Item>): set<int> {
    set x | x in s :: x.id
  }

  /** The history after reading `t`: earlier entries with other ids keep their order, `t` goes last. */
  function Added(s: seq<Item>, t: Item): (r: seq<Item>)
    ensures |r| > 0 && r[|r| - 1] == t
  {
    WithoutId(s, t.id) + [t]
  }

  /** Removing the entry at `i` of a history with unique ids is removing its id. */
  lemma WithoutIdAt(s: seq<Item>, i: int)
    requires 0 <= i < |s| && UniqueIds(s)
    ensures WithoutId(s, s[i].id) == s[..i] + s[i + 1..]
  {
    FilterDropsOne(s, i, (x: Item) => x.id != s[i].id);
  }

  /** The position of an id that occurs. */
  lemma FindId(s: seq<Item>, id: int) returns (i: int)
    requires id in IdSet(s)
    ensures 0 <= i < |s| && s[i].id == id
  {
    var x :| x in s && x.id == id;
    i :| 0 <= i < |s| && s[i] == x;
  }

  /** Removing an id that does not occur changes nothing. */
  lemma WithoutAbsentId(s: seq<Item>, id: int)
    requires id !in IdSet(s)
    ensures WithoutId(s, id) == s
  {
    forall k | 0 <= k < |s| ensures s[k].id != id {
      assert s[k] in s;
    }
    FilterAllKept(s, (x: Item) => x.id != id);
  }

  /** Dropping entries keeps ids unique and drops nothing else but the removed id. */
  lemma WithoutIdFacts(s: seq<Item>, id: int)
    requires UniqueIds(s)
    ensures UniqueIds(WithoutId(s, id))
    ensures IdSet(WithoutId(s, id)) == IdSet(s) - {id}
  {
    var r := WithoutId(s, id);
    FilterMembers(s, (x: Item) => x.id != id);
    FilterPairwise(s, (x: Item) => x.id != id, (a: Item, b: Item) => a.id != b.id);
    assert UniqueIds(r);
    forall k | k in IdSet(s) - {id} ensures k in IdSet(r) {
      var x :| x in s && x.id == k;
      assert x in r;
    }
  }

  /**
   * Reading `t` leaves its id exactly once, at the tail, keeps every other id, and keeps the
   * relative order of every other entry.
   */
  lemma AddedFacts(s: seq<Item>, t: Item)
    requires UniqueIds(s)
    ensures UniqueIds(Added(s, t))
    ensures IdSet(Added(s, t)) == IdSet(s) + {t.id}
    ensures forall i :: 0 <= i < |Added(s, t)| - 1 ==> Added(s, t)[i].id != t.id
    ensures Added(s, t)[..|Added(s, t)| - 1] == WithoutId(s, t.id)
  {
    var w := WithoutId(s, t.id);
    WithoutIdFacts(s, t.id);
    FilterMembers(s, (x: Item) => x.id != t.id);
    var r := w + [t];
    assert IdSet(r) == IdSet(w) + {t.id} by {
      assert forall x :: x in r <==> x in w || x == t;
    }
    forall i | 0 <= i < |r| - 1 ensures r[i].id != t.id {
      assert r[i] == w[i] && w[i] in w;
    }
    forall i, j | 0 <= i < j < |r| ensures r[i].id != r[j].id {
      if j < |r| - 1 {
        assert r[i] == w[i] && r[j] == w[j];
      }
    }
    assert r[..|r| - 1] == w;
  }

  /** `N` is a chain from `h` to `t` through `next`, with `prev` as its mirror, holding `C`. */
  ghost predicate Linked(N: seq<Node>, C: seq<Item>, h: Node?, t: Node?)
    reads N
  {
    && |C| == |N|
    && (forall i :: 0 <= i < |N| ==> N[i].value == C[i])
    && (forall i, j :: 0 <= i < j < |N| ==> N[i] != N[j])
    && (N == [] ==> h == null && t == null)
    && (N != [] ==> h == N[0] && t == N[|N| - 1] && N[0].prev == null && N[|N| - 1].next == null)
    && (forall i, j :: 0 <= i && j == i + 1 && j < |N| ==> N[i].next == N[j] && N[j].prev == N[i])
  }

  /** The map of the source's own `utils.Node`: a value and its two neighbours. */
  class Node {
    var value: Item
    var next: Node?
    var prev: Node?

    constructor (value: Item)
      ensures this.value == value && next == null && prev == null
    {
      this.value := value;
      next := null;
      prev := null;
    }
  }

  class HistoryManager {
    var history: map<int, Node>
    var head: Node?
    var tail: Node?
    ghost var Nodes: seq<Node>
    ghost var Contents: seq<Item>

    /** `Nodes` is the chain from `head` to `tail` through `next`, with `prev` as its mirror. */
    ghost predicate Chain()
      reads this`head, this`tail, this`Nodes, this`Contents, Nodes
    {
      Linked(Nodes, Contents, head, tail)
    }

    /** The chain holds each id once and the map sends every id on the chain, and nothing else, to its node. */
    ghost predicate Valid()
      reads this, Nodes
    {
      Chain() && Mapped(Contents, Nodes, history)
    }

    constructor ()
      ensures Valid() && Contents == [] && fresh(Nodes)
    {
      history := map[];
      head, tail := null, null;
      Nodes, Contents := [], [];
    }

    /** `add`: null is ignored; otherwise an earlier entry with the same id is unlinked and `t` is appended. */
    method Add(t: Option<Item>)
      requires Valid()
      modifies this, Nodes
      ensures Valid()
      ensures t.None? ==> Contents == old(Contents)
      ensures t.Some? ==> Contents == Added(old(Contents), t.value)
      ensures forall i :: 0 <= i < |Nodes| ==> Nodes[i] in old(Nodes) || fresh(Nodes[i])
    {
      if t.None? {
        return;
      }
      var task := t.value;
      if task.id in history {
        Remove(task.id);
      } else {
        WithoutAbsentId(Contents, task.id);
      }
      WithoutIdFacts(old(Contents), task.id);
      Append(task);
    }

    /** `history.put(task.getId(), linkLast(task))` for an id not yet in the history. */
    method Append(task: Item)
      requires Valid() && task.id !in history
      modifies this, Nodes
      ensures Valid()
      ensures Contents == old(Contents) + [task]
      ensures forall i :: 0 <= i < |Nodes| ==> Nodes[i] in old(Nodes) || fresh(Nodes[i])
    {
      ghost var before, m, N := Contents, history, Nodes;
      var node := LinkLast(task);
      Put(task, node, before, m, N);
    }

    /** `getHistory`: walks the chain from head to tail. */
    method GetHistory() returns (list: seq<Item>)
      requires Valid()
      ensures list == Contents
      ensures |list| == |history|
    {
      list := [];
      var node := head;
      ghost var i := 0;
      while node != null
        invariant 0 <= i <= |Nodes|
        invariant list == Contents[..i]
        invariant node == (if i < |Nodes| then Nodes[i] else null)
        decreases |Nodes| - i
      {
        list := list + [node.value];
        node := node.next;
        i := i + 1;
      }
      HistorySize();
    }

    /** `remove`: unlinks the entry with this id, if there is one. */
    method Remove(id: int)
      requires Valid()
      modifies this, Nodes
      ensures Valid()
      ensures Contents == WithoutId(old(Contents), id)
      ensures forall i :: 0 <= i < |Nodes| ==> Nodes[i] in old(Nodes)
    {
      if id in history {
        var node := history[id];
        ghost var i := FindId(Contents, id);
        WithoutIdAt(Contents, i);
        RemoveNode(node, i);
      } else {
        WithoutAbsentId(Contents, id);
      }
    }

    /** `linkLast`: appends a fresh node at the tail; the id map is left to the caller. */
    method LinkLast(task: Item) returns (newNode: Node)
      requires Chain()
      modifies this, Nodes
      ensures Chain()
      ensures fresh(newNode) && Nodes == old(Nodes) + [newNode] && Contents == old(Contents) + [task]
      ensures history == old(history)
      ensures forall i :: 0 <= i < |old(Nodes)| ==> Nodes[i].value == old(Nodes[i].value)
    {
      ghost var N, C := Nodes, Contents;
      newNode := new Node(task);
      Nodes := N + [newNode];
      Contents := C + [task];
      Attach(newNode, N, C);
    }

    /** Links a detached node after the tail of chain `N`. */
    method Attach(node: Node, ghost N: seq<Node>, ghost C: seq<Item>)
      requires Linked(N, C, head, tail) && node !in N && node.next == null
      modifies this`head, this`tail, node, N
      ensures Linked(N + [node], C + [node.value], head, tail)
      ensures node.value == old(node.value)
    {
      var oldTail := tail;
      node.prev := oldTail;
      tail := node;
      if oldTail == null {
        head := node;
      } else {
        oldTail.next := node;
      }
      var M, n := N + [node], |N|;
      forall i, j | 0 <= i && j == i + 1 && j < n + 1
        ensures M[i].next == M[j] && M[j].prev == M[i]
      {
        if j < n {
          assert old(N[i].next) == N[j] && old(N[j].prev) == N[i];
        }
      }
    }

    /** `removeNode`: bypasses the node at position `at` in both directions and drops its id from the map. */
    method RemoveNode(node: Node, ghost at: int)
      requires Valid() && 0 <= at < |Nodes| && Nodes[at] == node
      modifies this, Nodes
      ensures Valid()
      ensures Nodes == old(Nodes[..at] + Nodes[at + 1..])
      ensures Contents == old(Contents[..at] + Contents[at + 1..])
      ensures history == old(history) - {node.value.id}
    {
      ghost var N, C, m := Nodes, Contents, history;
      CutIndexed(C, N, m, at);
      var id := node.value.id;
      Bypass(node, at);
      Forget(id);
    }

    /** The pointer surgery of `removeNode`: the neighbours of the node at `at` are linked to each other. */
    method Bypass(node: Node, ghost at: int)
      requires Chain() && 0 <= at < |Nodes| && Nodes[at] == node
      modifies this, Nodes
      ensures Chain()
      ensures Nodes == old(Nodes[..at] + Nodes[at + 1..])
      ensures Contents == old(Contents[..at] + Contents[at + 1..])
      ensures history == old(history) && node.value == old(node.value)
    {
      ghost var N, C := Nodes, Contents;
      Nodes := N[..at] + N[at + 1..];
      Contents := C[..at] + C[at + 1..];
      Unlink(node, N, C, at);
    }

    /** Relinks the neighbours of the node at `at` of chain `N` and moves `head` or `tail` past it. */
    method Unlink(node: Node, ghost N: seq<Node>, ghost C: seq<Item>, ghost at: int)
      requires Linked(N, C, head, tail) && 0 <= at < |N| && N[at] == node
      modifies this`head, this`tail, N
      ensures Linked(N[..at] + N[at + 1..], C[..at] + C[at + 1..], head, tail)
      ensures node.value == old(node.value)
    {
      var n := |N|;
      assert at > 0 ==> N[at].prev == N[at - 1];
      assert at < n - 1 ==> N[at].next == N[at + 1];
      if node.prev == null {
        head := node.next;
      } else {
        assert at > 0 && node.prev == N[at - 1];
        node.prev.next := node.next;
      }
      if node.next == null {
        tail := node.prev;
      } else {
        assert at < n - 1 && node.next == N[at + 1];
        node.next.prev := node.prev;
      }
      forall i, j | 0 <= i && j == i + 1 && j < n && i != at && j != at
        ensures N[i].next == N[j] && N[j].prev == N[i]
      {
        assert old(N[i].next) == N[j] && old(N[j].prev) == N[i];
        assert at > 0 ==> N[i] != N[at - 1];
        assert at + 1 < n ==> N[j] != N[at + 1];
      }
      assert n > 1 && at > 0 ==> N[0].prev == null by {
        if n > 1 && at > 0 { assert at + 1 < n ==> N[0] != N[at + 1]; }
      }
      assert n > 1 && at < n - 1 ==> N[n - 1].next == null by {
        if n > 1 && at < n - 1 { assert at > 0 ==> N[n - 1] != N[at - 1]; }
      }
      CutChain(N, C, at, head, tail);
    }

    /** `history.put(task.getId(), node)` after `linkLast`: the map gains the new tail and the history is consistent again. */
    method Put(task: Item, node: Node, ghost before: seq<Item>, ghost m: map<int, Node>, ghost N: seq<Node>)
      requires Chain() && Mapped(before, N, m) && task.id !in IdSet(before)
      requires Contents == before + [task] && Nodes == N + [node] && history == m
      modifies this`history
      ensures Valid() && history == old(history)[task.id := node]
    {
      TailIndexed(before, task, m, N, node);
      history := history[task.id := node];
    }

    /** `history.remove`: only the map changes, so the chain stays as it is. */
    method Forget(id: int)
      requires Chain()
      modifies this`history
      ensures Chain() && history == old(history) - {id}
    {
      history := history - {id};
    }

    /** The map has one entry per node. */
    lemma HistorySize()
      requires Valid()
      ensures |history| == |Contents|
    {
      IdCount(Contents);
    }
  }

  /** Each entry's id is mapped to the node at the same position, and no other id is mapped. */
  ghost predicate Mapped(C: seq<Item>, N: seq<Node>, h: map<int, Node>) {
    && |C| == |N|
    && UniqueIds(C)
    && h.Keys == IdSet(C)
    && (forall i :: 0 <= i < |C| ==> C[i].id in h && h[C[i].id] == N[i])
  }

  /** One more entry at the tail, with its id mapped to the new node. */
  lemma TailIndexed(before: seq<Item>, task: Item, m: map<int, Node>, N: seq<Node>, node: Node)
    requires Mapped(before, N, m) && task.id !in IdSet(before)
    ensures Mapped(before + [task], N + [node], m[task.id := node])
  {
    var C, M, h := before + [task], N + [node], m[task.id := node];
    assert UniqueIds(C) by {
      forall i | 0 <= i < |before| ensures before[i].id != task.id {
        assert before[i] in before;
      }
    }
    assert IdSet(C) == IdSet(before) + {task.id};
    forall i | 0 <= i < |C| ensures C[i].id in h && h[C[i].id] == M[i] {
      if i < |before| {
        assert C[i] == before[i] && before[i] in before && M[i] == N[i];
      }
    }
  }

  /** The entry at `at` cut out, with its id dropped from the map. */
  lemma CutIndexed(C: seq<Item>, N: seq<Node>, m: map<int, Node>, at: int)
    requires 0 <= at < |C| && Mapped(C, N, m)
    ensures Mapped(C[..at] + C[at + 1..], N[..at] + N[at + 1..], m - {C[at].id})
  {
    var D, M, h := C[..at] + C[at + 1..], N[..at] + N[at + 1..], m - {C[at].id};
    CutFacts(C, at);
    forall i | 0 <= i < |D| ensures D[i].id in h && h[D[i].id] == M[i] {
      var k := if i < at then i else i + 1;
      assert D[i] == C[k] && M[i] == N[k];
      assert C[k].id != C[at].id;
    }
  }

  /** The chain with position `at` cut out, given that every remaining link is in place. */
  lemma CutChain(N: seq<Node>, C: seq<Item>, at: int, h: Node?, t: Node?)
    requires 0 <= at < |N| == |C|
    requires forall i :: 0 <= i < |N| ==> N[i].value == C[i]
    requires forall i, j :: 0 <= i < j < |N| ==> N[i] != N[j]
    requires forall i, j :: 0 <= i && j == i + 1 && j < |N| && i != at && j != at ==> N[i].next == N[j] && N[j].prev == N[i]
    requires 0 < at < |N| - 1 ==> N[at - 1].next == N[at + 1] && N[at + 1].prev == N[at - 1]
    requires |N| == 1 ==> h == null && t == null
    requires |N| > 1 ==> h == N[if at == 0 then 1 else 0] && t == N[if at == |N| - 1 then |N| - 2 else |N| - 1]
    requires |N| > 1 ==> N[if at == 0 then 1 else 0].prev == null && N[if at == |N| - 1 then |N| - 2 else |N| - 1].next == null
    ensures Linked(N[..at] + N[at + 1..], C[..at] + C[at + 1..], h, t)
  {
    var n := |N|;
    var M, D := N[..at] + N[at + 1..], C[..at] + C[at + 1..];
    forall i | 0 <= i < n - 1 ensures M[i] == N[if i < at then i else i + 1] && D[i] == C[if i < at then i else i + 1] {
    }
    forall i, j | 0 <= i < j < n - 1 ensures M[i] != M[j] {
      assert M[i] == N[if i < at then i else i + 1] && M[j] == N[if j < at then j else j + 1];
    }
    forall i, j | 0 <= i && j == i + 1 && j < n - 1 ensures M[i].next == M[j] && M[j].prev == M[i] {
      if j < at {
        assert M[i] == N[i] && M[j] == N[j];
      } else if j == at {
        assert M[i] == N[at - 1] && M[j] == N[at + 1];
      } else {
        assert M[i] == N[i + 1] && M[j] == N[j + 1];
      }
    }
  }

  /** With unique ids there are as many ids as entries. */
  lemma {:induction false} IdCount(s: seq<Item>)
    requires UniqueIds(s)
    ensures |IdSet(s)| == |s|
  {
    if s != [] {
      var t := s[..|s| - 1];
      var x := s[|s| - 1];
      assert UniqueIds(t);
      IdCount(t);
      assert s == t + [x];
      assert IdSet(s) == IdSet(t) + {x.id};
      assert x.id !in IdSet(t);
    }
  }

  /** Cutting one entry out of a history with unique ids keeps them unique and loses only its id. */
  lemma CutFacts(s: seq<Item>, i: int)
    requires 0 <= i < |s| && UniqueIds(s)
    ensures UniqueIds(s[..i] + s[i + 1..])
    ensures IdSet(s[..i] + s[i + 1..]) == IdSet(s) - {s[i].id}
  {
    var r := s[..i] + s[i + 1..];
    forall k | 0 <= k < |r| ensures r[k] == s[if k < i then k else k + 1] {
    }
    forall x | x in IdSet(s) - {s[i].id} ensures x in IdSet(r) {
      var y :| y in s && y.id == x;
      var k :| 0 <= k < |s| && s[k] == y;
      assert k != i;
      assert y == r[if k < i then k else k - 1];
    }
    forall x | x in IdSet(r) ensures x in IdSet(s) - {s[i].id} {
      var y :| y in r && y.id == x;
      var k :| 0 <= k < |r| && r[k] == y;
      assert y == s[if k < i then k else k + 1];
    }
  }
}

/**
 * The timer director of src_server/global.hpp (repeated in
 * src_net/global.hpp): an intrusive circular doubly-linked list of task
 * nodes with a moving `head` cursor, and the Director that files one task
 * per deadline timer into it.
 *
 * Nodes are named by `NodeId`s; the `prev`/`next` pointers of all nodes
 * live in two maps of the list. The ghost sequence `nodes` lists the
 * nodes in `next` order, and the ghost index `at` is the position of
 * `head` in it.
 */
module Schedule {
  import opened Wrappers
  import opened Bits

  type NodeId = nat

  /** Modulus of the `unsigned` task counter. */
  const UnsignedModulus: int := 0x1_0000_0000

  /** No node occurs twice. */
  ghost predicate Distinct(r: seq<NodeId>)
    decreases |r|
  {
    |r| == 0 || (r[0] !in r[1..] && Distinct(r[1..]))
  }

  /** Distinct, position by position. */
  ghost predicate AllDifferent(r: seq<NodeId>)
  {
    forall i, j :: 0 <= i < j < |r| ==> r[i] != r[j]
  }

  lemma {:induction false} DistinctAll(r: seq<NodeId>)
    ensures Distinct(r) <==> AllDifferent(r)
    decreases |r|
  {
    if |r| > 0 {
      var t := r[1..];
      DistinctAll(t);
      assert forall i :: 0 <= i < |t| ==> t[i] == r[i + 1];
      if AllDifferent(r) {
        assert r[0] !in t;
      }
      if Distinct(r) {
        forall i, j | 0 <= i < j < |r|
          ensures r[i] != r[j]
        {
          if i == 0 {
            assert r[j] == t[j - 1];
          } else {
            assert r[i] == t[i - 1] && r[j] == t[j - 1];
          }
        }
      }
    }
  }

  /** The position after a in a ring of m nodes. */
  function Succ(a: nat, m: nat): (b: nat)
    requires a < m
    ensures b < m && (b == 0 || b == a + 1)
  {
    if a + 1 == m then 0 else a + 1
  }

  /** Following `next` from r[0] walks along r, and `prev` walks back. */
  ghost predicate Path(r: seq<NodeId>, next: map<NodeId, NodeId>, prev: map<NodeId, NodeId>)
    decreases |r|
  {
    |r| <= 1
    || (r[0] in next && r[1] in prev && next[r[0]] == r[1] && prev[r[1]] == r[0]
        && Path(r[1..], next, prev))
  }

  /** The nodes of r, in this cyclic order, are joined by `next` and, backwards, by `prev`. */
  ghost predicate Linked(r: seq<NodeId>, next: map<NodeId, NodeId>, prev: map<NodeId, NodeId>)
  {
    (forall k :: k in r ==> k in next && k in prev)
    && Path(r, next, prev)
    && (|r| > 0 ==> next[r[|r| - 1]] == r[0] && prev[r[0]] == r[|r| - 1])
  }

  /** Linked, position by position. */
  ghost predicate Chained(r: seq<NodeId>, next: map<NodeId, NodeId>, prev: map<NodeId, NodeId>)
  {
    (forall i :: 0 <= i < |r| ==> r[i] in next && r[i] in prev)
    && (forall i :: 0 <= i < |r| - 1 ==> next[r[i]] == r[i + 1] && prev[r[i + 1]] == r[i])
    && (|r| > 0 ==> next[r[|r| - 1]] == r[0] && prev[r[0]] == r[|r| - 1])
  }

  /** Each node of r is followed by the next one, and the last by the first. */
  ghost predicate Cycle(r: seq<NodeId>, next: map<NodeId, NodeId>)
  {
    forall j {:trigger next[r[j]]} :: 0 <= j < |r| ==> r[j] in next && next[r[j]] == r[Succ(j, |r|)]
  }

  /** The link from position i to position i + 1, both ways. */
  ghost predicate Step(r: seq<NodeId>, next: map<NodeId, NodeId>, prev: map<NodeId, NodeId>, i: nat)
    requires i + 1 < |r|
  {
    r[i] in next && r[i + 1] in prev && next[r[i]] == r[i + 1] && prev[r[i + 1]] == r[i]
  }

  /** The walk, position by position. */
  lemma {:induction false} PathSteps(r: seq<NodeId>, next: map<NodeId, NodeId>, prev: map<NodeId, NodeId>)
    ensures Path(r, next, prev) <==> forall i :: 0 <= i < |r| - 1 ==> Step(r, next, prev, i)
    decreases |r|
  {
    if |r| > 1 {
      var t := r[1..];
      PathSteps(t, next, prev);
      if Path(r, next, prev) {
        forall i | 0 <= i < |r| - 1
          ensures Step(r, next, prev, i)
        {
          if i > 0 {
            assert Step(t, next, prev, i - 1);
            assert r[i] == t[i - 1] && r[i + 1] == t[i];
          }
        }
      }
      if forall i :: 0 <= i < |r| - 1 ==> Step(r, next, prev, i) {
        forall i | 0 <= i < |t| - 1
          ensures Step(t, next, prev, i)
        {
          assert Step(r, next, prev, i + 1);
          assert t[i] == r[i + 1] && t[i + 1] == r[i + 2];
        }
        assert Step(r, next, prev, 0);
      }
    }
  }

  lemma LinkedChained(r: seq<NodeId>, next: map<NodeId, NodeId>, prev: map<NodeId, NodeId>)
    ensures Linked(r, next, prev) <==> Chained(r, next, prev)
  {
    PathSteps(r, next, prev);
    if Chained(r, next, prev) {
      forall k | k in r
        ensures k in next && k in prev
      {
        var i :| 0 <= i < |r| && r[i] == k;
      }
      forall i | 0 <= i < |r| - 1
        ensures Step(r, next, prev, i)
      {
      }
    }
    if Linked(r, next, prev) {
      forall i | 0 <= i < |r| - 1
        ensures next[r[i]] == r[i + 1] && prev[r[i + 1]] == r[i]
      {
        assert Step(r, next, prev, i);
      }
    }
  }

  /** In a linked ring, `next` of the node at position a is the node at the following position. */
  lemma LinkedCycle(r: seq<NodeId>, next: map<NodeId, NodeId>, prev: map<NodeId, NodeId>)
    requires Linked(r, next, prev)
    ensures Cycle(r, next)
  {
    LinkedChained(r, next, prev);
    forall j | 0 <= j < |r|
      ensures r[j] in next && next[r[j]] == r[Succ(j, |r|)]
    {
    }
  }

  /** The ring seen from position j. */
  function Rotate(r: seq<NodeId>, j: nat): (t: seq<NodeId>)
    requires j <= |r|
    ensures |t| == |r|
  {
    r[j..] + r[..j]
  }

  lemma RotateAt(r: seq<NodeId>, j: nat)
    requires j <= |r|
    ensures forall i :: 0 <= i < |r| - j ==> Rotate(r, j)[i] == r[j + i]
    ensures forall i :: |r| - j <= i < |r| ==> Rotate(r, j)[i] == r[i - (|r| - j)]
  {
  }

  lemma RotateMembers(r: seq<NodeId>, j: nat)
    requires j <= |r|
    ensures forall x :: x in Rotate(r, j) <==> x in r
  {
    assert r == r[..j] + r[j..];
  }

  lemma RotateDistinct(r: seq<NodeId>, j: nat)
    requires j <= |r| && Distinct(r)
    ensures Distinct(Rotate(r, j))
  {
    var t := Rotate(r, j);
    RotateAt(r, j);
    DistinctAll(r);
    DistinctAll(t);
    forall a, b | 0 <= a < b < |t|
      ensures t[a] != t[b]
    {
      var ia := if a < |r| - j then j + a else a - (|r| - j);
      var ib := if b < |r| - j then j + b else b - (|r| - j);
      assert t[a] == r[ia] && t[b] == r[ib] && ia != ib;
    }
  }

  /** A rotation of a ring is linked by the same pointers. */
  lemma RotateLinked(r: seq<NodeId>, j: nat, next: map<NodeId, NodeId>, prev: map<NodeId, NodeId>)
    requires j <= |r| && Linked(r, next, prev)
    ensures Linked(Rotate(r, j), next, prev)
  {
    var t := Rotate(r, j);
    var m := |r|;
    RotateAt(r, j);
    LinkedChained(r, next, prev);
    LinkedChained(t, next, prev);
    if 0 < j < m {
      forall i | 0 <= i < m - 1
        ensures next[t[i]] == t[i + 1] && prev[t[i + 1]] == t[i]
      {
        if i < m - j - 1 {
          assert t[i] == r[j + i] && t[i + 1] == r[j + i + 1];
        } else if i == m - j - 1 {
          assert t[i] == r[m - 1] && t[i + 1] == r[0];
        } else {
          assert t[i] == r[i - (m - j)] && t[i + 1] == r[i + 1 - (m - j)];
        }
      }
      assert t[m - 1] == r[j - 1] && t[0] == r[j];
    } else {
      assert t == r;
    }
  }

  /** `order` lists a ring without repeats, in `next` order, ending at `stop`. */
  ghost predicate ScanRing(order: seq<NodeId>, next: map<NodeId, NodeId>, stop: NodeId)
  {
    Distinct(order) && |order| > 0 && Cycle(order, next) && stop == order[|order| - 1]
  }

  /** What the scan loops need of a non-empty list: the ring in scan order, ending at `head`. */
  lemma ScanReady(r: seq<NodeId>, a: nat, h: Option<NodeId>, c: int,
                  next: map<NodeId, NodeId>, prev: map<NodeId, NodeId>, bound: nat)
    requires Ring(r, a, h, c, next, prev, bound) && r != []
    ensures var order := Rotate(r, Succ(a, |r|));
            h.Some? && ScanRing(order, next, h.value) && forall j :: 0 <= j < |order| ==> order[j] in r
  {
    var b := Succ(a, |r|);
    var order := Rotate(r, b);
    RotateDistinct(r, b);
    RotateLinked(r, b, next, prev);
    LinkedCycle(order, next, prev);
    assert order[|r| - 1] == r[a] by {
      RotateAt(r, b);
    }
    forall j | 0 <= j < |order|
      ensures order[j] in r
    {
      RotateMembers(r, b);
      assert order[j] in order;
    }
  }

  /** Position of a node in a ring that holds it. */
  function IndexOf(r: seq<NodeId>, n: NodeId): (k: nat)
    requires n in r
    ensures k < |r| && r[k] == n
    ensures forall i :: 0 <= i < k ==> r[i] != n
  {
    if r[0] == n then 0 else 1 + IndexOf(r[1..], n)
  }

  /** The ring with `n` cut out. */
  function Without(r: seq<NodeId>, n: NodeId): (t: seq<NodeId>)
    requires n in r
    ensures |t| == |r| - 1
  {
    var k := IndexOf(r, n);
    r[..k] + r[k + 1..]
  }

  /** Cutting `n` out leaves exactly the other nodes. */
  lemma WithoutMembers(r: seq<NodeId>, n: NodeId)
    requires n in r && Distinct(r)
    ensures forall x :: x in Without(r, n) <==> x in r && x != n
  {
    var k := IndexOf(r, n);
    var t := Without(r, n);
    CutAt(r, k);
    DistinctAll(r);
    forall x | x in t
      ensures x in r && x != n
    {
      var i :| 0 <= i < |t| && t[i] == x;
      var j := if i < k then i else i + 1;
      assert x == r[j] && j != k;
    }
    forall x | x in r && x != n
      ensures x in t
    {
      var j :| 0 <= j < |r| && r[j] == x;
      assert x == t[if j < k then j else j - 1];
    }
  }

  /** The ring after `insert` behind position a: the new node follows the old head. */
  function Inserted(r: seq<NodeId>, a: nat, n: NodeId): (t: seq<NodeId>)
    requires a < |r|
    ensures |t| == |r| + 1
  {
    r[..a + 1] + [n] + r[a + 1..]
  }

  lemma InsertedAt(r: seq<NodeId>, a: nat, n: NodeId)
    requires a < |r|
    ensures var u := Inserted(r, a, n);
            (forall i :: 0 <= i <= a ==> u[i] == r[i]) && u[a + 1] == n
            && (forall i :: a + 1 < i <= |r| ==> u[i] == r[i - 1])
  {
  }

  /** Inserting a fresh node keeps the ring duplicate-free. */
  lemma InsertDistinct(r: seq<NodeId>, a: nat, n: NodeId)
    requires a < |r| && Distinct(r) && n !in r
    ensures Distinct(Inserted(r, a, n))
  {
    var u := Inserted(r, a, n);
    InsertedAt(r, a, n);
    DistinctAll(r);
    DistinctAll(u);
    forall i, j | 0 <= i < j < |u|
      ensures u[i] != u[j]
    {
      if i != a + 1 && j != a + 1 {
        var ii := if i <= a then i else i - 1;
        var jj := if j <= a then j else j - 1;
        assert u[i] == r[ii] && u[j] == r[jj] && ii < jj;
      }
    }
  }

  /** The ring after `insert`: the new node alone in an empty list, otherwise behind position a. */
  function Spliced(r: seq<NodeId>, a: nat, n: NodeId): seq<NodeId>
    requires r == [] || a < |r|
  {
    if r == [] then [n] else Inserted(r, a, n)
  }

  /** `insert` adds just the new node. */
  lemma SplicedMembers(r: seq<NodeId>, a: nat, n: NodeId)
    requires r == [] || a < |r|
    ensures forall x :: x in Spliced(r, a, n) <==> x in r || x == n
  {
    if r != [] {
      InsertMembers(r, a, n);
    }
  }

  /** Inserting adds just the new node. */
  lemma InsertMembers(r: seq<NodeId>, a: nat, n: NodeId)
    requires a < |r|
    ensures forall x :: x in Inserted(r, a, n) <==> x in r || x == n
  {
    assert r == r[..a + 1] + r[a + 1..];
  }

  /** The splice of `insert` behind position a keeps the ring linked. */
  lemma InsertLinked(r: seq<NodeId>, next: map<NodeId, NodeId>, prev: map<NodeId, NodeId>, n: NodeId, a: nat)
    requires a < |r| && Distinct(r) && Linked(r, next, prev) && n !in next && n !in prev
    ensures r[a] in next && next[r[a]] == r[Succ(a, |r|)]
    ensures var first := r[a];
            var second := next[first];
            Linked(Inserted(r, a, n),
                   next[n := n][n := second][first := n],
                   prev[n := n][n := first][second := n])
  {
    assert r[a] in next && next[r[a]] == r[Succ(a, |r|)] by {
      LinkedCycle(r, next, prev);
    }
    var first, second := r[a], next[r[a]];
    InsertJoins(r, next, prev, n, a, next[n := n][n := second][first := n], prev[n := n][n := first][second := n]);
  }

  /** The ring with n spliced in behind position a is linked by the updated pointers. */
  lemma InsertJoins(r: seq<NodeId>, next: map<NodeId, NodeId>, prev: map<NodeId, NodeId>, n: NodeId, a: nat,
                    next': map<NodeId, NodeId>, prev': map<NodeId, NodeId>)
    requires a < |r| && Distinct(r) && Linked(r, next, prev) && n !in next && n !in prev
    requires r[a] in next && next[r[a]] == r[Succ(a, |r|)]
    requires next' == next[n := n][n := next[r[a]]][r[a] := n]
    requires prev' == prev[n := n][n := r[a]][next[r[a]] := n]
    ensures Linked(Inserted(r, a, n), next', prev')
  {
    DistinctAll(r);
    InsertPath(r, next, prev, n, a, next', prev');
    InsertWrap(r, next, prev, n, a, next', prev');
    InsertMembers(r, a, n);
  }

  /** The walk along the ring after `insert`. */
  lemma InsertPath(r: seq<NodeId>, next: map<NodeId, NodeId>, prev: map<NodeId, NodeId>, n: NodeId, a: nat,
                   next': map<NodeId, NodeId>, prev': map<NodeId, NodeId>)
    requires a < |r| && AllDifferent(r) && Linked(r, next, prev) && n !in r && r[a] in next
    requires next[r[a]] == r[Succ(a, |r|)]
    requires next' == next[n := n][n := next[r[a]]][r[a] := n]
    requires prev' == prev[n := n][n := r[a]][next[r[a]] := n]
    ensures Path(Inserted(r, a, n), next', prev')
  {
    PathSteps(r, next, prev);
    InsertSteps(r, next, prev, n, a, next', prev');
    PathSteps(Inserted(r, a, n), next', prev');
  }

  /** The last node of the ring after `insert` leads back to its first. */
  lemma InsertWrap(r: seq<NodeId>, next: map<NodeId, NodeId>, prev: map<NodeId, NodeId>, n: NodeId, a: nat,
                   next': map<NodeId, NodeId>, prev': map<NodeId, NodeId>)
    requires a < |r| && AllDifferent(r) && n !in r && r[a] in next
    requires r[|r| - 1] in next && r[0] in prev && next[r[|r| - 1]] == r[0] && prev[r[0]] == r[|r| - 1]
    requires next[r[a]] == r[Succ(a, |r|)]
    requires next' == next[n := n][n := next[r[a]]][r[a] := n]
    requires prev' == prev[n := n][n := r[a]][next[r[a]] := n]
    ensures var u := Inserted(r, a, n);
            next'[u[|u| - 1]] == u[0] && prev'[u[0]] == u[|u| - 1]
  {
    var m := |r|;
    var u := Inserted(r, a, n);
    InsertedAt(r, a, n);
    if a + 1 < m {
      assert u[m] == r[m - 1] && r[m - 1] != r[a] && r[0] != next[r[a]];
    }
  }

  /** The links of `insert`, position by position. */
  lemma InsertSteps(r: seq<NodeId>, next: map<NodeId, NodeId>, prev: map<NodeId, NodeId>, n: NodeId, a: nat,
                    next': map<NodeId, NodeId>, prev': map<NodeId, NodeId>)
    requires a < |r| && AllDifferent(r) && n !in r && r[a] in next
    requires next[r[a]] == r[Succ(a, |r|)]
    requires forall i :: 0 <= i < |r| - 1 ==> Step(r, next, prev, i)
    requires next' == next[n := n][n := next[r[a]]][r[a] := n]
    requires prev' == prev[n := n][n := r[a]][next[r[a]] := n]
    ensures forall i :: 0 <= i < |r| ==> Step(Inserted(r, a, n), next', prev', i)
  {
    var m := |r|;
    var first, second := r[a], next[r[a]];
    var u := Inserted(r, a, n);
    InsertedAt(r, a, n);
    forall i | 0 <= i < m
      ensures Step(u, next', prev', i)
    {
      if i < a {
        assert Step(r, next, prev, i);
        assert u[i] == r[i] && u[i + 1] == r[i + 1];
        assert r[i] != first && r[i + 1] != second;
      } else if i == a + 1 {
        assert u[i + 1] == r[a + 1];
      } else if i > a + 1 {
        assert Step(r, next, prev, i - 1);
        assert u[i] == r[i - 1] && u[i + 1] == r[i];
        assert r[i - 1] != first && r[i] != second;
      }
    }
  }

  /** The ring with the node at position k cut out. */
  lemma CutAt(r: seq<NodeId>, k: nat)
    requires k < |r|
    ensures var u := r[..k] + r[k + 1..];
            |u| == |r| - 1
            && (forall i :: 0 <= i < k ==> u[i] == r[i])
            && (forall i :: k <= i < |u| ==> u[i] == r[i + 1])
  {
  }

  /** Cutting a node out keeps the ring duplicate-free. */
  lemma CutDistinct(r: seq<NodeId>, k: nat)
    requires k < |r| && Distinct(r)
    ensures Distinct(r[..k] + r[k + 1..])
  {
    var u := r[..k] + r[k + 1..];
    CutAt(r, k);
    DistinctAll(r);
    DistinctAll(u);
    forall i, j | 0 <= i < j < |u|
      ensures u[i] != u[j]
    {
      var ii := if i < k then i else i + 1;
      var jj := if j < k then j else j + 1;
      assert u[i] == r[ii] && u[j] == r[jj] && ii < jj;
    }
  }

  /**
   * `disconnect` of the node at position k: its neighbours are joined, the
   * rest stays a linked ring, and the node's successor now sits at
   * position k (or 0 when the node was the last one).
   */
  lemma CutLinked(r: seq<NodeId>, next: map<NodeId, NodeId>, prev: map<NodeId, NodeId>, k: nat)
    requires k < |r| && Distinct(r) && Linked(r, next, prev)
    ensures var n := r[k];
            var u := r[..k] + r[k + 1..];
            n in next && n in prev && next[n] in prev && prev[n] in next
            && Linked(u, next[prev[n] := next[n]], prev[next[n] := prev[n]])
            && (|r| > 1 ==> u[if k + 1 == |r| then 0 else k] == next[n])
  {
    var m := |r|;
    var n := r[k];
    var u := r[..k] + r[k + 1..];
    var p := if k == 0 then r[m - 1] else r[k - 1];
    var s := if k + 1 == m then r[0] else r[k + 1];
    assert n in next && n in prev && prev[n] == p && next[n] == s && p in next && s in prev by {
      PathSteps(r, next, prev);
      if k > 0 {
        assert Step(r, next, prev, k - 1);
      }
      if k + 1 < m {
        assert Step(r, next, prev, k);
      }
    }
    CutJoins(r, next, prev, k, p, s, next[p := s], prev[s := p], u);
    assert |r| > 1 ==> u[if k + 1 == |r| then 0 else k] == s by {
      CutAt(r, k);
    }
  }

  /** The ring without position k is linked once its neighbours p and s are joined. */
  lemma CutJoins(r: seq<NodeId>, next: map<NodeId, NodeId>, prev: map<NodeId, NodeId>, k: nat,
                 p: NodeId, s: NodeId, next': map<NodeId, NodeId>, prev': map<NodeId, NodeId>, u: seq<NodeId>)
    requires k < |r| && Distinct(r) && Linked(r, next, prev) && u == r[..k] + r[k + 1..]
    requires p == (if k == 0 then r[|r| - 1] else r[k - 1])
    requires s == (if k + 1 == |r| then r[0] else r[k + 1])
    requires next' == next[p := s] && prev' == prev[s := p]
    ensures Linked(u, next', prev')
  {
    CutAt(r, k);
    DistinctAll(r);
    PathSteps(r, next, prev);
    forall x | x in u
      ensures x in next' && x in prev'
    {
      var i :| 0 <= i < |u| && u[i] == x;
      assert x == r[if i < k then i else i + 1];
    }
    CutSteps(r, next, prev, k, p, s, next', prev', u);
    PathSteps(u, next', prev');
    if |r| > 1 {
      CutWrap(r, next, prev, k, p, s, next', prev');
    }
  }

  /** The links of the ring after `disconnect`, position by position. */
  lemma CutSteps(r: seq<NodeId>, next: map<NodeId, NodeId>, prev: map<NodeId, NodeId>, k: nat,
                 p: NodeId, s: NodeId, next': map<NodeId, NodeId>, prev': map<NodeId, NodeId>, u: seq<NodeId>)
    requires k < |r| && AllDifferent(r) && u == r[..k] + r[k + 1..]
    requires p == (if k == 0 then r[|r| - 1] else r[k - 1])
    requires s == (if k + 1 == |r| then r[0] else r[k + 1])
    requires forall i :: 0 <= i < |r| - 1 ==> Step(r, next, prev, i)
    requires next' == next[p := s] && prev' == prev[s := p]
    ensures forall i :: 0 <= i < |r| - 2 ==> Step(u, next', prev', i)
  {
    CutAt(r, k);
    forall i | 0 <= i < |r| - 2
      ensures Step(u, next', prev', i)
    {
      if i < k - 1 {
        assert Step(r, next, prev, i);
        assert u[i] == r[i] && u[i + 1] == r[i + 1];
        assert r[i] != p && r[i + 1] != s;
      } else if i >= k {
        assert Step(r, next, prev, i + 1);
        assert u[i] == r[i + 1] && u[i + 1] == r[i + 2];
        assert r[i + 1] != p && r[i + 2] != s;
      }
    }
  }

  /** The last node of the ring after `disconnect` leads back to its first. */
  lemma CutWrap(r: seq<NodeId>, next: map<NodeId, NodeId>, prev: map<NodeId, NodeId>, k: nat,
                p: NodeId, s: NodeId, next': map<NodeId, NodeId>, prev': map<NodeId, NodeId>)
    requires k < |r| && 1 < |r| && AllDifferent(r)
    requires r[|r| - 1] in next && r[0] in prev && next[r[|r| - 1]] == r[0] && prev[r[0]] == r[|r| - 1]
    requires p == (if k == 0 then r[|r| - 1] else r[k - 1])
    requires s == (if k + 1 == |r| then r[0] else r[k + 1])
    requires next' == next[p := s] && prev' == prev[s := p]
    ensures var u := r[..k] + r[k + 1..];
            u[|u| - 1] in next' && u[0] in prev' && next'[u[|u| - 1]] == u[0] && prev'[u[0]] == u[|u| - 1]
  {
    var m := |r|;
    var u := r[..k] + r[k + 1..];
    CutAt(r, k);
    if k == 0 {
      assert u[|u| - 1] == r[m - 1] && u[0] == r[1];
    } else if k == m - 1 {
      assert u[|u| - 1] == r[m - 2] && u[0] == r[0];
    } else {
      assert u[|u| - 1] == r[m - 1] && u[0] == r[0];
      assert r[m - 1] != p && r[0] != s;
    }
  }

  /**
   * The list's invariant over its field values: the `cnt` nodes are
   * distinct and linked in a ring, `head` is the one at position `at`
   * (null when there is none), and every node that has links was issued
   * below `bound`.
   */
  ghost predicate Ring(nodes: seq<NodeId>, at: nat, head: Option<NodeId>, cnt: int,
                       next: map<NodeId, NodeId>, prev: map<NodeId, NodeId>, bound: nat)
  {
    cnt == |nodes| && Distinct(nodes) && Linked(nodes, next, prev)
    && (if nodes == [] then head == None && at == 0 else at < |nodes| && head == Some(nodes[at]))
    && (forall k :: k in next ==> k < bound)
    && (forall k :: k in prev ==> k < bound)
  }

  /** `insert` into an empty list. */
  lemma InsertFirst(next: map<NodeId, NodeId>, prev: map<NodeId, NodeId>, bound: nat, n: NodeId)
    requires Ring([], 0, None, 0, next, prev, bound) && bound <= n
    ensures Ring([n], 0, Some(n), 1, next[n := n], prev[n := n], n + 1)
  {
    assert [n][1..] == [];
  }

  /** `insert` behind the head of a non-empty list. */
  lemma InsertRing(r: seq<NodeId>, a: nat, h: Option<NodeId>, c: int,
                   next: map<NodeId, NodeId>, prev: map<NodeId, NodeId>, bound: nat, n: NodeId)
    requires Ring(r, a, h, c, next, prev, bound) && h != None && bound <= n
    ensures a < |r| && h == Some(r[a]) && r[a] in next
    ensures var first := r[a];
            var second := next[first];
            Ring(Inserted(r, a, n), a + 1, Some(n), c + 1,
                 next[n := n][n := second][first := n], prev[n := n][n := first][second := n], n + 1)
  {
    InsertLinked(r, next, prev, n, a);
    InsertDistinct(r, a, n);
    InsertedAt(r, a, n);
  }

  /** `next` on a non-empty list: the cursor moves one position on. */
  lemma NextRing(r: seq<NodeId>, a: nat, h: Option<NodeId>, c: int,
                 next: map<NodeId, NodeId>, prev: map<NodeId, NodeId>, bound: nat)
    requires Ring(r, a, h, c, next, prev, bound) && h != None
    ensures a < |r| && h == Some(r[a]) && r[a] in next && next[r[a]] == r[Succ(a, |r|)]
    ensures Ring(r, Succ(a, |r|), Some(next[r[a]]), c, next, prev, bound)
  {
    LinkedCycle(r, next, prev);
  }

  /** `disconnect` of a node on the list. */
  lemma CutRing(r: seq<NodeId>, a: nat, h: Option<NodeId>, c: int,
                next: map<NodeId, NodeId>, prev: map<NodeId, NodeId>, bound: nat, n: NodeId)
    requires Ring(r, a, h, c, next, prev, bound) && n in r
    ensures n in next && n in prev
    ensures Ring(Without(r, n), HeadAfterCut(r, n), if c == 1 then None else Some(next[n]), c - 1,
                 next[prev[n] := next[n]], prev[next[n] := prev[n]], bound)
  {
    var k := IndexOf(r, n);
    CutLinked(r, next, prev, k);
    CutDistinct(r, k);
  }

  /** Where the ghost position of the head lands once `n` is cut out: `head` moves to
      the successor, which now sits at n's old index, or wraps to 0 at the end. */
  function HeadAfterCut(r: seq<NodeId>, n: NodeId): nat
    requires n in r
  {
    var k := IndexOf(r, n);
    if |r| == 1 || k == |r| - 1 then 0 else k
  }

  /** The intrusive list: the cursor `head`, the counter `cnt`, and every node's links. */
  class Circular {
    var head: Option<NodeId>
    var cnt: int
    var nextOf: map<NodeId, NodeId>
    var prevOf: map<NodeId, NodeId>
    ghost var nodes: seq<NodeId>
    ghost var at: nat
    ghost var bound: nat

    ghost predicate Valid()
      reads this
    {
      Ring(nodes, at, head, cnt, nextOf, prevOf, bound)
    }

    constructor()
      ensures Valid() && nodes == [] && head == None && nextOf == map[] && prevOf == map[] && bound == 0
    {
      head, cnt := None, 0;
      nextOf, prevOf := map[], map[];
      nodes, at := [], 0;
      bound := 0;
    }

    /**
     * `insert` of a node just built by `Node()` (both links to itself):
     * the node goes between `head` and its successor and becomes `head`.
     */
    method Insert(n: NodeId)
      requires Valid() && bound <= n
      modifies this
      ensures Valid() && bound == n + 1
      ensures nodes == Spliced(old(nodes), old(at), n)
      ensures at == if old(nodes) == [] then 0 else old(at) + 1
      ensures head == Some(n) && cnt == old(cnt) + 1
      ensures old(head) == None ==> nextOf == old(nextOf)[n := n] && prevOf == old(prevOf)[n := n]
      ensures old(head) != None ==>
                var first := old(head).value;
                var second := old(nextOf)[first];
                nextOf == old(nextOf)[n := n][n := second][first := n]
                && prevOf == old(prevOf)[n := n][n := first][second := n]
    {
      if head.Some? {
        InsertRing(nodes, at, head, cnt, nextOf, prevOf, bound, n);
        var first := head.value;
        var second := nextOf[first];
        nextOf, prevOf := nextOf[n := n], prevOf[n := n];
        nextOf := nextOf[n := second];
        prevOf := prevOf[n := first];
        prevOf := prevOf[second := n];
        nextOf := nextOf[first := n];
        nodes, at := Inserted(nodes, at, n), at + 1;
      } else {
        InsertFirst(nextOf, prevOf, bound, n);
        nextOf, prevOf := nextOf[n := n], prevOf[n := n];
        nodes, at := [n], 0;
      }
      head := Some(n);
      cnt := cnt + 1;
      bound := n + 1;
    }

    /** `next`: advance the cursor one node and return it; an empty list stays empty. */
    method Next() returns (h: Option<NodeId>)
      requires Valid()
      modifies this
      ensures Valid()
      ensures nodes == old(nodes) && nextOf == old(nextOf) && prevOf == old(prevOf)
      ensures cnt == old(cnt) && bound == old(bound)
      ensures at == if nodes == [] then 0 else Succ(old(at), |nodes|)
      ensures old(head) != None ==> old(head).value in nextOf && head == Some(nextOf[old(head).value])
      ensures h == head
    {
      if head.Some? {
        NextRing(nodes, at, head, cnt, nextOf, prevOf, bound);
        head := Some(nextOf[head.value]);
        at := Succ(at, |nodes|);
      }
      h := head;
    }

    /**
     * `disconnect` of a node on the list: its neighbours are joined, `head`
     * moves to its successor (or to null when the list empties). The node's
     * own links are left as they were.
     */
    method Disconnect(n: NodeId)
      requires Valid() && n in nodes
      modifies this
      ensures Valid() && bound == old(bound)
      ensures nodes == Without(old(nodes), n)
      ensures cnt == old(cnt) - 1
      ensures head == if nodes == [] then None else Some(old(nextOf)[n])
      ensures nextOf == old(nextOf)[old(prevOf)[n] := old(nextOf)[n]]
      ensures prevOf == old(prevOf)[old(nextOf)[n] := old(prevOf)[n]]
    {
      CutRing(nodes, at, head, cnt, nextOf, prevOf, bound, n);
      var after, before := nextOf[n], prevOf[n];
      head := if cnt == 1 then None else Some(after);
      nextOf, prevOf := nextOf[before := after], prevOf[after := before];
      cnt, nodes, at := cnt - 1, Without(nodes, n), HeadAfterCut(nodes, n);
    }
  }

  /**
   * The order in which a one-revolution scan from position a visits the
   * ring: the scan first advances the cursor once to pick its stop node,
   * then advances once per visit, so it starts two places after `head`
   * and ends at the stop node.
   */
  function ScanOrder(r: seq<NodeId>, a: nat): (t: seq<NodeId>)
    requires a < |r|
    ensures |t| == |r| && t[|r| - 1] == r[Succ(a, |r|)]
    ensures forall x :: x in t <==> x in r
  {
    var b := Succ(Succ(a, |r|), |r|);
    RotateMembers(r, b);
    RotateAt(r, b);
    Rotate(r, b)
  }

  /** Index of the first node in s whose task carries `id`, or |s| when none does. */
  function FirstWith(s: seq<NodeId>, owner: map<NodeId, int>, id: int): (i: nat)
    requires forall k :: k in s ==> k in owner
    ensures i <= |s|
    ensures i < |s| ==> owner[s[i]] == id
    ensures forall j :: 0 <= j < i ==> owner[s[j]] != id
  {
    if s == [] then 0
    else if owner[s[0]] == id then 0
    else 1 + FirstWith(s[1..], owner, id)
  }

  /** Where `cancelTask` leaves the cursor: on the first node of `order` whose task carries
      `id`, or on the last node when none does. */
  function StopAt(order: seq<NodeId>, owner: map<NodeId, int>, id: int): NodeId
    requires |order| > 0 && forall k :: k in order ==> k in owner
  {
    var i := FirstWith(order, owner, id);
    order[if i < |order| then i else |order| - 1]
  }

  /** The cancel counts after `cancelTask`: one more for the first node of `order` whose task
      carries `id`, none when no task does. */
  function CancelFirst(order: seq<NodeId>, owner: map<NodeId, int>, id: int, c: map<NodeId, nat>): map<NodeId, nat>
    requires forall k :: k in order ==> k in owner && k in c
  {
    var i := FirstWith(order, owner, id);
    if i < |order| then Bump(c, order[i]) else c
  }

  /** The value of the `unsigned` task counter after `k` submissions. */
  function IdAfter(k: nat): int
  {
    if k == 0 then 1 else (IdAfter(k - 1) + 1) % UnsignedModulus
  }

  /** Submission number k (from 0) gets task id k + 1, until the counter wraps at 2^32. */
  lemma {:induction false} IdsCount(k: nat)
    ensures IdAfter(k) == (k + 1) % UnsignedModulus
  {
    if k > 0 {
      IdsCount(k - 1);
      var q, r := k / UnsignedModulus, k % UnsignedModulus;
      assert k == UnsignedModulus * q + r;
      if r + 1 == UnsignedModulus {
        DivisionUnique(k + 1, UnsignedModulus, q + 1, 0);
        DivisionUnique(r + 1, UnsignedModulus, 1, 0);
      } else {
        DivisionUnique(k + 1, UnsignedModulus, q, r + 1);
        DivisionUnique(r + 1, UnsignedModulus, 0, r + 1);
      }
    }
  }

  /** Every timer, one cancel call each, for the nodes in `visited`. */
  ghost predicate CancelledOnce(now: map<NodeId, nat>, before: map<NodeId, nat>, visited: seq<NodeId>)
  {
    (forall k :: k in now <==> k in before)
    && (forall k :: k in before ==> now[k] == before[k] + (if k in visited then 1 else 0))
  }

  /** The cancel counts after one more `cancel` of n's timer. */
  function Bump(c: map<NodeId, nat>, n: NodeId): (d: map<NodeId, nat>)
    requires n in c
    ensures forall k :: k in d <==> k in c
    ensures d[n] == c[n] + 1 && forall k :: k in c && k != n ==> d[k] == c[k]
  {
    c[n := c[n] + 1]
  }

  /** The deadline timers of the tasks, one per node, counting the `cancel` calls each receives. */
  class Timers {
    var cancels: map<NodeId, nat>

    constructor()
      ensures cancels == map[]
    {
      cancels := map[];
    }

    /** A new timer, not yet cancelled. */
    method Add(n: NodeId)
      modifies this
      ensures cancels == old(cancels)[n := 0]
    {
      cancels := cancels[n := 0];
    }

    /** `timer->cancel()`. */
    method Cancel(n: NodeId)
      requires n in cancels
      modifies this
      ensures cancels == Bump(old(cancels), n)
    {
      cancels := cancels[n := cancels[n] + 1];
    }
  }

  /**
   * The Director: one task per deadline timer, filed into the ring under a
   * task id taken from an `unsigned` counter that starts at 1.
   * `taskOf` gives the task id behind each node; `built` counts the tasks
   * made so far, which names the next node.
   */
  class Director {
    const circular: Circular
    const timers: Timers
    var taskid: int
    var taskOf: map<NodeId, int>
    var built: nat
    ghost var submitted: nat

    ghost predicate Valid()
      reads this, circular, timers
    {
      circular.Valid()
      && circular.bound <= built
      && (forall k :: k in circular.nodes ==> k in taskOf && k in timers.cancels)
      && taskid == IdAfter(submitted)
    }

    constructor()
      ensures Valid() && fresh(circular) && fresh(timers)
      ensures circular.nodes == [] && taskid == 1 && submitted == 0
    {
      circular := new Circular();
      timers := new Timers();
      taskid := 1;
      taskOf := map[];
      built := 0;
      submitted := 0;
    }

    /**
     * `submitTask`: a new task with the current id is linked in behind the
     * cursor and becomes `head`; the id is returned and the counter moves
     * on, wrapping at 2^32.
     */
    method SubmitTask() returns (id: int)
      requires Valid()
      modifies this, circular, timers
      ensures Valid()
      ensures id == old(taskid) && id == IdAfter(old(submitted))
      ensures taskid == (id + 1) % UnsignedModulus
      ensures submitted == old(submitted) + 1
      ensures var n := old(built);
              circular.nodes == Spliced(old(circular.nodes), old(circular.at), n)
              && circular.head == Some(n)
              && taskOf == old(taskOf)[n := id] && timers.cancels == old(timers.cancels)[n := 0]
    {
      var n := built;
      timers.Add(n);
      SplicedMembers(circular.nodes, circular.at, n);
      circular.Insert(n);
      id := taskid;
      built, taskOf := built + 1, taskOf[n := id];
      taskid, submitted := (taskid + 1) % UnsignedModulus, submitted + 1;
    }

    /** A task's destructor: its node leaves the ring. */
    method Retire(n: NodeId)
      requires Valid() && n in circular.nodes
      modifies circular
      ensures Valid()
      ensures circular.nodes == Without(old(circular.nodes), n)
      ensures circular.cnt == old(circular.cnt) - 1
      ensures circular.head == if circular.nodes == [] then None else Some(old(circular.nextOf)[n])
    {
      WithoutMembers(circular.nodes, n);
      circular.Disconnect(n);
    }

    /**
     * `cancelTask`: one revolution in scan order; the first task with the
     * id has its timer cancelled and the scan stops there, with the cursor
     * on it. Without a match the cursor ends on the stop node.
     */
    method CancelTask(id: int)
      requires Valid()
      modifies circular, timers
      ensures Valid() && circular.nodes == old(circular.nodes)
      ensures old(circular.nodes) == [] ==> timers.cancels == old(timers.cancels)
      ensures old(circular.nodes) != [] ==>
                var order := ScanOrder(old(circular.nodes), old(circular.at));
                circular.head == Some(StopAt(order, taskOf, id))
                && timers.cancels == CancelFirst(order, taskOf, id, old(timers.cancels))
    {
      var head := circular.Next();
      if head == None {
        return;
      }
      ghost var order := ScanOrder(old(circular.nodes), old(circular.at));
      ScanReady(circular.nodes, circular.at, circular.head, circular.cnt, circular.nextOf, circular.prevOf,
                circular.bound);
      assert order == Rotate(circular.nodes, Succ(circular.at, |circular.nodes|));
      CancelFrom(id, head.value, order);
    }

    /** The scan of `cancelTask` once the first `next()` has chosen `head` as its stop node;
        `order` is the ring in the order the scan visits it. */
    method CancelFrom(id: int, head: NodeId, ghost order: seq<NodeId>)
      requires Valid() && ScanRing(order, circular.nextOf, head) && circular.head == Some(head)
      requires forall j :: 0 <= j < |order| ==> order[j] in circular.nodes
      modifies circular, timers
      ensures Valid() && circular.nodes == old(circular.nodes)
      ensures circular.head == Some(StopAt(order, taskOf, id))
      ensures timers.cancels == CancelFirst(order, taskOf, id, old(timers.cancels))
    {
      var found, current, i := FindTask(id, head, order);
      if found {
        timers.Cancel(current);
      }
    }

    /**
     * The do-while of `cancelTask`: advance the cursor and test each task
     * until the id matches or the cursor is back at `head`.
     */
    method FindTask(id: int, head: NodeId, ghost order: seq<NodeId>) returns (found: bool, current: NodeId, ghost i: nat)
      requires circular.Valid() && ScanRing(order, circular.nextOf, head) && circular.head == Some(head)
      requires forall j :: 0 <= j < |order| ==> order[j] in taskOf
      modifies circular
      ensures circular.Valid() && circular.nodes == old(circular.nodes) && circular.bound == old(circular.bound)
      ensures i == FirstWith(order, taskOf, id)
      ensures found <==> i < |order|
      ensures circular.head == Some(order[if found then i else |order| - 1])
      ensures found ==> current == order[i]
    {
      ghost var m := |order|;
      DistinctAll(order);
      current := head;
      found := false;
      var looping := true;
      ghost var steps, pos := 0, m - 1;
      while looping && !found
        invariant circular.Valid() && circular.nodes == old(circular.nodes) && circular.bound == old(circular.bound)
        invariant circular.nextOf == old(circular.nextOf)
        invariant 0 <= steps <= m && (!found ==> (looping <==> steps < m))
        invariant pos == if steps == 0 then m - 1 else steps - 1
        invariant circular.head == Some(order[pos]) && current == order[pos]
        invariant found ==> steps > 0 && taskOf[current] == id
        invariant forall j :: 0 <= j < steps - (if found then 1 else 0) ==> taskOf[order[j]] != id
        decreases m - steps, if found then 0 else 1
      {
        var next := circular.Next();
        pos := Succ(pos, m);
        current := next.value;
        steps := steps + 1;
        if taskOf[current] == id {
          found := true;
        } else {
          looping := current != head;
        }
      }
      i := if found then steps - 1 else m;
    }

    /**
     * `shutdown`: one revolution cancelling every task's timer once; the
     * cursor ends one node further on, at the stop node.
     */
    method Shutdown()
      requires Valid()
      modifies circular, timers
      ensures Valid() && circular.nodes == old(circular.nodes)
      ensures old(circular.nodes) != [] ==>
                circular.head == Some(old(circular.nodes)[Succ(old(circular.at), |old(circular.nodes)|)])
      ensures CancelledOnce(timers.cancels, old(timers.cancels), old(circular.nodes))
    {
      var head := circular.Next();
      if head == None {
        return;
      }
      ShutdownFrom(head.value);
    }

    /** The scan of `shutdown` once the first `next()` has chosen `head` as its stop node. */
    method ShutdownFrom(head: NodeId)
      requires Valid() && circular.nodes != [] && circular.head == Some(head)
      modifies circular, timers
      ensures Valid() && circular.nodes == old(circular.nodes) && circular.head == Some(head)
      ensures CancelledOnce(timers.cancels, old(timers.cancels), old(circular.nodes))
    {
      ghost var r, c := circular.nodes, timers.cancels;
      ghost var order := Rotate(r, Succ(circular.at, |r|));
      ScanReady(r, circular.at, circular.head, circular.cnt, circular.nextOf, circular.prevOf, circular.bound);
      RotateMembers(r, Succ(circular.at, |r|));
      DistinctAll(order);
      CancelAll(head, order);
      BumpedAll(c, order);
    }

    /** The do-while of `shutdown`: advance the cursor and cancel each task until it is back at `head`. */
    method CancelAll(head: NodeId, ghost order: seq<NodeId>)
      requires circular.Valid() && ScanRing(order, circular.nextOf, head) && circular.head == Some(head)
      requires forall j :: 0 <= j < |order| ==> order[j] in timers.cancels
      modifies circular, timers
      ensures circular.Valid() && circular.nodes == old(circular.nodes) && circular.bound == old(circular.bound)
      ensures circular.head == Some(head)
      ensures timers.cancels == Bumped(old(timers.cancels), order, |order|)
    {
      ghost var m := |order|;
      DistinctAll(order);
      var looping := true;
      ghost var steps := 0;
      while looping
        invariant circular.Valid() && circular.nodes == old(circular.nodes) && circular.bound == old(circular.bound)
        invariant circular.nextOf == old(circular.nextOf)
        invariant 0 <= steps <= m && (looping <==> steps < m)
        invariant circular.head == Some(order[if steps == 0 then m - 1 else steps - 1])
        invariant timers.cancels == Bumped(old(timers.cancels), order, steps)
        decreases m - steps
      {
        var current := CancelNext(order, steps);
        assert current != head <==> steps != m - 1;
        steps := steps + 1;
        looping := current != head;
      }
    }

    /** One turn of the loop: the cursor moves from node `k - 1` of the scan (from its last node
        when k is 0) to node `k`, whose timer is cancelled. */
    method CancelNext(ghost order: seq<NodeId>, ghost k: nat) returns (current: NodeId)
      requires circular.Valid() && k < |order| && Cycle(order, circular.nextOf)
      requires circular.head == Some(order[if k == 0 then |order| - 1 else k - 1])
      requires forall j :: 0 <= j < |order| ==> order[j] in timers.cancels
      modifies circular, timers
      ensures circular.Valid() && circular.nodes == old(circular.nodes) && circular.bound == old(circular.bound)
      ensures circular.nextOf == old(circular.nextOf)
      ensures current == order[k] && circular.head == Some(current)
      ensures timers.cancels == Bump(old(timers.cancels), current)
    {
      ghost var pos := if k == 0 then |order| - 1 else k - 1;
      assert order[pos] in circular.nextOf && circular.nextOf[order[pos]] == order[Succ(pos, |order|)];
      var next := circular.Next();
      current := next.value;
      timers.Cancel(current);
    }
  }

  /** The cancel counts after one cancel for each of the first n nodes of s. */
  ghost function Bumped(c: map<NodeId, nat>, s: seq<NodeId>, n: nat): (b: map<NodeId, nat>)
    requires n <= |s| && forall j :: 0 <= j < |s| ==> s[j] in c
    ensures forall k :: k in b <==> k in c
  {
    if n == 0 then c
    else
      Bump(Bumped(c, s, n - 1), s[n - 1])
  }

  /** Counting cancels position by position: each node of s[..n] got one, the others none. */
  lemma {:induction false} BumpedAt(c: map<NodeId, nat>, s: seq<NodeId>, n: nat)
    requires n <= |s| && AllDifferent(s) && forall j :: 0 <= j < |s| ==> s[j] in c
    ensures forall k :: k in c ==> Bumped(c, s, n)[k] == c[k] + (if k in s[..n] then 1 else 0)
  {
    if n > 0 {
      BumpedAt(c, s, n - 1);
      assert s[..n] == s[..n - 1] + [s[n - 1]];
      forall k | k in c
        ensures Bumped(c, s, n)[k] == c[k] + (if k in s[..n] then 1 else 0)
      {
        if k == s[n - 1] {
          assert k !in s[..n - 1];
        }
      }
    }
  }

  /** One cancel for every node of a duplicate-free s. */
  lemma BumpedAll(c: map<NodeId, nat>, s: seq<NodeId>)
    requires AllDifferent(s) && forall j :: 0 <= j < |s| ==> s[j] in c
    ensures CancelledOnce(Bumped(c, s, |s|), c, s)
  {
    BumpedAt(c, s, |s|);
    assert s[..|s|] == s;
  }
}

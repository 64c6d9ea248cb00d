/** The compactor as the source runs it: a doubly linked list of extent
    nodes, decoded from the dense format, rearranged by the block-level and
    the whole-file passes, and summed by the checksum.

    The nodes live in an arena: a node is an index into the parallel
    sequences `item`, `order`, `next` and `prev`, and `NIL` stands for a
    missing neighbour. Nodes that the source unlinks stay in the arena with
    their own links untouched, as the unlinked objects keep theirs. */
module DiskCompactor {
  import opened Basics
  import opened Decimal
  import opened DiskModel
  import opened FragmentModel
  import opened CompactModel

  const NIL: int := -1

  /** How an operation that can raise in the source ended: normally, with
      the "file too big" error, or by reaching past the first node. */
  datatype Status = Ok | SpaceTooSmall | NoPredecessor

  /** The values, extents or keys, held by a run of nodes. */
  ghost function View<T>(item: seq<T>, nodes: seq<nat>): (v: seq<T>)
    requires forall k :: 0 <= k < |nodes| ==> nodes[k] < |item|
    ensures |v| == |nodes|
    ensures forall k :: 0 <= k < |nodes| ==> v[k] == item[nodes[k]]
  {
    seq(|nodes|, k requires 0 <= k < |nodes| => item[nodes[k]])
  }

  /** `nodes` is a list threaded through `next` and `prev`: distinct nodes,
      each linked both ways to its neighbours, `NIL` beyond both ends. */
  ghost predicate WellLinked(next: seq<int>, prev: seq<int>, nodes: seq<nat>) {
    && |next| == |prev|
    && (forall k :: 0 <= k < |nodes| ==> nodes[k] < |next|)
    && (forall k, l :: 0 <= k < l < |nodes| ==> nodes[k] != nodes[l])
    && (forall k :: 0 <= k < |nodes| ==> next[nodes[k]] == if k + 1 < |nodes| then nodes[k + 1] else NIL)
    && (forall k :: 0 <= k < |nodes| ==> prev[nodes[k]] == if k > 0 then nodes[k - 1] else NIL)
  }

  /** The neighbours of the node at position `i`. */
  lemma {:induction false} Neighbours(next: seq<int>, prev: seq<int>, nodes: seq<nat>, i: nat)
    requires WellLinked(next, prev, nodes) && i < |nodes|
    ensures nodes[i] < |next| == |prev|
    ensures next[nodes[i]] == if i + 1 < |nodes| then nodes[i + 1] else NIL
    ensures prev[nodes[i]] == if i > 0 then nodes[i - 1] else NIL
  {
  }

  /** Where the nodes of a list end up once `n` is inserted at position `i`. */
  lemma {:induction false} InsertedPositions(s: seq<nat>, i: nat, n: nat, j: nat)
    requires i <= j < |s|
    ensures (s[..i] + [n] + s[i..])[j + 1] == s[j]
    ensures forall k :: 0 <= k < i ==> (s[..i] + [n] + s[i..])[k] == s[k]
  {
    var t := s[..i] + [n] + s[i..];
    assert t[j + 1] == s[i..][j - i];
  }

  /** Keys never decrease along `nodes`. */
  ghost predicate KeysAscend(order: seq<int>, nodes: seq<nat>)
    requires forall k :: 0 <= k < |nodes| ==> nodes[k] < |order|
  {
    forall k :: 0 < k < |nodes| ==> order[nodes[k - 1]] <= order[nodes[k]]
  }

  /** Ascending neighbours make ascending pairs. */
  lemma {:induction false} KeysAscendPair(order: seq<int>, nodes: seq<nat>, k: nat, l: nat)
    requires forall k :: 0 <= k < |nodes| ==> nodes[k] < |order|
    requires KeysAscend(order, nodes) && k <= l < |nodes|
    ensures order[nodes[k]] <= order[nodes[l]]
    decreases l - k
  {
    if k < l {
      KeysAscendPair(order, nodes, k, l - 1);
      assert order[nodes[l - 1]] <= order[nodes[l]];
    }
  }

  /** A strictly smaller key sits strictly earlier. */
  lemma {:induction false} KeysOrdered(order: seq<int>, nodes: seq<nat>, k: nat, l: nat)
    requires forall k :: 0 <= k < |nodes| ==> nodes[k] < |order|
    requires KeysAscend(order, nodes) && k < |nodes| && l < |nodes|
    ensures order[nodes[k]] < order[nodes[l]] ==> k < l
  {
    if l <= k {
      KeysAscendPair(order, nodes, l, k);
    }
  }

  ghost predicate Fresh(n: nat, nodes: seq<nat>) {
    forall k :: 0 <= k < |nodes| ==> nodes[k] != n
  }

  // ---------------------------------------------------------------------
  // Relinking, on values

  /** The nodes of a list once `n` is inserted at position `i`, and they
      stay distinct when `n` is fresh. */
  lemma {:induction false} InsertedNodes(nodes: seq<nat>, i: nat, n: nat, nodes': seq<nat>)
    requires (forall k, l :: 0 <= k < l < |nodes| ==> nodes[k] != nodes[l]) && Fresh(n, nodes)
    requires i <= |nodes| && nodes' == nodes[..i] + [n] + nodes[i..]
    ensures |nodes'| == |nodes| + 1
    ensures (forall k :: 0 <= k < i ==> nodes'[k] == nodes[k]) && nodes'[i] == n
    ensures forall k :: i < k < |nodes'| ==> nodes'[k] == nodes[k - 1]
    ensures forall k, l :: 0 <= k < l < |nodes'| ==> nodes'[k] != nodes'[l]
  {
    forall k | 0 <= k < |nodes'|
      ensures nodes'[k] == if k < i then nodes[k] else if k == i then n else nodes[k - 1]
    {
      if k < i { assert nodes'[k] == nodes[..i][k]; }
      else if k > i { assert nodes'[k] == nodes[i..][k - i - 1]; }
    }
    forall k, l | 0 <= k < l < |nodes'| ensures nodes'[k] != nodes'[l] {
      if k < i && l < i {
        assert nodes[k] != nodes[l];
      } else if k < i && l > i {
        assert nodes[k] != nodes[l - 1];
      } else if k > i {
        assert nodes[k - 1] != nodes[l - 1];
      } else if k == i {
        assert nodes[l - 1] != n;
      } else {
        assert nodes[k] != n;
      }
    }
  }

  /** The links once `n` is inserted between the nodes at `i - 1` and `i`. */
  lemma {:induction false} InsertedLinked(next: seq<int>, prev: seq<int>, nodes: seq<nat>, i: nat, n: nat,
                                          next': seq<int>, prev': seq<int>, nodes': seq<nat>)
    requires WellLinked(next, prev, nodes) && 0 < i < |nodes| && n < |next| && Fresh(n, nodes)
    requires |nodes'| == |nodes| + 1
    requires (forall k :: 0 <= k < i ==> nodes'[k] == nodes[k]) && nodes'[i] == n
    requires forall k :: i < k < |nodes'| ==> nodes'[k] == nodes[k - 1]
    requires next' == next[nodes[i - 1] := n][n := nodes[i]] && prev' == prev[n := nodes[i - 1]][nodes[i] := n]
    ensures forall k :: 0 <= k < |nodes'| ==> nodes'[k] < |next'|
    ensures forall k :: 0 <= k < |nodes'| ==> next'[nodes'[k]] == if k + 1 < |nodes'| then nodes'[k + 1] else NIL
    ensures forall k :: 0 <= k < |nodes'| ==> prev'[nodes'[k]] == if k > 0 then nodes'[k - 1] else NIL
  {
    forall k | 0 <= k < |nodes'|
      ensures nodes'[k] < |next'|
      ensures next'[nodes'[k]] == if k + 1 < |nodes'| then nodes'[k + 1] else NIL
      ensures prev'[nodes'[k]] == if k > 0 then nodes'[k - 1] else NIL
    {
      InsertedLinkAt(next, prev, nodes, i, n, next', prev', nodes', k);
    }
  }

  /** `Split` once the copy is in and the free extent has shrunk: only the
      file's old extent, at `j + 1`, remains to go. */
  lemma {:induction false} SplitAfterCopy(v: seq<DiskItem>, i: nat, j: nat, s: seq<DiskItem>)
    requires i < j < |v| && v[j].FilePart? && v[i].size > v[j].size
    requires s == (v[..i] + [FilePart(v[j].size, v[j].id)] + v[i..])[i + 1 := EmptySpace(v[i].size - v[j].size)]
    ensures j + 1 < |s| && Split(v, i, j) == s[..j + 1] + s[j + 1 + 1..]
  {
  }

  /** `InsertedLinked` at one position `k` of the new list. */
  lemma {:induction false} InsertedLinkAt(next: seq<int>, prev: seq<int>, nodes: seq<nat>, i: nat, n: nat,
                                          next': seq<int>, prev': seq<int>, nodes': seq<nat>, k: nat)
    requires WellLinked(next, prev, nodes) && 0 < i < |nodes| && n < |next| && Fresh(n, nodes)
    requires |nodes'| == |nodes| + 1 && k < |nodes'|
    requires (forall k :: 0 <= k < i ==> nodes'[k] == nodes[k]) && nodes'[i] == n
    requires forall k :: i < k < |nodes'| ==> nodes'[k] == nodes[k - 1]
    requires next' == next[nodes[i - 1] := n][n := nodes[i]] && prev' == prev[n := nodes[i - 1]][nodes[i] := n]
    ensures nodes'[k] < |next'|
    ensures next'[nodes'[k]] == if k + 1 < |nodes'| then nodes'[k + 1] else NIL
    ensures prev'[nodes'[k]] == if k > 0 then nodes'[k - 1] else NIL
  {
    var x, y := nodes[i], nodes[i - 1];
    if k < i {
      var a := nodes[k];
      assert a != n && a != x;
      assert k < i - 1 ==> a != y;
      assert next[a] == nodes[k + 1];
      assert nodes'[k + 1] == if k + 1 < i then nodes[k + 1] else n;
      Neighbours(next, prev, nodes, k);
      assert k > 0 ==> nodes'[k - 1] == nodes[k - 1];
      assert prev'[a] == prev[a];
    } else if k > i {
      var a := nodes[k - 1];
      assert a != n && a != y;
      assert k > i + 1 ==> a != x;
      Neighbours(next, prev, nodes, k - 1);
      assert next'[a] == next[a];
      assert prev[a] == nodes[k - 2] || k == i + 1;
      assert nodes'[k - 1] == if k - 1 > i then nodes[k - 2] else n;
      assert k + 1 < |nodes'| ==> nodes'[k + 1] == nodes[k];
      assert prev'[a] == if k == i + 1 then n else nodes[k - 2];
    } else {
      assert nodes'[k - 1] == y && nodes'[k + 1] == x;
      assert prev'[n] == y && next'[n] == x;
    }
  }

  lemma {:induction false} InsertLinks(next: seq<int>, prev: seq<int>, nodes: seq<nat>, i: nat, n: nat)
    requires WellLinked(next, prev, nodes) && 0 < i < |nodes| && n < |next| && Fresh(n, nodes)
    ensures WellLinked(next[nodes[i - 1] := n][n := nodes[i]], prev[n := nodes[i - 1]][nodes[i] := n],
                       nodes[..i] + [n] + nodes[i..])
  {
    var next', prev' := next[nodes[i - 1] := n][n := nodes[i]], prev[n := nodes[i - 1]][nodes[i] := n];
    var nodes' := nodes[..i] + [n] + nodes[i..];
    InsertedNodes(nodes, i, n, nodes');
    InsertedLinked(next, prev, nodes, i, n, next', prev', nodes');
    assert WellLinked(next', prev', nodes');
  }

  /** The nodes of a list once the node at position `i` is dropped; they
      stay distinct. */
  lemma {:induction false} RemovedNodes(nodes: seq<nat>, i: nat, nodes': seq<nat>)
    requires forall k, l :: 0 <= k < l < |nodes| ==> nodes[k] != nodes[l]
    requires i < |nodes| && nodes' == nodes[..i] + nodes[i + 1..]
    ensures |nodes'| + 1 == |nodes|
    ensures forall k :: 0 <= k < i ==> nodes'[k] == nodes[k]
    ensures forall k :: i <= k < |nodes'| ==> nodes'[k] == nodes[k + 1]
    ensures forall k, l :: 0 <= k < l < |nodes'| ==> nodes'[k] != nodes'[l]
  {
    forall k | 0 <= k < |nodes'|
      ensures nodes'[k] == if k < i then nodes[k] else nodes[k + 1]
    {
      if k < i { assert nodes'[k] == nodes[..i][k]; }
      else { assert nodes'[k] == nodes[i + 1..][k - i]; }
    }
    forall k, l | 0 <= k < l < |nodes'| ensures nodes'[k] != nodes'[l] {
      if l < i {
        assert nodes[k] != nodes[l];
      } else if k < i {
        assert nodes[k] != nodes[l + 1];
      } else {
        assert nodes[k + 1] != nodes[l + 1];
      }
    }
  }

  /** The links once the node at position `i` is unlinked from its
      neighbours. */
  lemma {:induction false} RemovedLinked(next: seq<int>, prev: seq<int>, nodes: seq<nat>, i: nat,
                                         next': seq<int>, prev': seq<int>, nodes': seq<nat>)
    requires WellLinked(next, prev, nodes) && i < |nodes|
    requires |nodes'| + 1 == |nodes|
    requires forall k :: 0 <= k < i ==> nodes'[k] == nodes[k]
    requires forall k :: i <= k < |nodes'| ==> nodes'[k] == nodes[k + 1]
    requires next' == if i > 0 then next[nodes[i - 1] := next[nodes[i]]] else next
    requires prev' == if i + 1 < |nodes| then prev[nodes[i + 1] := prev[nodes[i]]] else prev
    ensures forall k :: 0 <= k < |nodes'| ==> nodes'[k] < |next'|
    ensures forall k :: 0 <= k < |nodes'| ==> next'[nodes'[k]] == if k + 1 < |nodes'| then nodes'[k + 1] else NIL
    ensures forall k :: 0 <= k < |nodes'| ==> prev'[nodes'[k]] == if k > 0 then nodes'[k - 1] else NIL
  {
    var h := nodes[i];
    Neighbours(next, prev, nodes, i);
    forall k | 0 <= k < |nodes'|
      ensures nodes'[k] < |next'|
      ensures next'[nodes'[k]] == if k + 1 < |nodes'| then nodes'[k + 1] else NIL
      ensures prev'[nodes'[k]] == if k > 0 then nodes'[k - 1] else NIL
    {
      if k < i {
        var a := nodes[k];
        Neighbours(next, prev, nodes, k);
        assert a != h && (k < i - 1 ==> a != nodes[i - 1]) && (i + 1 < |nodes| ==> a != nodes[i + 1]);
        assert k > 0 ==> nodes'[k - 1] == nodes[k - 1];
        assert k < i - 1 ==> nodes'[k + 1] == nodes[k + 1];
        assert k == i - 1 && k + 1 < |nodes'| ==> nodes'[k + 1] == nodes[i + 1];
      } else {
        var a := nodes[k + 1];
        Neighbours(next, prev, nodes, k + 1);
        assert a != h && (i > 0 ==> a != nodes[i - 1]) && (k > i ==> a != nodes[i + 1]);
        assert k > i ==> nodes'[k - 1] == nodes[k];
        assert k == i && k > 0 ==> nodes'[k - 1] == nodes[i - 1];
        assert k + 1 < |nodes'| ==> nodes'[k + 1] == nodes[k + 2];
      }
    }
  }

  lemma {:induction false} RemoveLinks(next: seq<int>, prev: seq<int>, nodes: seq<nat>, i: nat)
    requires WellLinked(next, prev, nodes) && i < |nodes|
    ensures WellLinked(if i > 0 then next[nodes[i - 1] := next[nodes[i]]] else next,
                       if i + 1 < |nodes| then prev[nodes[i + 1] := prev[nodes[i]]] else prev,
                       nodes[..i] + nodes[i + 1..])
  {
    var next' := if i > 0 then next[nodes[i - 1] := next[nodes[i]]] else next;
    var prev' := if i + 1 < |nodes| then prev[nodes[i + 1] := prev[nodes[i]]] else prev;
    var nodes' := nodes[..i] + nodes[i + 1..];
    RemovedNodes(nodes, i, nodes');
    RemovedLinked(next, prev, nodes, i, next', prev', nodes');
    assert WellLinked(next', prev', nodes');
  }

  lemma {:induction false} ReplaceLinks(next: seq<int>, prev: seq<int>, nodes: seq<nat>, i: nat, n: nat)
    requires WellLinked(next, prev, nodes) && i < |nodes| && n < |next| && Fresh(n, nodes)
    ensures WellLinked(if i > 0 then next[n := next[nodes[i]]][nodes[i - 1] := n] else next[n := next[nodes[i]]],
                       if i + 1 < |nodes| then prev[n := prev[nodes[i]]][nodes[i + 1] := n] else prev[n := prev[nodes[i]]],
                       nodes[i := n])
  {
    var h := nodes[i];
    var next1, prev1 := next[n := next[h]], prev[n := prev[h]];
    var next' := if i > 0 then next1[nodes[i - 1] := n] else next1;
    var prev' := if i + 1 < |nodes| then prev1[nodes[i + 1] := n] else prev1;
    var nodes' := nodes[i := n];
    forall k, l | 0 <= k < l < |nodes'| ensures nodes'[k] != nodes'[l] {
      if k != i && l != i {
        assert nodes[k] != nodes[l];
      } else if k == i {
        assert nodes[l] != n;
      } else {
        assert nodes[k] != n;
      }
    }
    forall k | 0 <= k < |nodes'|
      ensures nodes'[k] < |next'|
      ensures next'[nodes'[k]] == if k + 1 < |nodes'| then nodes'[k + 1] else NIL
    {
      if k == i {
        assert next'[n] == next1[n] == next[h];
        assert next[h] == if i + 1 < |nodes| then nodes[i + 1] else NIL;
        assert i + 1 < |nodes| ==> nodes'[i + 1] == nodes[i + 1];
      } else if k + 1 == i {
        assert nodes'[k] == nodes[i - 1];
        assert next'[nodes[i - 1]] == n == nodes'[i];
      } else {
        var a := nodes[k];
        assert nodes'[k] == a && a != n;
        assert i > 0 ==> a != nodes[i - 1];
        assert next'[a] == next1[a] == next[a];
        assert next[a] == if k + 1 < |nodes| then nodes[k + 1] else NIL;
        assert k + 1 < |nodes| ==> nodes'[k + 1] == nodes[k + 1];
      }
    }
    forall k | 0 <= k < |nodes'|
      ensures prev'[nodes'[k]] == if k > 0 then nodes'[k - 1] else NIL
    {
      if k == i {
        assert i + 1 < |nodes| ==> nodes[i + 1] != n;
        assert prev'[n] == prev1[n] == prev[h];
        assert prev[h] == if i > 0 then nodes[i - 1] else NIL;
        assert i > 0 ==> nodes'[i - 1] == nodes[i - 1];
      } else if k == i + 1 {
        assert nodes'[k] == nodes[i + 1] && nodes'[k - 1] == n;
        assert prev'[nodes[i + 1]] == n;
      } else {
        var a := nodes[k];
        assert nodes'[k] == a && a != n;
        assert i + 1 < |nodes| ==> a != nodes[i + 1];
        assert prev'[a] == prev1[a] == prev[a];
        assert prev[a] == if k > 0 then nodes[k - 1] else NIL;
        assert k > 0 ==> nodes'[k - 1] == nodes[k - 1];
      }
    }
    assert forall k :: 0 <= k < |nodes'| ==> next'[nodes'[k]] == if k + 1 < |nodes'| then nodes'[k + 1] else NIL;
    assert forall k :: 0 <= k < |nodes'| ==> prev'[nodes'[k]] == if k > 0 then nodes'[k - 1] else NIL;
    assert WellLinked(next', prev', nodes');
  }

  lemma {:induction false} AppendLinks(next: seq<int>, prev: seq<int>, nodes: seq<nat>)
    requires WellLinked(next, prev, nodes)
    ensures WellLinked(next + [NIL], prev + [NIL], nodes)
  {
    var next', prev' := next + [NIL], prev + [NIL];
    forall k | 0 <= k < |nodes|
      ensures next'[nodes[k]] == next[nodes[k]] && prev'[nodes[k]] == prev[nodes[k]]
    {
      assert nodes[k] < |next|;
    }
  }

  lemma {:induction false} KeysAscendRemove(order: seq<int>, nodes: seq<nat>, i: nat)
    requires forall k :: 0 <= k < |nodes| ==> nodes[k] < |order|
    requires KeysAscend(order, nodes) && i < |nodes|
    ensures KeysAscend(order, nodes[..i] + nodes[i + 1..])
  {
    var nodes' := nodes[..i] + nodes[i + 1..];
    forall k | 0 < k < |nodes'| ensures order[nodes'[k - 1]] <= order[nodes'[k]] {
      if k < i {
        assert nodes'[k - 1] == nodes[k - 1] && nodes'[k] == nodes[k];
      } else if k == i {
        assert nodes'[k - 1] == nodes[k - 1] && nodes'[k] == nodes[k + 1];
        KeysAscendPair(order, nodes, k - 1, k + 1);
      } else {
        assert nodes'[k - 1] == nodes[k] && nodes'[k] == nodes[k + 1];
      }
    }
  }

  lemma {:induction false} KeysAscendInsert(order: seq<int>, nodes: seq<nat>, i: nat, n: nat)
    requires forall k :: 0 <= k < |nodes| ==> nodes[k] < |order|
    requires KeysAscend(order, nodes) && 0 < i < |nodes| && n < |order|
    requires order[nodes[i - 1]] <= order[n] <= order[nodes[i]]
    ensures KeysAscend(order, nodes[..i] + [n] + nodes[i..])
  {
    var nodes' := nodes[..i] + [n] + nodes[i..];
    forall k | 0 < k < |nodes'| ensures order[nodes'[k - 1]] <= order[nodes'[k]] {
      if k < i {
        assert nodes'[k - 1] == nodes[k - 1] && nodes'[k] == nodes[k];
      } else if k == i {
        assert nodes'[k - 1] == nodes[i - 1] && nodes'[k] == n;
      } else if k == i + 1 {
        assert nodes'[k - 1] == n && nodes'[k] == nodes[i];
      } else {
        assert nodes'[k - 1] == nodes[k - 2] && nodes'[k] == nodes[k - 1];
      }
    }
  }

  lemma {:induction false} KeysAscendReplace(order: seq<int>, nodes: seq<nat>, i: nat, n: nat)
    requires forall k :: 0 <= k < |nodes| ==> nodes[k] < |order|
    requires KeysAscend(order, nodes) && i < |nodes| && n < |order| && order[n] == order[nodes[i]]
    ensures KeysAscend(order, nodes[i := n])
  {
    var nodes' := nodes[i := n];
    forall k | 0 < k < |nodes'| ensures order[nodes'[k - 1]] <= order[nodes'[k]] {
      assert order[nodes'[k - 1]] == order[nodes[k - 1]] && order[nodes'[k]] == order[nodes[k]];
    }
  }

  /** Linking an unlisted node with no links after the last node. */
  lemma {:induction false} SnocLinks(next: seq<int>, prev: seq<int>, nodes: seq<nat>, n: nat)
    requires WellLinked(next, prev, nodes) && n < |next| && Fresh(n, nodes) && next[n] == NIL && prev[n] == NIL
    ensures nodes == [] ==> WellLinked(next, prev, [n])
    ensures nodes != [] ==> WellLinked(next[nodes[|nodes| - 1] := n], prev[n := nodes[|nodes| - 1]], nodes + [n])
  {
    if nodes != [] {
      var last := nodes[|nodes| - 1];
      var next', prev', nodes' := next[last := n], prev[n := last], nodes + [n];
      forall k | 0 <= k < |nodes'|
        ensures nodes'[k] < |next'|
        ensures next'[nodes'[k]] == if k + 1 < |nodes'| then nodes'[k + 1] else NIL
        ensures prev'[nodes'[k]] == if k > 0 then nodes'[k - 1] else NIL
      {
        if k < |nodes| {
          Neighbours(next, prev, nodes, k);
          assert nodes'[k] == nodes[k] != n;
          assert nodes'[|nodes|] == n;
          assert prev'[nodes[k]] == prev[nodes[k]] == if k > 0 then nodes[k - 1] else NIL;
          assert k < |nodes| - 1 ==> nodes[k] != last && nodes'[k + 1] == nodes[k + 1];
          assert k > 0 ==> nodes'[k - 1] == nodes[k - 1];
        } else {
          assert nodes'[k] == n && nodes'[k - 1] == last;
        }
      }
      forall k, l | 0 <= k < l < |nodes'| ensures nodes'[k] != nodes'[l] {
        if l < |nodes| { assert nodes[k] != nodes[l]; } else { assert nodes[k] != n; }
      }
      assert WellLinked(next', prev', nodes');
    }
  }

  // ---------------------------------------------------------------------
  // What the relinkings do to the extents

  lemma {:induction false} ViewInsert<T>(item: seq<T>, nodes: seq<nat>, i: nat, n: nat)
    requires forall k :: 0 <= k < |nodes| ==> nodes[k] < |item|
    requires i <= |nodes| && n < |item|
    ensures View(item, nodes[..i] + [n] + nodes[i..]) == View(item, nodes)[..i] + [item[n]] + View(item, nodes)[i..]
  {
    var nodes' := nodes[..i] + [n] + nodes[i..];
    assert forall k :: 0 <= k < |nodes'| ==> nodes'[k] == if k < i then nodes[k] else if k == i then n else nodes[k - 1];
  }

  lemma {:induction false} ViewRemove<T>(item: seq<T>, nodes: seq<nat>, i: nat)
    requires forall k :: 0 <= k < |nodes| ==> nodes[k] < |item|
    requires i < |nodes|
    ensures View(item, nodes[..i] + nodes[i + 1..]) == View(item, nodes)[..i] + View(item, nodes)[i + 1..]
  {
    var nodes' := nodes[..i] + nodes[i + 1..];
    assert forall k :: 0 <= k < |nodes'| ==> nodes'[k] == if k < i then nodes[k] else nodes[k + 1];
  }

  lemma {:induction false} ViewReplace<T>(item: seq<T>, nodes: seq<nat>, i: nat, n: nat)
    requires forall k :: 0 <= k < |nodes| ==> nodes[k] < |item|
    requires i < |nodes| && n < |item|
    ensures View(item, nodes[i := n]) == View(item, nodes)[i := item[n]]
  {
  }

  /** Changing the item of a listed node changes that one extent. */
  lemma {:induction false} ViewSet(item: seq<DiskItem>, nodes: seq<nat>, i: nat, x: DiskItem)
    requires forall k :: 0 <= k < |nodes| ==> nodes[k] < |item|
    requires forall k, l :: 0 <= k < l < |nodes| ==> nodes[k] != nodes[l]
    requires i < |nodes|
    ensures View(item[nodes[i] := x], nodes) == View(item, nodes)[i := x]
  {
    forall k | 0 <= k < |nodes| && k != i
      ensures nodes[k] != nodes[i]
    {
      if k < i { } else { }
    }
  }

  /** Changing the item of an unlisted node, or adding one, changes no extent. */
  lemma {:induction false} ViewUnlisted<T>(item: seq<T>, item': seq<T>, nodes: seq<nat>)
    requires forall k :: 0 <= k < |nodes| ==> nodes[k] < |item| <= |item'|
    requires forall k :: 0 <= k < |nodes| ==> item'[nodes[k]] == item[nodes[k]]
    ensures View(item', nodes) == View(item, nodes)
  {
  }

  /** The list once the file at `q` has been linked, unchanged, before the
      larger free extent at `p`, which has shrunk by the file's size; the
      file's old node is still listed, now at `q + 1`. */
  function Placed(v: seq<DiskItem>, p: nat, q: nat): (w: seq<DiskItem>)
    requires p < q < |v| && v[p].EmptySpace? && v[q].FilePart? && v[p].size > v[q].size
    ensures |w| == |v| + 1 && w[p] == v[q] && w[q + 1] == v[q]
  {
    var s := v[p := EmptySpace(v[p].size - v[q].size)];
    s[..p] + [v[q]] + s[p..]
  }

  /** The list once the extent at `i` gives up its place: its units join
      the free extent after it, else the free extent before it (either way
      it is removed), else it becomes a free extent of the same size. */
  function Vacated(w: seq<DiskItem>, i: nat): seq<DiskItem>
    requires i < |w|
  {
    if i + 1 < |w| && w[i + 1].EmptySpace? then
      w[..i] + [EmptySpace(w[i + 1].size + w[i].size)] + w[i + 2..]
    else if i > 0 && w[i - 1].EmptySpace? then
      w[..i - 1] + [EmptySpace(w[i - 1].size + w[i].size)] + w[i + 1..]
    else
      w[i := EmptySpace(w[i].size)]
  }

  /** `Placed` built from the list with the space already shrunk. */
  lemma {:induction false} PlacedFromShrunk(v: seq<DiskItem>, p: nat, q: nat, g: DiskItem, shrunk: seq<DiskItem>,
                                             x: DiskItem, w: seq<DiskItem>)
    requires p < q < |v| && v[p].EmptySpace? && v[q].FilePart? && v[p].size > v[q].size
    requires g == EmptySpace(v[p].size - v[q].size) && shrunk == v[p := g]
    requires x == FilePart(v[q].size, v[q].id) && w == shrunk[..p] + [x] + shrunk[p..]
    ensures w == Placed(v, p, q)
  {
  }

  /** Dropping the extent at `i` once its free neighbour at `j` has taken
      its units is what `Vacated` describes, when `j` is the neighbour it
      picks. */
  lemma {:induction false} MergedPair(w: seq<DiskItem>, i: nat, j: nat, x: DiskItem)
    requires i < |w| && j < |w| && w[j].EmptySpace? && x == EmptySpace(w[j].size + w[i].size)
    requires j == i + 1 || (i == j + 1 && !(i + 1 < |w| && w[i + 1].EmptySpace?))
    ensures var u := w[j := x]; u[..i] + u[i + 1..] == Vacated(w, i)
  {
    var u, lo := w[j := x], if j < i then j else i;
    assert u[..lo] == w[..lo] && u[lo + 2..] == w[lo + 2..];
    if j < i {
      assert u[..i] == w[..lo] + [x] && u[i + 1..] == w[lo + 2..];
    } else {
      assert u[..i] == w[..lo] && u[i + 1..] == [x] + w[lo + 2..];
    }
  }

  /** Vacating an extent that sits between `left` and `rest`: into a free
      successor, ... */
  lemma {:induction false} VacatedIntoNext(w: seq<DiskItem>, left: seq<DiskItem>, f: DiskItem, rest: seq<DiskItem>, i: nat)
    requires w == left + [f] + rest && i == |left|
    requires rest != [] && rest[0].EmptySpace?
    ensures Vacated(w, i) == left + [EmptySpace(rest[0].size + f.size)] + rest[1..]
  {
    assert w[|left|] == f && w[|left| + 1] == rest[0];
    assert w[..|left|] == left && w[|left| + 2..] == rest[1..];
  }

  /** ... else into a free predecessor, ... */
  lemma {:induction false} VacatedIntoPrev(w: seq<DiskItem>, left: seq<DiskItem>, f: DiskItem, rest: seq<DiskItem>, i: nat)
    requires w == left + [f] + rest && i == |left|
    requires !(rest != [] && rest[0].EmptySpace?) && left != [] && left[i - 1].EmptySpace?
    ensures Vacated(w, i) == left[..i - 1] + [EmptySpace(left[i - 1].size + f.size)] + rest
  {
    assert w[i - 1] == left[i - 1] && w[i] == f && (i + 1 < |w| ==> w[i + 1] == rest[0]);
    assert w[..i - 1] == left[..i - 1] && w[i + 1..] == rest;
  }

  /** ... else in place. */
  lemma {:induction false} VacatedInPlace(w: seq<DiskItem>, left: seq<DiskItem>, f: DiskItem, rest: seq<DiskItem>, i: nat)
    requires w == left + [f] + rest && i == |left|
    requires !(rest != [] && rest[0].EmptySpace?) && !(left != [] && left[i - 1].EmptySpace?)
    ensures Vacated(w, i) == left + [EmptySpace(f.size)] + rest
  {
    assert w[i] == f && (i + 1 < |w| ==> w[i + 1] == rest[0]);
    assert i > 0 ==> w[i - 1] == left[i - 1];
    assert w[i := EmptySpace(f.size)] == left + [EmptySpace(f.size)] + rest;
  }

  /** `Relocate` on a larger space, once `left` is the list up to the
      file's old predecessor and `r` is what `Relocate` picks for the file's
      neighbours. */
  lemma {:induction false} RelocatedAs(v: seq<DiskItem>, p: nat, q: nat, left: seq<DiskItem>, r: seq<DiskItem>, x: seq<DiskItem>)
    requires p < q < |v| && v[p].EmptySpace? && v[q].FilePart? && v[p].size > v[q].size
    requires left == v[..p] + [v[q], EmptySpace(v[p].size - v[q].size)] + v[p + 1..q]
    requires r == if q + 1 < |v| && v[q + 1].EmptySpace? then left + [EmptySpace(v[q + 1].size + v[q].size)] + v[q + 2..]
                  else if left[q].EmptySpace? then left[..q] + [EmptySpace(left[q].size + v[q].size)] + v[q + 1..]
                  else left + [EmptySpace(v[q].size)] + v[q + 1..]
    requires x == r
    ensures x == Relocate(v, p, q)
  {
  }

  /** The list once the file is placed, cut around the file's old node. */
  lemma {:induction false} PlacedParts(v: seq<DiskItem>, p: nat, q: nat, w: seq<DiskItem>, left: seq<DiskItem>, rest: seq<DiskItem>)
    requires p < q < |v| && v[p].EmptySpace? && v[q].FilePart? && v[p].size > v[q].size
    requires w == Placed(v, p, q)
    requires left == v[..p] + [v[q], EmptySpace(v[p].size - v[q].size)] + v[p + 1..q] && rest == v[q + 1..]
    ensures w == left + [v[q]] + rest && |left| == q + 1
  {
  }

  /** Relocation is the source's two steps: place the file before the
      shrunk space, then vacate its old node. */
  lemma {:induction false} RelocateFromPlaced(v: seq<DiskItem>, p: nat, q: nat, w: seq<DiskItem>, i: nat, x: seq<DiskItem>)
    requires p < q < |v| && v[p].EmptySpace? && v[q].FilePart? && v[p].size > v[q].size
    requires w == Placed(v, p, q) && i == q + 1 && x == Vacated(w, i)
    ensures x == Relocate(v, p, q)
  {
    var f, g := v[q], EmptySpace(v[p].size - v[q].size);
    var left := v[..p] + [f, g] + v[p + 1..q];
    var rest := v[q + 1..];
    PlacedParts(v, p, q, w, left, rest);
    if q + 1 < |v| && v[q + 1].EmptySpace? {
      assert rest[0] == v[q + 1] && rest[1..] == v[q + 2..];
      VacatedIntoNext(w, left, f, rest, i);
      RelocatedAs(v, p, q, left, left + [EmptySpace(v[q + 1].size + f.size)] + v[q + 2..], x);
    } else if left[q].EmptySpace? {
      VacatedIntoPrev(w, left, f, rest, i);
      RelocatedAs(v, p, q, left, left[..q] + [EmptySpace(left[q].size + f.size)] + v[q + 1..], x);
    } else {
      VacatedInPlace(w, left, f, rest, i);
      RelocatedAs(v, p, q, left, left + [EmptySpace(f.size)] + v[q + 1..], x);
    }
  }

  /** The keys of a relocation are those of placing, then vacating. */
  lemma {:induction false} RelocateKeysFromPlaced(keys: seq<int>, v: seq<DiskItem>, p: nat, q: nat, w: seq<DiskItem>,
                                                  i: nat, k1: seq<int>, k2: seq<int>)
    requires 0 < p < q < |v| == |keys| && v[p].EmptySpace? && v[q].FilePart? && v[p].size > v[q].size
    requires w == Placed(v, p, q) && i == q + 1 && k1 == keys[..p] + [(keys[p] + keys[p - 1]) / 2] + keys[p..]
    requires k2 == if (i + 1 < |w| && w[i + 1].EmptySpace?) || (i > 0 && w[i - 1].EmptySpace?)
                   then k1[..i] + k1[i + 1..] else k1
    ensures k2 == RelocateKeys(keys, v, p, q)
  {
    assert q + 1 < |v| ==> w[q + 2] == v[q + 1];
    assert w[q] == if q == p + 1 then EmptySpace(v[p].size - v[q].size) else v[q - 1];
  }

  // ---------------------------------------------------------------------
  // The disk

  class Disk {
    var item: seq<DiskItem>
    var order: seq<int>
    var next: seq<int>
    var prev: seq<int>
    /** The list the caller's head starts, node by node up to its tail. */
    ghost var nodes: seq<nat>

    ghost predicate Valid()
      reads this
    {
      |item| == |order| == |next| == |prev| && WellLinked(next, prev, nodes)
    }

    /** The extents from the head of the list to its tail. */
    ghost function Extents(): seq<DiskItem>
      reads this
      requires Valid()
    {
      View(item, nodes)
    }

    /** The keys from the head of the list to its tail. */
    ghost function Keys(): seq<int>
      reads this
      requires Valid()
    {
      View(order, nodes)
    }

    /** Keys never decrease from the head to the tail. */
    ghost predicate KeysSorted()
      reads this
      requires Valid()
    {
      KeysAscend(order, nodes)
    }

    /** `KeysSorted` is `Ascending` of the keys. */
    lemma SortedKeys()
      requires Valid()
      ensures KeysSorted() <==> Ascending(Keys())
    {
      var keys := Keys();
      assert forall k :: 0 <= k < |nodes| ==> keys[k] == order[nodes[k]];
    }

    /** `head` and `tail` are the two ends of the list, both `NIL` when it is empty. */
    ghost predicate IsList(head: int, tail: int)
      reads this
      requires Valid()
    {
      if nodes == [] then head == NIL && tail == NIL
      else head == nodes[0] && tail == nodes[|nodes| - 1]
    }

    constructor ()
      ensures Valid() && nodes == [] && item == []
    {
      item, order, next, prev := [], [], [], [];
      nodes := [];
    }

    /** A new node, linked to nothing. */
    method NewNode(x: DiskItem, key: int) returns (n: nat)
      requires Valid()
      modifies this
      ensures Valid() && n == old(|item|) && Fresh(n, nodes)
      ensures item == old(item) + [x] && order == old(order) + [key]
      ensures next == old(next) + [NIL] && prev == old(prev) + [NIL]
      ensures nodes == old(nodes) && Extents() == old(Extents()) && Keys() == old(Keys())
      ensures old(KeysSorted()) ==> KeysSorted()
    {
      n := |item|;
      item, order, next, prev := item + [x], order + [key], next + [NIL], prev + [NIL];
      ViewUnlisted(old(item), item, nodes);
      ViewUnlisted(old(order), order, nodes);
      AppendLinks(old(next), old(prev), nodes);
    }

    /** Links the unlisted node `n` just before the listed node `x`, which
        must have a predecessor. */
    method LinkBefore(ghost i: nat, x: nat, n: nat)
      requires Valid() && 0 < i < |nodes| && nodes[i] == x && n < |item| && Fresh(n, nodes)
      modifies this
      ensures Valid() && item == old(item) && order == old(order)
      ensures nodes == old(nodes)[..i] + [n] + old(nodes)[i..]
      ensures Extents() == old(Extents())[..i] + [item[n]] + old(Extents())[i..]
      ensures Keys() == old(Keys())[..i] + [order[n]] + old(Keys())[i..]
      ensures old(prev[x]) == old(nodes[i - 1])
      ensures next == old(next)[old(prev[x]) := n][n := x] && prev == old(prev)[n := old(prev[x])][x := n]
      ensures old(KeysSorted()) && old(order[nodes[i - 1]]) <= order[n] <= order[x] ==> KeysSorted()
    {
      ghost var nodes0 := nodes;
      var y := prev[x];
      InsertLinks(next, prev, nodes, i, n);
      next := next[y := n];
      prev := prev[n := y];
      next := next[n := x];
      prev := prev[x := n];
      nodes := nodes[..i] + [n] + nodes[i..];
      ViewInsert(item, nodes0, i, n);
      ViewInsert(order, nodes0, i, n);
      if old(KeysSorted()) && order[nodes0[i - 1]] <= order[n] <= order[x] {
        KeysAscendInsert(order, nodes0, i, n);
      }
    }

    /** Unlinks the listed node `h`; its own links are left as they were. */
    method DeleteNode(ghost i: nat, h: nat)
      requires Valid() && i < |nodes| && nodes[i] == h
      modifies this
      ensures Valid() && item == old(item) && order == old(order)
      ensures nodes == old(nodes)[..i] + old(nodes)[i + 1..]
      ensures Extents() == old(Extents())[..i] + old(Extents())[i + 1..]
      ensures Keys() == old(Keys())[..i] + old(Keys())[i + 1..]
      ensures old(prev[h]) == if i > 0 then old(nodes[i - 1]) else NIL
      ensures old(next[h]) == if i + 1 < old(|nodes|) then old(nodes[i + 1]) else NIL
      ensures next == if old(prev[h]) != NIL then old(next)[old(prev[h]) := old(next[h])] else old(next)
      ensures prev == if old(next[h]) != NIL then old(prev)[old(next[h]) := old(prev[h])] else old(prev)
      ensures next[h] == old(next[h]) && prev[h] == old(prev[h])
      ensures old(KeysSorted()) ==> KeysSorted()
    {
      ghost var nodes0 := nodes;
      RemoveLinks(next, prev, nodes, i);
      if prev[h] != NIL {
        next := next[prev[h] := next[h]];
      }
      if next[h] != NIL {
        prev := prev[next[h] := prev[h]];
      }
      nodes := nodes[..i] + nodes[i + 1..];
      ViewRemove(item, nodes0, i);
      ViewRemove(order, nodes0, i);
      if old(KeysSorted()) {
        KeysAscendRemove(order, nodes0, i);
      }
    }

    /** Puts the unlisted node `n` in the place of the listed node `h`; the
        links of `h` are left as they were. */
    method ReplaceNode(ghost i: nat, h: nat, n: nat)
      requires Valid() && i < |nodes| && nodes[i] == h && n < |item| && Fresh(n, nodes)
      modifies this
      ensures Valid() && item == old(item) && order == old(order)
      ensures nodes == old(nodes)[i := n]
      ensures Extents() == old(Extents())[i := item[n]] && Keys() == old(Keys())[i := order[n]]
      ensures old(prev[h]) == if i > 0 then old(nodes[i - 1]) else NIL
      ensures old(next[h]) == if i + 1 < old(|nodes|) then old(nodes[i + 1]) else NIL
      ensures next == (if old(prev[h]) != NIL then old(next)[n := old(next[h])][old(prev[h]) := n] else old(next)[n := old(next[h])])
      ensures prev == (if old(next[h]) != NIL then old(prev)[n := old(prev[h])][old(next[h]) := n] else old(prev)[n := old(prev[h])])
      ensures next[h] == old(next[h]) && prev[h] == old(prev[h])
      ensures old(KeysSorted()) && order[n] == order[h] ==> KeysSorted()
    {
      ghost var nodes0 := nodes;
      ReplaceLinks(next, prev, nodes, i, n);
      prev := prev[n := prev[h]];
      next := next[n := next[h]];
      if prev[h] != NIL {
        next := next[prev[h] := n];
      }
      if next[h] != NIL {
        prev := prev[next[h] := n];
      }
      nodes := nodes[i := n];
      ViewReplace(item, nodes0, i, n);
      ViewReplace(order, nodes0, i, n);
      if old(KeysSorted()) && order[n] == order[h] {
        KeysAscendReplace(order, nodes0, i, n);
      }
    }

    /** Builds a fresh list from the dense format: one node per non-zero
        digit, files numbered in order, keys 0, 1, 2, ... Fails at the first
        character that is not a digit. */
    method Decompress(compressed: string) returns (ok: bool, head: int, tail: int)
      requires Valid()
      modifies this
      ensures Valid() && IsList(head, tail)
      ensures ok <==> AllDigits(compressed)
      ensures ok ==> Extents() == Decode(compressed)
      ensures forall k :: 0 <= k < |nodes| ==> nodes[k] == old(|item|) + k && order[nodes[k]] == k
    {
      var diskId: nat := 0;
      var isSpace := false;
      head := NIL;
      var iterNode := NIL;
      var key := 0;
      nodes := [];
      ghost var base := |item|;
      for i := 0 to |compressed|
        invariant Valid() && |item| == base + |nodes| && key == |nodes|
        invariant forall k :: 0 <= k < |nodes| ==> nodes[k] == base + k && order[nodes[k]] == k
        invariant IsList(head, iterNode)
        invariant AllDigits(compressed[..i])
        invariant isSpace == SpaceAfter(compressed[..i], false)
        invariant diskId == IdAfter(compressed[..i], false, 0)
        invariant Extents() == DecodeFrom(compressed[..i], false, 0)
      {
        var c := compressed[i];
        if !IsDigit(c) {
          ok, tail := false, iterNode;
          assert !IsDigit(compressed[i]);
          return;
        }
        DecodeSnoc(compressed, i);
        isSpace, diskId, head, iterNode, key := DecodeDigit(c, isSpace, diskId, head, iterNode, key, base);
      }
      ok, tail := true, iterNode;
      assert compressed[..|compressed|] == compressed;
    }

    /** One digit of the disk map: a non-zero digit appends a node of that
        size, free or holding the next file id, keyed by the node count; every
        digit flips between file and free space. */
    method DecodeDigit(c: char, isSpace: bool, diskId: nat, head: int, last: int, key: int, ghost base: nat)
      returns (isSpace': bool, diskId': nat, head': int, last': int, key': int)
      requires IsDigit(c) && Valid() && IsList(head, last) && |item| == base + |nodes| && key == |nodes|
      requires forall k :: 0 <= k < |nodes| ==> nodes[k] == base + k && order[nodes[k]] == k
      modifies this
      ensures Valid() && IsList(head', last') && |item| == base + |nodes| && key' == |nodes|
      ensures forall k :: 0 <= k < |nodes| ==> nodes[k] == base + k && order[nodes[k]] == k
      ensures isSpace' == !isSpace && diskId' == IdNext(c, isSpace, diskId)
      ensures Extents() == old(Extents()) + DigitExtent(c, isSpace, diskId)
    {
      var size := DigitValue(c);
      isSpace', diskId', head', last', key' := !isSpace, diskId, head, last, key;
      if size == 0 {
        return;
      }
      var x: DiskItem;
      if isSpace {
        x := EmptySpace(size);
      } else {
        x := FilePart(size, diskId);
        diskId' := diskId + 1;
      }
      head', last' := AppendNode(head, last, x, key, base);
      key' := key + 1;
    }

    /** A new node holding `x` with key `key`, linked after `last`, the
        last node of the list that starts at `head`. */
    method AppendNode(head: int, last: int, x: DiskItem, key: int, ghost base: nat) returns (head': int, last': int)
      requires Valid() && IsList(head, last) && |item| == base + |nodes| && key == |nodes|
      requires forall k :: 0 <= k < |nodes| ==> nodes[k] == base + k && order[nodes[k]] == k
      modifies this
      ensures Valid() && IsList(head', last') && |item| == base + |nodes| && |nodes| == key + 1
      ensures forall k :: 0 <= k < |nodes| ==> nodes[k] == base + k && order[nodes[k]] == k
      ensures Extents() == old(Extents()) + [x]
    {
      ghost var nodes0 := nodes;
      var n := NewNode(x, key);
      head', last' := LinkLast(head, last, n);
      forall k | 0 <= k < |nodes| ensures nodes[k] == base + k && order[nodes[k]] == k {
        if k < |nodes0| {
          assert nodes[k] == nodes0[k];
        }
      }
    }

    /** Links the new node `n` after `last`, the last node of the list that
        starts at `head`, or starts the list with it. */
    method LinkLast(head: int, last: int, n: nat) returns (head': int, last': int)
      requires Valid() && IsList(head, last) && n < |item| && Fresh(n, nodes) && next[n] == NIL && prev[n] == NIL
      modifies this
      ensures Valid() && IsList(head', last') && last' == n
      ensures nodes == old(nodes) + [n] && Extents() == old(Extents()) + [item[n]]
      ensures item == old(item) && order == old(order)
      ensures head' == if old(nodes) == [] then n else head
    {
      SnocLinks(next, prev, nodes, n);
      if head == NIL {
        head', last' := n, n;
      } else {
        next := next[last := n];
        prev := prev[n := last];
        head', last' := head, n;
      }
      ghost var nodes0 := nodes;
      nodes := nodes + [n];
      ViewInsert(item, nodes0, |nodes0|, n);
      assert nodes0[..|nodes0|] + [n] + nodes0[|nodes0|..] == nodes;
    }

    /** Sums `id * position` over the used units, the position counting
        every unit from the head, free ones included. */
    method Checksum(head: int) returns (acc: nat)
      requires Valid() && (if nodes == [] then head == NIL else head == nodes[0])
      ensures acc == TapeChecksum(Tape(Extents()))
    {
      acc := 0;
      var factor := -1;
      var node := head;
      ghost var k := 0;
      while node != NIL
        invariant 0 <= k <= |nodes|
        invariant node == if k < |nodes| then nodes[k] else NIL
        invariant factor + 1 == |Tape(Extents()[..k])|
        invariant acc == TapeChecksum(Tape(Extents()[..k]))
        decreases |nodes| - k
      {
        assert next[node] == if k + 1 < |nodes| then nodes[k + 1] else NIL;
        var e := item[node];
        ghost var before := Tape(Extents()[..k]);
        assert before + Units(e)[..0] == before;
        for j := 0 to e.size
          invariant factor + 1 == |before| + j
          invariant acc == TapeChecksum(before + Units(e)[..j])
        {
          factor := factor + 1;
          TapeChecksumNextUnit(before, e, j);
          if e.FilePart? {
            acc := acc + e.id * factor;
          }
        }
        assert Units(e)[..e.size] == Units(e);
        assert e == Extents()[k];
        TapeNextExtent(Extents(), k);
        node := next[node];
        k := k + 1;
      }
      assert Extents()[..k] == Extents();
    }

    /** The block-level pass: a head cursor walks from the head to free
        space, a tail cursor walks from the tail to a file, and the file's
        units fill the free extent under the head cursor, until the two
        cursors meet. Returns false, with the list as the move before left
        it, when a free extent to split is the first node, whose missing
        predecessor the source dereferences. Unlike the source, an
        equal-size swap of two adjacent nodes ends the pass, so that the
        cursors cannot cross. */
    method Fragment(head: int, tail: int) returns (ok: bool)
      requires Valid() && IsList(head, tail)
      modifies this
      ensures Valid()
      ensures forall id :: FileUnits(Extents(), id) == FileUnits(old(Extents()), id)
      ensures TotalSize(Extents()) <= TotalSize(old(Extents()))
      ensures ok ==> RightPacked(Extents())
      ensures !ok ==> old(Extents()) != [] && old(Extents()[0]).EmptySpace?
      ensures old(Extents()) != [] ==> (ok <==> RunFixed(old(Extents()), 0, |old(Extents())| - 1).Finished?)
      ensures old(Extents()) != [] && ok ==> RunFixed(old(Extents()), 0, |old(Extents())| - 1) == Finished(Extents())
    {
      ok := true;
      if head == NIL {
        return;
      }
      ghost var e0 := Extents();
      PackingStart(e0);
      FragmentFixed(e0);
      var h, t := head, tail;
      ghost var hi: nat, ti: nat := 0, |nodes| - 1;
      while h != t
        invariant FragCursors(e0, h, t, hi, ti)
        invariant RunFixed(Extents(), hi, ti) == RunFixed(e0, 0, |e0| - 1)
        decreases ti - hi
      {
        ghost var v, hi0, ti0 := Extents(), hi, ti;
        ok, h, t, hi, ti := FragmentStep(e0, h, t, hi, ti, v);
        StepFixedPacks(v, e0, hi0, ti0);
        if !ok {
          return;
        }
      }
      assert hi == ti;
      PackingDone(Extents(), e0, hi);
    }

    /** The block-level pass between two turns: the cursors `h` and `t` at
        positions `hi` and `ti`, and `Packing` of the extents. */
    ghost predicate FragCursors(e0: seq<DiskItem>, h: int, t: int, hi: nat, ti: nat)
      reads this
    {
      Valid() && hi <= ti < |nodes| && h == nodes[hi] && t == nodes[ti] && Packing(Extents(), e0, hi, ti)
    }

    /** One turn of the block-level pass; false when the free extent to
        split is the first node, the list being left as it was. */
    method FragmentStep(ghost e0: seq<DiskItem>, h: int, t: int, ghost hi: nat, ghost ti: nat, ghost v: seq<DiskItem>)
      returns (ok: bool, h': int, t': int, ghost hi': nat, ghost ti': nat)
      requires FragCursors(e0, h, t, hi, ti) && h != t && v == Extents()
      modifies this
      ensures Valid() && hi' <= ti' < |nodes| && h' == nodes[hi'] && t' == nodes[ti']
      ensures ok ==> StepFixed(v, hi, ti) == Running(Extents(), hi', ti')
      ensures !ok ==> StepFixed(v, hi, ti) == Crashed && Extents() == v
    {
      Neighbours(next, prev, nodes, hi);
      Neighbours(next, prev, nodes, ti);
      assert v[hi] == item[h] && v[ti] == item[t];
      ok := true;
      if item[h].FilePart? {
        h', t', hi', ti' := next[h], t, hi + 1, ti;
        assert StepFixed(v, hi, ti) == Running(v, hi', ti');
      } else if item[t].EmptySpace? {
        h', t', hi', ti' := h, prev[t], hi, ti - 1;
        assert StepFixed(v, hi, ti) == Running(v, hi', ti');
      } else {
        ok, h', t', hi', ti' := MoveBlocks(h, t, hi, ti, v);
      }
    }

    /** The head cursor on free space and the tail cursor on a file: equal
        sizes swap the two items, a smaller free node is filled from the
        file, and a larger one, which needs a predecessor, takes a copy of
        the file in a new node before it while the file's node goes. */
    method MoveBlocks(h: nat, t: nat, ghost hi: nat, ghost ti: nat, ghost v: seq<DiskItem>)
      returns (ok: bool, h': int, t': int, ghost hi': nat, ghost ti': nat)
      requires Valid() && hi < ti < |nodes| && h == nodes[hi] && t == nodes[ti] && v == Extents()
      requires item[h].EmptySpace? && item[t].FilePart?
      modifies this
      ensures Valid() && hi' <= ti' < |nodes| && h' == nodes[hi'] && t' == nodes[ti']
      ensures ok ==> StepFixed(v, hi, ti) == Running(Extents(), hi', ti')
      ensures !ok ==> StepFixed(v, hi, ti) == Crashed && Extents() == v
    {
      Neighbours(next, prev, nodes, hi);
      Neighbours(next, prev, nodes, ti);
      assert v[hi] == item[h] && v[ti] == item[t];
      ok := true;
      if item[h].size == item[t].size {
        h', t', hi', ti' := SwapBlocks(h, t, hi, ti, v);
      } else if item[h].size < item[t].size {
        ghost var w := FillFrom(h, hi, t, ti, v);
        h', t', hi', ti' := next[h], t, hi + 1, ti;
        assert StepFixed(v, hi, ti) == Running(w, hi', ti');
      } else if prev[h] == NIL {
        ok, h', t', hi', ti' := false, h, t, hi, ti;
        assert StepFixed(v, hi, ti) == Crashed;
      } else {
        ghost var w;
        t', w := SplitInto(h, hi, t, ti, v);
        h', hi', ti' := h, hi + 1, ti;
        assert StepFixed(v, hi, ti) == Running(w, hi', ti');
      }
    }

    /** Free space and a file of the same size trade places; both cursors
        step inwards, the tail one only while the two have not met. */
    method SwapBlocks(h: nat, t: nat, ghost hi: nat, ghost ti: nat, ghost v: seq<DiskItem>)
      returns (h': int, t': int, ghost hi': nat, ghost ti': nat)
      requires Valid() && hi < ti < |nodes| && h == nodes[hi] && t == nodes[ti] && v == Extents()
      requires item[h].EmptySpace? && item[t].FilePart? && item[h].size == item[t].size
      modifies this
      ensures Valid() && hi' <= ti' < |nodes| && h' == nodes[hi'] && t' == nodes[ti']
      ensures StepFixed(v, hi, ti) == Running(Extents(), hi', ti')
    {
      Neighbours(next, prev, nodes, hi);
      Neighbours(next, prev, nodes, ti);
      assert v[hi] == item[h] && v[ti] == item[t];
      ghost var w := SwapItems(h, hi, t, ti, v);
      h', hi' := next[h], hi + 1;
      assert h' == t <==> hi + 1 == ti;
      if h' != t {
        t', ti' := prev[t], ti - 1;
      } else {
        t', ti' := t, ti;
      }
      assert StepFixed(v, hi, ti) == Running(w, hi', ti');
    }

    /** Swaps the items of the listed nodes `h` and `t`, at positions `i`
        and `j`; `v` is the list before. */
    method SwapItems(h: nat, ghost i: nat, t: nat, ghost j: nat, ghost v: seq<DiskItem>) returns (ghost w: seq<DiskItem>)
      requires Valid() && i < |nodes| && j < |nodes| && nodes[i] == h && nodes[j] == t && v == Extents()
      modifies this
      ensures Valid() && order == old(order) && next == old(next) && prev == old(prev) && nodes == old(nodes)
      ensures w == Extents() && w == Swapped(v, i, j)
    {
      var x, y := item[h], item[t];
      assert v[i] == x && v[j] == y;
      ghost var u := SetItem(h, i, y, v);
      w := SetItem(t, j, x, u);
    }

    /** The free node `h`, at position `i`, smaller than the file node `t`
        at position `j`, becomes a part of that file as large as itself, and
        `t` shrinks by as much; `v` is the list before. */
    method FillFrom(h: nat, ghost i: nat, t: nat, ghost j: nat, ghost v: seq<DiskItem>) returns (ghost w: seq<DiskItem>)
      requires Valid() && i < j < |nodes| && nodes[i] == h && nodes[j] == t && v == Extents()
      requires item[t].FilePart? && item[h].size < item[t].size
      modifies this
      ensures Valid() && order == old(order) && next == old(next) && prev == old(prev) && nodes == old(nodes)
      ensures w == Extents() && w == Filled(v, i, j)
    {
      assert v[i] == item[h] && v[j] == item[t];
      var emptySize := item[h].size;
      ghost var u := SetItem(h, i, FilePart(emptySize, item[t].id), v);
      var f := item[t];
      w := SetItem(t, j, FilePart(f.size - emptySize, f.id), u);
    }

    /** The free node `h`, at position `i` and not the first, is larger
        than the file node `t` at position `j` after it: a new node holding
        the file goes in before `h`, keyed halfway between `h` and its
        successor (one above `h` without one), `h` shrinks by the file's
        size, and `t` is unlinked; `t'` is its predecessor, now at `j`. */
    method SplitInto(h: nat, ghost i: nat, t: nat, ghost j: nat, ghost v: seq<DiskItem>) returns (t': int, ghost w: seq<DiskItem>)
      requires Valid() && 0 < i < j < |nodes| && nodes[i] == h && nodes[j] == t && v == Extents()
      requires item[h].EmptySpace? && item[t].FilePart? && item[h].size > item[t].size
      modifies this
      ensures Valid() && w == Extents() && w == Split(v, i, j)
      ensures i + 1 <= j < |nodes| && nodes[i + 1] == h && nodes[j] == t'
    {
      assert v[i] == item[h] && v[j] == item[t];
      ghost var s := CopyBefore(h, i, t, j, v);
      t', w := DropOriginal(h, i, t, j, v, s);
    }

    /** The second half of `SplitInto`: the file's own node, at `j + 1`
        once its copy is in, is unlinked. */
    method DropOriginal(h: nat, ghost i: nat, t: nat, ghost j: nat, ghost v: seq<DiskItem>, ghost s: seq<DiskItem>)
      returns (t': int, ghost w: seq<DiskItem>)
      requires i < j < |v| && v[j].FilePart? && v[i].size > v[j].size
      requires s == (v[..i] + [FilePart(v[j].size, v[j].id)] + v[i..])[i + 1 := EmptySpace(v[i].size - v[j].size)]
      requires Valid() && s == Extents() && j + 1 < |nodes| && nodes[i + 1] == h && nodes[j + 1] == t
      modifies this
      ensures Valid() && w == Extents() && w == Split(v, i, j)
      ensures i + 1 <= j < |nodes| && nodes[i + 1] == h && nodes[j] == t'
    {
      SplitAfterCopy(v, i, j, s);
      ghost var n1 := nodes;
      t', w := Unlink(j + 1, t, s);
      assert nodes[i + 1] == n1[..j + 1][i + 1] == h;
    }

    /** Unlinks the node `h` at position `i`, not the first, and returns its
        predecessor; `v` is the list before. */
    method Unlink(ghost i: nat, h: nat, ghost v: seq<DiskItem>) returns (p: int, ghost w: seq<DiskItem>)
      requires Valid() && 0 < i < |nodes| && nodes[i] == h && v == Extents()
      modifies this
      ensures Valid() && w == Extents() && w == v[..i] + v[i + 1..]
      ensures |nodes| == old(|nodes|) - 1 && nodes[..i] == old(nodes[..i]) && p == nodes[i - 1]
    {
      Neighbours(next, prev, nodes, i);
      DeleteNode(i, h);
      p := prev[h];
      w := Extents();
    }

    /** The first half of `SplitInto`: the copy of the file goes in before
        `h`, which shrinks by the file's size; the file's own node, now at
        `j + 1`, is still listed. */
    method CopyBefore(h: nat, ghost i: nat, t: nat, ghost j: nat, ghost v: seq<DiskItem>) returns (ghost s: seq<DiskItem>)
      requires Valid() && 0 < i < j < |nodes| && nodes[i] == h && nodes[j] == t && v == Extents()
      requires item[h].EmptySpace? && item[t].FilePart? && item[h].size > item[t].size
      modifies this
      ensures Valid() && s == Extents()
      ensures s == (v[..i] + [FilePart(v[j].size, v[j].id)] + v[i..])[i + 1 := EmptySpace(v[i].size - v[j].size)]
      ensures j + 1 < |nodes| && nodes[i + 1] == h && nodes[j + 1] == t
    {
      ghost var u := InsertCopy(h, i, t, j, v);
      s := SetItem(h, i + 1, EmptySpace(item[h].size - item[t].size), u);
    }

    /** Links a copy of the file `t` in before `h`. */
    method InsertCopy(h: nat, ghost i: nat, t: nat, ghost j: nat, ghost v: seq<DiskItem>) returns (ghost u: seq<DiskItem>)
      requires Valid() && 0 < i < j < |nodes| && nodes[i] == h && nodes[j] == t && v == Extents()
      requires item[h].EmptySpace? && item[t].FilePart? && item[h].size > item[t].size
      modifies this
      ensures Valid() && u == Extents()
      ensures u == v[..i] + [FilePart(v[j].size, v[j].id)] + v[i..]
      ensures j + 1 < |nodes| && nodes[i + 1] == h && nodes[j + 1] == t
      ensures item[h] == v[i] && item[t] == v[j]
    {
      Neighbours(next, prev, nodes, i);
      assert v[i] == item[h] && v[j] == item[t];
      ghost var nodes0 := nodes;
      var f := item[t];
      var key := if next[h] != NIL then (order[h] + order[next[h]]) / 2 else order[h] + 1;
      var x := FilePart(f.size, f.id);
      InsertedPositions(nodes0, i, |item|, i);
      InsertedPositions(nodes0, i, |item|, j);
      u := InsertBefore(h, i, x, key, v);
    }

    /** The whole-file pass: the tail cursor walks from the tail to the head;
        each file it meets is moved into the first free node, scanning from
        the last-empty cursor, large enough to hold it and met before the
        scan reaches the file itself or a key not below the file's. Returns
        `NoPredecessor` when the chosen free node is the head and larger
        than the file, where the source dereferences the head's missing
        predecessor; nothing is promised about the list then. */
    method Compact(head: int, tail: int) returns (status: Status)
      requires Valid() && IsList(head, tail) && Ascending(Keys())
      modifies this
      ensures status != SpaceTooSmall
      ensures status == Ok ==> Valid() && KeysSorted() && (nodes != [] ==> nodes[0] == head)
      ensures status == Ok ==> multiset(Files(Extents())) == multiset(Files(old(Extents())))
      ensures status == Ok ==> TotalSize(Extents()) == TotalSize(old(Extents()))
      ensures old(nodes) != [] && old(Extents()[0]).FilePart? ==> status == Ok && Extents()[0].FilePart?
      ensures status == Ok <==> CompactFrom(Start(old(Extents()), old(Keys()))).Some?
      ensures status == Ok ==>
        CompactFrom(Start(old(Extents()), old(Keys()))).value.v == Extents() &&
        CompactFrom(Start(old(Extents()), old(Keys()))).value.keys == Keys()
    {
      SortedKeys();
      ghost var e0, k0 := Extents(), Keys();
      var tailIter := tail;
      var lastEmpty := head;
      ghost var ti: int := |nodes| - 1;
      ghost var li: nat := 0;
      while tailIter != NIL
        invariant Cursors(e0, head, ti, li, tailIter, lastEmpty)
        invariant Sound(Compaction(Extents(), Keys(), ti, li))
        invariant CompactFrom(Compaction(Extents(), Keys(), ti, li)) == CompactFrom(Start(e0, k0))
        decreases FilePositions(Extents()[..ti + 1], 0), ti + 1
      {
        ghost var s := Compaction(Extents(), Keys(), ti, li);
        CompactFromStep(s);
        status, tailIter, lastEmpty, ti, li := CompactStep(e0, head, tailIter, lastEmpty, ti, li, s.v, s.keys);
        if status == NoPredecessor {
          return;
        }
      }
      status := Ok;
    }

    /** What the whole-file pass keeps between two positions of the tail
        cursor `tailIter`, at position `ti` (-1 once it has passed the
        head): the list and its key order, its head, the last-empty cursor
        `lastEmpty` at position `li` with only files before it, the file
        extents and total size of the list `e0` it started from, and a
        leading file. */
    ghost predicate Cursors(e0: seq<DiskItem>, head: int, ti: int, li: nat, tailIter: int, lastEmpty: int)
      reads this
    {
      && Valid() && KeysSorted() && Ascending(Keys())
      && -1 <= ti < |nodes| && tailIter == (if ti >= 0 then nodes[ti] else NIL)
      && (nodes != [] ==> nodes[0] == head && li < |nodes| && lastEmpty == nodes[li])
      && (forall k :: 0 <= k < li && k < |nodes| ==> Extents()[k].FilePart?)
      && multiset(Files(Extents())) == multiset(Files(e0)) && TotalSize(Extents()) == TotalSize(e0)
      && (e0 != [] && e0[0].FilePart? ==> Extents()[0].FilePart?)
    }

    /** The tail cursor steps back to its predecessor; the measure of the
        extents up to it does not grow. */
    lemma {:induction false} StepBack(e0: seq<DiskItem>, head: int, ti: int, li: nat, tailIter: int, lastEmpty: int, ti': int)
      requires Cursors(e0, head, ti, li, tailIter, lastEmpty) && tailIter != NIL && ti' == ti - 1
      ensures Cursors(e0, head, ti', li, prev[tailIter], lastEmpty) && ti' + 1 <= |Extents()|
      ensures FilePositions(Extents()[..ti' + 1], 0) <= FilePositions(Extents()[..ti + 1], 0)
    {
      Neighbours(next, prev, nodes, ti);
      FilePositionsPrefix(Extents(), ti' + 1, ti + 1);
    }

    /** The last-empty cursor moves forward over files only. */
    lemma {:induction false} AdvanceLast(e0: seq<DiskItem>, head: int, ti: int, li: nat, tailIter: int, lastEmpty: int,
                                         nli: nat, last: int)
      requires Cursors(e0, head, ti, li, tailIter, lastEmpty)
      requires li <= nli < |nodes| && last == nodes[nli] && forall k :: li <= k < nli ==> Extents()[k].FilePart?
      ensures Cursors(e0, head, ti, nli, tailIter, last)
    {
    }

    /** One position of the tail cursor: a free node is passed; a file is
        moved when the scan finds a free node for it, and the tail cursor
        then goes to the file's old predecessor. */
    method CompactStep(ghost e0: seq<DiskItem>, head: int, tailIter: int, lastEmpty: int, ghost ti: int, ghost li: nat,
                       ghost v: seq<DiskItem>, ghost keys: seq<int>)
      returns (status: Status, tailIter': int, lastEmpty': int, ghost ti': int, ghost li': nat)
      requires Cursors(e0, head, ti, li, tailIter, lastEmpty) && tailIter != NIL && v == Extents() && keys == Keys()
      requires Sound(Compaction(v, keys, ti, li))
      modifies this
      ensures status != SpaceTooSmall
      ensures status == Ok ==> Cursors(e0, head, ti', li', tailIter', lastEmpty')
      ensures status == Ok ==> ti' + 1 <= |Extents()| && old(ti + 1 <= |Extents()|)
      ensures status == Ok ==>
        || FilePositions(Extents()[..ti' + 1], 0) < old(FilePositions(Extents()[..ti + 1], 0))
        || (FilePositions(Extents()[..ti' + 1], 0) == old(FilePositions(Extents()[..ti + 1], 0)) && ti' < ti)
      ensures status == NoPredecessor ==>
        !(e0 != [] && e0[0].FilePart?)
      ensures status == Ok ==> Step(Compaction(v, keys, ti, li)) == Some(Compaction(Extents(), Keys(), ti', li'))
      ensures status == NoPredecessor ==> Step(Compaction(v, keys, ti, li)) == None
    {
      Neighbours(next, prev, nodes, ti);
      assert v[ti] == item[tailIter];
      if item[tailIter].EmptySpace? {
        status, tailIter', lastEmpty', ti', li' := Ok, prev[tailIter], lastEmpty, ti - 1, li;
        StepBack(e0, head, ti, li, tailIter, lastEmpty, ti');
        assert Step(Compaction(v, keys, ti, li)) == Some(Compaction(v, keys, ti', li'));
      } else {
        status, tailIter', lastEmpty', ti', li' := PlaceTail(e0, head, tailIter, lastEmpty, ti, li, v, keys);
      }
    }

    /** The tail cursor is on a file: the scan looks for a free node for it
        and, when it finds one, the file is moved there. */
    method PlaceTail(ghost e0: seq<DiskItem>, head: int, tailIter: int, lastEmpty: int, ghost ti: int, ghost li: nat,
                     ghost v: seq<DiskItem>, ghost keys: seq<int>)
      returns (status: Status, tailIter': int, lastEmpty': int, ghost ti': int, ghost li': nat)
      requires Cursors(e0, head, ti, li, tailIter, lastEmpty) && tailIter != NIL && item[tailIter].FilePart?
      requires v == Extents() && keys == Keys() && Sound(Compaction(v, keys, ti, li))
      modifies this
      ensures status != SpaceTooSmall
      ensures status == Ok ==> Cursors(e0, head, ti', li', tailIter', lastEmpty')
      ensures status == Ok ==> ti' + 1 <= |Extents()| && old(ti + 1 <= |Extents()|)
      ensures status == Ok ==>
        || FilePositions(Extents()[..ti' + 1], 0) < old(FilePositions(Extents()[..ti + 1], 0))
        || (FilePositions(Extents()[..ti' + 1], 0) == old(FilePositions(Extents()[..ti + 1], 0)) && ti' < ti)
      ensures status == NoPredecessor ==>
        !(e0 != [] && e0[0].FilePart?)
      ensures status == Ok ==> Step(Compaction(v, keys, ti, li)) == Some(Compaction(Extents(), Keys(), ti', li'))
      ensures status == NoPredecessor ==> Step(Compaction(v, keys, ti, li)) == None
    {
      assert v[ti] == item[tailIter];
      var space, last, p, nli := Scan(e0, head, tailIter, lastEmpty, ti, li);
      if space == NIL {
        status, tailIter', lastEmpty', ti', li' := Ok, prev[tailIter], last, ti - 1, nli;
        StepBack(e0, head, ti, nli, tailIter, last, ti');
        StepPasses(Compaction(v, keys, ti, li));
        return;
      }
      StepMoves(Compaction(v, keys, ti, li), p);
      lastEmpty' := last;
      status, tailIter', ti', li' := PlaceFound(e0, head, tailIter, space, last, p, ti, nli, v, keys);
    }

    /** The scan for a free node for the file `tailIter`, from the
        last-empty cursor, which moves forward over files. */
    method Scan(ghost e0: seq<DiskItem>, head: int, tailIter: int, lastEmpty: int, ghost ti: int, ghost li: nat)
      returns (space: int, last: int, ghost p: nat, ghost nli: nat)
      requires Cursors(e0, head, ti, li, tailIter, lastEmpty) && tailIter != NIL
      ensures Cursors(e0, head, ti, nli, tailIter, last) && li <= nli
      ensures space != NIL ==>
        && nli <= p < |nodes| && space == nodes[p] && order[space] < order[tailIter]
        && item[space].EmptySpace? && item[space].size >= item[tailIter].size
      ensures Fit(Extents(), Keys(), li, ti) == if space == NIL then None else Some(p)
      ensures nli == LastEmpty(Extents(), Keys(), li, ti)
    {
      space, last, p, nli := FindSpace(lastEmpty, li, tailIter, ti, Extents(), Keys());
      LastEmptyBeforeFit(Extents(), Keys(), li, ti);
      AdvanceLast(e0, head, ti, li, tailIter, lastEmpty, nli, last);
      if space != NIL {
        assert Extents()[p] == item[space] && Keys()[p] == order[space] && Extents()[ti] == item[tailIter];
      }
    }

    /** `PlaceTail` once the scan has found the free node `space` at `p`. */
    method PlaceFound(ghost e0: seq<DiskItem>, head: int, tailIter: nat, space: nat, last: int,
                      ghost p: nat, ghost ti: nat, ghost li: nat, ghost v: seq<DiskItem>, ghost keys: seq<int>)
      returns (status: Status, tailIter': int, ghost ti': int, ghost li': nat)
      requires Cursors(e0, head, ti, li, tailIter, last) && item[tailIter].FilePart? && v == Extents() && keys == Keys()
      requires li <= p < ti < |nodes| && nodes[ti] == tailIter && space == nodes[p]
      requires order[space] < order[tailIter]
      requires item[space].EmptySpace? && item[space].size >= item[tailIter].size
      modifies this
      ensures status != SpaceTooSmall
      ensures status == Ok ==> Cursors(e0, head, ti', li', tailIter', last)
      ensures status == Ok ==> ti' + 1 <= |Extents()| && old(ti + 1 <= |Extents()|)
      ensures status == Ok ==> FilePositions(Extents()[..ti' + 1], 0) < old(FilePositions(Extents()[..ti + 1], 0))
      ensures status == NoPredecessor ==>
        !(e0 != [] && e0[0].FilePart?)
      ensures status == NoPredecessor || status == Ok
      ensures status == Ok <==> Move(v, keys, p, ti, li).Some?
      ensures status == Ok ==> Move(v, keys, p, ti, li) == Some(Compaction(Extents(), Keys(), ti', li'))
    {
      status, tailIter', ti', li' := MoveAndAdvance(e0, head, tailIter, space, last, p, ti, li, v, keys);
    }

    /** One move of the whole-file pass and where it leaves the tail and the
        last-empty cursors: on the file's old predecessor, reached by the
        file node's own `prev`, and on the same node as before. */
    method MoveAndAdvance(ghost e0: seq<DiskItem>, head: int, file: nat, space: nat, lastEmpty: int,
                          ghost p: nat, ghost q: nat, ghost li: nat, ghost v: seq<DiskItem>, ghost keys: seq<int>)
      returns (status: Status, tailIter': int, ghost ti: nat, ghost li': nat)
      requires Cursors(e0, head, q, li, file, lastEmpty) && li <= p < q && nodes[p] == space
      requires v == Extents() && keys == Keys()
      requires item[space].EmptySpace? && item[file].FilePart? && item[space].size >= item[file].size
      modifies this
      ensures status != SpaceTooSmall
      ensures status == NoPredecessor ==>
        !(e0 != [] && e0[0].FilePart?)
      ensures status == Ok ==>
        && Cursors(e0, head, ti, li', tailIter', lastEmpty) && ti + 1 <= |Extents()|
        && FilePositions(Extents()[..ti + 1], 0) < old(FilePositions(Extents()[..q + 1], 0))
      ensures status == NoPredecessor || status == Ok
      ensures status == Ok <==> Move(v, keys, p, q, li).Some?
      ensures status == Ok ==> Move(v, keys, p, q, li) == Some(Compaction(Extents(), Keys(), ti, li'))
    {
      assert v[p] == item[space] && v[q] == item[file];
      status := MoveFileIntoEmptySpace(file, space, p, q);
      ti := if v[p].size == v[q].size then q - 1 else q;
      li' := if v[p].size > v[q].size && li == p then p + 1 else li;
      tailIter' := NIL;
      if status == Ok {
        tailIter' := prev[file];
        WholeFileStep(v, p, q, li, Extents(), ti, li');
        MoveOutcome(v, keys, p, q, li, Extents(), Keys());
        SortedKeys();
      }
    }

    /** The scan for a free node: from node `start`, at position `li`, it
        passes files and free nodes too small for the file `tail`, at
        position `ti`, and stops at that file, at a key not below its key,
        at the end of the list or at the first free node large enough,
        which it returns (else `NIL`). `last` is the first free node met,
        or `start` when there was none. */
    method FindSpace(start: int, ghost li: nat, tail: nat, ghost ti: nat, ghost v: seq<DiskItem>, ghost keys: seq<int>)
      returns (space: int, last: int, ghost p: nat, ghost nli: nat)
      requires Valid() && li < |nodes| && nodes[li] == start && ti < |nodes| && nodes[ti] == tail
      requires v == Extents() && keys == Keys()
      ensures li <= nli <= p <= |nodes| && nli < |nodes| && last == nodes[nli]
      ensures space == NIL || (p < |nodes| && space == nodes[p])
      ensures forall k :: li <= k < p ==> !Stops(v, keys, k, ti) && !Fits(v, k, ti)
      ensures space == NIL ==> Stops(v, keys, p, ti)
      ensures Fit(v, keys, li, ti) == if space == NIL then None else Some(p)
      ensures nli == LastEmpty(v, keys, li, ti)
    {
      var fileSize := item[tail].size;
      var headIter := start;
      last := start;
      var spacesSkipped := false;
      space := NIL;
      p, nli := li, li;
      while headIter != NIL
        invariant li <= nli <= p <= |nodes| && nli < |nodes| && last == nodes[nli]
        invariant headIter == if p < |nodes| then nodes[p] else NIL
        invariant Scanning(v, keys, li, ti, p, nli, spacesSkipped)
        invariant space == NIL
        decreases |nodes| - p
      {
        Neighbours(next, prev, nodes, p);
        AtNode(v, keys, p, ti);
        if headIter == tail || order[headIter] >= order[tail] {
          break;
        }
        if item[headIter].FilePart? {
          ScanPassFile(v, keys, li, ti, p, nli, spacesSkipped);
          headIter := next[headIter];
          p := p + 1;
          continue;
        }
        ghost var nli0 := nli;
        if !spacesSkipped {
          last, nli := headIter, p;
        }
        if item[headIter].size >= fileSize {
          ScanFound(v, keys, li, ti, p, nli0, spacesSkipped);
          space := headIter;
          break;
        }
        ScanPassSpace(v, keys, li, ti, p, nli0, spacesSkipped);
        headIter := next[headIter];
        p := p + 1;
        spacesSkipped := true;
      }
      if space == NIL {
        ScanStopped(v, keys, li, ti, p, nli, spacesSkipped);
      }
    }

    /** The node at position `p` as the scan for the file at `ti` sees it. */
    lemma {:induction false} AtNode(v: seq<DiskItem>, keys: seq<int>, p: nat, ti: nat)
      requires Valid() && v == Extents() && keys == Keys() && p < |nodes| && ti < |nodes|
      ensures (nodes[p] == nodes[ti] || order[nodes[p]] >= order[nodes[ti]]) == Stops(v, keys, p, ti)
      ensures item[nodes[p]] == v[p] && item[nodes[ti]] == v[ti]
    {
    }

    /** Moves the file of node `file`, at position `q`, into the free node
        `space`, at position `p` before it. A space too small is refused; one
        of the same size trades items with the file; a larger one shrinks and
        gets a new file node just before it (which needs a predecessor), and
        the vacated extent grows the free successor, else the free
        predecessor, else becomes a new free node with the file's key. */
    method MoveFileIntoEmptySpace(file: nat, space: nat, ghost p: nat, ghost q: nat) returns (status: Status)
      requires Valid() && p < q < |nodes| && nodes[p] == space && nodes[q] == file
      requires item[space].EmptySpace? && item[file].FilePart?
      modifies this
      ensures Valid() && old(|item|) <= |item|
      ensures status == SpaceTooSmall <==> old(item[space].size) < old(item[file].size)
      ensures status == NoPredecessor <==> old(item[space].size) > old(item[file].size) && p == 0
      ensures status == SpaceTooSmall ==> nodes == old(nodes) && item == old(item)
      ensures status == NoPredecessor ==>
        nodes == old(nodes) && Extents() == old(Extents())[0 := EmptySpace(old(item[space].size) - old(item[file].size))]
      ensures status == Ok ==> Extents() == Relocate(old(Extents()), p, q)
      ensures status == Ok ==> Keys() == if old(item[space].size) == old(item[file].size) then old(Keys())
                                         else RelocateKeys(old(Keys()), old(Extents()), p, q)
      ensures status == Ok ==> prev[file] == old(prev[file])
      ensures status == Ok && old(item[space].size) == old(item[file].size) ==> nodes == old(nodes)
      ensures status == Ok && old(item[space].size) > old(item[file].size) ==>
        q < |nodes| && nodes[q] == old(nodes[q - 1]) && nodes[p + 1] == space &&
        forall k :: 0 <= k < p ==> nodes[k] == old(nodes[k])
      ensures old(KeysSorted()) ==> KeysSorted()
    {
      Neighbours(next, prev, nodes, p);
      var e, f := item[space], item[file];
      ghost var v := Extents();
      assert v[p] == e && v[q] == f;
      if e.size < f.size {
        return SpaceTooSmall;
      }
      if e.size == f.size {
        SwapEqual(file, space, p, q, v);
        return Ok;
      }
      if prev[space] == NIL {
        ghost var w := SetItem(space, p, EmptySpace(e.size - f.size), v);
        return NoPredecessor;
      }
      MoveIntoLarger(file, space, p, q);
      status := Ok;
    }

    /** The equal-size case: the file and the space trade items, and the
        links stay as they were. */
    method SwapEqual(file: nat, space: nat, ghost p: nat, ghost q: nat, ghost v: seq<DiskItem>)
      requires Valid() && p < q < |nodes| && nodes[p] == space && nodes[q] == file && v == Extents()
      requires item[space].EmptySpace? && item[file].FilePart? && item[space].size == item[file].size
      modifies this
      ensures Valid() && |item| == old(|item|)
      ensures order == old(order) && next == old(next) && prev == old(prev) && nodes == old(nodes)
      ensures Extents() == Relocate(v, p, q)
    {
      var e, f := item[space], item[file];
      assert v[p] == e && v[q] == f;
      RelocateSwaps(v, p, q);
      ghost var u := SetItem(space, p, f, v);
      assert nodes[q] == file;
      ghost var w := SetItem(file, q, e, u);
    }

    /** The larger-space case once the space has a predecessor: a copy of
        the file is placed before the shrunk space, then the file's old node
        is freed and merged with a free neighbour. */
    method MoveIntoLarger(file: nat, space: nat, ghost p: nat, ghost q: nat)
      requires Valid() && 0 < p < q < |nodes| && nodes[p] == space && nodes[q] == file
      requires item[space].EmptySpace? && item[file].FilePart? && item[space].size > item[file].size
      modifies this
      ensures Valid() && old(|item|) <= |item|
      ensures Extents() == Relocate(old(Extents()), p, q)
      ensures Keys() == RelocateKeys(old(Keys()), old(Extents()), p, q)
      ensures prev[file] == old(prev[file])
      ensures q < |nodes| && nodes[q] == old(nodes[q - 1]) && nodes[p + 1] == space
      ensures forall k :: 0 <= k < p ==> nodes[k] == old(nodes[k])
      ensures old(KeysSorted()) ==> KeysSorted()
    {
      Neighbours(next, prev, nodes, q);
      ghost var v, k0 := Extents(), Keys();
      ghost var w, k1 := PlaceFile(file, space, p, q, v, k0);
      ghost var i := q + 1;
      ghost var x, k2 := Vacate(file, i, w, k1);
      RelocateFromPlaced(v, p, q, w, i, x);
      RelocateKeysFromPlaced(k0, v, p, q, w, i, k1, k2);
    }

    /** The first half of the larger-space case, once the space is known
        to have a predecessor: the space shrinks by the file's size and a
        copy of the file, keyed between the space and its predecessor, is
        linked before it. */
    method PlaceFile(file: nat, space: nat, ghost p: nat, ghost q: nat, ghost v: seq<DiskItem>, ghost keys: seq<int>)
      returns (ghost w: seq<DiskItem>, ghost keys': seq<int>)
      requires Valid() && 0 < p < q < |nodes| && nodes[p] == space && nodes[q] == file && v == Extents() && keys == Keys()
      requires item[space].EmptySpace? && item[file].FilePart? && item[space].size > item[file].size
      modifies this
      ensures Valid() && old(|item|) <= |item|
      ensures w == Extents() && w == Placed(v, p, q)
      ensures keys' == Keys() && keys' == keys[..p] + [(keys[p] + keys[p - 1]) / 2] + keys[p..]
      ensures q + 1 < |nodes| && nodes[q + 1] == file && nodes[q] == old(nodes[q - 1]) && nodes[p + 1] == space
      ensures forall k :: 0 <= k < p ==> nodes[k] == old(nodes[k])
      ensures old(KeysSorted()) ==> KeysSorted()
    {
      ghost var nodes0 := nodes;
      var f := item[file];
      var g := EmptySpace(item[space].size - f.size);
      ghost var shrunk := Shrink(space, p, file, q, g, v);
      var key := (order[space] + order[prev[space]]) / 2;
      assert key == (keys[p] + keys[p - 1]) / 2;
      var x := FilePart(f.size, f.id);
      w := InsertBefore(space, p, x, key, shrunk);
      PlacedFromShrunk(v, p, q, g, shrunk, x, w);
      keys' := Keys();
      InsertedPositions(nodes0, p, old(|item|), q);
      InsertedPositions(nodes0, p, old(|item|), q - 1);
      InsertedPositions(nodes0, p, old(|item|), p);
    }

    /** The first half of `PlaceFile`: the space takes the free extent `g`
        left once the file is in; the keys around it bracket the key the
        copy will get. */
    method Shrink(space: nat, ghost p: nat, file: nat, ghost q: nat, g: DiskItem, ghost v: seq<DiskItem>) returns (ghost shrunk: seq<DiskItem>)
      requires Valid() && 0 < p < q < |nodes| && nodes[p] == space && nodes[q] == file && v == Extents()
      requires item[space].EmptySpace? && item[file].FilePart? && item[space].size > item[file].size
      requires g == EmptySpace(item[space].size - item[file].size)
      modifies this
      ensures Valid() && shrunk == Extents() && shrunk == v[p := g] && |item| == old(|item|)
      ensures nodes == old(nodes) && order == old(order) && next == old(next) && prev == old(prev)
      ensures item[file] == old(item[file]) == v[q] && v[p] == old(item[space])
      ensures prev[space] == nodes[p - 1]
      ensures old(KeysSorted()) ==> KeysSorted() && order[prev[space]] <= (order[space] + order[prev[space]]) / 2 <= order[space]
    {
      Neighbours(next, prev, nodes, p);
      ghost var sorted := KeysSorted();
      assert sorted ==> order[nodes[p - 1]] <= order[space];
      assert v[p] == item[space] && v[q] == item[file];
      shrunk := SetItem(space, p, g, v);
    }

    /** Replaces, in place, the item of the listed node `h` at position `i`;
        `v` is the list before. */
    method SetItem(h: nat, ghost i: nat, x: DiskItem, ghost v: seq<DiskItem>) returns (ghost w: seq<DiskItem>)
      requires Valid() && i < |nodes| && nodes[i] == h && v == Extents()
      modifies this
      ensures Valid() && item == old(item)[h := x] && |item| == old(|item|)
      ensures order == old(order) && next == old(next) && prev == old(prev) && nodes == old(nodes)
      ensures w == Extents() && w == v[i := x]
    {
      ViewSet(item, nodes, i, x);
      item := item[h := x];
      w := Extents();
    }

    /** Links a new node holding `x`, keyed `key`, just before the listed
        node `s` at position `i`, which has a predecessor. */
    method InsertBefore(s: nat, ghost i: nat, x: DiskItem, key: int, ghost v: seq<DiskItem>) returns (ghost w: seq<DiskItem>)
      requires Valid() && 0 < i < |nodes| && nodes[i] == s && v == Extents()
      modifies this
      ensures Valid() && item == old(item) + [x]
      ensures nodes == old(nodes)[..i] + [old(|item|)] + old(nodes)[i..]
      ensures w == Extents() && w == v[..i] + [x] + v[i..]
      ensures Keys() == old(Keys())[..i] + [key] + old(Keys())[i..]
      ensures old(KeysSorted()) && old(order[nodes[i - 1]]) <= key <= old(order[s]) ==> KeysSorted()
    {
      var n := NewNode(x, key);
      LinkBefore(i, s, n);
      w := Extents();
    }

    /** Frees the node `h` at position `i`: its units grow the free
        successor, else the free predecessor, and `h` is unlinked; else a new
        free node with the key of `h` takes its place. */
    method Vacate(h: nat, ghost i: nat, ghost v: seq<DiskItem>, ghost keys: seq<int>) returns (ghost x: seq<DiskItem>, ghost keys': seq<int>)
      requires Valid() && i < |nodes| && nodes[i] == h && v == Extents() && keys == Keys()
      modifies this
      ensures Valid() && old(|item|) <= |item| && prev[h] == old(prev[h])
      ensures x == Extents() && x == Vacated(v, i)
      ensures keys' == Keys() && keys' == if (i + 1 < |v| && v[i + 1].EmptySpace?) || (i > 0 && v[i - 1].EmptySpace?)
                                         then keys[..i] + keys[i + 1..] else keys
      ensures i <= |nodes| && forall k :: 0 <= k < i ==> nodes[k] == old(nodes[k])
      ensures old(KeysSorted()) ==> KeysSorted()
    {
      Neighbours(next, prev, nodes, i);
      var nx, pv := next[h], prev[h];
      ghost var w := Extents();
      assert (nx != NIL && item[nx].EmptySpace?) == (i + 1 < |w| && w[i + 1].EmptySpace?);
      assert (pv != NIL && item[pv].EmptySpace?) == (i > 0 && w[i - 1].EmptySpace?);
      if nx != NIL && item[nx].EmptySpace? {
        Absorb(h, i, nx, i + 1);
      } else if pv != NIL && item[pv].EmptySpace? {
        Absorb(h, i, pv, i - 1);
      } else {
        FreeInPlace(h, i);
      }
      x, keys' := Extents(), Keys();
    }

    /** Puts a new free node, as large as `h` and with its key, in the
        place of `h`, at position `i`. */
    method FreeInPlace(h: nat, ghost i: nat)
      requires Valid() && i < |nodes| && nodes[i] == h
      modifies this
      ensures Valid() && old(|item|) < |item| && prev[h] == old(prev[h])
      ensures Extents() == old(Extents())[i := EmptySpace(old(item[h].size))] && Keys() == old(Keys())
      ensures |nodes| == old(|nodes|) && nodes[..i] == old(nodes[..i])
      ensures old(KeysSorted()) ==> KeysSorted()
    {
      var m := NewNode(EmptySpace(item[h].size), order[h]);
      ReplaceNode(i, h, m);
    }

    /** Adds the units of the node `h`, at position `i`, to its free
        neighbour `t`, at position `j`, and unlinks `h`: the successor when
        it is free, else the predecessor. */
    method Absorb(h: nat, ghost i: nat, t: nat, ghost j: nat)
      requires Valid() && i < |nodes| && nodes[i] == h && j < |nodes| && nodes[j] == t
      requires item[t].EmptySpace?
      requires j == i + 1 || (i == j + 1 && !(i + 1 < |nodes| && item[nodes[i + 1]].EmptySpace?))
      modifies this
      ensures Valid() && |item| == old(|item|) && prev[h] == old(prev[h])
      ensures Extents() == Vacated(old(Extents()), i) && Keys() == old(Keys())[..i] + old(Keys())[i + 1..]
      ensures |nodes| + 1 == old(|nodes|) && forall k :: 0 <= k < i ==> nodes[k] == old(nodes[k])
      ensures old(KeysSorted()) ==> KeysSorted()
    {
      ghost var w := Extents();
      assert w[i] == item[h] && w[j] == item[t];
      var x := EmptySpace(item[t].size + item[h].size);
      ViewSet(item, nodes, j, x);
      item := item[t := x];
      DeleteNode(i, h);
      MergedPair(w, i, j, x);
    }
  }
}

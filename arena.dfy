/**
 * The singly-linked list of run nodes, stored in an arena: a node is named
 * by its index in a sequence of nodes, and `next` names the following node.
 */
module Arena {
  import opened Runs

  /** The following node, or none (`undefined` in the source). */
  datatype Link = Nil | Ref(addr: nat)

  /** `count` code points of `width` units each, followed by the run at `next`. */
  datatype Node = Node(count: nat, width: nat, next: Link)

  /** The link that leads to the list `l`. */
  function LinkTo(l: seq<nat>): Link
  {
    if l == [] then Nil else Ref(l[0])
  }

  /** The link to the `k`th address of `l`, if there is one. */
  function LinkAt(l: seq<nat>, k: nat): Link
  {
    if k < |l| then Ref(l[k]) else Nil
  }

  /** The nodes at addresses `l` are distinct, of width 1 or 2, and each links to the next. */
  ghost predicate IsSegment(nodes: seq<Node>, l: seq<nat>)
  {
    (forall k :: 0 <= k < |l| ==> l[k] < |nodes|) &&
    (forall k {:trigger nodes[l[k]]} :: 0 <= k < |l| ==> 1 <= nodes[l[k]].width <= 2) &&
    Distinct(l) &&
    (forall k {:trigger nodes[l[k]]} :: 0 <= k < |l| - 1 ==> nodes[l[k]].next == Ref(l[k + 1]))
  }

  /** No address occurs twice in `l`. */
  ghost predicate Distinct(l: seq<nat>)
  {
    l == [] || (l[0] !in l[1..] && Distinct(l[1..]))
  }

  lemma {:induction false} DistinctIff(l: seq<nat>)
    ensures Distinct(l) <==> forall k, m :: 0 <= k < m < |l| ==> l[k] != l[m]
  {
    if l != [] {
      DistinctIff(l[1..]);
      if Distinct(l) {
        forall k, m | 0 <= k < m < |l|
          ensures l[k] != l[m]
        {
          if k == 0 {
            assert l[m] == l[1..][m - 1];
          } else {
            assert l[k] == l[1..][k - 1] && l[m] == l[1..][m - 1];
          }
        }
      }
      if forall k, m :: 0 <= k < m < |l| ==> l[k] != l[m] {
        forall k, m | 0 <= k < m < |l[1..]|
          ensures l[1..][k] != l[1..][m]
        {
          assert l[1..][k] == l[k + 1] && l[1..][m] == l[m + 1];
        }
        forall m | 0 <= m < |l[1..]|
          ensures l[1..][m] != l[0]
        {
          assert l[1..][m] == l[m + 1];
        }
      }
    }
  }

  /** A segment whose last node ends the list. */
  ghost predicate IsList(nodes: seq<Node>, l: seq<nat>)
  {
    IsSegment(nodes, l) && (l != [] ==> nodes[l[|l| - 1]].next == Nil)
  }

  ghost predicate Disjoint(a: seq<nat>, b: seq<nat>)
  {
    forall k, m :: 0 <= k < |a| && 0 <= m < |b| ==> a[k] != b[m]
  }

  /** The runs stored at addresses `l`, in order. */
  ghost function View(nodes: seq<Node>, l: seq<nat>): (rs: seq<Run>)
    requires forall k :: 0 <= k < |l| ==> l[k] < |nodes|
    ensures |rs| == |l|
  {
    seq(|l|, k => RunAt(nodes, l, k))
  }

  /** The run of the `k`th node of `l`. */
  ghost function RunAt(nodes: seq<Node>, l: seq<nat>, k: int): Run
  {
    if 0 <= k < |l| && l[k] < |nodes| then Run(nodes[l[k]].width, nodes[l[k]].count) else Run(1, 0)
  }

  lemma ViewConcat(nodes: seq<Node>, a: seq<nat>, b: seq<nat>)
    requires forall k :: 0 <= k < |a| ==> a[k] < |nodes|
    requires forall k :: 0 <= k < |b| ==> b[k] < |nodes|
    ensures View(nodes, a + b) == View(nodes, a) + View(nodes, b)
  {
  }

  lemma ViewSlice(nodes: seq<Node>, l: seq<nat>, i: nat, j: nat)
    requires i <= j <= |l| && forall k :: 0 <= k < |l| ==> l[k] < |nodes|
    ensures View(nodes, l[i..j]) == View(nodes, l)[i..j]
  {
  }

  lemma SegmentWidths(nodes: seq<Node>, l: seq<nat>)
    requires IsSegment(nodes, l)
    ensures WidthsOk(View(nodes, l))
  {
  }

  /** Node `l[k]` of a list: its run, and the link to the rest of the list. */
  lemma Step(nodes: seq<Node>, l: seq<nat>, k: nat)
    requires IsList(nodes, l) && k < |l|
    ensures l[k] < |nodes| && 1 <= nodes[l[k]].width <= 2
    ensures View(nodes, l)[k] == Run(nodes[l[k]].width, nodes[l[k]].count)
    ensures nodes[l[k]].next == LinkAt(l, k + 1)
  {
    if k + 1 < |l| {
      assert nodes[l[k]].next == Ref(l[k + 1]);
    }
  }

  /** Nodes outside `l` do not matter to it. */
  lemma Frame(nodes: seq<Node>, nodes': seq<Node>, l: seq<nat>)
    requires forall k :: 0 <= k < |l| ==> l[k] < |nodes| && l[k] < |nodes'| && nodes'[l[k]] == nodes[l[k]]
    ensures IsSegment(nodes', l) == IsSegment(nodes, l)
    ensures IsList(nodes', l) == IsList(nodes, l)
    ensures View(nodes', l) == View(nodes, l)
  {
  }

  lemma SegmentPrefix(nodes: seq<Node>, l: seq<nat>, i: nat)
    requires IsSegment(nodes, l) && i <= |l|
    ensures IsSegment(nodes, l[..i])
  {
    var a := l[..i];
    forall k | 0 <= k < |a| - 1
      ensures nodes[a[k]].next == Ref(a[k + 1])
    {
      assert a[k] == l[k] && a[k + 1] == l[k + 1];
    }
    DistinctIff(l);
    DistinctIff(a);
  }

  lemma ListSuffix(nodes: seq<Node>, l: seq<nat>, i: nat)
    requires IsList(nodes, l) && i <= |l|
    ensures IsList(nodes, l[i..])
  {
    var b := l[i..];
    forall k | 0 <= k < |b| - 1
      ensures nodes[b[k]].next == Ref(b[k + 1])
    {
      assert b[k] == l[i + k] && b[k + 1] == l[i + k + 1];
    }
    DistinctIff(l);
    forall k, m | 0 <= k < m < |b|
      ensures b[k] != b[m]
    {
      assert b[k] == l[i + k] && b[m] == l[i + m];
    }
    DistinctIff(b);
  }

  lemma PartsDisjoint(l: seq<nat>, i: nat)
    requires i <= |l| && forall k, m :: 0 <= k < m < |l| ==> l[k] != l[m]
    ensures Disjoint(l[..i], l[i..])
  {
    var a, b := l[..i], l[i..];
    forall k, m | 0 <= k < |a| && 0 <= m < |b|
      ensures a[k] != b[m]
    {
      assert a[k] == l[k] && b[m] == l[i + m];
    }
  }

  /** The pieces of a list: a segment, a list after it, and nothing in common. */
  lemma ListParts(nodes: seq<Node>, l: seq<nat>, i: nat)
    requires IsList(nodes, l) && i <= |l|
    ensures IsSegment(nodes, l[..i]) && IsList(nodes, l[i..]) && Disjoint(l[..i], l[i..])
    ensures i < |l| ==> nodes[l[i]].next == LinkTo(l[i + 1..])
  {
    SegmentPrefix(nodes, l, i);
    ListSuffix(nodes, l, i);
    DistinctIff(l);
    PartsDisjoint(l, i);
    if i + 1 < |l| {
      assert nodes[l[i]].next == Ref(l[i + 1]);
    }
  }

  /** A segment followed by a list it links to is a list. */
  lemma Join(nodes: seq<Node>, a: seq<nat>, b: seq<nat>)
    requires a != [] && IsSegment(nodes, a) && IsList(nodes, b) && Disjoint(a, b)
    requires nodes[a[|a| - 1]].next == LinkTo(b)
    ensures IsList(nodes, a + b)
    ensures View(nodes, a + b) == View(nodes, a) + View(nodes, b)
  {
    JoinSegments(nodes, a, b);
    if b == [] {
      assert (a + b)[|a + b| - 1] == a[|a| - 1];
    } else {
      assert (a + b)[|a + b| - 1] == b[|b| - 1];
    }
  }

  /** Two segments, the first linking to the second, make one segment. */
  lemma JoinSegments(nodes: seq<Node>, a: seq<nat>, b: seq<nat>)
    requires a != [] && IsSegment(nodes, a) && IsSegment(nodes, b) && Disjoint(a, b)
    requires nodes[a[|a| - 1]].next == LinkTo(b)
    ensures IsSegment(nodes, a + b)
    ensures View(nodes, a + b) == View(nodes, a) + View(nodes, b)
  {
    JoinInside(nodes, a, b);
    DistinctIff(a);
    DistinctIff(b);
    JoinDistinct(a, b);
    DistinctIff(a + b);
    JoinLinks(nodes, a, b);
    ViewConcat(nodes, a, b);
  }

  lemma JoinInside(nodes: seq<Node>, a: seq<nat>, b: seq<nat>)
    requires forall k :: 0 <= k < |a| ==> a[k] < |nodes| && 1 <= nodes[a[k]].width <= 2
    requires forall k :: 0 <= k < |b| ==> b[k] < |nodes| && 1 <= nodes[b[k]].width <= 2
    ensures forall k :: 0 <= k < |a + b| ==> (a + b)[k] < |nodes| && 1 <= nodes[(a + b)[k]].width <= 2
  {
  }

  lemma JoinLinks(nodes: seq<Node>, a: seq<nat>, b: seq<nat>)
    requires a != [] && forall k :: 0 <= k < |a| ==> a[k] < |nodes|
    requires forall k :: 0 <= k < |b| ==> b[k] < |nodes|
    requires forall k {:trigger nodes[a[k]]} :: 0 <= k < |a| - 1 ==> nodes[a[k]].next == Ref(a[k + 1])
    requires forall k {:trigger nodes[b[k]]} :: 0 <= k < |b| - 1 ==> nodes[b[k]].next == Ref(b[k + 1])
    requires nodes[a[|a| - 1]].next == LinkTo(b)
    ensures forall k {:trigger nodes[(a + b)[k]]} :: 0 <= k < |a + b| - 1 ==> nodes[(a + b)[k]].next == Ref((a + b)[k + 1])
  {
    var l := a + b;
    forall k | 0 <= k < |l| - 1
      ensures nodes[l[k]].next == Ref(l[k + 1])
    {
      if k < |a| - 1 {
        assert l[k] == a[k] && l[k + 1] == a[k + 1];
        assert nodes[a[k]].next == Ref(a[k + 1]);
      } else if k == |a| - 1 {
        assert l[k] == a[k] && l[k + 1] == b[0];
      } else {
        assert l[k] == b[k - |a|] && l[k + 1] == b[k - |a| + 1];
        assert nodes[b[k - |a|]].next == Ref(b[k - |a| + 1]);
      }
    }
  }

  lemma JoinDistinct(a: seq<nat>, b: seq<nat>)
    requires forall k, m :: 0 <= k < m < |a| ==> a[k] != a[m]
    requires forall k, m :: 0 <= k < m < |b| ==> b[k] != b[m]
    requires Disjoint(a, b)
    ensures forall k, m :: 0 <= k < m < |a + b| ==> (a + b)[k] != (a + b)[m]
  {
    var l := a + b;
    forall k, m | 0 <= k < m < |l|
      ensures l[k] != l[m]
    {
      if m < |a| {
        assert l[k] == a[k] && l[m] == a[m];
      } else if k >= |a| {
        assert l[k] == b[k - |a|] && l[m] == b[m - |a|];
      } else {
        assert l[k] == a[k] && l[m] == b[m - |a|];
      }
    }
  }

  /** Replacing the last node of a segment by one of the same width keeps the segment. */
  lemma UpdateLast(nodes: seq<Node>, l: seq<nat>, nd: Node)
    requires l != [] && IsSegment(nodes, l) && 1 <= nd.width <= 2
    ensures var nodes' := nodes[l[|l| - 1] := nd];
            IsSegment(nodes', l) &&
            View(nodes', l) == View(nodes, l)[..|l| - 1] + [Run(nd.width, nd.count)]
  {
    var nodes' := nodes[l[|l| - 1] := nd];
    DistinctIff(l);
    forall k | 0 <= k < |l| - 1
      ensures nodes'[l[k]] == nodes[l[k]]
    {
      assert l[k] != l[|l| - 1];
    }
  }

  /**
   * What `split` does to the arena: node `a` keeps its first `q` code points
   * and links to a new node, appended to the arena, that holds the others
   * and links where `a` used to.
   */
  function CutArena(nodes: seq<Node>, a: nat, q: nat): (nodes': seq<Node>)
    requires a < |nodes| && q <= nodes[a].count
    ensures |nodes'| == |nodes| + 1
    ensures nodes'[a] == Node(q, nodes[a].width, Ref(|nodes|))
    ensures nodes'[|nodes|] == Node(nodes[a].count - q, nodes[a].width, nodes[a].next)
    ensures forall x :: 0 <= x < |nodes| && x != a ==> nodes'[x] == nodes[x]
  {
    var nd := nodes[a];
    (nodes + [Node(nd.count - q, nd.width, nd.next)])[a := Node(q, nd.width, Ref(|nodes|))]
  }

  /** `split`'s three updates, in its order, build `CutArena`. */
  lemma CutSteps(nodes: seq<Node>, a: nat, nd: Node, q: nat, n1: seq<Node>, n2: seq<Node>, n3: seq<Node>)
    requires a < |nodes| && nd == nodes[a] && q <= nd.count
    requires n1 == nodes + [Node(nd.count - q, nd.width, nd.next)]
    requires n2 == n1[a := n1[a].(next := Ref(|nodes|))]
    requires n3 == n2[a := n2[a].(count := q)]
    ensures n3 == CutArena(nodes, a, q)
  {
  }

  /** Cutting node `l[i]` inserts the new node after it and splits its run in two. */
  lemma CutNode(nodes: seq<Node>, l: seq<nat>, i: nat, q: nat)
    requires IsList(nodes, l) && i < |l| && q <= nodes[l[i]].count
    ensures IsList(CutArena(nodes, l[i], q), l[..i + 1] + [|nodes|] + l[i + 1..])
    ensures View(CutArena(nodes, l[i], q), l[..i + 1] + [|nodes|] + l[i + 1..]) == Cut(View(nodes, l), i, q)
  {
    CutFront(nodes, l, i, q, CutArena(nodes, l[i], q), View(nodes, l));
    CutBack(nodes, l, i, q, CutArena(nodes, l[i], q), View(nodes, l));
    CutDisjoint(nodes, l, i);
    CutJoin(CutArena(nodes, l[i], q), l, i, |nodes|, View(nodes, l), q);
  }

  /** The new node's address is not among those of the list. */
  lemma CutDisjoint(nodes: seq<Node>, l: seq<nat>, i: nat)
    requires IsList(nodes, l) && i < |l|
    ensures Disjoint(l[..i + 1], [|nodes|] + l[i + 1..])
  {
    var front, tail := l[..i + 1], [|nodes|] + l[i + 1..];
    ListParts(nodes, l, i + 1);
    forall k, m | 0 <= k < |front| && 0 <= m < |tail|
      ensures front[k] != tail[m]
    {
      if m > 0 {
        assert tail[m] == l[i + m];
      }
    }
  }

  /** Joining the two halves of a cut list. */
  lemma CutJoin(nodes': seq<Node>, l: seq<nat>, i: nat, extra: nat, V: seq<Run>, q: nat)
    requires i < |l| && i < |V| && q <= V[i].count
    requires IsSegment(nodes', l[..i + 1]) && View(nodes', l[..i + 1]) == V[..i] + [Run(V[i].width, q)]
    requires IsList(nodes', [extra] + l[i + 1..])
    requires View(nodes', [extra] + l[i + 1..]) == [Run(V[i].width, V[i].count - q)] + V[i + 1..]
    requires Disjoint(l[..i + 1], [extra] + l[i + 1..])
    requires nodes'[l[i]].next == Ref(extra)
    ensures IsList(nodes', l[..i + 1] + [extra] + l[i + 1..])
    ensures View(nodes', l[..i + 1] + [extra] + l[i + 1..]) == Cut(V, i, q)
  {
    var front, tail := l[..i + 1], [extra] + l[i + 1..];
    assert front[|front| - 1] == l[i];
    Join(nodes', front, tail);
    assert l[..i + 1] + [extra] + l[i + 1..] == front + tail;
    assert V[..i] + [Run(V[i].width, q)] + ([Run(V[i].width, V[i].count - q)] + V[i + 1..]) == Cut(V, i, q);
  }

  lemma CutFront(nodes: seq<Node>, l: seq<nat>, i: nat, q: nat, nodes': seq<Node>, V: seq<Run>)
    requires IsList(nodes, l) && i < |l| && q <= nodes[l[i]].count
    requires nodes' == CutArena(nodes, l[i], q) && V == View(nodes, l)
    ensures IsSegment(nodes', l[..i + 1]) && View(nodes', l[..i + 1]) == V[..i] + [Run(V[i].width, q)]
  {
    var nd := nodes[l[i]];
    var front, grown := l[..i + 1], nodes + [Node(nd.count - q, nd.width, nd.next)];
    ListParts(nodes, l, i + 1);
    assert forall k :: 0 <= k < |front| ==> front[k] < |nodes| && grown[front[k]] == nodes[front[k]];
    Frame(nodes, grown, front);
    assert front[|front| - 1] == l[i];
    UpdateLast(grown, front, Node(q, nd.width, Ref(|nodes|)));
    ViewSlice(nodes, l, 0, i + 1);
    assert l[0..i + 1] == front;
  }

  lemma CutRest(nodes: seq<Node>, l: seq<nat>, i: nat, q: nat, nodes': seq<Node>)
    requires IsList(nodes, l) && i < |l| && q <= nodes[l[i]].count && nodes' == CutArena(nodes, l[i], q)
    ensures IsList(nodes', l[i + 1..]) && View(nodes', l[i + 1..]) == View(nodes, l)[i + 1..]
  {
    var front, back := l[..i + 1], l[i + 1..];
    ListParts(nodes, l, i + 1);
    forall k | 0 <= k < |back|
      ensures back[k] < |nodes| && nodes'[back[k]] == nodes[back[k]]
    {
      assert front[i] == l[i] && front[i] != back[k];
    }
    Frame(nodes, nodes', back);
    ViewParts(nodes, l, i + 1, i + 1);
  }

  lemma CutBack(nodes: seq<Node>, l: seq<nat>, i: nat, q: nat, nodes': seq<Node>, V: seq<Run>)
    requires IsList(nodes, l) && i < |l| && q <= nodes[l[i]].count
    requires nodes' == CutArena(nodes, l[i], q) && V == View(nodes, l)
    ensures IsList(nodes', [|nodes|] + l[i + 1..])
    ensures View(nodes', [|nodes|] + l[i + 1..]) == [Run(V[i].width, V[i].count - q)] + V[i + 1..]
  {
    var back, extra := l[i + 1..], |nodes|;
    CutRest(nodes, l, i, q, nodes');
    ListParts(nodes, l, i + 1);
    assert IsSegment(nodes', [extra]);
    assert Disjoint([extra], back);
    assert nodes'[extra].next == LinkTo(back);
    Join(nodes', [extra], back);
    assert V[i] == Run(nodes[l[i]].width, nodes[l[i]].count);
    assert View(nodes', [extra]) == [Run(V[i].width, V[i].count - q)];
    ViewParts(nodes, l, i + 1, i + 1);
  }

  /**
   * What `append` does to the arena for one code point of `w` units when its
   * current node is `n`: the node grows by one if it has that width, otherwise
   * a new node of one code point, linked to nothing, is appended to the arena
   * and `n` links to it.
   */
  function PushArena(nodes: seq<Node>, n: nat, w: nat): (nodes': seq<Node>)
    requires n < |nodes|
    ensures nodes[n].width == w ==> |nodes'| == |nodes|
    ensures nodes[n].width != w ==> |nodes'| == |nodes| + 1 && nodes'[|nodes|] == Node(1, w, Nil)
    ensures nodes'[n].width == nodes[n].width
    ensures forall x :: 0 <= x < |nodes| && x != n ==> nodes'[x] == nodes[x]
  {
    if nodes[n].width == w then nodes[n := nodes[n].(count := nodes[n].count + 1)]
    else (nodes + [Node(1, w, Nil)])[n := nodes[n].(next := Ref(|nodes|))]
  }

  /**
   * `nodes'` is `nodes` after pushing code points onto node `n`: the new
   * nodes `added` follow `n` in one segment, the last of which ends the list
   * unless nothing was added, and no other old node changed.
   */
  ghost predicate Appended(nodes: seq<Node>, nodes': seq<Node>, n: nat, added: seq<nat>)
  {
    n < |nodes| <= |nodes'| && nodes'[n].width == nodes[n].width &&
    (forall x :: 0 <= x < |nodes| && x != n ==> nodes'[x] == nodes[x]) &&
    (forall k :: 0 <= k < |added| ==> |nodes| <= added[k]) &&
    IsSegment(nodes', [n] + added) &&
    nodes'[([n] + added)[|added|]].next == if added == [] then nodes[n].next else Nil
  }

  /** Pushing onto the last node of a segment pushes onto its runs. */
  lemma PushNode(nodes: seq<Node>, l: seq<nat>, w: nat, nodes': seq<Node>, l': seq<nat>)
    requires l != [] && IsSegment(nodes, l) && 1 <= w <= 2
    requires nodes' == PushArena(nodes, l[|l| - 1], w)
    requires l' == if nodes[l[|l| - 1]].width == w then l else l + [|nodes|]
    ensures l' != [] && IsSegment(nodes', l') && View(nodes', l') == Push(View(nodes, l), w)
    ensures nodes'[l'[|l'| - 1]].next == if nodes[l[|l| - 1]].width == w then nodes[l[|l| - 1]].next else Nil
  {
    if nodes[l[|l| - 1]].width == w {
      PushSame(nodes, l, w);
    } else {
      PushRelink(nodes, l, w);
      PushNew(nodes, l, w);
    }
  }

  lemma PushSame(nodes: seq<Node>, l: seq<nat>, w: nat)
    requires l != [] && IsSegment(nodes, l) && nodes[l[|l| - 1]].width == w
    ensures var last := l[|l| - 1];
            var nodes' := PushArena(nodes, last, w);
            IsSegment(nodes', l) && View(nodes', l) == Push(View(nodes, l), w) &&
            nodes'[last].next == nodes[last].next
  {
    var last := l[|l| - 1];
    var nd := nodes[last];
    UpdateLast(nodes, l, nd.(count := nd.count + 1));
  }

  /** The old nodes of the segment, the last one now linking to the new node. */
  lemma PushRelink(nodes: seq<Node>, l: seq<nat>, w: nat)
    requires l != [] && IsSegment(nodes, l) && nodes[l[|l| - 1]].width != w
    ensures var nodes' := PushArena(nodes, l[|l| - 1], w);
            IsSegment(nodes', l) && View(nodes', l) == View(nodes, l) &&
            nodes'[l[|l| - 1]].next == Ref(|nodes|)
  {
    var last := l[|l| - 1];
    var nd := nodes[last];
    var grown := nodes + [Node(1, w, Nil)];
    assert forall k :: 0 <= k < |l| ==> l[k] < |nodes| && grown[l[k]] == nodes[l[k]];
    Frame(nodes, grown, l);
    UpdateLast(grown, l, nd.(next := Ref(|nodes|)));
  }

  lemma PushNew(nodes: seq<Node>, l: seq<nat>, w: nat)
    requires l != [] && 1 <= w <= 2 && forall k :: 0 <= k < |l| ==> l[k] < |nodes|
    requires nodes[l[|l| - 1]].width != w
    requires var nodes' := PushArena(nodes, l[|l| - 1], w);
             IsSegment(nodes', l) && View(nodes', l) == View(nodes, l) &&
             nodes'[l[|l| - 1]].next == Ref(|nodes|)
    ensures var nodes' := PushArena(nodes, l[|l| - 1], w);
            IsList(nodes', l + [|nodes|]) && View(nodes', l + [|nodes|]) == Push(View(nodes, l), w)
  {
    var nodes' := PushArena(nodes, l[|l| - 1], w);
    assert IsList(nodes', [|nodes|]);
    Join(nodes', l, [|nodes|]);
  }

  /**
   * What `graft` does to the arena once it has skipped the empty nodes:
   * node `n` absorbs the node at `m` when both have the same width (and
   * links past it), and otherwise links to `m`.
   */
  function GraftArena(nodes: seq<Node>, n: nat, m: Link): (nodes': seq<Node>)
    requires n < |nodes| && (m.Ref? ==> m.addr < |nodes|)
    ensures |nodes'| == |nodes| && nodes'[n].width == nodes[n].width
    ensures forall x :: 0 <= x < |nodes| && x != n ==> nodes'[x] == nodes[x]
  {
    if m.Ref? && nodes[m.addr].width == nodes[n].width
    then nodes[n := Node(nodes[n].count + nodes[m.addr].count, nodes[n].width, nodes[m.addr].next)]
    else nodes[n := nodes[n].(next := m)]
  }

  /** Whether `graft` merges the first node of `tail` into node `n`. */
  ghost predicate Merges(nodes: seq<Node>, n: nat, tail: seq<nat>)
    requires n < |nodes| && forall k :: 0 <= k < |tail| ==> tail[k] < |nodes|
  {
    tail != [] && nodes[tail[0]].width == nodes[n].width
  }

  /** Passing over the `p` empty nodes at the front of a list drops exactly its empty runs. */
  lemma SkipDone(nodes: seq<Node>, rest: seq<nat>, p: nat)
    requires IsList(nodes, rest) && p <= |rest|
    requires forall q :: 0 <= q < p ==> nodes[rest[q]].count == 0
    requires p < |rest| ==> nodes[rest[p]].count > 0
    ensures LinkAt(rest, p) == LinkTo(rest[p..])
    ensures DropEmpty(View(nodes, rest)) == View(nodes, rest[p..])
  {
    var V := View(nodes, rest);
    assert forall q :: 0 <= q < p ==> V[q] == RunAt(nodes, rest, q);
    DropEmptyAt(V, p);
    ViewSlice(nodes, rest, p, |rest|);
    assert rest[p..|rest|] == rest[p..];
  }

  /** The runs of a prefix and of a suffix of `l`. */
  lemma ViewParts(nodes: seq<Node>, l: seq<nat>, i: nat, j: nat)
    requires i <= |l| && j <= |l| && forall k :: 0 <= k < |l| ==> l[k] < |nodes|
    ensures View(nodes, l[..i]) == View(nodes, l)[..i] && View(nodes, l[j..]) == View(nodes, l)[j..]
  {
  }

  /** Grafting the list `tail` after segment `a` attaches its runs. */
  lemma GraftNode(nodes: seq<Node>, a: seq<nat>, tail: seq<nat>, last: nat, nodes': seq<Node>, out: seq<nat>)
    requires a != [] && IsSegment(nodes, a) && IsList(nodes, tail) && Disjoint(a, tail)
    requires last == a[|a| - 1] && nodes' == GraftArena(nodes, last, LinkTo(tail))
    requires out == if Merges(nodes, last, tail) then tail[1..] else tail
    ensures IsList(nodes', a + out) && View(nodes', a + out) == Attach(View(nodes, a), View(nodes, tail))
  {
    var d := if Merges(nodes, last, tail) then 1 else 0;
    assert out == tail[d..];
    GraftTail(nodes, a, tail, d);
    GraftFront(nodes, a, tail);
    Join(nodes', a, tail[d..]);
    GraftView(nodes, a, tail, d);
  }

  /** The part of `tail` that stays linked is untouched. */
  lemma GraftTail(nodes: seq<Node>, a: seq<nat>, tail: seq<nat>, d: nat)
    requires a != [] && IsSegment(nodes, a) && IsList(nodes, tail) && Disjoint(a, tail)
    requires d <= |tail|
    ensures var nodes' := GraftArena(nodes, a[|a| - 1], LinkTo(tail));
            IsList(nodes', tail[d..]) && View(nodes', tail[d..]) == View(nodes, tail)[d..] &&
            Disjoint(a, tail[d..])
  {
    var last := a[|a| - 1];
    assert forall k :: 0 <= k < |tail| ==> tail[k] != last;
    SuffixFrame(nodes, GraftArena(nodes, last, LinkTo(tail)), tail, d, last);
    DisjointSuffix(a, tail, d);
  }

  /** A suffix of a list that avoids the one node that changed is unaffected. */
  lemma SuffixFrame(nodes: seq<Node>, nodes': seq<Node>, l: seq<nat>, d: nat, x: nat)
    requires IsList(nodes, l) && d <= |l| && |nodes| <= |nodes'|
    requires forall k :: d <= k < |l| ==> l[k] != x
    requires forall y :: 0 <= y < |nodes| && y != x ==> nodes'[y] == nodes[y]
    ensures IsList(nodes', l[d..]) && View(nodes', l[d..]) == View(nodes, l)[d..]
  {
    var out := l[d..];
    ListParts(nodes, l, d);
    assert forall k :: 0 <= k < |out| ==> out[k] == l[d + k];
    Frame(nodes, nodes', out);
    ViewSlice(nodes, l, d, |l|);
    assert l[d..|l|] == out;
  }

  lemma DisjointSuffix(a: seq<nat>, b: seq<nat>, d: nat)
    requires Disjoint(a, b) && d <= |b|
    ensures Disjoint(a, b[d..])
  {
    var out := b[d..];
    forall k, m | 0 <= k < |a| && 0 <= m < |out|
      ensures a[k] != out[m]
    {
      assert out[m] == b[d + m];
    }
  }

  /** The segment keeps its shape; its last node now holds the grafted run and links past it. */
  lemma GraftFront(nodes: seq<Node>, a: seq<nat>, tail: seq<nat>)
    requires a != [] && IsSegment(nodes, a) && IsList(nodes, tail)
    ensures var last := a[|a| - 1];
            var nodes' := GraftArena(nodes, last, LinkTo(tail));
            var V := View(nodes, a);
            IsSegment(nodes', a) &&
            nodes'[last].next == LinkTo(if Merges(nodes, last, tail) then tail[1..] else tail) &&
            View(nodes', a) == V[..|a| - 1] + [Run(nodes[last].width, nodes'[last].count)] &&
            nodes'[last].count == if Merges(nodes, last, tail) then nodes[last].count + nodes[tail[0]].count
                                  else nodes[last].count
  {
    var last := a[|a| - 1];
    var nodes' := GraftArena(nodes, last, LinkTo(tail));
    UpdateLast(nodes, a, nodes'[last]);
    if Merges(nodes, last, tail) && |tail| > 1 {
      assert nodes[tail[0]].next == Ref(tail[1]);
    }
  }

  lemma GraftView(nodes: seq<Node>, a: seq<nat>, tail: seq<nat>, d: nat)
    requires a != [] && IsSegment(nodes, a) && IsList(nodes, tail)
    requires d == if Merges(nodes, a[|a| - 1], tail) then 1 else 0
    requires var last := a[|a| - 1];
             var nodes' := GraftArena(nodes, last, LinkTo(tail));
             var V := View(nodes, a);
             View(nodes', a + tail[d..]) == View(nodes', a) + View(nodes', tail[d..]) &&
             View(nodes', tail[d..]) == View(nodes, tail)[d..] &&
             View(nodes', a) == V[..|a| - 1] + [Run(nodes[last].width, nodes'[last].count)] &&
             nodes'[last].count == if d == 1 then nodes[last].count + nodes[tail[0]].count
                                   else nodes[last].count
    ensures View(GraftArena(nodes, a[|a| - 1], LinkTo(tail)), a + tail[d..]) ==
            Attach(View(nodes, a), View(nodes, tail))
  {
    var V := View(nodes, a);
    assert V == V[..|a| - 1] + [V[|a| - 1]];
  }

  /**
   * A list split at `x` and `y`: the nodes before `x` form a segment, those
   * from `y` on a list, with nothing in common, and node `y - 1` links to it.
   */
  lemma ListGap(nodes: seq<Node>, l: seq<nat>, x: nat, y: nat)
    requires IsList(nodes, l) && 0 < x <= y <= |l|
    ensures IsSegment(nodes, l[..x]) && IsList(nodes, l[y..]) && Disjoint(l[..x], l[y..])
    ensures nodes[l[y - 1]].next == LinkTo(l[y..])
  {
    ListParts(nodes, l, x);
    ListParts(nodes, l, y - 1);
    ListParts(nodes, l, y);
    var a, b := l[..x], l[y..];
    forall k, m | 0 <= k < |a| && 0 <= m < |b|
      ensures a[k] != b[m]
    {
      assert a[k] == l[k] && b[m] == l[y + m];
    }
  }

  /**
   * After `append` on node `l[i]`: the old nodes before it are untouched, so
   * they and the segment `append` built form one segment; the old nodes after
   * it, untouched too, still form a list, and the two share no node.
   */
  lemma AppendJoin(nodes: seq<Node>, nodes': seq<Node>, l: seq<nat>, i: nat, added: seq<nat>)
    requires IsList(nodes, l) && i < |l| && Appended(nodes, nodes', l[i], added)
    ensures nodes[l[i]].next == LinkTo(l[i + 1..])
    ensures IsSegment(nodes', l[..i + 1] + added) && (l[..i + 1] + added)[0] == l[0]
    ensures nodes'[l[0]].width == nodes[l[0]].width
    ensures (l[..i + 1] + added)[i + |added|] == ([l[i]] + added)[|added|]
    ensures nodes'[([l[i]] + added)[|added|]].next == if added == [] then LinkTo(l[i + 1..]) else Nil
    ensures View(nodes', l[..i + 1] + added) == View(nodes, l)[..i] + View(nodes', [l[i]] + added)
    ensures IsList(nodes', l[i + 1..]) && View(nodes', l[i + 1..]) == View(nodes, l)[i + 1..]
    ensures Disjoint(l[..i + 1] + added, l[i + 1..])
  {
    ListParts(nodes, l, i);
    AppendFront(nodes, nodes', l, i, added);
    assert forall k :: 0 <= k < |l| ==> l[k] < |nodes|;
    AppendRest(nodes, nodes', l, i, added);
    assert (l[..i + 1] + added)[i + |added|] == ([l[i]] + added)[|added|];
  }

  lemma AppendFront(nodes: seq<Node>, nodes': seq<Node>, l: seq<nat>, i: nat, added: seq<nat>)
    requires IsList(nodes, l) && i < |l| && |nodes| <= |nodes'|
    requires forall x :: 0 <= x < |nodes| && x != l[i] ==> nodes'[x] == nodes[x]
    requires forall k :: 0 <= k < |added| ==> |nodes| <= added[k]
    requires IsSegment(nodes', [l[i]] + added)
    ensures IsSegment(nodes', l[..i + 1] + added)
    ensures View(nodes', l[..i + 1] + added) == View(nodes, l)[..i] + View(nodes', [l[i]] + added)
  {
    var pre, seg := l[..i], [l[i]] + added;
    assert l[..i + 1] + added == pre + seg;
    if i == 0 {
      assert pre + seg == seg;
    } else {
      PrefixFrame(nodes, nodes', l, i);
      PrefixDisjoint(nodes, l, i, added);
      JoinSegments(nodes', pre, seg);
    }
  }

  /** The nodes before `l[i]` are untouched when only `l[i]` and new nodes change. */
  lemma PrefixFrame(nodes: seq<Node>, nodes': seq<Node>, l: seq<nat>, i: nat)
    requires IsList(nodes, l) && 0 < i < |l| && |nodes| <= |nodes'|
    requires forall x :: 0 <= x < |nodes| && x != l[i] ==> nodes'[x] == nodes[x]
    ensures IsSegment(nodes', l[..i]) && View(nodes', l[..i]) == View(nodes, l)[..i]
    ensures nodes'[l[i - 1]].next == Ref(l[i])
  {
    var pre := l[..i];
    ListParts(nodes, l, i);
    assert forall k :: 0 <= k < |pre| ==> pre[k] == l[k] && pre[k] != l[i];
    Frame(nodes, nodes', pre);
    ViewSlice(nodes, l, 0, i);
    assert l[0..i] == pre;
    assert nodes[l[i - 1]].next == Ref(l[i]);
  }

  lemma PrefixDisjoint(nodes: seq<Node>, l: seq<nat>, i: nat, added: seq<nat>)
    requires IsList(nodes, l) && i < |l|
    requires forall k :: 0 <= k < |added| ==> |nodes| <= added[k]
    ensures Disjoint(l[..i], [l[i]] + added)
  {
    var pre, seg := l[..i], [l[i]] + added;
    DistinctIff(l);
    forall k, m | 0 <= k < |pre| && 0 <= m < |seg|
      ensures pre[k] != seg[m]
    {
      assert pre[k] == l[k];
      if m > 0 {
        assert seg[m] == added[m - 1];
      }
    }
  }

  lemma AppendRest(nodes: seq<Node>, nodes': seq<Node>, l: seq<nat>, i: nat, added: seq<nat>)
    requires IsList(nodes, l) && i < |l| && |nodes| <= |nodes'|
    requires forall x :: 0 <= x < |nodes| && x != l[i] ==> nodes'[x] == nodes[x]
    requires forall k :: 0 <= k < |added| ==> |nodes| <= added[k]
    requires forall k :: 0 <= k < |l| ==> l[k] < |nodes|
    ensures IsList(nodes', l[i + 1..]) && View(nodes', l[i + 1..]) == View(nodes, l)[i + 1..]
    ensures Disjoint(l[..i + 1] + added, l[i + 1..])
  {
    DistinctIff(l);
    assert forall k :: i + 1 <= k < |l| ==> l[k] != l[i];
    SuffixFrame(nodes, nodes', l, i + 1, l[i]);
    SuffixDisjoint(nodes, l, i, added);
  }

  lemma SuffixDisjoint(nodes: seq<Node>, l: seq<nat>, i: nat, added: seq<nat>)
    requires IsList(nodes, l) && i < |l|
    requires forall k :: 0 <= k < |added| ==> |nodes| <= added[k]
    ensures Disjoint(l[..i + 1] + added, l[i + 1..])
  {
    var front, rest := l[..i + 1] + added, l[i + 1..];
    DistinctIff(l);
    forall k, m | 0 <= k < |front| && 0 <= m < |rest|
      ensures front[k] != rest[m]
    {
      assert rest[m] == l[i + 1 + m];
      if k <= i {
        assert front[k] == l[k];
      } else {
        assert front[k] == added[k - i - 1];
      }
    }
  }
}

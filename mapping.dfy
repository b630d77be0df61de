/**
 * `CodePointMapping`: a mapping between UTF-16 unit offsets and code point
 * offsets in a text that is being edited, kept as a linked list of runs of
 * code points that are all one unit wide or all two units wide.
 *
 * The list lives in an arena (see module Arena): `nodes` holds every node the
 * mapping has allocated, `head` is the address of the first one, and the
 * ghost `chain` lists the addresses reachable from `head`, in order.
 */
module CodePointMappings {
  import opened Outcomes
  import opened Offsets
  import opened Utf16
  import opened Runs
  import opened Arena

  class CodePointMapping {
    var nodes: seq<Node>
    /** The first node (`this.next` in the source). */
    var head: nat
    ghost var chain: seq<nat>

    /** `head` starts a well-formed list, and its width is 1. */
    ghost predicate Valid()
      reads this
    {
      chain != [] && chain[0] == head && IsList(nodes, chain) && nodes[head].width == 1
    }

    /** The runs of the list, as `[width, count]` pairs from the head on. */
    ghost function Spans(): (rs: seq<Run>)
      reads this
      requires Valid()
      ensures rs != [] && rs[0].width == 1 && WidthsOk(rs)
    {
      SegmentWidths(nodes, chain);
      View(nodes, chain)
    }

    /** The width of each code point of the text the mapping describes. */
    ghost function Content(): (ws: seq<nat>)
      reads this
      requires Valid()
      ensures IsWidths(ws)
    {
      ExpandWidths(Spans());
      Expand(Spans())
    }

    /** The head node the source's constructor starts from: no code point, width 1. */
    constructor Init()
      ensures Valid() && Spans() == [Run(1, 0)]
    {
      nodes := [Node(0, 1, Nil)];
      head := 0;
      chain := [0];
    }

    /**
     * `new CodePointMapping(str)`: the empty head with the code points of `s`
     * appended; a lone surrogate makes it fail.
     */
    static method Create(s: seq<CodeUnit>) returns (r: Result<CodePointMapping>)
      ensures r.Ok? <==> WellFormed(s)
      ensures r.Err? ==> r.error == UnpairedSurrogate
      ensures r.Ok? ==> fresh(r.value) && r.value.Valid() && r.value.Spans() == Encode(Widths(s))
    {
      var m := new CodePointMapping.Init();
      var res, added := m.Append(m.head, s);
      if res.Err? {
        return Err(res.error);
      }
      m.chain := [m.head] + added;
      return Ok(m);
    }

    /**
     * `append`: pushes the code points of `s` one at a time onto node `n`,
     * growing the current node while the width agrees and otherwise linking
     * a new node after it. `added` are the addresses of the new nodes.
     * A lone surrogate stops it with an error, after the code points before
     * it have been pushed.
     */
    method Append(n: nat, s: seq<CodeUnit>) returns (r: Result<nat>, ghost added: seq<nat>)
      requires n < |nodes| && 1 <= nodes[n].width <= 2
      modifies this`nodes
      ensures Appended(old(nodes), nodes, n, added)
      ensures r.Ok? <==> WellFormed(s)
      ensures r.Err? ==> r.error == UnpairedSurrogate
      ensures r.Ok? ==> r.value == ([n] + added)[|added|]
      ensures r.Ok? ==> View(nodes, [n] + added) == Extend([Run(old(nodes[n].width), old(nodes[n].count))], Widths(s))
    {
      var cps := Decode(s);
      DecodeShape(s);
      r, added := AppendPoints(n, cps, WidthsOf(cps));
    }

    /**
     * The loop of `append` over the code points `cps` of the text: it stops
     * at the first lone surrogate, and otherwise grows the list from node `n`
     * one code point at a time.
     */
    method AppendPoints(n: nat, cps: seq<seq<CodeUnit>>, ghost ws: seq<nat>) returns (r: Result<nat>, ghost added: seq<nat>)
      requires n < |nodes| && 1 <= nodes[n].width <= 2
      requires forall q :: 0 <= q < |cps| ==> 1 <= |cps[q]| <= 2
      requires |ws| == |cps| && forall q {:trigger cps[q]} :: 0 <= q < |cps| ==> ws[q] == |cps[q]|
      modifies this`nodes
      ensures Appended(old(nodes), nodes, n, added)
      ensures r.Ok? <==> forall q :: 0 <= q < |cps| ==> !IsLoneSurrogate(cps[q])
      ensures r.Err? ==> r.error == UnpairedSurrogate
      ensures r.Ok? ==> r.value == ([n] + added)[|added|]
      ensures r.Ok? ==> View(nodes, [n] + added) == Extend([Run(old(nodes[n].width), old(nodes[n].count))], ws)
    {
      ghost var nodes0, first := nodes, Run(nodes[n].width, nodes[n].count);
      var cur := n;
      added := [];
      assert View(nodes, [n] + added) == [first];
      for q := 0 to |cps|
        invariant Appended(nodes0, nodes, n, added) && cur == ([n] + added)[|added|]
        invariant View(nodes, [n] + added) == Extend([first], ws[..q])
        invariant forall p :: 0 <= p < q ==> !IsLoneSurrogate(cps[p])
      {
        var x := cps[q];
        if |x| == 1 && 0xD800 <= x[0] <= 0xDFFF {
          assert IsLoneSurrogate(cps[q]);
          return Err(UnpairedSurrogate), added;
        }
        assert forall p :: 0 <= p < q + 1 ==> !IsLoneSurrogate(cps[p]);
        cur, added := Grow(cur, |x|, n, added, nodes0);
        ExtendStep([first], ws, q);
      }
      assert ws[..|cps|] == ws;
      return Ok(cur), added;
    }

    /**
     * One step of `append`: node `cur`, the last of `[n] + added`, counts one
     * more code point of width `w` when it has that width; otherwise a new
     * node holding that code point is linked after it and becomes the last.
     */
    method Grow(cur: nat, w: nat, ghost n: nat, ghost added: seq<nat>, ghost nodes0: seq<Node>)
        returns (last: nat, ghost added': seq<nat>)
      requires 1 <= w <= 2 && Appended(nodes0, nodes, n, added) && cur == ([n] + added)[|added|]
      modifies this`nodes
      ensures nodes == PushArena(old(nodes), cur, w)
      ensures Appended(nodes0, nodes, n, added') && last == ([n] + added')[|added'|]
      ensures View(nodes, [n] + added') == Push(old(View(nodes, [n] + added)), w)
    {
      ghost var before := nodes;
      var nd := nodes[cur];
      if nd.width == w {
        nodes := nodes[cur := nd.(count := nd.count + 1)];
        last, added' := cur, added;
      } else {
        var extra := |nodes|;
        nodes := nodes + [Node(1, w, Nil)];
        nodes := nodes[cur := nodes[cur].(next := Ref(extra))];
        last, added' := extra, added + [extra];
        assert [n] + added' == ([n] + added) + [extra];
      }
      PushNode(before, [n] + added, w, nodes, [n] + added');
    }

    /**
     * `split`: cuts the node where unit offset `unitOff`, counted from node
     * `n` (the `j`th of the list), falls in two, the first part keeping the
     * code points before the offset. Returns that node and the number of code
     * points from `n` to the offset. The cut node is the `i`th; it keeps `a`
     * code points.
     */
    method Split(n: nat, unitOff: nat, ghost j: nat) returns (r: Result<nat>, node: nat, ghost i: nat, ghost a: nat)
      requires Valid() && j < |chain| && chain[j] == n
      modifies this`nodes, this`chain
      ensures Valid()
      ensures r == Walk(old(Spans()), j, unitOff)
      ensures r.Err? ==> nodes == old(nodes) && chain == old(chain)
      ensures r.Ok? ==> j <= i < old(|chain|) && a <= old(Spans())[i].count && (i > j ==> a > 0)
      ensures r.Ok? ==> node == old(chain)[i] && r.value == Points(old(Spans()), j, i) + a
      ensures r.Ok? ==> nodes == CutArena(old(nodes), old(chain)[i], a)
      ensures r.Ok? ==> chain == old(chain)[..i + 1] + [old(|nodes|)] + old(chain)[i + 1..]
      ensures r.Ok? ==> i + 1 < |chain| && chain[i] == node
      ensures r.Ok? ==> Spans() == Cut(old(Spans()), i, a)
    {
      ghost var R := Spans();
      var cur, rem, cpOff;
      cur, rem, cpOff, i := Skip(n, unitOff, j);
      if cur.Nil? {
        return Err(OffsetBeyondEnd), 0, i, 0;
      }
      Step(nodes, chain, i);
      var nd := nodes[cur.addr];
      WalkStop(R, j, i, unitOff, rem, cpOff);
      if Leftover(rem, nd.width) != 0 {
        return Err(OffsetInMiddleOfSurrogate), 0, i, 0;
      }
      var q := Whole(rem, nd.width);
      CutAt(cur.addr, q, i);
      return Ok(cpOff + q), cur.addr, i, q;
    }

    /**
     * The walk of `split`: from node `n` (the `j`th of the list), past the
     * nodes that hold fewer than the units still to go. It stops at the end
     * of the list or at the `i`th node, which holds at least the `rem` units
     * left; `cpOff` code points were passed on the way.
     */
    method Skip(n: nat, unitOff: nat, ghost j: nat) returns (cur: Link, rem: nat, cpOff: nat, ghost i: nat)
      requires IsList(nodes, chain) && WidthsOk(View(nodes, chain)) && j < |chain| && chain[j] == n
      ensures j <= i <= |chain| && cur == LinkAt(chain, i)
      ensures cpOff == Points(View(nodes, chain), j, i) && (i > j ==> rem > 0)
      ensures Walk(View(nodes, chain), j, unitOff) == Shift(Walk(View(nodes, chain), i, rem), cpOff)
      ensures i < |chain| ==> rem <= Scale(View(nodes, chain)[i].count, View(nodes, chain)[i].width)
    {
      cpOff, rem, cur := 0, unitOff, Ref(n);
      ghost var R := View(nodes, chain);
      i := j;
      while cur.Ref? && Scale(nodes[cur.addr].count, nodes[cur.addr].width) < rem
        invariant j <= i <= |chain| && cur == LinkAt(chain, i)
        invariant cpOff == Points(R, j, i) && (i > j ==> rem > 0)
        invariant Walk(R, j, unitOff) == Shift(Walk(R, i, rem), cpOff)
        decreases |chain| - i
      {
        Step(nodes, chain, i);
        var nd := nodes[cur.addr];
        ghost var i0, rem0, cpOff0 := i, rem, cpOff;
        rem := rem - Scale(nd.count, nd.width);
        cpOff := cpOff + nd.count;
        cur := nd.next;
        i := i + 1;
        WalkPast(R, j, i0, unitOff, rem0, cpOff0, i, rem, cpOff);
      }
      if cur.Ref? {
        Step(nodes, chain, i);
      }
    }

    /**
     * The end of `split`: node `addr`, the `i`th of the list, keeps its first
     * `q` code points and a new node after it takes the others.
     */
    method CutAt(addr: nat, q: nat, ghost i: nat)
      requires Valid() && i < |chain| && chain[i] == addr && q <= nodes[addr].count
      modifies this`nodes, this`chain
      ensures nodes == CutArena(old(nodes), addr, q)
      ensures chain == old(chain)[..i + 1] + [old(|nodes|)] + old(chain)[i + 1..]
      ensures Valid() && Spans() == Cut(old(Spans()), i, q)
    {
      var nd := nodes[addr];
      var extra: nat := |nodes|;
      ghost var n0 := nodes;
      nodes := nodes + [Node(nd.count - q, nd.width, nd.next)];
      ghost var n1 := nodes;
      nodes := nodes[addr := nodes[addr].(next := Ref(extra))];
      ghost var n2 := nodes;
      nodes := nodes[addr := nodes[addr].(count := q)];
      CutSteps(n0, addr, nd, q, n1, n2, nodes);
      CutNode(n0, chain, i, q);
      chain := chain[..i + 1] + [extra] + chain[i + 1..];
    }

    /**
     * `graft`: skips the empty nodes from `m` on, then links node `n`, the
     * last of segment `pre`, to the first remaining node, absorbing it into
     * `n` when both have the same width.
     */
    method Graft(n: nat, m: Link, ghost pre: seq<nat>, ghost rest: seq<nat>)
      requires pre != [] && pre[|pre| - 1] == n && IsSegment(nodes, pre) && pre[0] == head && nodes[head].width == 1
      requires IsList(nodes, rest) && Disjoint(pre, rest) && m == LinkTo(rest)
      modifies this`nodes, this`chain
      ensures Valid() && Spans() == Splice(old(View(nodes, pre)), old(View(nodes, rest)))
    {
      var cur;
      ghost var p;
      cur, p := SkipEmpty(m, rest);
      ghost var tail := rest[p..];
      ListParts(nodes, rest, p);
      DisjointSuffix(pre, rest, p);
      ghost var n0 := nodes;
      Relink(n, cur);
      ghost var out := if Merges(n0, n, tail) then tail[1..] else tail;
      GraftNode(n0, pre, tail, n, nodes, out);
      assert nodes[head].width == 1;
      chain := pre + out;
    }

    /** The loop of `graft` that passes over the empty nodes from `m` on. */
    method SkipEmpty(m: Link, ghost rest: seq<nat>) returns (cur: Link, ghost p: nat)
      requires IsList(nodes, rest) && m == LinkTo(rest)
      ensures p <= |rest| && cur == LinkTo(rest[p..])
      ensures DropEmpty(View(nodes, rest)) == View(nodes, rest[p..])
    {
      cur, p := m, 0;
      while cur.Ref? && nodes[cur.addr].count == 0
        invariant p <= |rest| && cur == LinkAt(rest, p)
        invariant forall q :: 0 <= q < p ==> nodes[rest[q]].count == 0
        decreases |rest| - p
      {
        Step(nodes, rest, p);
        cur := nodes[cur.addr].next;
        p := p + 1;
      }
      SkipDone(nodes, rest, p);
    }

    /** The update at the end of `graft`: absorb the node at `cur` into `n`, or link `n` to it. */
    method Relink(n: nat, cur: Link)
      requires n < |nodes| && (cur.Ref? ==> cur.addr < |nodes|)
      modifies this`nodes
      ensures nodes == GraftArena(old(nodes), n, cur)
    {
      if cur.Ref? && nodes[cur.addr].width == nodes[n].width {
        var next := nodes[cur.addr];
        nodes := nodes[n := nodes[n].(count := nodes[n].count + next.count)];
        nodes := nodes[n := nodes[n].(next := next.next)];
      } else {
        nodes := nodes[n := nodes[n].(next := cur)];
      }
    }

    /**
     * `insertAt`: the code point offset of unit offset `unitOff`, and the
     * code points of `s`; the mapping then describes the text with `s`
     * inserted there.
     */
    method InsertAt(unitOff: nat, s: seq<CodeUnit>) returns (r: Result<nat>, cps: seq<seq<CodeUnit>>)
      requires Valid()
      modifies this`nodes, this`chain
      ensures Valid()
      ensures CpOffset(old(Content()), unitOff).Err? ==>
                r == CpOffset(old(Content()), unitOff) && nodes == old(nodes) && chain == old(chain)
      ensures CpOffset(old(Content()), unitOff).Ok? && !WellFormed(s) ==> r == Err(UnpairedSurrogate)
      ensures CpOffset(old(Content()), unitOff).Ok? && WellFormed(s) ==>
                var k := CpOffset(old(Content()), unitOff).value;
                r == Ok(k) && cps == Decode(s) && Content() == old(Content())[..k] + Widths(s) + old(Content())[k..]
      ensures old(Canonical(Spans())) && r.Ok? ==> Canonical(Spans())
    {
      ghost var R0 := Spans();
      ghost var W0 := Content();
      assert W0 == Expand(R0);
      WalkFromStart(R0, unitOff);
      var found, node, i, a := Split(head, unitOff, 0);
      if found.Err? {
        return found, [];
      }
      SplitFound(R0, unitOff, i, a, found.value);
      var filled := Fill(node, s, i);
      if filled.Err? {
        return Err(filled.error), [];
      }
      assert Spans() == Inserted(R0, i, a, Widths(s));
      InsertExpand(R0, i, a, Widths(s), found.value);
      if Canonical(R0) {
        InsertCanonical(R0, i, a, Widths(s));
      }
      return found, Decode(s);
    }

    /**
     * The rest of `insertAt`, once node `n` (the `i`th) ends at the offset:
     * the code points of `s` are appended to it, and the nodes that followed
     * it are grafted back after them.
     */
    method Fill(n: nat, s: seq<CodeUnit>, ghost i: nat) returns (r: Result<()>)
      requires Valid() && i < |chain| && chain[i] == n
      modifies this`nodes, this`chain
      ensures Valid()
      ensures r.Ok? <==> WellFormed(s)
      ensures r.Err? ==> r.error == UnpairedSurrogate
      ensures r.Ok? ==> Spans() == Splice(Extend(old(Spans())[..i + 1], Widths(s)), old(Spans())[i + 1..])
    {
      var after := nodes[n].next;
      ghost var c1, nodes1, R1 := chain, nodes, Spans();
      ghost var pre, rest := c1[..i + 1], c1[i + 1..];
      assert R1[i] == Run(nodes[n].width, nodes[n].count);
      var app, added := Append(n, s);
      AppendJoin(nodes1, nodes, c1, i, added);
      ghost var post := pre + added;
      if app.Err? {
        Abandon(post, rest, added == []);
        return Err(app.error);
      }
      ExtendAt(R1, i, Widths(s));
      assert View(nodes, post) == Extend(R1[..i + 1], Widths(s));
      Graft(app.value, after, post, rest);
      return Ok(());
    }

    /**
     * After a failed `append` the list still starts at the head and runs
     * through segment `post`; it reaches the old tail `rest` only when no
     * node was added, since a fresh node ends the list.
     */
    ghost method Abandon(post: seq<nat>, rest: seq<nat>, kept: bool)
      requires post != [] && IsSegment(nodes, post) && post[0] == head && nodes[head].width == 1
      requires IsList(nodes, rest) && Disjoint(post, rest)
      requires nodes[post[|post| - 1]].next == if kept then LinkTo(rest) else Nil
      modifies this`chain
      ensures Valid() && chain == if kept then post + rest else post
    {
      if kept {
        Join(nodes, post, rest);
        chain := post + rest;
      } else {
        chain := post;
      }
    }

    /**
     * `deleteAt`: the code point offset of unit offset `unitOff` and the
     * number of code points in the `unitLen` units after it; the mapping
     * then describes the text with those units removed.
     */
    method DeleteAt(unitOff: nat, unitLen: nat) returns (r: Result<nat>, cpLen: nat)
      requires Valid()
      modifies this`nodes, this`chain
      ensures Valid()
      ensures CpOffset(old(Content()), unitOff).Err? ==>
                r == CpOffset(old(Content()), unitOff) && nodes == old(nodes) && chain == old(chain)
      ensures CpOffset(old(Content()), unitOff).Ok? ==>
                var k1 := CpOffset(old(Content()), unitOff).value;
                var second := CpOffset(old(Content())[k1..], unitLen);
                (second.Err? ==> r == second && Content() == old(Content())) &&
                (second.Ok? ==> r == Ok(k1) && cpLen == second.value &&
                                Content() == old(Content())[..k1] + old(Content())[k1 + second.value..])
      ensures old(Canonical(Spans())) && r.Ok? ==> Canonical(Spans())
    {
      ghost var R0 := Spans();
      ghost var W0 := Content();
      assert W0 == Expand(R0);
      WalkFromStart(R0, unitOff);
      var first, node, i, a := Split(head, unitOff, 0);
      r, cpLen := first, 0;
      if first.Ok? {
        SplitFound(R0, unitOff, i, a, first.value);
        var second := Remove(node, unitLen, i, a, first.value, R0);
        if second.Err? {
          r := second;
        } else {
          cpLen := second.value;
        }
      }
    }

    /**
     * The second half of `deleteAt`: once the run holding the start of the
     * range was cut `a` code points in (`k` code points into the text `W` of
     * runs `R`), removes `unitLen` units from there.
     */
    method Remove(n: nat, unitLen: nat, ghost i: nat, ghost a: nat, ghost k: nat, ghost R: seq<Run>)
        returns (r: Result<nat>)
      requires Valid() && i + 1 < |chain| && chain[i] == n
      requires i < |R| && a <= R[i].count && (i == 0 || a > 0)
      requires Spans() == Cut(R, i, a) && k == |Expand(R[..i])| + a
      modifies this`nodes, this`chain
      ensures Valid() && k <= |Expand(R)|
      ensures r == CpOffset(Expand(R)[k..], unitLen)
      ensures r.Err? ==> Content() == Expand(R)
      ensures r.Ok? ==> Content() == Expand(R)[..k] + Expand(R)[k + r.value..]
      ensures r.Ok? && Canonical(R) ==> Canonical(Spans())
    {
      DeleteFrom(R, i, a, k, unitLen);
      ghost var R1 := Spans();
      ghost var i2, a2;
      r, i2, a2 := Excise(n, unitLen, i);
      if r.Err? {
        assert Spans() == R1;
      } else {
        RemoveOk(R, i, a, k, i2, a2, r.value, unitLen);
        assert Content() == Expand(Spans());
      }
    }

    /**
     * The rest of `deleteAt`, once node `n` (the `i`th) ends at the offset:
     * the node after it is split `unitLen` units further on, at the `i2`th
     * node, and `n` is grafted onto the nodes after that one, dropping the
     * nodes between.
     */
    method Excise(n: nat, unitLen: nat, ghost i: nat) returns (r: Result<nat>, ghost i2: nat, ghost a2: nat)
      requires Valid() && i + 1 < |chain| && chain[i] == n
      modifies this`nodes, this`chain
      ensures Valid()
      ensures r == Walk(old(Spans()), i + 1, unitLen)
      ensures r.Err? ==> nodes == old(nodes) && chain == old(chain)
      ensures r.Ok? ==> i < i2 < old(|chain|) && a2 <= old(Spans())[i2].count && r.value == Points(old(Spans()), i + 1, i2) + a2
      ensures r.Ok? ==> Spans() == Splice(Cut(old(Spans()), i2, a2)[..i + 1], Cut(old(Spans()), i2, a2)[i2 + 1..])
    {
      Step(nodes, chain, i);
      var endNode;
      r, endNode, i2, a2 := Split(nodes[n].next.addr, unitLen, i + 1);
      if r.Err? {
        return;
      }
      ghost var c2 := chain;
      assert c2[i] == n && c2[i2] == endNode;
      Snip(n, endNode, i, i2);
    }

    /**
     * The end of `deleteAt`: node `n` (the `i`th) is grafted onto the nodes
     * after node `e` (the `i2`th), dropping the nodes between.
     */
    method Snip(n: nat, e: nat, ghost i: nat, ghost i2: nat)
      requires Valid() && i < i2 < |chain| && chain[i] == n && chain[i2] == e
      modifies this`nodes, this`chain
      ensures Valid() && Spans() == Splice(old(Spans())[..i + 1], old(Spans())[i2 + 1..])
    {
      ListGap(nodes, chain, i + 1, i2 + 1);
      ghost var c, V := chain, Spans();
      ViewParts(nodes, c, i + 1, i2 + 1);
      ghost var pre, rest := c[..i + 1], c[i2 + 1..];
      assert View(nodes, pre) == V[..i + 1] && View(nodes, rest) == V[i2 + 1..];
      Graft(n, nodes[e].next, pre, rest);
    }

    /**
     * `indexOfCodepoint`: the unit offset of code point offset `cpOff`, or
     * an error when the text has fewer code points.
     */
    method IndexOfCodepoint(cpOff: nat) returns (r: Result<nat>)
      requires Valid()
      ensures r == if cpOff <= |Content()| then Ok(Units(Content()[..cpOff])) else Err(CpOffOutsideString)
    {
      var cur, unitOff: nat, rem: nat := Ref(head), 0, cpOff;
      ghost var R := View(nodes, chain);
      assert Content() == Expand(R);
      ghost var k := 0;
      while cur.Ref?
        invariant k <= |chain| && cur == LinkAt(chain, k)
        invariant cpOff == |Expand(R[..k])| + rem && unitOff == Units(Expand(R[..k]))
        invariant k > 0 ==> rem > 0
        decreases |chain| - k
      {
        Step(nodes, chain, k);
        var nd := nodes[cur.addr];
        if nd.count >= rem {
          IndexWithin(R, k, rem, cpOff, unitOff, nd.width);
          return Ok(unitOff + Scale(rem, nd.width));
        }
        IndexPast(R, k);
        rem := rem - nd.count;
        unitOff := unitOff + Scale(nd.count, nd.width);
        cur := nd.next;
        k := k + 1;
      }
      assert k == |R| && R[..k] == R;
      return Err(CpOffOutsideString);
    }
  }

  /** From the first run on, `split`'s walk finds the reference offset. */
  lemma WalkFromStart(rs: seq<Run>, u: nat)
    requires WidthsOk(rs) && rs != []
    ensures Walk(rs, 0, u) == CpOffset(Expand(rs), u)
  {
    WalkCpOffset(rs, 0, u);
    assert rs[0..] == rs;
  }

  /** A walk from the first run that ends `a` code points into run `i`. */
  lemma SplitFound(rs: seq<Run>, u: nat, i: nat, a: nat, v: nat)
    requires WidthsOk(rs) && i < |rs| && a <= rs[i].count
    requires Walk(rs, 0, u) == Ok(v) && v == Points(rs, 0, i) + a
    ensures CpOffset(Expand(rs), u) == Ok(v) && v == |Expand(rs[..i])| + a
  {
    WalkFromStart(rs, u);
    PointsExpand(rs, 0, i);
    assert rs[0..i] == rs[..i];
  }

  /**
   * After the first cut of `deleteAt`, `a` code points into run `i` and `v`
   * code points into the text: the text is unchanged, and the walk from the
   * run after the cut finds the reference offset in the text after `v`.
   */
  lemma DeleteFrom(rs: seq<Run>, i: nat, a: nat, v: nat, u: nat)
    requires i < |rs| && a <= rs[i].count && WidthsOk(Cut(rs, i, a))
    requires v == |Expand(rs[..i])| + a
    ensures Expand(Cut(rs, i, a)) == Expand(rs) && v <= |Expand(rs)|
    ensures Walk(Cut(rs, i, a), i + 1, u) == CpOffset(Expand(rs)[v..], u)
  {
    CutExpand(rs, i, a);
    CutHalves(rs, i, a, 0, v);
    assert rs[0..] == rs && rs[0..i] == rs[..i];
    WalkCpOffset(Cut(rs, i, a), i + 1, u);
  }

  /**
   * The second cut of `deleteAt`, `a2` code points into run `i2` of the runs
   * after the first cut: the runs left once the nodes between the cuts are
   * dropped spell the text without the `v` code points after the `k`th.
   */
  lemma RemoveOk(rs: seq<Run>, i: nat, a: nat, k: nat, i2: nat, a2: nat, v: nat, u: nat)
    requires i < |rs| && a <= rs[i].count && (i == 0 || a > 0) && WidthsOk(Cut(rs, i, a))
    requires k == |Expand(rs[..i])| + a
    requires i < i2 < |Cut(rs, i, a)| && a2 <= Cut(rs, i, a)[i2].count
    requires Walk(Cut(rs, i, a), i + 1, u) == Ok(v) && v == Points(Cut(rs, i, a), i + 1, i2) + a2
    ensures k + v <= |Expand(rs)| && Ok(v) == CpOffset(Expand(rs)[k..], u)
    ensures Expand(Splice(Cut(Cut(rs, i, a), i2, a2)[..i + 1], Cut(Cut(rs, i, a), i2, a2)[i2 + 1..]))
              == Expand(rs)[..k] + Expand(rs)[k + v..]
    ensures Canonical(rs) ==>
              Canonical(Splice(Cut(Cut(rs, i, a), i2, a2)[..i + 1], Cut(Cut(rs, i, a), i2, a2)[i2 + 1..]))
  {
    DeleteFrom(rs, i, a, k, u);
    PointsExpand(Cut(rs, i, a), i + 1, i2);
    DeleteExpand(rs, i, a, i2, a2, k, v);
    if Canonical(rs) {
      DeleteCanonical(rs, i, a, i2, a2);
    }
  }

  /** `indexOfCodepoint` stopping at run `k`: the offset falls within it. */
  lemma IndexWithin(rs: seq<Run>, k: nat, e: nat, n: nat, u: int, w: nat)
    requires k < |rs| && e <= rs[k].count
    requires n == |Expand(rs[..k])| + e && u == Units(Expand(rs[..k])) && w == rs[k].width
    ensures n <= |Expand(rs)| && Units(Expand(rs)[..n]) == u + Scale(e, w)
  {
    ExpandPrefix(rs, k, e);
    UnitsConcat(Expand(rs[..k]), Repeat(rs[k].width, e));
    UnitsRepeat(rs[k].width, e);
  }

  /** `indexOfCodepoint` walking past run `k`. */
  lemma IndexPast(rs: seq<Run>, k: nat)
    requires k < |rs|
    ensures |Expand(rs[..k + 1])| == |Expand(rs[..k])| + rs[k].count
    ensures Units(Expand(rs[..k + 1])) == Units(Expand(rs[..k])) + Scale(rs[k].count, rs[k].width)
  {
    ExpandStep(rs, k);
    UnitsConcat(Expand(rs[..k]), Repeat(rs[k].width, rs[k].count));
    UnitsRepeat(rs[k].width, rs[k].count);
  }

  /** The code point widths of the text "a😀b😀😀cd". */
  lemma ExampleWidths()
    ensures Widths([0x61, 0xD83D, 0xDE00, 0x62, 0xD83D, 0xDE00, 0xD83D, 0xDE00, 0x63, 0x64]) == [1, 2, 1, 2, 2, 1, 1]
  {
  }

  /** The runs built from the widths of "a😀b😀😀cd". */
  lemma ExampleRuns(ws: seq<nat>)
    requires ws == [1, 2, 1, 2, 2, 1, 1]
    ensures Encode(ws) == [Run(1, 1), Run(2, 1), Run(1, 1), Run(2, 2), Run(1, 2)]
  {
    var rs := [Run(1, 1), Run(2, 1), Run(1, 1), Run(2, 2), Run(1, 2)];
    assert Expand(rs) == ws;
    CanonicalUnique(rs);
  }

  /** `new CodePointMapping("a😀b😀😀cd")` keeps five runs (see `Create`). */
  lemma ConstructorExample(t: seq<CodeUnit>)
    requires t == [0x61, 0xD83D, 0xDE00, 0x62, 0xD83D, 0xDE00, 0xD83D, 0xDE00, 0x63, 0x64]
    ensures Encode(Widths(t)) == [Run(1, 1), Run(2, 1), Run(1, 1), Run(2, 2), Run(1, 2)]
  {
    ExampleWidths();
    ExampleRuns(Widths(t));
  }

  /** In "😀", unit offset 1 falls between the halves of the pair, so `deleteAt(1, 1)` fails (see `DeleteAt`). */
  lemma SurrogateOffsetExample(t: seq<CodeUnit>)
    requires t == [0xD83D, 0xDE00]
    ensures CpOffset(Widths(t), 1) == Err(OffsetInMiddleOfSurrogate)
  {
    CpOffsetOfText(t, 1);
    assert InsidePair(t, 1);
  }

  /** `deleteAt(3, 3)` on "a😀b😀😀cd" (widths `ws`, see `ExampleWidths`): code point offset 2 and length 2 (see `DeleteAt`). */
  lemma DeleteExampleOffsets(ws: seq<nat>)
    requires ws == [1, 2, 1, 2, 2, 1, 1]
    ensures CpOffset(ws, 3) == Ok(2) && CpOffset(ws[2..], 3) == Ok(2)
  {
    var rest := ws[2..];
    var two: seq<nat> := [1, 2];
    assert Units(two) == 3 by { assert two[1..] == [2] && two[1..][1..] == []; }
    assert ws[..2] == two && rest[..2] == two;
    CpOffsetComplete(ws, 2);
    CpOffsetComplete(rest, 2);
  }

  /** After that `deleteAt`, the runs are those of "a😀😀cd": (1,1) (2,2) (1,2). */
  lemma DeleteExampleRuns(ws: seq<nat>)
    requires ws == [1, 2, 1, 2, 2, 1, 1]
    ensures Encode(ws[..2] + ws[2 + 2..]) == [Run(1, 1), Run(2, 2), Run(1, 2)]
  {
    var rs := [Run(1, 1), Run(2, 2), Run(1, 2)];
    assert Expand(rs) == [1, 2, 2, 1, 1];
    assert ws[..2] + ws[2 + 2..] == [1, 2, 2, 1, 1];
    CanonicalUnique(rs);
  }

  /** `insertAt(3, "hi")` on "a😀😀cd" (widths `ws`): code point offset 2 (see `InsertAt`). */
  lemma InsertExampleOffset(ws: seq<nat>)
    requires ws == [1, 2, 2, 1, 1]
    ensures CpOffset(ws, 3) == Ok(2)
  {
    var two: seq<nat> := [1, 2];
    assert Units(two) == 3 by { assert two[1..] == [2] && two[1..][1..] == []; }
    assert ws[..2] == two;
    CpOffsetComplete(ws, 2);
  }

  /** After that `insertAt`, the runs are those of "a😀hi😀cd": (1,1) (2,1) (1,2) (2,1) (1,2). */
  lemma InsertExampleRuns(ws: seq<nat>, hi: seq<CodeUnit>)
    requires ws == [1, 2, 2, 1, 1] && hi == [0x68, 0x69]
    ensures Encode(ws[..2] + Widths(hi) + ws[2..]) == [Run(1, 1), Run(2, 1), Run(1, 2), Run(2, 1), Run(1, 2)]
  {
    assert Widths(hi) == [1, 1] by {
      WidthsFirst(hi);
      WidthsFirst(hi[1..]);
      assert hi[1..][1..] == [];
    }
    var rs := [Run(1, 1), Run(2, 1), Run(1, 2), Run(2, 1), Run(1, 2)];
    assert Expand(rs) == [1, 2, 1, 1, 2, 1, 1];
    assert ws[..2] + Widths(hi) + ws[2..] == [1, 2, 1, 1, 2, 1, 1];
    CanonicalUnique(rs);
  }

  /** `indexOfCodepoint(1)` on "😀hallo😀" is 2 (see `IndexOfCodepoint`). */
  lemma IndexExample(t: seq<CodeUnit>)
    requires t == [0xD83D, 0xDE00, 0x68, 0x61, 0x6C, 0x6C, 0x6F, 0xD83D, 0xDE00]
    ensures 1 <= |Widths(t)| && Units(Widths(t)[..1]) == 2
  {
    WidthsFirst(t);
    assert FirstLength(t) == 2;
    assert Widths(t)[..1] == [2];
  }
}

/** The heap keeps its partition through every sequence of calls, and what a
    caller may rely on. */
module HeapProofs {
  import opened Wrappers
  import opened HeapTiling
  import opened Heap

  lemma InvKnown(s: State, lo: nat, hi: nat)
    requires Inv(s, lo, hi)
    ensures NodesKnown(s)
  {
    forall k | 0 <= k < |s.freeNodes| ensures s.freeNodes[k] < |s.nodes| {
      assert s.freeNodes[k] in multiset(s.freeNodes);
      assert (multiset(s.freeNodes) + multiset(s.freeSpace) + multiset(s.used))[s.freeNodes[k]] >= 1;
    }
  }

  /** A node appears at one place of one list only. */
  lemma OnePlace(s: State, i: nat)
    requires ListsOk(s)
    ensures multiset(s.freeNodes)[i] + multiset(s.freeSpace)[i] + multiset(s.used)[i] <= 1
    ensures i in s.freeSpace ==> i !in s.used && i !in s.freeNodes
    ensures i in s.used ==> i !in s.freeSpace && i !in s.freeNodes
    ensures i in s.freeNodes ==> i !in s.freeSpace && i !in s.used
  {
    assert (multiset(s.freeNodes) + multiset(s.freeSpace) + multiset(s.used))[i] <= 1;
    assert i in s.freeSpace <==> i in multiset(s.freeSpace);
    assert i in s.used <==> i in multiset(s.used);
    assert i in s.freeNodes <==> i in multiset(s.freeNodes);
  }

  lemma {:induction false} Twice(ids: seq<nat>, j: nat, k: nat)
    requires j < k < |ids| && ids[j] == ids[k]
    ensures multiset(ids)[ids[j]] >= 2
  {
    assert ids == ids[..j + 1] + ids[j + 1..];
    assert ids[j] in multiset(ids[..j + 1]) by { assert ids[..j + 1][j] == ids[j]; }
    assert ids[j] in multiset(ids[j + 1..]) by { assert ids[j + 1..][k - j - 1] == ids[j]; }
  }

  lemma Distinct(s: State, j: nat, k: nat)
    requires ListsOk(s) && j < |s.freeSpace| && k < |s.freeSpace| && j != k
    ensures s.freeSpace[j] != s.freeSpace[k]
  {
    OnePlace(s, s.freeSpace[j]);
    if s.freeSpace[j] == s.freeSpace[k] {
      Twice(s.freeSpace, if j < k then j else k, if j < k then k else j);
    }
  }

  // ---------- allocation ----------

  /** Shape of a split: the free block at position `i` keeps one part, new nodes get the others. */
  ghost predicate Splits(s: State, s': State, i: nat, extra: set<nat>) {
    && i < |s.freeSpace| && |s'.nodes| == |s.nodes|
    && extra !! Blocks(s)
    && Blocks(s') == Blocks(s) + extra
    && forall b <- Blocks(s) :: b < |s.nodes| && (b != s.freeSpace[i] ==> s'.nodes[b] == s.nodes[b])
  }

  lemma SplitTiles(s: State, s': State, lo: nat, hi: nat, i: nat, extra: set<nat>)
    requires Inv(s, lo, hi) && Splits(s, s', i, extra)
    requires Tiles(s'.nodes, extra + {s.freeSpace[i]}, s.nodes[s.freeSpace[i]].addr, s.nodes[s.freeSpace[i]].End())
    ensures Tiles(s'.nodes, Blocks(s'), lo, hi)
  {
    var np := s.freeSpace[i];
    assert np in Blocks(s);
    var rest := Blocks(s) - {np};
    assert rest + {np} == Blocks(s) && rest + (extra + {np}) == Blocks(s');
    OneTile(s.nodes, np);
    Retile(s.nodes, s'.nodes, rest, {np}, extra + {np}, lo, hi, s.nodes[np].addr, s.nodes[np].End());
  }

  lemma FreshNodes(s: State, k: nat)
    requires ListsOk(s) && k < |s.freeNodes|
    ensures s.freeNodes[k] !in Blocks(s) && s.freeNodes[k] < |s.nodes|
  {
    OnePlace(s, s.freeNodes[k]);
    assert s.freeNodes[k] in multiset(s.freeNodes);
    assert (multiset(s.freeNodes) + multiset(s.freeSpace) + multiset(s.used))[s.freeNodes[k]] >= 1;
  }

  lemma TakeFrontLists(s: State, i: nat, size: nat, lo: nat, hi: nat)
    requires Inv(s, lo, hi) && NodesKnown(s) && i < |s.freeSpace| && 0 < size <= s.nodes[s.freeSpace[i]].size
    ensures ListsOk(TakeFront(s, i, size).0)
  {
    var s', np := TakeFront(s, i, size).0, s.freeSpace[i];
    if size < s.nodes[np].size && s.freeNodes != [] {
      assert s.freeNodes == [s.freeNodes[0]] + s.freeNodes[1..];
      NodeMoves(s, s', s.freeNodes[0], s.freeNodes[1..]);
    } else if size == s.nodes[np].size {
      BlockMoves(s, s', i);
    }
  }

  /** A free block becomes used as it is. */
  lemma BlockMoves(s: State, s': State, i: nat)
    requires ListsOk(s) && |s'.nodes| == |s.nodes| && i < |s.freeSpace| && s'.freeNodes == s.freeNodes
    requires s'.freeSpace == s.freeSpace[..i] + s.freeSpace[i + 1..] && s'.used == s.used + [s.freeSpace[i]]
    ensures ListsOk(s')
  {
    var np := s.freeSpace[i];
    assert multiset(s.freeSpace) == multiset(s'.freeSpace) + multiset{np} by {
      assert s.freeSpace == s.freeSpace[..i] + [np] + s.freeSpace[i + 1..];
    }
    assert multiset(s'.used) == multiset(s.used) + multiset{np};
    assert multiset(s'.freeNodes) + multiset(s'.freeSpace) + multiset(s'.used)
        == multiset(s.freeNodes) + multiset(s.freeSpace) + multiset(s.used);
  }

  lemma KeepTakeFront(s: State, i: nat, size: nat, lo: nat, hi: nat)
    requires Inv(s, lo, hi) && NodesKnown(s) && i < |s.freeSpace| && 0 < size <= s.nodes[s.freeSpace[i]].size
    ensures Inv(TakeFront(s, i, size).0, lo, hi)
  {
    TakeFrontLists(s, i, size, lo, hi);
    FrontTiles(s, i, size, lo, hi);
    FrontTotals(s, i, size, lo, hi);
  }

  lemma FrontTiles(s: State, i: nat, size: nat, lo: nat, hi: nat)
    requires Inv(s, lo, hi) && NodesKnown(s) && i < |s.freeSpace| && 0 < size <= s.nodes[s.freeSpace[i]].size
    ensures Tiles(TakeFront(s, i, size).0.nodes, Blocks(TakeFront(s, i, size).0), lo, hi)
  {
    var s', np := TakeFront(s, i, size).0, s.freeSpace[i];
    var b := s.nodes[np];
    if size < b.size && s.freeNodes != [] {
      var n := s.freeNodes[0];
      FreshNodes(s, 0);
      OneTile(s'.nodes, n);
      OneTile(s'.nodes, np);
      JoinTiles(s'.nodes, {n}, {np}, b.addr, b.addr + size, b.End());
      assert Splits(s, s', i, {n});
      SplitTiles(s, s', lo, hi, i, {n});
    } else if size == b.size {
      assert s.freeSpace == s.freeSpace[..i] + [np] + s.freeSpace[i + 1..];
      assert Blocks(s') == Blocks(s);
    }
  }

  lemma FrontTotals(s: State, i: nat, size: nat, lo: nat, hi: nat)
    requires Inv(s, lo, hi) && NodesKnown(s) && i < |s.freeSpace| && 0 < size <= s.nodes[s.freeSpace[i]].size
    ensures var s' := TakeFront(s, i, size).0;
      && Known(s'.nodes, s'.freeSpace) && Known(s'.nodes, s'.used)
      && Total(s'.nodes, s'.freeSpace) + Total(s'.nodes, s'.used) == hi - lo
  {
    var s', np := TakeFront(s, i, size).0, s.freeSpace[i];
    if size < s.nodes[np].size && s.freeNodes != [] {
      FreshNodes(s, 0);
      TotalsSplit(s, s', i, size);
      TotalAppend(s'.nodes, s.used, s.freeNodes[0]);
    } else if size == s.nodes[np].size {
      assert s.freeSpace == s.freeSpace[..i] + [np] + s.freeSpace[i + 1..];
      TotalCut(s.nodes, s.freeSpace, i);
      TotalAppend(s.nodes, s.used, np);
    }
  }

  /** Only the block at position `i` changes size on the two block lists. */
  lemma TotalsSplit(s: State, s': State, i: nat, size: nat)
    requires ListsOk(s) && Known(s.nodes, s.freeSpace) && Known(s.nodes, s.used)
    requires i < |s.freeSpace| && |s'.nodes| == |s.nodes|
    requires forall b <- Blocks(s) :: b < |s.nodes| && (b != s.freeSpace[i] ==> s'.nodes[b] == s.nodes[b])
    ensures Known(s'.nodes, s.freeSpace) && Known(s'.nodes, s.used)
    ensures Total(s'.nodes, s.freeSpace)
        == Total(s.nodes, s.freeSpace) - s.nodes[s.freeSpace[i]].size + s'.nodes[s.freeSpace[i]].size
    ensures Total(s'.nodes, s.used) == Total(s.nodes, s.used)
  {
    var np := s.freeSpace[i];
    forall j | 0 <= j < |s.freeSpace| && j != i ensures s'.nodes[s.freeSpace[j]] == s.nodes[s.freeSpace[j]] {
      Distinct(s, i, j);
      assert s.freeSpace[j] in Blocks(s);
    }
    TotalChange(s.nodes, s'.nodes, s.freeSpace, i);
    forall j | 0 <= j < |s.used| ensures s'.nodes[s.used[j]] == s.nodes[s.used[j]] {
      OnePlace(s, s.used[j]);
      assert s.used[j] in Blocks(s);
    }
    TotalSame(s.nodes, s'.nodes, s.used);
  }

  lemma PaddedLists(s: State, i: nat, align: nat, size: nat)
    requires ListsOk(s) && NodesKnown(s) && i < |s.freeSpace| && align > 0
    requires size + Pad(s.nodes[s.freeSpace[i]], align) <= s.nodes[s.freeSpace[i]].size
    ensures ListsOk(TakePadded(s, i, align, size).0)
  {
    var s' := TakePadded(s, i, align, size).0;
    if s'.used != s.used {
      var n, rest := s.freeNodes[0], s.freeNodes[1..];
      assert s.freeNodes == [n] + rest;
      if s'.freeSpace == s.freeSpace {
        NodeMoves(s, s', n, rest);
      } else {
        assert rest == [rest[0]] + rest[1..];
        TwoNodesMove(s, s', n, rest[0], rest[1..]);
      }
    }
  }

  /** A free node becomes used. */
  lemma NodeMoves(s: State, s': State, n: nat, rest: seq<nat>)
    requires ListsOk(s) && |s'.nodes| == |s.nodes| && s.freeNodes == [n] + rest
    requires s'.freeNodes == rest && s'.freeSpace == s.freeSpace && s'.used == s.used + [n]
    ensures ListsOk(s')
  {
    assert multiset(s.freeNodes) == multiset{n} + multiset(rest);
    assert multiset(s'.used) == multiset(s.used) + multiset{n};
    assert multiset(s'.freeNodes) + multiset(s'.freeSpace) + multiset(s'.used)
        == multiset(s.freeNodes) + multiset(s.freeSpace) + multiset(s.used);
  }

  /** Two free nodes: one becomes used, one becomes free space. */
  lemma TwoNodesMove(s: State, s': State, n: nat, m: nat, rest: seq<nat>)
    requires ListsOk(s) && |s'.nodes| == |s.nodes| && s.freeNodes == [n] + ([m] + rest)
    requires s'.freeNodes == rest && s'.freeSpace == s.freeSpace + [m] && s'.used == s.used + [n]
    ensures ListsOk(s')
  {
    assert multiset(s.freeNodes) == multiset{n} + (multiset{m} + multiset(rest));
    assert multiset(s'.freeSpace) == multiset(s.freeSpace) + multiset{m};
    assert multiset(s'.used) == multiset(s.used) + multiset{n};
    assert multiset(s'.freeNodes) + multiset(s'.freeSpace) + multiset(s'.used)
        == multiset(s.freeNodes) + multiset(s.freeSpace) + multiset(s.used);
  }

  lemma FreshDistinct(s: State)
    requires ListsOk(s) && |s.freeNodes| >= 2
    ensures s.freeNodes[0] != s.freeNodes[1]
  {
    OnePlace(s, s.freeNodes[0]);
    if s.freeNodes[0] == s.freeNodes[1] { Twice(s.freeNodes, 0, 1); }
  }

  lemma TwoTiles(nodes: seq<Node>, p: nat, q: nat)
    requires p < |nodes| && q < |nodes| && nodes[p].size > 0 && nodes[q].size > 0 && nodes[p].End() == nodes[q].addr
    ensures Tiles(nodes, {q} + {p}, nodes[p].addr, nodes[q].End())
  {
    OneTile(nodes, p);
    OneTile(nodes, q);
    JoinTiles(nodes, {p}, {q}, nodes[p].addr, nodes[q].addr, nodes[q].End());
    assert {p} + {q} == {q} + {p};
  }

  lemma ThreeTiles(nodes: seq<Node>, p: nat, q: nat, r: nat)
    requires p < |nodes| && q < |nodes| && r < |nodes| && nodes[p].size > 0 && nodes[q].size > 0 && nodes[r].size > 0
    requires nodes[p].End() == nodes[q].addr && nodes[q].End() == nodes[r].addr
    ensures Tiles(nodes, {q, r} + {p}, nodes[p].addr, nodes[r].End())
  {
    TwoTiles(nodes, p, q);
    OneTile(nodes, r);
    JoinTiles(nodes, {q} + {p}, {r}, nodes[p].addr, nodes[r].addr, nodes[r].End());
    assert {q} + {p} + {r} == {q, r} + {p};
  }

  /** Both kinds of padded split tile the block they came from. */
  lemma PaddedTiles(s: State, i: nat, align: nat, size: nat, lo: nat, hi: nat)
    requires Inv(s, lo, hi) && NodesKnown(s) && i < |s.freeSpace| && align > 0 && size > 0
    requires 0 < Pad(s.nodes[s.freeSpace[i]], align)
    requires size + Pad(s.nodes[s.freeSpace[i]], align) <= s.nodes[s.freeSpace[i]].size
    requires TakePadded(s, i, align, size).1.Some?
    ensures Tiles(TakePadded(s, i, align, size).0.nodes, Blocks(TakePadded(s, i, align, size).0), lo, hi)
  {
    var s', np := TakePadded(s, i, align, size).0, s.freeSpace[i];
    if size + Pad(s.nodes[np], align) < s.nodes[np].size {
      PaddedThree(s, i, align, size, lo, hi);
    } else {
      var n := s.freeNodes[0];
      FreshNodes(s, 0);
      TwoTiles(s'.nodes, np, n);
      assert Blocks(s') == Blocks(s) + {n};
      SplitTiles(s, s', lo, hi, i, {n});
    }
  }

  lemma PaddedThree(s: State, i: nat, align: nat, size: nat, lo: nat, hi: nat)
    requires Inv(s, lo, hi) && NodesKnown(s) && i < |s.freeSpace| && align > 0 && size > 0
    requires 0 < Pad(s.nodes[s.freeSpace[i]], align)
    requires size + Pad(s.nodes[s.freeSpace[i]], align) < s.nodes[s.freeSpace[i]].size
    requires TakePadded(s, i, align, size).1.Some?
    ensures Tiles(TakePadded(s, i, align, size).0.nodes, Blocks(TakePadded(s, i, align, size).0), lo, hi)
  {
    var s', np := TakePadded(s, i, align, size).0, s.freeSpace[i];
    var n, rem := s.freeNodes[0], s.freeNodes[1];
    FreshNodes(s, 0);
    FreshNodes(s, 1);
    FreshDistinct(s);
    ThreeTiles(s'.nodes, np, n, rem);
    assert Blocks(s') == Blocks(s) + {n, rem};
    SplitTiles(s, s', lo, hi, i, {n, rem});
  }

  lemma KeepTakePadded(s: State, i: nat, align: nat, size: nat, lo: nat, hi: nat)
    requires Inv(s, lo, hi) && NodesKnown(s) && i < |s.freeSpace| && align > 0 && size > 0
    requires 0 < Pad(s.nodes[s.freeSpace[i]], align)
    requires size + Pad(s.nodes[s.freeSpace[i]], align) <= s.nodes[s.freeSpace[i]].size
    ensures Inv(TakePadded(s, i, align, size).0, lo, hi)
  {
    var (s', r) := TakePadded(s, i, align, size);
    if r.Some? {
      PaddedLists(s, i, align, size);
      PaddedTiles(s, i, align, size, lo, hi);
      PaddedTotals(s, i, align, size, lo, hi);
    }
  }

  lemma PaddedTotals(s: State, i: nat, align: nat, size: nat, lo: nat, hi: nat)
    requires Inv(s, lo, hi) && NodesKnown(s) && i < |s.freeSpace| && align > 0 && size > 0
    requires 0 < Pad(s.nodes[s.freeSpace[i]], align)
    requires size + Pad(s.nodes[s.freeSpace[i]], align) <= s.nodes[s.freeSpace[i]].size
    requires TakePadded(s, i, align, size).1.Some?
    ensures var s' := TakePadded(s, i, align, size).0;
      && Known(s'.nodes, s'.freeSpace) && Known(s'.nodes, s'.used)
      && Total(s'.nodes, s'.freeSpace) + Total(s'.nodes, s'.used) == hi - lo
  {
    var s' := TakePadded(s, i, align, size).0;
    FreshNodes(s, 0);
    if |s'.freeSpace| > |s.freeSpace| {
      FreshNodes(s, 1);
      FreshDistinct(s);
      TotalsSplit(s, s', i, size);
      TotalAppend(s'.nodes, s.freeSpace, s.freeNodes[1]);
    } else {
      TotalsSplit(s, s', i, size);
    }
    TotalAppend(s'.nodes, s.used, s.freeNodes[0]);
  }

  lemma KeepAlloc(s: State, align: nat, want: nat, lo: nat, hi: nat)
    requires Inv(s, lo, hi) && align > 0
    ensures NodesKnown(s) && Inv(Alloc(s, align, want).0, lo, hi)
  {
    InvKnown(s, lo, hi);
    if want > 0 {
      var size := RoundUp(want, align);
      var i := FirstFit(s.nodes, s.freeSpace, align, size);
      if i < |s.freeSpace| {
        if Pad(s.nodes[s.freeSpace[i]], align) > 0 {
          KeepTakePadded(s, i, align, size, lo, hi);
        } else {
          KeepTakeFront(s, i, size, lo, hi);
        }
      }
    }
  }

  // ---------- freeing ----------

  lemma UsedDistinct(s: State, j: nat, k: nat)
    requires ListsOk(s) && j < |s.used| && k < |s.used| && j != k
    ensures s.used[j] != s.used[k]
  {
    OnePlace(s, s.used[j]);
    if s.used[j] == s.used[k] {
      Twice(s.used, if j < k then j else k, if j < k then k else j);
    }
  }

  ghost predicate Frees(s: State, i: nat, s1: State) {
    i < |s.used| && s1 == s.(used := s.used[..i] + s.used[i + 1..])
  }

  lemma ReleaseLists(s: State, i: nat, s1: State, lo: nat, hi: nat)
    requires Inv(s, lo, hi) && Frees(s, i, s1)
    ensures ListsOk(Release(s1, s.used[i]))
  {
    var s' := Release(s1, s.used[i]);
    var np := s.used[i];
    assert multiset(s.used) == multiset(s1.used) + multiset{np} by {
      assert s.used == s.used[..i] + [np] + s.used[i + 1..];
    }
    var j := FindSlot(s.nodes, s.freeSpace, s.nodes[np]);
    assert multiset(s'.freeNodes) + multiset(s'.freeSpace)
        == multiset(s.freeNodes) + multiset(s.freeSpace) + multiset{np} by {
      if j < |s.freeSpace| { assert s.freeSpace == s.freeSpace[..j + 1] + s.freeSpace[j + 1..]; }
    }
    assert multiset(s'.freeNodes) + multiset(s'.freeSpace) + multiset(s'.used)
        == multiset(s.freeNodes) + multiset(s.freeSpace) + multiset(s.used);
  }

  lemma CutUsed(s: State, i: nat)
    requires ListsOk(s) && i < |s.used|
    ensures forall b :: b in s.used[..i] + s.used[i + 1..] <==> b in s.used && b != s.used[i]
  {
    assert s.used == s.used[..i] + [s.used[i]] + s.used[i + 1..];
    forall j | 0 <= j < |s.used| && j != i ensures s.used[j] != s.used[i] { UsedDistinct(s, j, i); }
  }

  /** Linking the block in unchanged. */
  lemma KeepLink(s: State, i: nat, s1: State, k: nat, lo: nat, hi: nat)
    requires Inv(s, lo, hi) && Frees(s, i, s1) && k <= |s.freeSpace|
    requires ListsOk(s1.(freeSpace := s.freeSpace[..k] + [s.used[i]] + s.freeSpace[k..]))
    ensures Inv(s1.(freeSpace := s.freeSpace[..k] + [s.used[i]] + s.freeSpace[k..]), lo, hi)
  {
    var s' := s1.(freeSpace := s.freeSpace[..k] + [s.used[i]] + s.freeSpace[k..]);
    CutUsed(s, i);
    assert s.freeSpace == s.freeSpace[..k] + s.freeSpace[k..];
    assert Blocks(s') == Blocks(s);
    TotalCut(s.nodes, s.used, i);
    TotalInsert(s.nodes, s.freeSpace, k, s.used[i]);
  }

  /** Merging the block into the free block at position `j`. */
  lemma KeepMerge(s: State, i: nat, s': State, j: nat, lo: nat, hi: nat)
    requires Inv(s, lo, hi) && i < |s.used| && j < |s.freeSpace|
    requires var np, n := s.used[i], s.freeSpace[j];
      var b, f := s.nodes[np], s.nodes[n];
      && (b.End() == f.addr || f.End() == b.addr)
      && s' == State(s.nodes[n := Node(if b.End() == f.addr then b.addr else f.addr, f.size + b.size)],
                     s.freeNodes + [np], s.freeSpace, s.used[..i] + s.used[i + 1..])
    requires ListsOk(s')
    ensures Inv(s', lo, hi)
  {
    var np, n := s.used[i], s.freeSpace[j];
    assert np in Blocks(s) && n in Blocks(s);
    OnePlace(s, n);
    OnePlace(s, np);
    CutUsed(s, i);
    var rest := Blocks(s) - {np, n};
    assert Blocks(s) == rest + {np, n} && Blocks(s') == rest + {n};
    var b, f := s.nodes[np], s.nodes[n];
    if b.End() == f.addr {
      TwoTiles(s.nodes, np, n);
      assert {n} + {np} == {np, n};
    } else {
      TwoTiles(s.nodes, n, np);
      assert {np} + {n} == {np, n};
    }
    OneTile(s'.nodes, n);
    Retile(s.nodes, s'.nodes, rest, {np, n}, {n}, lo, hi, s'.nodes[n].addr, s'.nodes[n].End());
    TotalCut(s.nodes, s.used, i);
    TotalsSplit(s, s', j, 0);
    TotalCut(s'.nodes, s.used, i);
  }

  lemma KeepRelease(s: State, i: nat, s1: State, lo: nat, hi: nat)
    requires Inv(s, lo, hi) && Frees(s, i, s1)
    ensures Inv(Release(s1, s.used[i]), lo, hi)
  {
    var np := s.used[i];
    var s' := Release(s1, np);
    ReleaseLists(s, i, s1, lo, hi);
    var j := FindSlot(s.nodes, s.freeSpace, s.nodes[np]);
    if j == |s.freeSpace| {
      assert s.freeSpace[..j] + [np] + s.freeSpace[j..] == s.freeSpace + [np];
      KeepLink(s, i, s1, j, lo, hi);
    } else if s.nodes[np].End() == s.nodes[s.freeSpace[j]].addr || s.nodes[s.freeSpace[j]].End() == s.nodes[np].addr {
      KeepMerge(s, i, s', j, lo, hi);
    } else {
      KeepLink(s, i, s1, j + 1, lo, hi);
    }
  }

  lemma KeepFree(s: State, ptr: nat, lo: nat, hi: nat)
    requires Inv(s, lo, hi)
    ensures NodesKnown(s) && Inv(Free(s, ptr), lo, hi)
  {
    InvKnown(s, lo, hi);
    var i := FindUsed(s.nodes, s.used, ptr);
    if ptr != 0 && i < |s.used| {
      var s1 := s.(used := s.used[..i] + s.used[i + 1..]);
      assert Free(s, ptr) == Release(s1, s.used[i]);
      KeepRelease(s, i, s1, lo, hi);
    }
  }

  // ---------- what callers get ----------

  lemma TakePaddedResult(s: State, i: nat, align: nat, size: nat, lo: nat, hi: nat)
    requires Inv(s, lo, hi) && NodesKnown(s) && i < |s.freeSpace| && align > 0
    requires size + Pad(s.nodes[s.freeSpace[i]], align) <= s.nodes[s.freeSpace[i]].size
    ensures Grants(s, TakePadded(s, i, align, size).0, TakePadded(s, i, align, size).1, size)
  {
    if TakePadded(s, i, align, size).1.Some? {
      FreshNodes(s, 0);
      if |s.freeNodes| > 1 { FreshNodes(s, 1); FreshDistinct(s); }
      UsedUntouched(s, i);
    }
  }

  lemma TakeFrontResult(s: State, i: nat, size: nat, lo: nat, hi: nat)
    requires Inv(s, lo, hi) && NodesKnown(s) && i < |s.freeSpace| && size <= s.nodes[s.freeSpace[i]].size
    ensures Grants(s, TakeFront(s, i, size).0, TakeFront(s, i, size).1, size)
  {
    if s.freeNodes != [] { FreshNodes(s, 0); }
    UsedUntouched(s, i);
  }

  lemma UsedUntouched(s: State, i: nat)
    requires ListsOk(s) && i < |s.freeSpace|
    ensures forall k :: 0 <= k < |s.used| ==> s.used[k] != s.freeSpace[i] && s.used[k] in Blocks(s)
  {
    OnePlace(s, s.freeSpace[i]);
  }

  /** Success adds one used block of exactly `size` bytes and touches no other used block;
      failure changes nothing. */
  ghost predicate Grants(s: State, s': State, r: Option<nat>, size: nat) {
    if r.None? then s' == s
    else
      && |s'.used| == |s.used| + 1 && s'.used[..|s.used|] == s.used
      && |s'.nodes| == |s.nodes| && s'.used[|s.used|] < |s'.nodes|
      && s'.nodes[s'.used[|s.used|]] == Node(r.value, size)
      && forall k :: 0 <= k < |s.used| ==> s.used[k] < |s.nodes| && s'.nodes[s.used[k]] == s.nodes[s.used[k]]
  }

  /** In a tiled heap a granted block keeps clear of the blocks in use before. */
  lemma GrantApart(s: State, s': State, ptr: nat, size: nat, lo: nat, hi: nat)
    requires ListsOk(s') && Tiles(s'.nodes, Blocks(s'), lo, hi) && Grants(s, s', Some(ptr), size)
    ensures lo <= ptr && ptr + size <= hi
    ensures forall u <- s.used :: u < |s.nodes| && (s.nodes[u].End() <= ptr || ptr + size <= s.nodes[u].addr)
  {
    var n := s'.used[|s.used|];
    assert n in Blocks(s');
    forall u <- s.used ensures u < |s.nodes| && (s.nodes[u].End() <= ptr || ptr + size <= s.nodes[u].addr) {
      var k :| 0 <= k < |s.used| && s.used[k] == u;
      assert s'.used[k] == s'.used[..|s.used|][k];
      UsedDistinct(s', k, |s.used|);
      assert u in Blocks(s') && Apart(s'.nodes, u, n);
    }
  }

  /** Allocation: a granted pointer is aligned, its block is large enough, lies in the managed
      area and overlaps no live block; a refused request leaves the heap as it was. */
  lemma AllocContract(s: State, align: nat, want: nat, lo: nat, hi: nat)
    requires Inv(s, lo, hi) && align > 0
    ensures NodesKnown(s)
    ensures var (s', r) := Alloc(s, align, want);
      && Inv(s', lo, hi)
      && Grants(s, s', r, RoundUp(want, align))
      && (r.Some? ==>
            && r.value % align == 0 && want <= RoundUp(want, align)
            && lo <= r.value && r.value + RoundUp(want, align) <= hi
            && forall u <- s.used :: u < |s.nodes|
                && (s.nodes[u].End() <= r.value || r.value + RoundUp(want, align) <= s.nodes[u].addr))
  {
    KeepAlloc(s, align, want, lo, hi);
    var (s', r) := Alloc(s, align, want);
    if r.Some? {
      var size := RoundUp(want, align);
      var i := FirstFit(s.nodes, s.freeSpace, align, size);
      TakePaddedOrFront(s, i, align, size, lo, hi);
      GrantApart(s, s', r.value, size, lo, hi);
    }
  }

  lemma TakePaddedOrFront(s: State, i: nat, align: nat, size: nat, lo: nat, hi: nat)
    requires Inv(s, lo, hi) && NodesKnown(s) && i < |s.freeSpace| && align > 0
    requires size + Pad(s.nodes[s.freeSpace[i]], align) <= s.nodes[s.freeSpace[i]].size
    ensures var (s', r) := if Pad(s.nodes[s.freeSpace[i]], align) > 0 then TakePadded(s, i, align, size)
        else TakeFront(s, i, size);
      Grants(s, s', r, size) && (r.Some? ==> r.value == RoundUp(s.nodes[s.freeSpace[i]].addr, align))
  {
    if Pad(s.nodes[s.freeSpace[i]], align) > 0 {
      TakePaddedResult(s, i, align, size, lo, hi);
    } else {
      TakeFrontResult(s, i, size, lo, hi);
    }
  }

  /** Freeing takes exactly the block that holds the pointer off the used list and leaves the
      contents of every other used block's node alone. */
  lemma FreeContract(s: State, ptr: nat, lo: nat, hi: nat)
    requires Inv(s, lo, hi) && ptr != 0
    ensures NodesKnown(s)
    ensures var s', i := Free(s, ptr), FindUsed(s.nodes, s.used, ptr);
      && (i == |s.used| ==> s' == s)
      && (i < |s.used| ==>
            && s'.used == s.used[..i] + s.used[i + 1..]
            && |s'.nodes| == |s.nodes|
            && forall k :: 0 <= k < |s.used| && k != i
                ==> s.used[k] < |s.nodes| && s'.nodes[s.used[k]] == s.nodes[s.used[k]])
  {
    InvKnown(s, lo, hi);
    var i := FindUsed(s.nodes, s.used, ptr);
    if i < |s.used| {
      var s1 := s.(used := s.used[..i] + s.used[i + 1..]);
      assert Free(s, ptr) == Release(s1, s.used[i]);
      ReleaseFrame(s, s1, s.used[i]);
    }
  }

  /** Releasing a block touches no node in use. */
  lemma ReleaseFrame(s: State, s1: State, np: nat)
    requires ListsOk(s) && NodesKnown(s) && np < |s.nodes| && s1 == s.(used := s1.used)
    ensures Release(s1, np).used == s1.used && |Release(s1, np).nodes| == |s.nodes|
    ensures forall k :: 0 <= k < |s.used| ==>
      s.used[k] < |s.nodes| && Release(s1, np).nodes[s.used[k]] == s.nodes[s.used[k]]
  {
    var j := FindSlot(s.nodes, s.freeSpace, s.nodes[np]);
    if j < |s.freeSpace| { UsedUntouched(s, j); }
  }

  /** The block just granted is the one its address finds. */
  lemma FoundLast(s: State, s1: State, ptr: nat, size: nat)
    requires Grants(s, s1, Some(ptr), size) && size > 0 && Known(s1.nodes, s1.used)
    requires forall u <- s.used :: u < |s.nodes| && (s.nodes[u].End() <= ptr || ptr + size <= s.nodes[u].addr)
    ensures FindUsed(s1.nodes, s1.used, ptr) == |s.used|
  {
    forall k | 0 <= k < |s.used| ensures !(s1.nodes[s1.used[k]].addr <= ptr < s1.nodes[s1.used[k]].End()) {
      assert s1.used[k] == s1.used[..|s.used|][k] == s.used[k];
      assert s.used[k] in s.used;
    }
  }

  /** Allocating and freeing again gives the same used list and the same amount of free space. */
  lemma AllocFree(s: State, align: nat, want: nat, lo: nat, hi: nat)
    requires Inv(s, lo, hi) && align > 0 && lo > 0
    requires NodesKnown(s) && Alloc(s, align, want).1.Some?
    ensures var (s1, r) := Alloc(s, align, want);
      NodesKnown(s1) && var s2 := Free(s1, r.value);
      && Inv(s2, lo, hi)
      && s2.used == s.used
      && Total(s2.nodes, s2.freeSpace) == Total(s.nodes, s.freeSpace)
  {
    AllocContract(s, align, want, lo, hi);
    var (s1, r) := Alloc(s, align, want);
    GrantFree(s, s1, r.value, RoundUp(want, align), lo, hi);
  }

  /** Freeing the block a grant added undoes the grant. */
  lemma GrantFree(s: State, s1: State, ptr: nat, size: nat, lo: nat, hi: nat)
    requires Inv(s, lo, hi) && Inv(s1, lo, hi) && Grants(s, s1, Some(ptr), size) && size > 0 && ptr != 0
    requires forall u <- s.used :: u < |s.nodes| && (s.nodes[u].End() <= ptr || ptr + size <= s.nodes[u].addr)
    ensures NodesKnown(s1) && var s2 := Free(s1, ptr);
      && Inv(s2, lo, hi)
      && s2.used == s.used
      && Total(s2.nodes, s2.freeSpace) == Total(s.nodes, s.freeSpace)
  {
    KeepFree(s1, ptr, lo, hi);
    GrantUndone(s, s1, Free(s1, ptr), ptr, size, lo, hi);
    Restored(s, s1, Free(s1, ptr), ptr, size, lo, hi);
  }

  lemma GrantUndone(s: State, s1: State, s2: State, ptr: nat, size: nat, lo: nat, hi: nat)
    requires Inv(s1, lo, hi) && Grants(s, s1, Some(ptr), size) && size > 0 && ptr != 0 && NodesKnown(s1)
        && s2 == Free(s1, ptr)
    requires forall u <- s.used :: u < |s.nodes| && (s.nodes[u].End() <= ptr || ptr + size <= s.nodes[u].addr)
    ensures |s2.nodes| == |s1.nodes| && s2.used == s1.used[..|s.used|] + s1.used[|s.used| + 1..]
    ensures forall k :: 0 <= k < |s.used| ==> s1.used[k] < |s1.nodes| && s2.nodes[s1.used[k]] == s1.nodes[s1.used[k]]
  {
    FoundLast(s, s1, ptr, size);
    FreeContract(s1, ptr, lo, hi);
  }

  lemma Restored(s: State, s1: State, s2: State, ptr: nat, size: nat, lo: nat, hi: nat)
    requires Inv(s, lo, hi) && Inv(s2, lo, hi) && Grants(s, s1, Some(ptr), size) && |s2.nodes| == |s1.nodes|
    requires s2.used == s1.used[..|s.used|] + s1.used[|s.used| + 1..]
    requires forall k :: 0 <= k < |s.used| ==> s1.used[k] < |s1.nodes| && s2.nodes[s1.used[k]] == s1.nodes[s1.used[k]]
    ensures s2.used == s.used && Total(s2.nodes, s2.freeSpace) == Total(s.nodes, s.freeSpace)
  {
    var m := |s.used|;
    assert s1.used[..m] + s1.used[m + 1..] == s.used;
    forall k | 0 <= k < m ensures s2.nodes[s.used[k]].size == s.nodes[s.used[k]].size {
      assert s1.used[k] == s1.used[..m][k] == s.used[k];
    }
    TotalSame(s.nodes, s2.nodes, s.used);
  }
}

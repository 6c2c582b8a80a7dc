/** Intervals that tile an area exactly. */
module HeapTiling {

  datatype Node = Node(addr: nat, size: nat) {
    function End(): nat { addr + size }
  }

  /** The nodes named by `ids` are non-empty, lie in `[lo, hi)`, do not overlap and leave no gap. */
  ghost predicate Tiles(nodes: seq<Node>, ids: set<nat>, lo: nat, hi: nat) {
    && (forall b <- ids :: b < |nodes| && nodes[b].size > 0 && lo <= nodes[b].addr && nodes[b].End() <= hi)
    && (forall b <- ids, c <- ids :: b != c ==> Apart(nodes, b, c))
    && (forall x: nat :: lo <= x < hi ==> Covered(nodes, ids, x))
  }

  predicate Apart(nodes: seq<Node>, b: nat, c: nat)
    requires b < |nodes| && c < |nodes|
  {
    nodes[b].End() <= nodes[c].addr || nodes[c].End() <= nodes[b].addr
  }

  ghost predicate Covered(nodes: seq<Node>, ids: set<nat>, x: nat) {
    exists b :: b in ids && b < |nodes| && nodes[b].addr <= x < nodes[b].End()
  }

  /** Nodes outside a tiled stretch keep clear of it. */
  lemma OutsideStretch(nodes: seq<Node>, rest: set<nat>, part: set<nat>, lo: nat, hi: nat, a: nat, e: nat, r: nat)
    requires Tiles(nodes, rest + part, lo, hi) && rest !! part && Tiles(nodes, part, a, e) && r in rest && a < e
    ensures nodes[r].End() <= a || e <= nodes[r].addr
  {
    var x := if nodes[r].addr < a then a else nodes[r].addr;
    if x < e {
      assert Covered(nodes, part, x);
      var p :| p in part && p < |nodes| && nodes[p].addr <= x < nodes[p].End();
      assert Apart(nodes, r, p);
    }
  }

  /** One tiled stretch may be replaced by another tiling of the same stretch. */
  lemma Retile(nodes: seq<Node>, nodes': seq<Node>, rest: set<nat>, part: set<nat>, part': set<nat>,
               lo: nat, hi: nat, a: nat, e: nat)
    requires Tiles(nodes, rest + part, lo, hi) && rest !! part && rest !! part' && lo <= a < e <= hi
    requires Tiles(nodes, part, a, e) && Tiles(nodes', part', a, e)
    requires |nodes'| == |nodes| && forall r <- rest :: nodes'[r] == nodes[r]
    ensures Tiles(nodes', rest + part', lo, hi)
  {
    forall b <- rest + part', c <- rest + part' | b != c ensures Apart(nodes', b, c) {
      if b in rest && c in rest {
        assert Apart(nodes, b, c);
      } else if b in rest {
        OutsideStretch(nodes, rest, part, lo, hi, a, e, b);
      } else if c in rest {
        OutsideStretch(nodes, rest, part, lo, hi, a, e, c);
      }
    }
    forall x: nat | lo <= x < hi ensures Covered(nodes', rest + part', x) {
      if a <= x < e {
        assert Covered(nodes', part', x);
        var p :| p in part' && nodes'[p].addr <= x < nodes'[p].End();
      } else {
        assert Covered(nodes, rest + part, x);
        var b :| b in rest + part && nodes[b].addr <= x < nodes[b].End();
        assert b in rest && nodes'[b] == nodes[b];
      }
    }
  }

  lemma OneTile(nodes: seq<Node>, b: nat)
    requires b < |nodes| && nodes[b].size > 0
    ensures Tiles(nodes, {b}, nodes[b].addr, nodes[b].End())
  {
    forall x: nat | nodes[b].addr <= x < nodes[b].End() ensures Covered(nodes, {b}, x) {
      assert b in {b};
    }
  }

  lemma JoinTiles(nodes: seq<Node>, s: set<nat>, t: set<nat>, a: nat, m: nat, e: nat)
    requires Tiles(nodes, s, a, m) && Tiles(nodes, t, m, e) && a <= m <= e
    ensures Tiles(nodes, s + t, a, e)
  {
    forall x: nat | a <= x < e ensures Covered(nodes, s + t, x) {
      if x < m {
        assert Covered(nodes, s, x);
        var b :| b in s && nodes[b].addr <= x < nodes[b].End();
        assert b in s + t;
      } else {
        assert Covered(nodes, t, x);
        var b :| b in t && nodes[b].addr <= x < nodes[b].End();
        assert b in s + t;
      }
    }
  }

  // ---------- sizes ----------

  predicate Known(nodes: seq<Node>, ids: seq<nat>) {
    forall k :: 0 <= k < |ids| ==> ids[k] < |nodes|
  }

  function Total(nodes: seq<Node>, ids: seq<nat>): nat
    requires Known(nodes, ids)
  {
    if ids == [] then 0 else nodes[ids[0]].size + Total(nodes, ids[1..])
  }

  lemma {:induction false} TotalConcat(nodes: seq<Node>, s: seq<nat>, t: seq<nat>)
    requires Known(nodes, s) && Known(nodes, t)
    ensures Total(nodes, s + t) == Total(nodes, s) + Total(nodes, t)
  {
    if s == [] {
      assert s + t == t;
    } else {
      assert (s + t)[1..] == s[1..] + t;
      TotalConcat(nodes, s[1..], t);
    }
  }

  lemma {:induction false} TotalSame(nodes: seq<Node>, nodes': seq<Node>, ids: seq<nat>)
    requires |nodes'| == |nodes| && Known(nodes, ids)
    requires forall k :: 0 <= k < |ids| ==> nodes'[ids[k]].size == nodes[ids[k]].size
    ensures Total(nodes', ids) == Total(nodes, ids)
  {
    if ids != [] {
      TotalSame(nodes, nodes', ids[1..]);
    }
  }

  /** Taking position `k` out of a list takes its size out of the total. */
  lemma TotalCut(nodes: seq<Node>, ids: seq<nat>, k: nat)
    requires k < |ids| && Known(nodes, ids)
    ensures Known(nodes, ids[..k] + ids[k + 1..])
    ensures Total(nodes, ids) == Total(nodes, ids[..k] + ids[k + 1..]) + nodes[ids[k]].size
  {
    assert ids == ids[..k] + ([ids[k]] + ids[k + 1..]);
    TotalConcat(nodes, ids[..k], [ids[k]] + ids[k + 1..]);
    TotalConcat(nodes, [ids[k]], ids[k + 1..]);
    TotalConcat(nodes, ids[..k], ids[k + 1..]);
    assert Total(nodes, [ids[k]]) == nodes[ids[k]].size;
  }

  /** Changing the size of the node at one position moves the total by the difference. */
  lemma TotalChange(nodes: seq<Node>, nodes': seq<Node>, ids: seq<nat>, k: nat)
    requires k < |ids| && Known(nodes, ids) && |nodes'| == |nodes|
    requires forall j :: 0 <= j < |ids| && j != k ==> nodes'[ids[j]].size == nodes[ids[j]].size
    ensures Known(nodes', ids)
    ensures Total(nodes', ids) == Total(nodes, ids) - nodes[ids[k]].size + nodes'[ids[k]].size
  {
    TotalCut(nodes, ids, k);
    TotalCut(nodes', ids, k);
    var rest := ids[..k] + ids[k + 1..];
    forall j | 0 <= j < |rest| ensures nodes'[rest[j]].size == nodes[rest[j]].size {
      assert rest[j] == if j < k then ids[j] else ids[j + 1];
    }
    TotalSame(nodes, nodes', rest);
  }

  lemma TotalAppend(nodes: seq<Node>, ids: seq<nat>, n: nat)
    requires Known(nodes, ids) && n < |nodes|
    ensures Known(nodes, ids + [n]) && Total(nodes, ids + [n]) == Total(nodes, ids) + nodes[n].size
  {
    TotalConcat(nodes, ids, [n]);
    assert Total(nodes, [n]) == nodes[n].size;
  }

  lemma TotalInsert(nodes: seq<Node>, ids: seq<nat>, k: nat, n: nat)
    requires Known(nodes, ids) && n < |nodes| && k <= |ids|
    ensures Known(nodes, ids[..k] + [n] + ids[k..])
    ensures Total(nodes, ids[..k] + [n] + ids[k..]) == Total(nodes, ids) + nodes[n].size
  {
    var r := ids[..k] + [n] + ids[k..];
    TotalCut(nodes, r, k);
    assert r[..k] + r[k + 1..] == ids;
  }
}

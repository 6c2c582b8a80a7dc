/** What a set of regions means, and why merging sibling regions does not change it. */
module DomainMerge {
  import opened PowersOfTwo
  import opened Domain

  // ---------- meaning ----------

  ghost function Elems(regs: seq<Region>): set<Region> {
    set r | r in regs
  }

  ghost predicate AllValidSet(s: set<Region>) {
    forall r <- s :: Valid(r)
  }

  /** `r` is a smallest region that holds `a`. */
  ghost predicate Decides(s: set<Region>, a: nat, r: Region) {
    r in s && Contains(r, a) && forall q <- s :: Contains(q, a) ==> r.order <= q.order
  }

  /** Some smallest region that holds `a` carries the flags `f`. */
  ghost predicate Gives(s: set<Region>, a: nat, f: bv64) {
    exists r :: Decides(s, a, r) && r.flags == f
  }

  ghost predicate SameMeaning(s: set<Region>, t: set<Region>) {
    forall a: nat, f | a < ADDRESSES :: Gives(s, a, f) <==> Gives(t, a, f)
  }

  /** No two regions of the same extent carry different flags. */
  ghost predicate Consistent(s: set<Region>) {
    forall r <- s, q <- s :: r.base == q.base && r.order == q.order ==> r.flags == q.flags
  }

  /** In a sorted list the first match is a smallest one. */
  lemma FirstDecides(regs: seq<Region>, a: nat)
    requires Sorted(regs) && Find(regs, a) < |regs|
    ensures Decides(Elems(regs), a, regs[Find(regs, a)])
  {
    var i := Find(regs, a);
    forall q <- Elems(regs) | Contains(q, a) ensures regs[i].order <= q.order {
      var j :| 0 <= j < |regs| && regs[j] == q;
      assert i <= j;
    }
  }

  // ---------- one merge ----------

  /** `u` and `v` are the two halves of an aligned region of twice the size. */
  predicate Siblings(u: Region, v: Region) {
    && u.base % Pow2(u.order + 1) == 0
    && u.base + Pow2(u.order) == v.base
    && u.order == v.order
    && u.flags == v.flags
  }

  function Parent(u: Region): Region {
    u.(order := u.order + 1)
  }

  lemma ParentExtent(u: Region, v: Region)
    requires Valid(u) && Valid(v) && Siblings(u, v)
    ensures Valid(Parent(u))
    ensures forall a: nat :: a < ADDRESSES ==> (Contains(Parent(u), a) <==> Contains(u, a) || Contains(v, a))
  {
    ValidEnds(u);
    ValidEnds(v);
    assert Pow2(u.order + 1) == 2 * Pow2(u.order);
    Whole();
    ValidEnds(Parent(u));
  }

  /** `next` is `prior` with the siblings (or one copy of each) replaced by their parent. */
  ghost predicate Merged(prior: set<Region>, next: set<Region>, u: Region, v: Region) {
    && u in prior && v in prior && Siblings(u, v) && Parent(u) in next
    && prior <= next + {u, v} && next <= prior + {Parent(u)}
  }

  lemma MergeForward(prior: set<Region>, next: set<Region>, u: Region, v: Region, a: nat, r: Region)
    requires AllValidSet(prior) && Consistent(prior) && Merged(prior, next, u, v) && a < ADDRESSES
    requires Decides(prior, a, r)
    ensures Gives(next, a, r.flags)
  {
    var p := Parent(u);
    ParentExtent(u, v);
    if r != u && r != v {
      assert Decides(next, a, r);
    } else if q :| q in next && q != p && Contains(q, a) && q.order <= u.order {
      Nested(q, r, a);
      assert Decides(next, a, q);
    } else {
      assert Decides(next, a, p);
    }
  }

  /** No region of the parent's extent with other flags decides an address afterwards. */
  ghost predicate Unrivalled(next: set<Region>, u: Region) {
    forall a: nat, q :: a < ADDRESSES && Decides(next, a, q) && q.base == u.base && q.order == u.order + 1
                        ==> q.flags == u.flags
  }

  lemma MergeBackward(prior: set<Region>, next: set<Region>, u: Region, v: Region, a: nat, r: Region)
    requires AllValidSet(prior) && Unrivalled(next, u) && Merged(prior, next, u, v) && a < ADDRESSES
    requires Decides(next, a, r)
    ensures Gives(prior, a, r.flags)
  {
    var p := Parent(u);
    ParentExtent(u, v);
    var w := if Contains(u, a) then u else v;
    if !Contains(p, a) || r.order <= u.order {
      assert Decides(prior, a, r);
    } else {
      Nested(r, p, a);
      assert r.flags == p.flags;
      assert Decides(prior, a, w);
    }
  }

  /** A rival of the parent changes what its address is given. */
  lemma RivalChanges(prior: set<Region>, next: set<Region>, u: Region, v: Region, a: nat, q: Region)
    requires AllValidSet(prior) && Merged(prior, next, u, v) && a < ADDRESSES
    requires Decides(next, a, q) && q.base == u.base && q.order == u.order + 1 && q.flags != u.flags
    ensures Gives(next, a, q.flags) && !Gives(prior, a, q.flags)
  {
    ParentExtent(u, v);
    assert Contains(Parent(u), a);
    var w := if Contains(u, a) then u else v;
    forall r | Decides(prior, a, r) ensures r.flags != q.flags {
      assert Contains(w, a) && w in prior;
    }
  }

  /** Replacing two siblings by their parent changes no address's flags, exactly when no region of
      the parent's extent with other flags decides an address afterwards. */
  lemma MergeExact(prior: set<Region>, next: set<Region>, u: Region, v: Region)
    requires AllValidSet(prior) && Consistent(prior) && Merged(prior, next, u, v)
    ensures AllValidSet(next)
    ensures SameMeaning(prior, next) <==> Unrivalled(next, u)
  {
    ParentExtent(u, v);
    if Unrivalled(next, u) {
      forall a: nat, f | a < ADDRESSES ensures Gives(prior, a, f) <==> Gives(next, a, f) {
        if r :| Decides(prior, a, r) && r.flags == f { MergeForward(prior, next, u, v, a, r); }
        if r :| Decides(next, a, r) && r.flags == f { MergeBackward(prior, next, u, v, a, r); }
      }
    } else {
      var a: nat, q :|
        a < ADDRESSES && Decides(next, a, q) && q.base == u.base && q.order == u.order + 1 && q.flags != u.flags;
      RivalChanges(prior, next, u, v, a, q);
    }
  }

  /** In particular when equal extents never carry different flags afterwards. */
  lemma MergeKeepsMeaning(prior: set<Region>, next: set<Region>, u: Region, v: Region)
    requires AllValidSet(prior) && Consistent(prior) && Consistent(next) && Merged(prior, next, u, v)
    ensures SameMeaning(prior, next) && AllValidSet(next)
  {
    forall a: nat, q | a < ADDRESSES && Decides(next, a, q) && q.base == u.base && q.order == u.order + 1
      ensures q.flags == u.flags
    {
      assert Parent(u) in next;
    }
    MergeExact(prior, next, u, v);
  }

  // ---------- a condition on the input that rules clashes out ----------

  predicate Inside(r: Region, q: Region) {
    q.base <= r.base && r.base + Pow2(r.order) <= q.base + Pow2(q.order)
  }

  /** Every address of `c` lies in a region of `s` that is inside `c` and carries the flags `f`. */
  ghost predicate Tiled(s: set<Region>, c: Region, f: bv64) {
    forall a: nat | a < ADDRESSES && Contains(c, a) :: exists r :: TileAt(s, c, f, a, r)
  }

  ghost predicate TileAt(s: set<Region>, c: Region, f: bv64, a: nat, r: Region) {
    r in s && r.flags == f && Inside(r, c) && Contains(r, a)
  }

  /** Some region is exactly filled by regions that agree among themselves on other flags. */
  ghost predicate Clash(s: set<Region>) {
    exists q, f :: q in s && f != q.flags && Tiled(s, q, f)
  }

  /** Every current region is filled by original regions with its own flags. */
  ghost predicate FromOriginals(orig: set<Region>, cur: set<Region>) {
    forall c <- cur :: Tiled(orig, c, c.flags)
  }

  lemma SelfTiled(orig: set<Region>)
    ensures FromOriginals(orig, orig)
  {
    forall c <- orig ensures Tiled(orig, c, c.flags) {
      forall a: nat | a < ADDRESSES && Contains(c, a) ensures exists r :: TileAt(orig, c, c.flags, a, r) {
        assert TileAt(orig, c, c.flags, a, c);
      }
    }
  }

  lemma ParentTiled(orig: set<Region>, u: Region, v: Region)
    requires Valid(u) && Valid(v) && Siblings(u, v) && Tiled(orig, u, u.flags) && Tiled(orig, v, v.flags)
    ensures Tiled(orig, Parent(u), u.flags)
  {
    ParentExtent(u, v);
    assert Pow2(u.order + 1) == 2 * Pow2(u.order);
    forall a: nat | a < ADDRESSES && Contains(Parent(u), a) ensures exists r :: TileAt(orig, Parent(u), u.flags, a, r) {
      var w := if Contains(u, a) then u else v;
      var r :| TileAt(orig, w, w.flags, a, r);
      assert TileAt(orig, Parent(u), u.flags, a, r);
    }
  }

  lemma {:induction false} LargestOf(s: set<Region>) returns (m: Region)
    requires s != {}
    ensures m in s && forall r <- s :: r.order <= m.order
  {
    var x :| x in s;
    if s == {x} {
      m := x;
    } else {
      m := LargestOf(s - {x});
      if m.order < x.order { m := x; }
    }
  }

  /** A largest tile of either colour is itself filled by tiles of the other colour. */
  lemma LargestTileClashes(orig: set<Region>, c: Region, f: bv64, g: bv64, m: Region)
    requires AllValidSet(orig) && Valid(c) && f != g && Tiled(orig, c, g)
    requires m in orig && m.flags == f && Inside(m, c)
    requires forall r <- orig :: (r.flags == g && Inside(r, c)) ==> r.order <= m.order
    ensures Clash(orig)
  {
    ValidEnds(m);
    ValidEnds(c);
    forall a: nat | a < ADDRESSES && Contains(m, a) ensures exists r :: TileAt(orig, m, g, a, r) {
      assert Contains(c, a);
      var r :| TileAt(orig, c, g, a, r);
      Nested(r, m, a);
      assert TileAt(orig, m, g, a, r);
    }
    assert Tiled(orig, m, g);
  }

  /** A region filled twice, in two colours, means that some original is filled by others. */
  lemma TwoColours(orig: set<Region>, c: Region, f: bv64, g: bv64)
    requires AllValidSet(orig) && Valid(c) && f != g && Tiled(orig, c, f) && Tiled(orig, c, g)
    ensures Clash(orig)
  {
    ValidEnds(c);
    var tiles := set r <- orig | (r.flags == f || r.flags == g) && Inside(r, c);
    assert Contains(c, c.base);
    var t :| TileAt(orig, c, f, c.base, t);
    assert t in tiles;
    var m := LargestOf(tiles);
    if m.flags == f {
      LargestTileClashes(orig, c, f, g, m);
    } else {
      LargestTileClashes(orig, c, g, f, m);
    }
  }

  lemma SameTiles(orig: set<Region>, b: Region, c: Region, f: bv64)
    requires b.base == c.base && b.order == c.order && Tiled(orig, b, f)
    ensures Tiled(orig, c, f)
  {
    forall a: nat | a < ADDRESSES && Contains(c, a) ensures exists r :: TileAt(orig, c, f, a, r) {
      assert Contains(b, a);
      var r :| TileAt(orig, b, f, a, r);
      assert TileAt(orig, c, f, a, r);
    }
  }

  /** Without a clash among the originals, everything merged from them stays consistent. */
  lemma StaysConsistent(orig: set<Region>, cur: set<Region>)
    requires AllValidSet(orig) && AllValidSet(cur) && FromOriginals(orig, cur) && !Clash(orig)
    ensures Consistent(cur)
  {
    forall b <- cur, c <- cur | b.base == c.base && b.order == c.order ensures b.flags == c.flags {
      if b.flags != c.flags {
        SameTiles(orig, b, c, b.flags);
        TwoColours(orig, c, b.flags, c.flags);
      }
    }
  }

  lemma TiledTwice(orig: set<Region>, cur: set<Region>, c: Region, f: bv64)
    requires FromOriginals(orig, cur) && Tiled(cur, c, f)
    ensures Tiled(orig, c, f)
  {
    forall a: nat | a < ADDRESSES && Contains(c, a) ensures exists r :: TileAt(orig, c, f, a, r) {
      var q :| TileAt(cur, c, f, a, q);
      assert Tiled(orig, q, f);
      var r :| TileAt(orig, q, f, a, r);
      assert TileAt(orig, c, f, a, r);
    }
  }

  /** And it does not clash either. */
  lemma StaysUnclashed(orig: set<Region>, cur: set<Region>)
    requires AllValidSet(orig) && AllValidSet(cur) && FromOriginals(orig, cur) && !Clash(orig)
    ensures !Clash(cur)
  {
    if Clash(cur) {
      var q, f :| q in cur && f != q.flags && Tiled(cur, q, f);
      TiledTwice(orig, cur, q, f);
      TwoColours(orig, q, f, q.flags);
    }
  }

  lemma SameMeaningTrans(s: set<Region>, t: set<Region>, u: set<Region>)
    requires SameMeaning(s, t) && SameMeaning(t, u)
    ensures SameMeaning(s, u)
  {
  }

  /** What a state reached from `orig` by sorting and merging satisfies. */
  ghost predicate Derived(orig: set<Region>, cur: set<Region>) {
    && AllValidSet(cur)
    && FromOriginals(orig, cur)
    && (!Clash(orig) ==> Consistent(cur) && SameMeaning(orig, cur))
  }

  lemma DerivedStart(orig: set<Region>)
    requires AllValidSet(orig)
    ensures Derived(orig, orig)
  {
    SelfTiled(orig);
    if !Clash(orig) { StaysConsistent(orig, orig); }
  }

  lemma DerivedMerge(orig: set<Region>, cur: set<Region>, next: set<Region>, u: Region, v: Region)
    requires AllValidSet(orig) && Derived(orig, cur) && Merged(cur, next, u, v)
    ensures Derived(orig, next)
  {
    ParentExtent(u, v);
    ParentTiled(orig, u, v);
    assert FromOriginals(orig, next);
    if !Clash(orig) {
      StaysConsistent(orig, next);
      MergeKeepsMeaning(cur, next, u, v);
      SameMeaningTrans(orig, cur, next);
    }
  }

  // ---------- leaving a covered region out ----------

  /** `reg` adds nothing at `a`: a region of its own size gives its flags already, or the larger ones
      that decide carry them. */
  ghost predicate Redundant(s: set<Region>, reg: Region, a: nat) {
    forall q | Decides(s, a, q) && q.order >= reg.order ::
      if q.order == reg.order then Gives(s, a, reg.flags) else q.flags == reg.flags
  }

  /** When `reg` need not be added because a region with the same flags covers it, exactly: when it
      is redundant at each of its addresses. */
  lemma SkipExact(s: set<Region>, reg: Region)
    requires AllValidSet(s) && Valid(reg)
    requires exists c <- s :: IsSubset(reg, c) && reg.flags == c.flags
    ensures SameMeaning(s, s + {reg})
      <==> forall a: nat | a < ADDRESSES && Contains(reg, a) :: Redundant(s, reg, a)
  {
    var s' := s + {reg};
    var c :| c in s && IsSubset(reg, c) && reg.flags == c.flags;
    ValidEnds(reg);
    ValidEnds(c);
    if forall a: nat | a < ADDRESSES && Contains(reg, a) :: Redundant(s, reg, a) {
      forall a: nat, f | a < ADDRESSES ensures Gives(s, a, f) <==> Gives(s', a, f) {
        SkipAt(s, reg, c, a, f);
      }
    } else {
      var a: nat :| a < ADDRESSES && Contains(reg, a) && !Redundant(s, reg, a);
      NotRedundant(s, reg, a);
    }
  }

  lemma SkipAt(s: set<Region>, reg: Region, c: Region, a: nat, f: bv64)
    requires c in s && (Contains(reg, a) ==> Contains(c, a) && Redundant(s, reg, a))
    ensures Gives(s, a, f) <==> Gives(s + {reg}, a, f)
  {
    if r :| Decides(s, a, r) && r.flags == f {
      StillGiven(s, reg, a, r);
    }
    if r :| Decides(s + {reg}, a, r) && r.flags == f {
      WasGiven(s, reg, c, a, r);
    }
  }

  lemma StillGiven(s: set<Region>, reg: Region, a: nat, r: Region)
    requires Decides(s, a, r) && (Contains(reg, a) ==> Redundant(s, reg, a))
    ensures Gives(s + {reg}, a, r.flags)
  {
    assert Decides(s + {reg}, a, if Contains(reg, a) && reg.order < r.order then reg else r);
  }

  lemma WasGiven(s: set<Region>, reg: Region, c: Region, a: nat, r: Region)
    requires c in s && (Contains(reg, a) ==> Contains(c, a) && Redundant(s, reg, a))
    requires Decides(s + {reg}, a, r)
    ensures Gives(s, a, r.flags)
  {
    if r in s {
      assert Decides(s, a, r);
    } else {
      var holders := set q <- s | Contains(q, a);
      assert c in holders;
      var m := SmallestOf(holders);
      assert Decides(s, a, m);
      assert reg.order <= m.order;
    }
  }

  lemma NotRedundant(s: set<Region>, reg: Region, a: nat)
    requires a < ADDRESSES && Contains(reg, a) && !Redundant(s, reg, a)
    ensures !SameMeaning(s, s + {reg})
  {
    var q :| Decides(s, a, q) && q.order >= reg.order
      && !(if q.order == reg.order then Gives(s, a, reg.flags) else q.flags == reg.flags);
    var s' := s + {reg};
    if q.order == reg.order {
      assert Decides(s', a, reg);
      assert Gives(s', a, reg.flags);
    } else {
      assert Gives(s, a, q.flags);
      assert !Gives(s', a, q.flags);
    }
  }

  lemma {:induction false} SmallestOf(s: set<Region>) returns (m: Region)
    requires s != {}
    ensures m in s && forall r <- s :: m.order <= r.order
  {
    var x :| x in s;
    if s == {x} {
      m := x;
    } else {
      m := SmallestOf(s - {x});
      if m.order > x.order { m := x; }
    }
  }

  /** The early return does go wrong: a permission-free region between the new region and the
      one that covers it keeps deciding. */
  lemma SkipLosesRegion()
    ensures var big, mid, reg := Region(0, 6, 1), Region(0, 5, 0), Region(0, 4, 1);
      && IsSubset(reg, big) && reg.flags == big.flags
      && Gives({big, mid, reg}, 0, 1) && !Gives({big, mid}, 0, 1)
  {
    var big, mid, reg := Region(0, 6, 1), Region(0, 5, 0), Region(0, 4, 1);
    assert Pow2(4) == 16 && Pow2(5) == 32 && Pow2(6) == 64;
    assert Decides({big, mid, reg}, 0, reg);
    assert Contains(mid, 0);
  }
}

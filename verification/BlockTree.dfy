/** Rewinding an oracle node by invalidating its tip: `rewind_oracle_until` in
    fuzz/src/block_diff.rs and `park_active_tip_at` in fuzz/src/chain_review.rs. The
    oracle keeps every block it was given, invalidation sticks to a block and its
    descendants, and the tip is any valid block of greatest height. */
module BlockTree {

  type Hash = string

  /** Every block has a height; every block above height 0 has a parent one below. */
  datatype Tree = Tree(height: map<Hash, nat>, parent: map<Hash, Hash>) {
    ghost predicate IsTree() {
      && (forall b :: b in parent <==> b in height && height[b] > 0)
      && (forall b :: b in parent ==> parent[b] in height && height[parent[b]] + 1 == height[b])
    }

    /** `a` is `b` or one of its ancestors. */
    predicate Ancestor(a: Hash, b: Hash)
      requires IsTree() && b in height
      decreases height[b]
    {
      a == b || (b in parent && Ancestor(a, parent[b]))
    }

    /** Neither `b` nor an ancestor has been invalidated. */
    predicate ValidBlock(invalid: set<Hash>, b: Hash)
      requires IsTree() && b in height
      decreases height[b]
    {
      b !in invalid && (b in parent ==> ValidBlock(invalid, parent[b]))
    }

    function ValidBlocks(invalid: set<Hash>): set<Hash>
      requires IsTree()
    {
      set b | b in height && ValidBlock(invalid, b)
    }

    predicate Best(invalid: set<Hash>, b: Hash)
      requires IsTree()
    {
      b in ValidBlocks(invalid) && forall c :: c in ValidBlocks(invalid) ==> height[c] <= height[b]
    }

    lemma {:induction false} AncestorHeight(a: Hash, b: Hash)
      requires IsTree() && b in height && Ancestor(a, b)
      ensures a in height && height[a] <= height[b] && (height[a] == height[b] ==> a == b)
      decreases height[b]
    {
      if a != b {
        AncestorHeight(a, parent[b]);
      }
    }

    lemma {:induction false} AncestorOfValid(invalid: set<Hash>, a: Hash, b: Hash)
      requires IsTree() && b in height && Ancestor(a, b) && ValidBlock(invalid, b)
      ensures a in height && ValidBlock(invalid, a)
      decreases height[b]
    {
      if a != b {
        AncestorOfValid(invalid, a, parent[b]);
      }
    }

    /** Invalidating `x` takes out exactly `x` and its descendants. */
    lemma {:induction false} InvalidateBlock(invalid: set<Hash>, x: Hash, b: Hash)
      requires IsTree() && b in height
      ensures ValidBlock(invalid + {x}, b) <==> ValidBlock(invalid, b) && !Ancestor(x, b)
      decreases height[b]
    {
      if b in parent {
        InvalidateBlock(invalid, x, parent[b]);
      }
    }

    lemma InvalidateBlocks(invalid: set<Hash>, x: Hash)
      requires IsTree()
      ensures ValidBlocks(invalid + {x}) == set b | b in ValidBlocks(invalid) && !Ancestor(x, b)
    {
      forall b | b in height
        ensures ValidBlock(invalid + {x}, b) <==> ValidBlock(invalid, b) && !Ancestor(x, b)
      {
        InvalidateBlock(invalid, x, b);
      }
    }

    /** After its tip is invalidated the oracle still has the tip's parent, so the best
        height drops by at most one. */
    lemma ParentSurvives(invalid: set<Hash>, tip: Hash)
      requires IsTree() && Best(invalid, tip) && height[tip] > 0
      ensures tip in parent && parent[tip] in ValidBlocks(invalid + {tip})
    {
      InvalidateBlocks(invalid, tip);
      assert Ancestor(parent[tip], tip);
      AncestorOfValid(invalid, parent[tip], tip);
      if Ancestor(tip, parent[tip]) {
        AncestorHeight(tip, parent[tip]);
      }
    }
  }

  lemma {:induction false} HighestExists(height: map<Hash, nat>, s: set<Hash>)
    requires s != {} && s <= height.Keys
    ensures exists b :: b in s && forall c :: c in s ==> height[c] <= height[b]
    decreases |s|
  {
    var x :| x in s;
    if s == {x} {
    } else {
      HighestExists(height, s - {x});
      var b :| b in s - {x} && forall c :: c in s - {x} ==> height[c] <= height[b];
      var top := if height[b] < height[x] then x else b;
      assert forall c :: c in s ==> c == x || c in s - {x};
      assert top in s && forall c :: c in s ==> height[c] <= height[top];
    }
  }

  lemma BestExists(tree: Tree, invalid: set<Hash>)
    requires tree.IsTree() && tree.ValidBlocks(invalid) != {}
    ensures exists b :: tree.Best(invalid, b)
  {
    var s := tree.ValidBlocks(invalid);
    HighestExists(tree.height, s);
    var b :| b in s && forall c :: c in s ==> tree.height[c] <= tree.height[b];
    assert tree.Best(invalid, b);
  }

  datatype Fault = NoChain | Rpc

  datatype Answer<+T> = Ok(value: T) | Err(fault: Fault)

  class Oracle {
    const tree: Tree
    var invalid: set<Hash>
    var tip: Hash
    /** How many calls have failed. */
    var faults: nat

    ghost predicate Sound()
      reads this
    {
      tree.IsTree() && tree.Best(invalid, tip)
    }

    ghost function ValidBlocks(): set<Hash>
      requires tree.IsTree()
      reads this
    {
      tree.ValidBlocks(invalid)
    }

    method BestBlock() returns (r: Answer<(nat, Hash)>)
      requires Sound()
      modifies this`faults
      ensures r.Ok? ==> r.value == (tree.height[tip], tip) && faults == old(faults)
      ensures r.Err? ==> faults == old(faults) + 1
    {
      if * {
        faults := faults + 1;
        if * {
          return Err(NoChain);
        }
        return Err(Rpc);
      }
      return Ok((tree.height[tip], tip));
    }

    /** Whether `hash` lies on the active chain. */
    method IsActive(hash: Hash) returns (r: Answer<bool>)
      requires Sound()
      modifies this`faults
      ensures r.Ok? ==> r.value == tree.Ancestor(hash, tip) && faults == old(faults)
      ensures r.Err? ==> faults == old(faults) + 1
    {
      if * {
        faults := faults + 1;
        if * {
          return Err(NoChain);
        }
        return Err(Rpc);
      }
      return Ok(tree.Ancestor(hash, tip));
    }

    /** Invalidates the current tip. A call that fails may or may not have taken effect. */
    method InvalidateTip() returns (r: Answer<()>)
      requires Sound() && tree.height[tip] > 0
      modifies this
      ensures Sound()
      ensures r.Ok? ==> invalid == old(invalid) + {old(tip)} && faults == old(faults)
      ensures r.Err? ==> faults == old(faults) + 1
      ensures invalid == old(invalid) || invalid == old(invalid) + {old(tip)}
    {
      var reported := true;
      if * {
        faults := faults + 1;
        if * {
          return Err(Rpc);
        }
        reported := false;
      }
      tree.ParentSurvives(invalid, tip);
      invalid := invalid + {tip};
      BestExists(tree, invalid);
      var best :| tree.Best(invalid, best);
      tip := best;
      return if reported then Ok(()) else Err(Rpc);
    }
  }

  // ----- rewinding to a height

  datatype RewindResult = Rewound | BelowPad | NoProgress | OracleFault(fault: Fault)

  /** Rewinds to height `keep`. Whatever siblings the oracle activates on the way, only
      blocks above `keep` are invalidated, "no progress" is never reported, and on
      success the valid blocks are exactly the old ones up to `keep`. */
  method RewindUntil(o: Oracle, keep: nat) returns (r: RewindResult)
    requires o.Sound()
    modifies o
    ensures o.Sound()
    ensures forall b :: b in o.tree.height && o.tree.height[b] <= keep ==>
              (b in o.ValidBlocks() <==> b in old(o.ValidBlocks()))
    ensures o.ValidBlocks() <= old(o.ValidBlocks())
    ensures r.BelowPad? ==> old(o.tree.height[o.tip]) < keep && o.invalid == old(o.invalid)
    ensures old(o.tree.height[o.tip]) < keep ==> r.BelowPad? || r.OracleFault?
    ensures old(o.tree.height[o.tip]) >= keep ==> r.Rewound? || r.OracleFault?
    ensures o.faults == old(o.faults) + if r.OracleFault? then 1 else 0
    ensures r.Rewound? ==>
              && o.tree.height[o.tip] == keep
              && o.ValidBlocks() == set b | b in old(o.ValidBlocks()) && o.tree.height[b] <= keep
  {
    hide Tree.ValidBlock, Tree.Ancestor;
    r := Rewound;
    while true
      invariant o.Sound() && o.faults == old(o.faults)
      invariant o.ValidBlocks() <= old(o.ValidBlocks())
      invariant forall b :: b in o.tree.height && o.tree.height[b] <= keep ==>
                  (b in o.ValidBlocks() <==> b in old(o.ValidBlocks()))
      invariant if old(o.tree.height[o.tip]) >= keep then o.tree.height[o.tip] >= keep
                else o.invalid == old(o.invalid) && o.tip == old(o.tip)
      decreases o.ValidBlocks()
    {
      var t := o.BestBlock();
      if t.Err? {
        r := OracleFault(t.fault);
        break;
      }
      var (n, hash) := t.value;
      if n == keep {
        break;
      }
      if n < keep {
        r := BelowPad;
        break;
      }
      TipInvalidated(o.tree, o.invalid, o.tip, keep);
      var done := o.InvalidateTip();
      if done.Err? {
        r := OracleFault(done.fault);
        break;
      }
      var t2 := o.BestBlock();
      if t2.Err? {
        r := OracleFault(t2.fault);
        break;
      }
      if t2.value.1 == hash {
        r := NoProgress;
        break;
      }
    }
  }

  /** Invalidating a tip above `keep` takes the tip and nothing at or below `keep`. */
  lemma TipInvalidated(tree: Tree, invalid: set<Hash>, tip: Hash, keep: nat)
    requires tree.IsTree() && tree.Best(invalid, tip) && tree.height[tip] > keep
    ensures var after := tree.ValidBlocks(invalid + {tip});
            && after < tree.ValidBlocks(invalid) && tip !in after
            && (forall b :: b in tree.height && tree.height[b] <= keep ==>
                  (b in after <==> b in tree.ValidBlocks(invalid)))
            && exists b :: b in after && tree.height[b] >= keep
  {
    tree.InvalidateBlocks(invalid, tip);
    tree.ParentSurvives(invalid, tip);
    forall b | b in tree.height && tree.height[b] <= keep ensures !tree.Ancestor(tip, b) {
      if tree.Ancestor(tip, b) {
        tree.AncestorHeight(tip, b);
      }
    }
    assert tree.height[tree.parent[tip]] >= keep;
  }

  // ----- parking at a block

  datatype ParkResult = Parked | Stuck | OracleRpc

  /** The proper descendants of `hash`. */
  predicate Above(tree: Tree, hash: Hash, b: Hash)
    requires tree.IsTree() && b in tree.height
  {
    b != hash && tree.Ancestor(hash, b)
  }

  /** Invalidates tips until `hash` is the tip or no longer on the active chain. Only
      proper descendants of `hash` are invalidated. If `hash` ends up as the tip, all of
      its proper descendants are invalid and nothing else has changed. That is certain when
      every valid block that does not descend from `hash` is lower, and impossible when one
      is higher. */
  method ParkAt(o: Oracle, hash: Hash) returns (r: ParkResult)
    requires o.Sound()
    modifies o
    ensures o.Sound()
    ensures o.ValidBlocks() <= old(o.ValidBlocks())
    ensures forall b :: b in old(o.ValidBlocks()) && !Above(o.tree, hash, b) ==> b in o.ValidBlocks()
    ensures !r.Stuck?
    ensures r.OracleRpc? ==> o.faults > old(o.faults)
    ensures o.faults == old(o.faults) ==> r.Parked? && (o.tip == hash || !o.tree.Ancestor(hash, o.tip))
    ensures o.tip == hash ==>
              o.ValidBlocks() == set b | b in old(o.ValidBlocks()) && !Above(o.tree, hash, b)
    ensures && o.faults == old(o.faults) && hash in old(o.ValidBlocks())
            && (forall b :: b in old(o.ValidBlocks()) && !o.tree.Ancestor(hash, b) ==>
                  o.tree.height[b] < o.tree.height[hash])
            ==> o.tip == hash
    ensures hash !in old(o.ValidBlocks()) ==> o.tip != hash
    ensures forall b :: b in old(o.ValidBlocks()) && !o.tree.Ancestor(hash, b) && hash in o.tree.height ==>
              o.tree.height[b] > o.tree.height[hash] ==> o.tip != hash
  {
    hide Tree.ValidBlock, Tree.Ancestor;
    r := Parked;
    while true
      invariant o.Sound() && o.faults == old(o.faults)
      invariant o.ValidBlocks() <= old(o.ValidBlocks())
      invariant forall b :: b in old(o.ValidBlocks()) && !Above(o.tree, hash, b) ==> b in o.ValidBlocks()
      decreases o.ValidBlocks()
    {
      var t := o.BestBlock();
      if t.Err? {
        r := if t.fault == NoChain then Parked else OracleRpc;
        break;
      }
      var (_, best) := t.value;
      if best == hash {
        break;
      }
      var active := o.IsActive(hash);
      if active.Err? {
        r := if active.fault == NoChain then Parked else OracleRpc;
        break;
      }
      if !active.value {
        break;
      }
      DescendantInvalidated(o.tree, o.invalid, o.tip, hash);
      var done := o.InvalidateTip();
      if done.Err? {
        r := OracleRpc;
        break;
      }
      var next := o.BestBlock();
      if next.Err? {
        r := OracleRpc;
        break;
      }
      if next.value.1 == best {
        r := Stuck;
        break;
      }
    }
    if o.tip == hash {
      NothingAboveBest(o.tree, o.invalid, hash);
    }
    if hash in old(o.ValidBlocks()) {
      assert hash in o.ValidBlocks();
    }
  }

  lemma NothingAboveBest(tree: Tree, invalid: set<Hash>, hash: Hash)
    requires tree.IsTree() && tree.Best(invalid, hash)
    ensures forall b :: b in tree.ValidBlocks(invalid) ==> !Above(tree, hash, b)
  {
    forall b | b in tree.ValidBlocks(invalid) ensures !Above(tree, hash, b) {
      if tree.Ancestor(hash, b) {
        tree.AncestorHeight(hash, b);
      }
    }
  }

  /** Invalidating a tip above `hash` takes no block that is not above `hash`. */
  lemma DescendantInvalidated(tree: Tree, invalid: set<Hash>, tip: Hash, hash: Hash)
    requires tree.IsTree() && tree.Best(invalid, tip) && Above(tree, hash, tip)
    ensures tree.height[tip] > 0
    ensures var after := tree.ValidBlocks(invalid + {tip});
            && after < tree.ValidBlocks(invalid) && tip !in after
            && forall b :: b in tree.ValidBlocks(invalid) && !Above(tree, hash, b) ==> b in after
  {
    tree.AncestorHeight(hash, tip);
    tree.InvalidateBlocks(invalid, tip);
    forall b | b in tree.ValidBlocks(invalid) && tree.Ancestor(tip, b) ensures Above(tree, hash, b) {
      AncestorTransitive(tree, hash, tip, b);
      tree.AncestorHeight(tip, b);
    }
  }

  lemma {:induction false} AncestorTransitive(tree: Tree, a: Hash, b: Hash, c: Hash)
    requires tree.IsTree() && c in tree.height && tree.Ancestor(b, c) && b in tree.height && tree.Ancestor(a, b)
    ensures tree.Ancestor(a, c)
    decreases tree.height[c]
  {
    if b != c {
      AncestorTransitive(tree, a, b, tree.parent[c]);
    }
  }
}

/**
  The read side of the copy-on-write B+tree (GTWAOFBTree.h): a tree is a
  root page id in a sequence of pages (the arena: a store's pages, or the
  view of an update context). Pages are never overwritten, so a tree that
  is well formed in an arena stays well formed, with the same contents, in
  every longer arena: that is what lets an old root keep its snapshot while
  a new root is written beside it.

  Every node is written after its children, so a child's page id is below
  its parent's; the descents below use that as their termination measure
  and report a page that breaks it as corrupt.
*/
module BTree {
  import opened Bytes
  import opened Results
  import opened Entries
  import opened BTreeNode

  /** The pages of a store or of an update context's view. */
  type Arena = seq<seq<byte>>

  /** The pages of an arena as decoded nodes (or the error each decodes to). */
  type Table = seq<Result<Node>>

  function Decoded(A: Arena): (T: Table)
    ensures |T| == |A|
    decreases |A|, 2
  {
    if A == [] then [] else Decoded(A[..|A| - 1]) + [LastDecoded(A)]
  }

  /** The last entry of Decoded(A). */
  function LastDecoded(A: Arena): (r: Result<Node>)
    requires A != []
    decreases |A|, 1
  {
    DecodedEntry(A, |A| - 1)
  }

  /**
    Entry i of Decoded(A). The three functions recurse together, two steps
    apart from a page's decoding, so a page is decoded in a proof only where
    DecodedAt is called.
  */
  function DecodedEntry(A: Arena, i: nat): (r: Result<Node>)
    requires i < |A|
    decreases |A|, 0
  {
    if i < |A| - 1 then Decoded(A[..|A| - 1])[i] else DecodeNode(A[i])
  }

  /** Entry i of the table is the decoding of page i. */
  lemma {:induction false} DecodedAt(A: Arena, i: nat)
    requires i < |A|
    ensures Decoded(A)[i] == DecodeNode(A[i])
    decreases |A|
  {
    if i < |A| - 1 {
      DecodedAt(A[..|A| - 1], i);
    } else {
      assert LastDecoded(A) == DecodedEntry(A, i);
    }
  }

  lemma {:induction false} DecodedPrefix(A: Arena, B: Arena)
    requires A <= B
    ensures Decoded(A) <= Decoded(B)
    decreases |B|
  {
    if |A| < |B| {
      assert A <= B[..|B| - 1];
      DecodedPrefix(A, B[..|B| - 1]);
    } else {
      assert A == B;
    }
  }

  lemma DecodedAppend(A: Arena, page: seq<byte>)
    ensures Decoded(A + [page]) == Decoded(A) + [DecodeNode(page)]
  {
    var B := A + [page];
    assert B[..|A|] == A;
    assert LastDecoded(B) == DecodedEntry(B, |A|);
  }

  /** A tree: the configuration of its pages and the id of its root page. */
  datatype Tree = Tree(cfg: Config, root: nat)

  /** initWithPageID:parentID:fromAOF: the node stored at a page id. */
  function ReadNode(A: Arena, id: nat): (r: Result<Node>)
    ensures r == Err(OutOfRange) <==> id >= |A|
    ensures r.Ok? ==> Shaped(r.value)
    ensures id < |A| ==> r == Decoded(A)[id]
  {
    if id < |A| then DecodedAt(A, id); DecodeNode(A[id]) else Err(OutOfRange)
  }

  /** A node of the table, or why there is none. */
  function NodeAt(T: Table, id: nat): (r: Result<Node>)
    ensures id >= |T| ==> r == Err(OutOfRange)
    ensures id < |T| ==> r == T[id]
  {
    if id < |T| then T[id] else Err(OutOfRange)
  }

  /** Two enumerations one after the other; the first error wins. */
  function Concat(a: Result<seq<Pair>>, b: Result<seq<Pair>>): (r: Result<seq<Pair>>)
    ensures r.Ok? <==> a.Ok? && b.Ok?
    ensures r.Ok? ==> r.value == a.value + b.value
  {
    if a.Err? then a else if b.Err? then b else Ok(a.value + b.value)
  }

  lemma ConcatAssoc(x: Result<seq<Pair>>, y: Result<seq<Pair>>, z: Result<seq<Pair>>)
    ensures Concat(x, Concat(y, z)) == Concat(Concat(x, y), z)
  {
    if x.Ok? && y.Ok? && z.Ok? {
      assert x.value + (y.value + z.value) == (x.value + y.value) + z.value;
    }
  }

  // ---------------------------------------------------------------------
  // Enumeration
  // ---------------------------------------------------------------------

  /** The pairs under the node at id, in the order the enumerator visits them. */
  function Enumerate(T: Table, id: nat): (r: Result<seq<Pair>>)
    ensures id >= |T| ==> r == Err(OutOfRange)
    ensures id < |T| && T[id].Err? ==> r == Err(T[id].error)
    ensures id < |T| && T[id].Ok? && T[id].value.Leaf? && Shaped(T[id].value) ==> r == Ok(LeafEntries(T[id].value))
    decreases id, 2, 0
  {
    match NodeAt(T, id)
    case Err(e) => Err(e)
    case Ok(n) => EnumerateNode(T, n, id)
  }

  /** The pairs under a node whose children all have ids below bound. */
  function EnumerateNode(T: Table, n: Node, bound: nat): Result<seq<Pair>>
    decreases bound, 1, 0
  {
    match n
    case Leaf(_, _, _, _, keys, objects) =>
      if |keys| == |objects| then Ok(Zip(keys, objects)) else Err(CorruptPage)
    case Internal(_, _, _, _, _, ids) => EnumerateChildren(T, ids, bound)
  }

  /** The children in order, each fully before the next. */
  function EnumerateChildren(T: Table, ids: seq<nat>, bound: nat): Result<seq<Pair>>
    decreases bound, 0, |ids|
  {
    if ids == [] then Ok([])
    else if ids[0] >= bound then Err(CorruptPage)
    else Concat(Enumerate(T, ids[0]), EnumerateChildren(T, ids[1..], bound))
  }

  // ---------------------------------------------------------------------
  // Well-formed subtrees
  // ---------------------------------------------------------------------

  predicate KeysInRange(keys: seq<Key>, lo: Option<Key>, hi: Option<Key>)
  {
    forall i | 0 <= i < |keys| :: AboveLo(keys[i], lo) && BelowHi(keys[i], hi)
  }

  /** The upper bound of child j: the next key, or the parent's own bound for the last child. */
  function ChildHi(keys: seq<Key>, j: nat, hi: Option<Key>): (r: Option<Key>)
    ensures j + 1 < |keys| ==> r == Some(keys[j + 1])
    ensures j + 1 >= |keys| ==> r == hi
  {
    if j + 1 < |keys| then Some(keys[j + 1]) else hi
  }

  /**
    The page at id holds a valid node whose keys lie in [lo, hi), marked
    as the root exactly when root holds, at height h (0 for a leaf) with
    every path down of that length.
  */
  predicate WF(T: Table, cfg: Config, id: nat, lo: Option<Key>, hi: Option<Key>, h: nat, root: bool)
    decreases id, 2, 0
  {
    && id < |T|
    && T[id].Ok?
    && NodeWF(T, cfg, T[id].value, id, lo, hi, h, root)
  }

  predicate NodeWF(T: Table, cfg: Config, n: Node, bound: nat, lo: Option<Key>, hi: Option<Key>, h: nat, root: bool)
    decreases bound, 1, 0
  {
    && NodeShape(cfg, n, lo, hi, h, root)
    && (n.Internal? ==> ChildrenWF(T, cfg, n.keys, n.pageIDs, hi, h - 1, bound))
  }

  /** What a well-formed node is on its own, whatever its children are. */
  predicate NodeShape(cfg: Config, n: Node, lo: Option<Key>, hi: Option<Key>, h: nat, root: bool)
  {
    && ValidNode(n, cfg)
    && IsRoot(n.flags) == root
    && KeysInRange(n.keys, lo, hi)
    && (n.Leaf? <==> h == 0)
    && (n.Internal? ==> |n.keys| >= 1)
  }

  /** Child j sits below bound and is well formed in [keys[j], next key) one level down. */
  predicate ChildrenWF(T: Table, cfg: Config, keys: seq<Key>, ids: seq<nat>, hi: Option<Key>, h: nat, bound: nat)
    decreases bound, 0, 0
  {
    && |ids| == |keys|
    && forall j | 0 <= j < |ids| ::
         ids[j] < bound && WF(T, cfg, ids[j], Some(keys[j]), ChildHi(keys, j, hi), h, false)
  }

  /** The height along the leftmost path. */
  function Height(T: Table, id: nat): nat
    decreases id
  {
    match NodeAt(T, id)
    case Ok(Internal(_, _, _, _, _, ids)) =>
      if |ids| > 0 && ids[0] < id then 1 + Height(T, ids[0]) else 0
    case _ => 0
  }

  /** A tree opened on a well-formed root page. */
  predicate ValidTree(T: Table, t: Tree)
  {
    ValidConfig(t.cfg) && WF(T, t.cfg, t.root, None, None, Height(T, t.root), true)
  }

  /** The contents of a tree: its enumeration. */
  function Contents(T: Table, t: Tree): (r: Result<seq<Pair>>)
    ensures t.root >= |T| ==> r == Err(OutOfRange)
    ensures r.Ok? ==> t.root < |T| && T[t.root].Ok?
  {
    Enumerate(T, t.root)
  }

  lemma {:induction false} WFHeight(T: Table, cfg: Config, id: nat, lo: Option<Key>, hi: Option<Key>, h: nat, root: bool)
    requires WF(T, cfg, id, lo, hi, h, root)
    ensures Height(T, id) == h
    decreases id
  {
    var n := T[id].value;
    if n.Internal? {
      assert ChildrenWF(T, cfg, n.keys, n.pageIDs, hi, h - 1, id);
      WFHeight(T, cfg, n.pageIDs[0], Some(n.keys[0]), ChildHi(n.keys, 0, hi), h - 1, false);
    }
  }

  // ---------------------------------------------------------------------
  // Pages are never overwritten: appending pages changes nothing below
  // ---------------------------------------------------------------------

  lemma {:induction false} EnumerateExtend(T: Table, U: Table, id: nat)
    requires T <= U && id < |T|
    ensures Enumerate(U, id) == Enumerate(T, id)
    decreases id, 2, 0
  {
    assert U[id] == T[id];
    if NodeAt(T, id).Ok? {
      EnumerateNodeExtend(T, U, NodeAt(T, id).value, id);
    }
  }

  lemma {:induction false} EnumerateNodeExtend(T: Table, U: Table, n: Node, bound: nat)
    requires T <= U && bound <= |T|
    ensures EnumerateNode(U, n, bound) == EnumerateNode(T, n, bound)
    decreases bound, 1, 0
  {
    if n.Internal? {
      EnumerateChildrenExtend(T, U, n.pageIDs, bound);
    }
  }

  lemma {:induction false} EnumerateChildrenExtend(T: Table, U: Table, ids: seq<nat>, bound: nat)
    requires T <= U && bound <= |T|
    ensures EnumerateChildren(U, ids, bound) == EnumerateChildren(T, ids, bound)
    decreases bound, 0, |ids|
  {
    if ids != [] && ids[0] < bound {
      EnumerateExtend(T, U, ids[0]);
      EnumerateChildrenExtend(T, U, ids[1..], bound);
    }
  }

  lemma {:induction false} WFExtend(T: Table, U: Table, cfg: Config, id: nat, lo: Option<Key>, hi: Option<Key>, h: nat, root: bool)
    requires T <= U && id < |T| && WF(T, cfg, id, lo, hi, h, root)
    ensures WF(U, cfg, id, lo, hi, h, root)
    decreases id, 1, 0
  {
    assert U[id] == T[id];
    var n := T[id].value;
    assert NodeShape(cfg, n, lo, hi, h, root);
    if n.Internal? {
      ChildrenWFExtend(T, U, cfg, n.keys, n.pageIDs, hi, h - 1, id);
    }
  }

  lemma {:induction false} ChildrenWFExtend(T: Table, U: Table, cfg: Config, keys: seq<Key>, ids: seq<nat>,
                                            hi: Option<Key>, h: nat, bound: nat)
    requires T <= U && bound <= |T| && ChildrenWF(T, cfg, keys, ids, hi, h, bound)
    ensures ChildrenWF(U, cfg, keys, ids, hi, h, bound)
    decreases bound, 0, 0
  {
    if |ids| == |keys| {
      forall j | 0 <= j < |ids|
        ensures WF(U, cfg, ids[j], Some(keys[j]), ChildHi(keys, j, hi), h, false)
      {
        WFExtend(T, U, cfg, ids[j], Some(keys[j]), ChildHi(keys, j, hi), h, false);
      }
    }
  }

  /** Copy-on-write: a valid tree keeps its validity and contents when pages are appended. */
  lemma TreeExtend(T: Table, U: Table, t: Tree)
    requires T <= U && ValidTree(T, t)
    ensures ValidTree(U, t)
    ensures Contents(U, t) == Contents(T, t)
  {
    WFHeight(T, t.cfg, t.root, None, None, Height(T, t.root), true);
    WFExtend(T, U, t.cfg, t.root, None, None, Height(T, t.root), true);
    WFHeight(U, t.cfg, t.root, None, None, Height(T, t.root), true);
    EnumerateExtend(T, U, t.root);
  }

  // ---------------------------------------------------------------------
  // Structure of the child enumeration
  // ---------------------------------------------------------------------

  lemma {:induction false} ChildrenAppend(T: Table, a: seq<nat>, b: seq<nat>, bound: nat)
    ensures EnumerateChildren(T, a + b, bound) == Concat(EnumerateChildren(T, a, bound), EnumerateChildren(T, b, bound))
  {
    if a == [] {
      assert a + b == b;
      var e := EnumerateChildren(T, b, bound);
      if e.Ok? {
        assert [] + e.value == e.value;
      }
    } else {
      assert (a + b)[0] == a[0] && (a + b)[1..] == a[1..] + b;
      if a[0] < bound {
        ChildrenAppend(T, a[1..], b, bound);
        ConcatAssoc(Enumerate(T, a[0]), EnumerateChildren(T, a[1..], bound), EnumerateChildren(T, b, bound));
      }
    }
  }

  /** The bound only guards termination: any bound above every id gives the same enumeration. */
  lemma {:induction false} ChildrenBound(T: Table, ids: seq<nat>, b1: nat, b2: nat)
    requires forall j | 0 <= j < |ids| :: ids[j] < b1 && ids[j] < b2
    ensures EnumerateChildren(T, ids, b1) == EnumerateChildren(T, ids, b2)
  {
    if ids != [] {
      ChildrenBound(T, ids[1..], b1, b2);
    }
  }

  lemma ChildrenWFBound(T: Table, cfg: Config, keys: seq<Key>, ids: seq<nat>, hi: Option<Key>, h: nat, b1: nat, b2: nat)
    requires ChildrenWF(T, cfg, keys, ids, hi, h, b1) && b1 <= b2
    ensures ChildrenWF(T, cfg, keys, ids, hi, h, b2)
  {
  }

  lemma {:induction false} SingleChild(T: Table, id: nat, bound: nat)
    requires id < bound
    ensures EnumerateChildren(T, [id], bound) == Enumerate(T, id)
  {
    assert [id][1..] == [];
    if Enumerate(T, id).Ok? {
      assert Enumerate(T, id).value + [] == Enumerate(T, id).value;
    }
  }

  // ---------------------------------------------------------------------
  // Bounds
  // ---------------------------------------------------------------------

  /** lo2 is at or below lo1: every key above lo1 is above lo2. */
  predicate LoAtMost(lo2: Option<Key>, lo1: Option<Key>)
  {
    lo2.None? || (lo1.Some? && AboveLo(lo1.value, lo2))
  }

  lemma LoAtMostAbove(lo2: Option<Key>, lo1: Option<Key>, x: Key)
    requires LoAtMost(lo2, lo1) && AboveLo(x, lo1)
    ensures AboveLo(x, lo2)
  {
    if lo2.Some? {
      LessEqTransitive(lo2.value, lo1.value, x);
    }
  }

  lemma InRangeLower(ps: seq<Pair>, lo1: Option<Key>, lo2: Option<Key>, hi: Option<Key>)
    requires InRange(ps, lo1, hi) && LoAtMost(lo2, lo1)
    ensures InRange(ps, lo2, hi)
  {
    forall i | 0 <= i < |ps| ensures AboveLo(ps[i].0, lo2) {
      LoAtMostAbove(lo2, lo1, ps[i].0);
    }
  }

  /** Lowering the lower bound of a well-formed subtree keeps it well formed. */
  lemma WFLower(T: Table, cfg: Config, id: nat, lo1: Option<Key>, lo2: Option<Key>, hi: Option<Key>, h: nat, root: bool)
    requires WF(T, cfg, id, lo1, hi, h, root) && LoAtMost(lo2, lo1)
    ensures WF(T, cfg, id, lo2, hi, h, root)
  {
    var n := T[id].value;
    forall i | 0 <= i < |n.keys| ensures AboveLo(n.keys[i], lo2) {
      LoAtMostAbove(lo2, lo1, n.keys[i]);
    }
  }

  // ---------------------------------------------------------------------
  // A well-formed subtree enumerates in order, within its bounds
  // ---------------------------------------------------------------------

  lemma {:induction false} WFEnumerate(T: Table, cfg: Config, id: nat, lo: Option<Key>, hi: Option<Key>, h: nat, root: bool)
    requires WF(T, cfg, id, lo, hi, h, root)
    ensures Enumerate(T, id).Ok?
    ensures SortedPairs(Enumerate(T, id).value) && InRange(Enumerate(T, id).value, lo, hi)
    decreases id, 2, 0
  {
    NodeWFEnumerate(T, cfg, T[id].value, id, lo, hi, h, root);
  }

  lemma {:induction false} NodeWFEnumerate(T: Table, cfg: Config, n: Node, bound: nat,
                                           lo: Option<Key>, hi: Option<Key>, h: nat, root: bool)
    requires NodeWF(T, cfg, n, bound, lo, hi, h, root)
    ensures EnumerateNode(T, n, bound).Ok?
    ensures SortedPairs(EnumerateNode(T, n, bound).value) && InRange(EnumerateNode(T, n, bound).value, lo, hi)
    decreases bound, 1, 0
  {
    if n.Internal? {
      ChildrenEnumerate(T, cfg, n.keys, n.pageIDs, hi, h - 1, bound);
      InRangeLower(EnumerateNode(T, n, bound).value, Some(n.keys[0]), lo, hi);
    }
  }

  lemma {:induction false} ChildrenEnumerate(T: Table, cfg: Config, keys: seq<Key>, ids: seq<nat>,
                                             hi: Option<Key>, h: nat, bound: nat)
    requires ChildrenWF(T, cfg, keys, ids, hi, h, bound) && |keys| >= 1
    requires StrictlyAscending(keys) && forall j | 0 <= j < |keys| :: BelowHi(keys[j], hi)
    ensures EnumerateChildren(T, ids, bound).Ok?
    ensures SortedPairs(EnumerateChildren(T, ids, bound).value)
    ensures InRange(EnumerateChildren(T, ids, bound).value, Some(keys[0]), hi)
    decreases bound, 0, |ids|
  {
    WFEnumerate(T, cfg, ids[0], Some(keys[0]), ChildHi(keys, 0, hi), h, false);
    var first := Enumerate(T, ids[0]).value;
    if |ids| == 1 {
      SingleChild(T, ids[0], bound);
    } else {
      var ks, rs := keys[1..], ids[1..];
      forall j | 0 <= j < |rs| ensures rs[j] < bound && WF(T, cfg, rs[j], Some(ks[j]), ChildHi(ks, j, hi), h, false) {
        assert rs[j] == ids[j + 1] && ks[j] == keys[j + 1];
        assert ChildHi(ks, j, hi) == ChildHi(keys, j + 1, hi);
      }
      assert ChildrenWF(T, cfg, ks, rs, hi, h, bound);
      ChildrenEnumerate(T, cfg, ks, rs, hi, h, bound);
      var rest := EnumerateChildren(T, rs, bound).value;
      assert Less(keys[0], keys[1]);
      SortedConcat(first, rest, keys[1]);
      forall i | 0 <= i < |first| ensures AboveLo(first[i].0, Some(keys[0])) && BelowHi(first[i].0, hi) {
        if hi.Some? {
          LessTransitive(first[i].0, keys[1], hi.value);
        }
      }
      InRangeLower(rest, Some(keys[1]), Some(keys[0]), hi);
      InRangeConcat(first, rest, Some(keys[0]), hi);
    }
  }

  /** enumerateKeysAndObjectsUsingBlock: a valid tree visits its pairs in strictly ascending key order. */
  lemma ContentsSorted(T: Table, t: Tree)
    requires ValidTree(T, t)
    ensures Contents(T, t).Ok? && SortedPairs(Contents(T, t).value)
  {
    WFEnumerate(T, t.cfg, t.root, None, None, Height(T, t.root), true);
  }

  // ---------------------------------------------------------------------
  // Slicing and editing the children of a node
  // ---------------------------------------------------------------------

  /** The children before index m, bounded above by key m. */
  lemma ChildrenWFTake(T: Table, cfg: Config, keys: seq<Key>, ids: seq<nat>, hi: Option<Key>, h: nat, bound: nat, m: nat)
    requires ChildrenWF(T, cfg, keys, ids, hi, h, bound) && 0 < m < |keys|
    ensures ChildrenWF(T, cfg, keys[..m], ids[..m], Some(keys[m]), h, bound)
  {
    var kl, il := keys[..m], ids[..m];
    forall j | 0 <= j < |il| ensures il[j] < bound && WF(T, cfg, il[j], Some(kl[j]), ChildHi(kl, j, Some(keys[m])), h, false) {
      assert il[j] == ids[j] && kl[j] == keys[j];
      assert ChildHi(kl, j, Some(keys[m])) == ChildHi(keys, j, hi);
    }
  }

  /** The children from index m on. */
  lemma ChildrenWFDrop(T: Table, cfg: Config, keys: seq<Key>, ids: seq<nat>, hi: Option<Key>, h: nat, bound: nat, m: nat)
    requires ChildrenWF(T, cfg, keys, ids, hi, h, bound) && m <= |keys|
    ensures ChildrenWF(T, cfg, keys[m..], ids[m..], hi, h, bound)
  {
    var kr, ir := keys[m..], ids[m..];
    forall j | 0 <= j < |ir| ensures ir[j] < bound && WF(T, cfg, ir[j], Some(kr[j]), ChildHi(kr, j, hi), h, false) {
      assert ir[j] == ids[m + j] && kr[j] == keys[m + j];
      assert ChildHi(kr, j, hi) == ChildHi(keys, m + j, hi);
    }
  }

  /** Replacing child i by a subtree with the same upper bound and a lower bound s. */
  lemma ChildrenWFReplace(T: Table, cfg: Config, keys: seq<Key>, ids: seq<nat>, hi: Option<Key>, h: nat, bound: nat,
                          i: nat, s: Key, c: nat)
    requires ChildrenWF(T, cfg, keys, ids, hi, h, bound) && i < |keys|
    requires i == 0 || s == keys[i]
    requires c < bound && WF(T, cfg, c, Some(s), ChildHi(keys, i, hi), h, false)
    ensures ChildrenWF(T, cfg, keys[i := s], ids[i := c], hi, h, bound)
  {
    var k2, i2 := keys[i := s], ids[i := c];
    forall j | 0 <= j < |i2| ensures i2[j] < bound && WF(T, cfg, i2[j], Some(k2[j]), ChildHi(k2, j, hi), h, false) {
      assert ChildHi(k2, j, hi) == ChildHi(keys, j, hi);
    }
  }

  /** Element i of xs replaced by the two elements a and b, the rest in place. */
  function SplitAt<T>(xs: seq<T>, i: nat, a: T, b: T): (r: seq<T>)
    requires i < |xs|
    ensures |r| == |xs| + 1
    ensures r[..i] == xs[..i] && r[i] == a && r[i + 1] == b && r[i + 2..] == xs[i + 1..]
  {
    xs[..i] + [a, b] + xs[i + 1..]
  }

  /** Child i split into l (from s up to sep) and r (from sep up to the old bound). */
  lemma ChildrenWFSplit(T: Table, cfg: Config, keys: seq<Key>, ids: seq<nat>, hi: Option<Key>, h: nat, bound: nat,
                        i: nat, s: Key, sep: Key, l: nat, r: nat)
    requires ChildrenWF(T, cfg, keys, ids, hi, h, bound) && i < |keys|
    requires i == 0 || s == keys[i]
    requires l < bound && WF(T, cfg, l, Some(s), Some(sep), h, false)
    requires r < bound && WF(T, cfg, r, Some(sep), ChildHi(keys, i, hi), h, false)
    ensures ChildrenWF(T, cfg, SplitAt(keys, i, s, sep), SplitAt(ids, i, l, r), hi, h, bound)
  {
    var k2, i2 := SplitAt(keys, i, s, sep), SplitAt(ids, i, l, r);
    forall j | 0 <= j < |i2| ensures i2[j] < bound && WF(T, cfg, i2[j], Some(k2[j]), ChildHi(k2, j, hi), h, false) {
      if j < i {
        assert i2[j] == ids[j] && k2[j] == keys[j];
        assert ChildHi(k2, j, hi) == ChildHi(keys, j, hi);
      } else if j == i {
        assert i2[j] == l && k2[j] == s && ChildHi(k2, j, hi) == Some(sep);
      } else if j == i + 1 {
        assert i2[j] == r && k2[j] == sep && ChildHi(k2, j, hi) == ChildHi(keys, i, hi);
      } else {
        assert i2[j] == ids[j - 1] && k2[j] == keys[j - 1];
        assert ChildHi(k2, j, hi) == ChildHi(keys, j - 1, hi);
      }
    }
  }

  /** The enumeration of children with child i taken out of line. */
  lemma ChildrenAround(T: Table, ids: seq<nat>, i: nat, bound: nat)
    requires i < |ids|
    ensures EnumerateChildren(T, ids, bound) ==
            Concat(Concat(EnumerateChildren(T, ids[..i], bound), EnumerateChildren(T, [ids[i]], bound)),
                   EnumerateChildren(T, ids[i + 1..], bound))
  {
    assert ids == ids[..i] + [ids[i]] + ids[i + 1..];
    ChildrenAppend(T, ids[..i] + [ids[i]], ids[i + 1..], bound);
    ChildrenAppend(T, ids[..i], [ids[i]], bound);
  }

  // ---------------------------------------------------------------------
  // Prefix search
  // ---------------------------------------------------------------------

  /** Keys all below x, with x at or before p, cannot carry the prefix p. */
  lemma NoMatchBelow(ps: seq<Pair>, x: Key, p: Key)
    requires forall i | 0 <= i < |ps| :: Less(ps[i].0, x)
    requires AtOrAfter(p, x)
    ensures FilterPrefix(ps, p) == []
  {
    forall i | 0 <= i < |ps| ensures !HasPrefix(ps[i].0, p) {
      if HasPrefix(ps[i].0, p) {
        PrefixNotAfter(ps[i].0, p);
        LessMixedTransitive(ps[i].0, x, p);
        LessEqTransitive(x, p, ps[i].0);
        LessTrichotomy(ps[i].0, x);
      }
    }
    FilterPrefixNone(ps, p);
  }

  /** Keys all at or after x, where x sorts after p without the prefix p, cannot carry it. */
  lemma NoMatchAbove(ps: seq<Pair>, x: Key, p: Key)
    requires forall i | 0 <= i < |ps| :: AboveLo(ps[i].0, Some(x))
    requires Less(p, x) && !HasPrefix(x, p)
    ensures FilterPrefix(ps, p) == []
  {
    forall i | 0 <= i < |ps| ensures !HasPrefix(ps[i].0, p) {
      if HasPrefix(ps[i].0, p) {
        PrefixBlockBelow(p, x, ps[i].0);
        LessTrichotomy(ps[i].0, x);
      }
    }
    FilterPrefixNone(ps, p);
  }

  /**
    lcaNodeForKeysWithPrefix: follows childForKey(p) while the next key
    after the chosen child cannot start with p, so that one child's
    subtree holds every key with prefix p.
  */
  function Lca(T: Table, id: nat, p: Key): (r: nat)
    ensures r <= id
    decreases id
  {
    match NodeAt(T, id)
    case Ok(Internal(_, _, _, _, keys, ids)) =>
      if |keys| == 0 || |ids| != |keys| then id
      else
        var i := FloorIndex(keys, p);
        if (i + 1 == |keys| || !HasPrefix(keys[i + 1], p)) && ids[i] < id then Lca(T, ids[i], p) else id
    case _ => id
  }

  /** Every pair under the children before i sorts below key i. */
  lemma ChildrenBefore(T: Table, cfg: Config, keys: seq<Key>, ids: seq<nat>, hi: Option<Key>, h: nat, bound: nat, i: nat)
    requires ChildrenWF(T, cfg, keys, ids, hi, h, bound) && 0 < i < |keys| && StrictlyAscending(keys)
    ensures EnumerateChildren(T, ids[..i], bound).Ok?
    ensures forall j | 0 <= j < |EnumerateChildren(T, ids[..i], bound).value| ::
              Less(EnumerateChildren(T, ids[..i], bound).value[j].0, keys[i])
  {
    ChildrenWFTake(T, cfg, keys, ids, hi, h, bound, i);
    var ks := keys[..i];
    forall j | 0 <= j < |ks| ensures BelowHi(ks[j], Some(keys[i])) {
      assert ks[j] == keys[j];
    }
    ChildrenEnumerate(T, cfg, ks, ids[..i], Some(keys[i]), h, bound);
  }

  /** Every pair under the children after i sorts at or above key i + 1. */
  lemma ChildrenAfter(T: Table, cfg: Config, keys: seq<Key>, ids: seq<nat>, hi: Option<Key>, h: nat, bound: nat, i: nat)
    requires ChildrenWF(T, cfg, keys, ids, hi, h, bound) && i + 1 < |keys|
    requires StrictlyAscending(keys) && forall j | 0 <= j < |keys| :: BelowHi(keys[j], hi)
    ensures EnumerateChildren(T, ids[i + 1..], bound).Ok?
    ensures InRange(EnumerateChildren(T, ids[i + 1..], bound).value, Some(keys[i + 1]), hi)
  {
    ChildrenWFDrop(T, cfg, keys, ids, hi, h, bound, i + 1);
    var ks := keys[i + 1..];
    forall j | 0 <= j < |ks| ensures BelowHi(ks[j], hi) {
      assert ks[j] == keys[i + 1 + j];
    }
    ChildrenEnumerate(T, cfg, ks, ids[i + 1..], hi, h, bound);
  }

  /**
    A run of children cut at child i: the pairs before it all sort below key
    i, child i's own, and the pairs after it all at or above key i + 1.
  */
  lemma ChildrenThree(T: Table, cfg: Config, keys: seq<Key>, ids: seq<nat>, hi: Option<Key>, h: nat, bound: nat, i: nat)
    requires ChildrenWF(T, cfg, keys, ids, hi, h, bound) && i < |keys|
    requires StrictlyAscending(keys) && forall j | 0 <= j < |keys| :: BelowHi(keys[j], hi)
    ensures EnumerateChildren(T, ids[..i], bound).Ok? && Enumerate(T, ids[i]).Ok?
    ensures EnumerateChildren(T, ids[i + 1..], bound).Ok?
    ensures EnumerateChildren(T, ids, bound) ==
            Ok(EnumerateChildren(T, ids[..i], bound).value + Enumerate(T, ids[i]).value
               + EnumerateChildren(T, ids[i + 1..], bound).value)
    ensures i == 0 ==> EnumerateChildren(T, ids[..i], bound).value == []
    ensures forall j | 0 <= j < |EnumerateChildren(T, ids[..i], bound).value| ::
              Less(EnumerateChildren(T, ids[..i], bound).value[j].0, keys[i])
    ensures i + 1 == |keys| ==> EnumerateChildren(T, ids[i + 1..], bound).value == []
    ensures i + 1 < |keys| ==> InRange(EnumerateChildren(T, ids[i + 1..], bound).value, Some(keys[i + 1]), hi)
  {
    ChildrenEnumerate(T, cfg, keys, ids, hi, h, bound);
    WFEnumerate(T, cfg, ids[i], Some(keys[i]), ChildHi(keys, i, hi), h, false);
    ChildrenAround(T, ids, i, bound);
    SingleChild(T, ids[i], bound);
    if i > 0 {
      ChildrenBefore(T, cfg, keys, ids, hi, h, bound, i);
    } else {
      assert EnumerateChildren(T, ids[..i], bound) == Ok([]);
    }
    if i + 1 < |keys| {
      ChildrenAfter(T, cfg, keys, ids, hi, h, bound, i);
    } else {
      assert EnumerateChildren(T, ids[i + 1..], bound) == Ok([]);
    }
  }

  /** Pairs without the prefix on both sides leave only the middle's. */
  lemma FilterAround(before: seq<Pair>, mid: seq<Pair>, after: seq<Pair>, p: Key)
    requires FilterPrefix(before, p) == [] && FilterPrefix(after, p) == []
    ensures FilterPrefix(before + mid + after, p) == FilterPrefix(mid, p)
  {
    FilterPrefixConcat(before + mid, after, p);
    FilterPrefixConcat(before, mid, p);
  }

  /**
    One step of the LCA search: when the key after child i cannot start with
    p, the pairs with prefix p of the whole node are those of child i.
  */
  lemma LcaStep(T: Table, cfg: Config, keys: seq<Key>, ids: seq<nat>, hi: Option<Key>, h: nat, bound: nat, p: Key)
    requires ChildrenWF(T, cfg, keys, ids, hi, h, bound) && |keys| >= 1
    requires StrictlyAscending(keys) && forall j | 0 <= j < |keys| :: BelowHi(keys[j], hi)
    requires var i := FloorIndex(keys, p); i + 1 == |keys| || !HasPrefix(keys[i + 1], p)
    ensures var i := FloorIndex(keys, p);
            && EnumerateChildren(T, ids, bound).Ok? && Enumerate(T, ids[i]).Ok?
            && FilterPrefix(EnumerateChildren(T, ids, bound).value, p) == FilterPrefix(Enumerate(T, ids[i]).value, p)
  {
    var i := FloorIndex(keys, p);
    FloorIndexSorted(keys, p);
    ChildrenThree(T, cfg, keys, ids, hi, h, bound, i);
    var before := EnumerateChildren(T, ids[..i], bound).value;
    var after := EnumerateChildren(T, ids[i + 1..], bound).value;
    if i > 0 {
      NoMatchBelow(before, keys[i], p);
    }
    if i + 1 < |keys| {
      NoMatchAbove(after, keys[i + 1], p);
    }
    FilterAround(before, Enumerate(T, ids[i]).value, after, p);
  }

  /**
    The subtree the LCA search stops at holds every pair with prefix p that
    the whole subtree holds, in the same order, and is itself well formed.
  */
  lemma {:induction false} LcaContainsPrefix(T: Table, cfg: Config, id: nat, lo: Option<Key>, hi: Option<Key>, h: nat, root: bool, p: Key)
    requires WF(T, cfg, id, lo, hi, h, root)
    ensures Enumerate(T, Lca(T, id, p)).Ok? && Enumerate(T, id).Ok?
    ensures SortedPairs(Enumerate(T, Lca(T, id, p)).value)
    ensures FilterPrefix(Enumerate(T, Lca(T, id, p)).value, p) == FilterPrefix(Enumerate(T, id).value, p)
    decreases id
  {
    WFEnumerate(T, cfg, id, lo, hi, h, root);
    var n := T[id].value;
    if n.Internal? {
      var keys, ids := n.keys, n.pageIDs;
      var i := FloorIndex(keys, p);
      if (i + 1 == |keys| || !HasPrefix(keys[i + 1], p)) && ids[i] < id {
        assert Lca(T, id, p) == Lca(T, ids[i], p);
        assert ChildrenWF(T, cfg, keys, ids, hi, h - 1, id);
        LcaContainsPrefix(T, cfg, ids[i], Some(keys[i]), ChildHi(keys, i, hi), h - 1, false, p);
        LcaStep(T, cfg, keys, ids, hi, h - 1, id, p);
        return;
      }
    }
    assert Lca(T, id, p) == id;
  }

  /**
    The LCA search stops only where it must: at a leaf, or at an internal
    node where the key after the child chosen for p itself starts with p, so
    the range of keys with prefix p reaches into two children and no one
    child's range covers it.
  */
  lemma {:induction false} LcaStops(T: Table, cfg: Config, id: nat, lo: Option<Key>, hi: Option<Key>, h: nat, root: bool, p: Key)
    requires WF(T, cfg, id, lo, hi, h, root)
    ensures StopsAt(T, Lca(T, id, p), p)
    decreases id
  {
    var n := T[id].value;
    if n.Internal? {
      var keys, ids := n.keys, n.pageIDs;
      assert ChildrenWF(T, cfg, keys, ids, hi, h - 1, id);
      var i := FloorIndex(keys, p);
      assert NodeAt(T, id) == Ok(n) && ids[i] < id;
      if i + 1 == |keys| || !HasPrefix(keys[i + 1], p) {
        assert Lca(T, id, p) == Lca(T, ids[i], p);
        LcaStops(T, cfg, ids[i], Some(keys[i]), ChildHi(keys, i, hi), h - 1, false, p);
      } else {
        assert Lca(T, id, p) == id;
      }
    } else {
      assert Lca(T, id, p) == id;
      assert StopsAt(T, id, p);
    }
  }

  /**
    Where the LCA search may stop for prefix p: a readable leaf, or a
    non-empty internal node whose key after the child chosen for p starts
    with p.
  */
  predicate StopsAt(T: Table, r: nat, p: Key)
  {
    && r < |T| && T[r].Ok?
    && (T[r].value.Internal? ==>
          && |T[r].value.keys| > 0
          && var i := FloorIndex(T[r].value.keys, p);
             i + 1 < |T[r].value.keys| && HasPrefix(T[r].value.keys[i + 1], p))
  }

  /** enumerateKeysAndObjectsMatchingPrefix: scan the LCA's subtree from p while keys start with p. */
  function EnumeratePrefix(T: Table, t: Tree, p: Key): (r: Result<seq<Pair>>)
    ensures r.Ok? <==> Enumerate(T, Lca(T, t.root, p)).Ok?
    ensures r.Ok? ==> forall i | 0 <= i < |r.value| ::
                        r.value[i] in Enumerate(T, Lca(T, t.root, p)).value && HasPrefix(r.value[i].0, p)
  {
    match Enumerate(T, Lca(T, t.root, p))
    case Err(e) => Err(e)
    case Ok(ps) => Ok(ScanPrefix(ps, p))
  }

  /** The prefix enumeration is exactly the subsequence of the full enumeration whose keys start with p. */
  lemma EnumeratePrefixIsFilter(T: Table, t: Tree, p: Key)
    requires ValidTree(T, t)
    ensures Contents(T, t).Ok?
    ensures EnumeratePrefix(T, t, p) == Ok(FilterPrefix(Contents(T, t).value, p))
  {
    LcaContainsPrefix(T, t.cfg, t.root, None, None, Height(T, t.root), true, p);
    ScanPrefixIsFilter(Enumerate(T, Lca(T, t.root, p)).value, p);
  }

  /** initWithRootPageID:fromAOF: a tree over the node page at id; an unreadable page is an error. */
  function OpenTree(A: Arena, cfg: Config, id: nat): (r: Result<Tree>)
    ensures r.Ok? <==> ReadNode(A, id).Ok?
    ensures r.Err? ==> r.error == ReadNode(A, id).error
    ensures r.Ok? ==> r.value.root == id && r.value.cfg == cfg
  {
    match ReadNode(A, id)
    case Err(e) => Err(e)
    case Ok(_) => Ok(Tree(cfg, id))
  }
}

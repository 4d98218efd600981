/**
  The copy-on-write B+ tree (GTWMutableAOFBTree in GTWAOFBTree.h).

  An insert or a remove never changes a page: it walks from the root to the
  leaf that holds the key, then writes new pages bottom-up for that leaf and
  every node on the path, each parent pointing at the new copy of its child.
  The walk is recorded as an explicit path (the page ids, nodes and chosen
  child positions from the root down) instead of the parent ids the nodes
  carry. The answer is a new tree over a new root; the receiver's root and
  every page it reaches are untouched, so the old tree keeps its contents.

  The cases of the header comment:
  - a leaf that still has room is replaced by one new leaf;
  - a full leaf is split into two new leaves;
  - an internal node gets a new copy with the child replaced, or with one
    extra child when the child split, and splits in two when that overflows;
  - a root that splits (leaf or internal) gets a new internal root above
    the two halves, and only then does the height grow.
*/
module MutableBTree {
  import opened Bytes
  import opened Results
  import opened Entries
  import opened AOF
  import opened BTreeNode
  import opened BTree

  /** What rewriting one subtree produced: one new page, or two halves split at sep. */
  datatype Rewrite =
    | Replaced(id: nat)
    | Split(left: nat, leftMin: Key, sep: Key, right: nat)

  /**
    The rewrite stands for a subtree in [lo, hi) of height h: a well-formed
    replacement marked root or not, or two non-root halves around sep,
    the left one starting at its least key leftMin.
  */
  ghost predicate RewriteWF(T: Table, cfg: Config, r: Rewrite, lo: Option<Key>, hi: Option<Key>, h: nat, root: bool)
  {
    match r
    case Replaced(id) => WF(T, cfg, id, lo, hi, h, root)
    case Split(l, m, sep, rr) =>
      && |m| == cfg.keySize && |sep| == cfg.keySize
      && AboveLo(m, lo) && Less(m, sep) && BelowHi(sep, hi)
      && WF(T, cfg, l, Some(m), Some(sep), h, false)
      && WF(T, cfg, rr, Some(sep), hi, h, false)
  }

  /** The page ids a rewrite puts in its parent, in order. */
  function Members(r: Rewrite): (ids: seq<nat>)
    ensures r.Replaced? ==> ids == [r.id]
    ensures r.Split? ==> ids == [r.left, r.right]
  {
    match r
    case Replaced(id) => [id]
    case Split(l, _, _, rr) => [l, rr]
  }

  /** The pairs under a rewrite: the replacement's, or the left half's then the right half's. */
  function RewriteContents(T: Table, r: Rewrite, bound: nat): Result<seq<Pair>>
  {
    EnumerateChildren(T, Members(r), bound)
  }

  // ---------------------------------------------------------------------
  // New pages are well formed
  // ---------------------------------------------------------------------

  /** A leaf page written from sorted pairs in [lo, hi) is a well-formed leaf enumerating those pairs. */
  lemma LeafPageWF(T: Table, cfg: Config, id: nat, n: Node, ps: seq<Pair>, lo: Option<Key>, hi: Option<Key>, root: bool)
    requires id < |T| && T[id] == Ok(n) && Shaped(n)
    requires n == Leaf(FlagsFor(root), n.timestamp, cfg.keySize, cfg.valSize, KeysOf(ps), ValuesOf(ps))
    requires SortedPairs(ps) && |ps| <= cfg.maxLeafKeys && InRange(ps, lo, hi)
    ensures WF(T, cfg, id, lo, hi, 0, root)
    ensures Enumerate(T, id) == Ok(ps)
  {
    SortedPairsKeys(ps);
    ZipUnzip(ps);
  }

  /** An internal page over well-formed children is a well-formed node enumerating its children. */
  lemma InternalPageWF(T: Table, cfg: Config, id: nat, n: Node, lo: Option<Key>, hi: Option<Key>, h: nat, root: bool)
    requires id < |T| && T[id] == Ok(n) && n.Internal?
    requires ValidNode(n, cfg) && IsRoot(n.flags) == root && KeysInRange(n.keys, lo, hi) && |n.keys| >= 1
    requires ChildrenWF(T, cfg, n.keys, n.pageIDs, hi, h, id)
    ensures WF(T, cfg, id, lo, hi, h + 1, root)
    ensures Enumerate(T, id) == EnumerateChildren(T, n.pageIDs, id)
  {
  }

  /** A subtree's least key is a lower bound it can be given. */
  lemma {:induction false} WFTighten(T: Table, cfg: Config, id: nat, lo: Option<Key>, hi: Option<Key>, h: nat, root: bool)
    requires WF(T, cfg, id, lo, hi, h, root) && |T[id].value.keys| > 0
    ensures WF(T, cfg, id, Some(T[id].value.keys[0]), hi, h, root)
  {
    var keys := T[id].value.keys;
    forall i | 0 <= i < |keys| ensures AboveLo(keys[i], Some(keys[0])) {
    }
  }

  // ---------------------------------------------------------------------
  // The keys of a rewritten parent
  // ---------------------------------------------------------------------

  /** The key of child c after inserting key below it: lowered to key for the first child. */
  function ChildKey(keys: seq<Key>, c: nat, key: Key): (s: Key)
    requires c < |keys|
    ensures MinLo(Some(keys[c]), key) == Some(s)
  {
    MinLo(Some(keys[c]), key).value
  }

  /** The keys a rewrite puts in its parent in place of the child's key. */
  function MemberKeys(s: Key, r: Rewrite): (ks: seq<Key>)
    ensures |ks| == |Members(r)|
  {
    match r
    case Replaced(_) => [s]
    case Split(_, _, sep, _) => [s, sep]
  }

  /** The keys and child ids of the parent of a rewritten child c. */
  function NewKeys(keys: seq<Key>, c: nat, s: Key, r: Rewrite): (ks: seq<Key>)
    requires c < |keys|
    ensures |ks| == |keys| - 1 + |Members(r)|
  {
    keys[..c] + MemberKeys(s, r) + keys[c + 1..]
  }

  function NewIDs(ids: seq<nat>, c: nat, r: Rewrite): (rs: seq<nat>)
    requires c < |ids|
    ensures |rs| == |ids| - 1 + |Members(r)|
  {
    ids[..c] + Members(r) + ids[c + 1..]
  }

  /** Where the key of child c lies: at key c, or lowered to the key for the first child. */
  lemma ChildKeyFacts(keys: seq<Key>, c: nat, key: Key)
    requires |keys| > 0 && StrictlyAscending(keys) && c == FloorIndex(keys, key)
    ensures var s := ChildKey(keys, c, key);
            && (s == keys[c] || (c == 0 && s == key && Less(key, keys[0])))
            && (c + 1 < |keys| ==> Less(s, keys[c + 1]) && Less(key, keys[c + 1]))
  {
    FloorIndexSorted(keys, key);
    LessTrichotomy(key, keys[c]);
    var s := ChildKey(keys, c, key);
    if c + 1 < |keys| && s != keys[c] {
      LessTransitive(key, keys[c], keys[c + 1]);
    }
  }

  /** Two strictly ascending runs, the first ending below the start of the second. */
  lemma AscendingConcat(a: seq<Key>, b: seq<Key>)
    requires StrictlyAscending(a) && StrictlyAscending(b)
    requires |a| > 0 && |b| > 0 ==> Less(a[|a| - 1], b[0])
    ensures StrictlyAscending(a + b)
  {
    forall i, j | 0 <= i < j < |a + b| ensures Less((a + b)[i], (a + b)[j]) {
      if i < |a| && j >= |a| {
        var x, y := a[i], b[j - |a|];
        assert x == a[|a| - 1] || Less(x, a[|a| - 1]);
        assert b[0] == y || Less(b[0], y);
        LessMixedTransitive(x, a[|a| - 1], b[0]);
        LessMixedTransitive(x, b[0], y);
      } else if j < |a| {
        assert (a + b)[i] == a[i] && (a + b)[j] == a[j];
      } else {
        assert (a + b)[i] == b[i - |a|] && (a + b)[j] == b[j - |a|];
      }
    }
  }

  /** The keys up to child c, ending with its new key, and those after it, ascend. */
  lemma KeyRuns(keys: seq<Key>, c: nat, key: Key)
    requires |keys| > 0 && StrictlyAscending(keys) && c == FloorIndex(keys, key)
    ensures StrictlyAscending(keys[..c] + [ChildKey(keys, c, key)])
    ensures StrictlyAscending(keys[c + 1..])
  {
    var s := ChildKey(keys, c, key);
    ChildKeyFacts(keys, c, key);
    if c > 0 {
      assert keys[..c] + [s] == keys[..c + 1];
    }
    var b := keys[c + 1..];
    forall i, j | 0 <= i < j < |b| ensures Less(b[i], b[j]) {
      assert b[i] == keys[c + 1 + i] && b[j] == keys[c + 1 + j];
    }
  }

  /** The keys of a rewritten parent stay strictly ascending. */
  lemma NewKeysAscending(keys: seq<Key>, c: nat, key: Key, r: Rewrite)
    requires |keys| > 0 && StrictlyAscending(keys) && c == FloorIndex(keys, key)
    requires r.Split? ==> Less(ChildKey(keys, c, key), r.sep) && (c + 1 < |keys| ==> Less(r.sep, keys[c + 1]))
    ensures StrictlyAscending(NewKeys(keys, c, ChildKey(keys, c, key), r))
  {
    var s := ChildKey(keys, c, key);
    ChildKeyFacts(keys, c, key);
    KeyRuns(keys, c, key);
    var a, b := keys[..c] + [s], keys[c + 1..];
    assert a[|a| - 1] == s;
    if r.Replaced? {
      AscendingConcat(a, b);
      assert NewKeys(keys, c, s, r) == a + b;
    } else {
      AscendingConcat([r.sep], b);
      AscendingConcat(a, [r.sep] + b);
      assert NewKeys(keys, c, s, r) == a + ([r.sep] + b);
    }
  }

  /** Keys in range stay in range under a lower lower bound; runs in range concatenate. */
  lemma KeysInRangeJoin(a: seq<Key>, m: seq<Key>, b: seq<Key>, lo: Option<Key>, hi: Option<Key>)
    requires KeysInRange(a, lo, hi) && KeysInRange(m, lo, hi) && KeysInRange(b, lo, hi)
    ensures KeysInRange(a + m + b, lo, hi)
  {
    var ks := a + m + b;
    forall i | 0 <= i < |ks| ensures AboveLo(ks[i], lo) && BelowHi(ks[i], hi) {
      if i < |a| {
        assert ks[i] == a[i];
      } else if i < |a| + |m| {
        assert ks[i] == m[i - |a|];
      } else {
        assert ks[i] == b[i - |a| - |m|];
      }
    }
  }

  lemma KeysInRangeLower(keys: seq<Key>, lo: Option<Key>, hi: Option<Key>, key: Key, i: nat, j: nat)
    requires KeysInRange(keys, lo, hi) && i <= j <= |keys|
    ensures KeysInRange(keys[i..j], MinLo(lo, key), hi)
  {
    forall x | 0 <= x < j - i ensures AboveLo(keys[i..j][x], MinLo(lo, key)) && BelowHi(keys[i..j][x], hi) {
      assert keys[i..j][x] == keys[i + x];
    }
  }

  /** The keys of a rewritten parent lie in its range, with the lower bound lowered to the key. */
  lemma NewKeysInRange(keys: seq<Key>, c: nat, key: Key, r: Rewrite, lo: Option<Key>, hi: Option<Key>)
    requires |keys| > 0 && StrictlyAscending(keys) && c == FloorIndex(keys, key)
    requires KeysInRange(keys, lo, hi)
    requires r.Split? ==> Less(ChildKey(keys, c, key), r.sep) && BelowHi(r.sep, ChildHi(keys, c, hi))
    ensures KeysInRange(NewKeys(keys, c, ChildKey(keys, c, key), r), MinLo(lo, key), hi)
  {
    var s := ChildKey(keys, c, key);
    var lo2 := MinLo(lo, key);
    ChildKeyFacts(keys, c, key);
    assert AboveLo(s, lo2) && BelowHi(s, hi) by {
      assert AboveLo(keys[c], lo) && BelowHi(keys[c], hi);
      if s != keys[c] && hi.Some? {
        LessTransitive(key, keys[0], hi.value);
      }
    }
    if r.Split? {
      assert AboveLo(r.sep, lo2) && BelowHi(r.sep, hi) by {
        if lo2.Some? {
          LessMixedTransitive(lo2.value, s, r.sep);
        }
        if c + 1 < |keys| && hi.Some? {
          assert BelowHi(keys[c + 1], hi);
          LessTransitive(r.sep, keys[c + 1], hi.value);
        }
      }
    }
    KeysInRangeLower(keys, lo, hi, key, 0, c);
    KeysInRangeLower(keys, lo, hi, key, c + 1, |keys|);
    KeysInRangeJoin(keys[..c], MemberKeys(s, r), keys[c + 1..], lo2, hi);
  }

  /** Every page id of a rewrite is below b. */
  predicate MembersBelow(r: Rewrite, b: nat)
  {
    forall j | 0 <= j < |Members(r)| :: Members(r)[j] < b
  }

  /** The pages of the rewrite are all new: at or after id a. */
  predicate MembersNew(r: Rewrite, a: nat)
  {
    forall j | 0 <= j < |Members(r)| :: a <= Members(r)[j]
  }

  /** The children of a rewritten parent are well formed under the parent's next page id. */
  lemma NewChildrenWF(T: Table, cfg: Config, keys: seq<Key>, ids: seq<nat>, hi: Option<Key>, h: nat, bound: nat,
                      c: nat, key: Key, r: Rewrite, b2: nat)
    requires ChildrenWF(T, cfg, keys, ids, hi, h, bound) && bound <= b2
    requires |keys| > 0 && StrictlyAscending(keys) && c == FloorIndex(keys, key)
    requires MembersBelow(r, b2)
    requires RewriteWF(T, cfg, r, Some(ChildKey(keys, c, key)), ChildHi(keys, c, hi), h, false)
    ensures ChildrenWF(T, cfg, NewKeys(keys, c, ChildKey(keys, c, key), r), NewIDs(ids, c, r), hi, h, b2)
  {
    ChildKeyFacts(keys, c, key);
    ChildrenWFBound(T, cfg, keys, ids, hi, h, bound, b2);
    assert Members(r)[0] < b2;
    if r.Replaced? {
      ReplacedChildWF(T, cfg, keys, ids, hi, h, b2, c, ChildKey(keys, c, key), r);
    } else {
      assert Members(r)[1] < b2;
      SplitChildWF(T, cfg, keys, ids, hi, h, b2, c, ChildKey(keys, c, key), r);
    }
  }

  lemma ReplacedChildWF(T: Table, cfg: Config, keys: seq<Key>, ids: seq<nat>, hi: Option<Key>, h: nat, b2: nat,
                        c: nat, s: Key, r: Rewrite)
    requires ChildrenWF(T, cfg, keys, ids, hi, h, b2) && c < |keys| && (c == 0 || s == keys[c])
    requires r.Replaced? && r.id < b2 && RewriteWF(T, cfg, r, Some(s), ChildHi(keys, c, hi), h, false)
    ensures ChildrenWF(T, cfg, NewKeys(keys, c, s, r), NewIDs(ids, c, r), hi, h, b2)
  {
    ChildrenWFReplace(T, cfg, keys, ids, hi, h, b2, c, s, r.id);
    NewReplaced(keys, ids, c, s, r);
  }

  /** A replaced child puts its key and id in the child's place. */
  lemma NewReplaced(keys: seq<Key>, ids: seq<nat>, c: nat, s: Key, r: Rewrite)
    requires c < |keys| && c < |ids| && r.Replaced?
    ensures NewKeys(keys, c, s, r) == keys[c := s]
    ensures NewIDs(ids, c, r) == ids[c := r.id]
  {
  }

  /** A split child puts its two keys and ids in the child's place. */
  lemma NewSplit(keys: seq<Key>, ids: seq<nat>, c: nat, s: Key, r: Rewrite)
    requires c < |keys| && c < |ids| && r.Split?
    ensures NewKeys(keys, c, s, r) == SplitAt(keys, c, s, r.sep)
    ensures NewIDs(ids, c, r) == SplitAt(ids, c, r.left, r.right)
  {
  }

  lemma SplitChildWF(T: Table, cfg: Config, keys: seq<Key>, ids: seq<nat>, hi: Option<Key>, h: nat, b2: nat,
                     c: nat, s: Key, r: Rewrite)
    requires ChildrenWF(T, cfg, keys, ids, hi, h, b2) && c < |keys| && (c == 0 || s == keys[c])
    requires r.Split? && r.left < b2 && r.right < b2 && RewriteWF(T, cfg, r, Some(s), ChildHi(keys, c, hi), h, false)
    ensures ChildrenWF(T, cfg, NewKeys(keys, c, s, r), NewIDs(ids, c, r), hi, h, b2)
  {
    WFLower(T, cfg, r.left, Some(r.leftMin), Some(s), Some(r.sep), h, false);
    ChildrenWFSplit(T, cfg, keys, ids, hi, h, b2, c, s, r.sep, r.left, r.right);
    NewSplit(keys, ids, c, s, r);
  }

  // ---------------------------------------------------------------------
  // The pairs of a rewritten parent
  // ---------------------------------------------------------------------

  predicate AllBelow(ps: seq<Pair>, key: Key)
  {
    forall j | 0 <= j < |ps| :: Less(ps[j].0, key)
  }

  predicate AllAbove(ps: seq<Pair>, key: Key)
  {
    forall j | 0 <= j < |ps| :: Less(key, ps[j].0)
  }

  /**
    The children before child c all sort below the key and those after it
    all above, so changing the pairs of child c for the key changes the
    pairs of the whole run in the same way.
  */
  lemma ChildrenAroundKey(T: Table, cfg: Config, keys: seq<Key>, ids: seq<nat>, hi: Option<Key>, h: nat, bound: nat,
                          c: nat, key: Key)
    requires ChildrenWF(T, cfg, keys, ids, hi, h, bound) && |keys| > 0
    requires StrictlyAscending(keys) && KeysInRange(keys, None, hi) && c == FloorIndex(keys, key)
    ensures EnumerateChildren(T, ids[..c], bound).Ok? && EnumerateChildren(T, ids[c + 1..], bound).Ok?
    ensures Enumerate(T, ids[c]).Ok?
    ensures AllBelow(EnumerateChildren(T, ids[..c], bound).value, key)
    ensures AllAbove(EnumerateChildren(T, ids[c + 1..], bound).value, key)
    ensures EnumerateChildren(T, ids, bound) ==
            Ok(EnumerateChildren(T, ids[..c], bound).value + Enumerate(T, ids[c]).value
               + EnumerateChildren(T, ids[c + 1..], bound).value)
  {
    FloorIndexSorted(keys, key);
    ChildrenThree(T, cfg, keys, ids, hi, h, bound, c);
    if c > 0 {
      var before := EnumerateChildren(T, ids[..c], bound).value;
      forall j | 0 <= j < |before| ensures Less(before[j].0, key) {
        LessMixedTransitive(before[j].0, keys[c], key);
      }
    }
    if c + 1 < |keys| {
      var after := EnumerateChildren(T, ids[c + 1..], bound).value;
      forall j | 0 <= j < |after| ensures Less(key, after[j].0) {
        LessMixedTransitive(key, keys[c + 1], after[j].0);
      }
    }
  }

  /** Child c's run swapped for mids, enumerated under any larger bound. */
  lemma ChildrenSwap(T: Table, ids: seq<nat>, bound: nat, c: nat, mids: seq<nat>, b2: nat)
    requires c < |ids| && bound <= b2
    requires forall j | 0 <= j < |ids| :: ids[j] < bound
    ensures EnumerateChildren(T, ids[..c] + mids + ids[c + 1..], b2) ==
            Concat(Concat(EnumerateChildren(T, ids[..c], bound), EnumerateChildren(T, mids, b2)),
                   EnumerateChildren(T, ids[c + 1..], bound))
  {
    ChildrenBound(T, ids[..c], bound, b2);
    ChildrenBound(T, ids[c + 1..], bound, b2);
    ChildrenAppend(T, ids[..c] + mids, ids[c + 1..], b2);
    ChildrenAppend(T, ids[..c], mids, b2);
  }

  /** Inserting next to pairs all below and all above the key touches only the middle. */
  lemma InsertAround(before: seq<Pair>, mid: seq<Pair>, after: seq<Pair>, key: Key, value: Value)
    requires AllBelow(before, key) && AllAbove(after, key)
    ensures InsertSorted(before + mid + after, key, value) == before + InsertSorted(mid, key, value) + after
  {
    InsertAfterSmaller(before, mid + after, key, value);
    InsertBeforeLarger(mid, after, key, value);
    assert before + mid + after == before + (mid + after);
    assert before + InsertSorted(mid, key, value) + after == before + (InsertSorted(mid, key, value) + after);
  }

  /** Removing next to pairs all below and all above the key touches only the middle. */
  lemma RemoveAround(before: seq<Pair>, mid: seq<Pair>, after: seq<Pair>, key: Key)
    requires AllBelow(before, key) && AllAbove(after, key)
    ensures RemoveSorted(before + mid + after, key) == before + RemoveSorted(mid, key) + after
  {
    NotAmong(before, key, true);
    NotAmong(after, key, false);
    RemoveConcat(before + mid, after, key);
    RemoveConcat(before, mid, key);
  }

  /** Inserting into child c's pairs inserts into the parent's. */
  lemma ChildrenInsert(T: Table, cfg: Config, keys: seq<Key>, ids: seq<nat>, hi: Option<Key>, h: nat, bound: nat,
                       c: nat, key: Key, value: Value, r: Rewrite, b2: nat)
    requires ChildrenWF(T, cfg, keys, ids, hi, h, bound) && |keys| > 0 && bound <= b2
    requires StrictlyAscending(keys) && KeysInRange(keys, None, hi) && c == FloorIndex(keys, key)
    requires Enumerate(T, ids[c]).Ok?
    requires RewriteContents(T, r, b2) == Ok(InsertSorted(Enumerate(T, ids[c]).value, key, value))
    ensures EnumerateChildren(T, ids, bound).Ok?
    ensures EnumerateChildren(T, NewIDs(ids, c, r), b2) == Ok(InsertSorted(EnumerateChildren(T, ids, bound).value, key, value))
  {
    ChildrenAroundKey(T, cfg, keys, ids, hi, h, bound, c, key);
    ChildrenSwap(T, ids, bound, c, Members(r), b2);
    var before, mid, after :=
      EnumerateChildren(T, ids[..c], bound).value, Enumerate(T, ids[c]).value,
      EnumerateChildren(T, ids[c + 1..], bound).value;
    InsertAround(before, mid, after, key, value);
    assert EnumerateChildren(T, NewIDs(ids, c, r), b2) == Ok(before + InsertSorted(mid, key, value) + after);
  }

  /** Removing the key from child c's pairs removes it from the parent's. */
  lemma ChildrenRemove(T: Table, cfg: Config, keys: seq<Key>, ids: seq<nat>, hi: Option<Key>, h: nat, bound: nat,
                       c: nat, key: Key, r: Rewrite, b2: nat)
    requires ChildrenWF(T, cfg, keys, ids, hi, h, bound) && |keys| > 0 && bound <= b2
    requires StrictlyAscending(keys) && KeysInRange(keys, None, hi) && c == FloorIndex(keys, key)
    requires Enumerate(T, ids[c]).Ok?
    requires RewriteContents(T, r, b2) == Ok(RemoveSorted(Enumerate(T, ids[c]).value, key))
    ensures EnumerateChildren(T, ids, bound).Ok?
    ensures EnumerateChildren(T, NewIDs(ids, c, r), b2) == Ok(RemoveSorted(EnumerateChildren(T, ids, bound).value, key))
  {
    ChildrenAroundKey(T, cfg, keys, ids, hi, h, bound, c, key);
    ChildrenSwap(T, ids, bound, c, Members(r), b2);
    var before, mid, after :=
      EnumerateChildren(T, ids[..c], bound).value, Enumerate(T, ids[c]).value,
      EnumerateChildren(T, ids[c + 1..], bound).value;
    RemoveAround(before, mid, after, key);
    assert EnumerateChildren(T, NewIDs(ids, c, r), b2) == Ok(before + RemoveSorted(mid, key) + after);
  }

  /** Pairs all below and all above the key around mid hold the key exactly when mid does. */
  lemma HasKeyAround(before: seq<Pair>, mid: seq<Pair>, after: seq<Pair>, key: Key)
    requires AllBelow(before, key) && AllAbove(after, key)
    ensures HasKey(before + mid + after, key) <==> HasKey(mid, key)
  {
    var all := before + mid + after;
    if HasKey(all, key) {
      var i :| 0 <= i < |all| && all[i].0 == key;
      LessTrichotomy(key, key);
      if |before| <= i < |before| + |mid| {
        assert mid[i - |before|].0 == key;
      }
    }
    if HasKey(mid, key) {
      var i :| 0 <= i < |mid| && mid[i].0 == key;
      assert all[|before| + i] == mid[i];
    }
  }

  /** Pairs all below, or all above, the key do not hold it. */
  lemma NotAmong(ps: seq<Pair>, key: Key, below: bool)
    requires below ==> AllBelow(ps, key)
    requires !below ==> AllAbove(ps, key)
    ensures RemoveSorted(ps, key) == ps
  {
    forall j | 0 <= j < |ps| ensures ps[j].0 != key {
      LessTrichotomy(ps[j].0, key);
    }
    RemoveAbsent(ps, key);
  }

  // ---------------------------------------------------------------------
  // Rewriting a leaf
  // ---------------------------------------------------------------------

  /** Every pair has the key and value widths of the tree. */
  predicate Sized(ps: seq<Pair>, cfg: Config)
  {
    forall i | 0 <= i < |ps| :: |ps[i].0| == cfg.keySize && |ps[i].1| == cfg.valSize
  }

  /** The pairs of a valid leaf with the key inserted: sorted, sized, in the range lowered to the key. */
  lemma LeafInsertFacts(n: Node, cfg: Config, lo: Option<Key>, hi: Option<Key>, key: Key, value: Value)
    requires n.Leaf? && ValidNode(n, cfg) && KeysInRange(n.keys, lo, hi)
    requires |key| == cfg.keySize && |value| == cfg.valSize && BelowHi(key, hi)
    ensures var ps := InsertSorted(LeafEntries(n), key, value);
            && SortedPairs(ps) && Sized(ps, cfg) && InRange(ps, MinLo(lo, key), hi)
            && |ps| <= |n.keys| + 1
  {
    var es := LeafEntries(n);
    LeafEntriesSorted(n);
    InsertSortedProperties(es, key, value);
    var ps := InsertSorted(es, key, value);
    forall i | 0 <= i < |ps|
      ensures |ps[i].0| == cfg.keySize && |ps[i].1| == cfg.valSize
      ensures AboveLo(ps[i].0, MinLo(lo, key)) && BelowHi(ps[i].0, hi)
    {
      if ps[i] != (key, value) {
        var j :| 0 <= j < |es| && es[j] == ps[i];
        assert ps[i] == (n.keys[j], n.objects[j]);
      }
    }
  }

  /** The pairs of a valid leaf with the key removed: sorted, sized, still in range. */
  lemma LeafRemoveFacts(n: Node, cfg: Config, lo: Option<Key>, hi: Option<Key>, key: Key)
    requires n.Leaf? && ValidNode(n, cfg) && KeysInRange(n.keys, lo, hi)
    ensures var ps := RemoveSorted(LeafEntries(n), key);
            && SortedPairs(ps) && Sized(ps, cfg) && InRange(ps, lo, hi) && |ps| <= |n.keys|
  {
    var es := LeafEntries(n);
    LeafEntriesSorted(n);
    RemoveSortedProperties(es, key);
    RemoveShorter(es, key);
    var ps := RemoveSorted(es, key);
    forall i | 0 <= i < |ps|
      ensures |ps[i].0| == cfg.keySize && |ps[i].1| == cfg.valSize
      ensures AboveLo(ps[i].0, lo) && BelowHi(ps[i].0, hi)
    {
      var j :| 0 <= j < |es| && es[j] == ps[i];
      assert ps[i] == (n.keys[j], n.objects[j]);
    }
  }

  lemma {:induction false} RemoveShorter(ps: seq<Pair>, key: Key)
    ensures |RemoveSorted(ps, key)| <= |ps|
  {
    if ps != [] {
      RemoveShorter(ps[1..], key);
    }
  }

  /** A sorted run split at mid: the halves are sorted and meet at the key at mid. */
  lemma SplitRange(ps: seq<Pair>, mid: nat, lo: Option<Key>, hi: Option<Key>)
    requires SortedPairs(ps) && InRange(ps, lo, hi) && 0 < mid < |ps|
    ensures SortedPairs(ps[..mid]) && SortedPairs(ps[mid..])
    ensures InRange(ps[..mid], Some(ps[0].0), Some(ps[mid].0))
    ensures InRange(ps[mid..], Some(ps[mid].0), hi)
    ensures AboveLo(ps[0].0, lo) && Less(ps[0].0, ps[mid].0) && BelowHi(ps[mid].0, hi)
  {
    var a, b := ps[..mid], ps[mid..];
    forall i | 0 <= i < |a| ensures AboveLo(a[i].0, Some(ps[0].0)) && BelowHi(a[i].0, Some(ps[mid].0)) {
      assert a[i] == ps[i];
    }
    forall i | 0 <= i < |b| ensures AboveLo(b[i].0, Some(ps[mid].0)) && BelowHi(b[i].0, hi) {
      assert b[i] == ps[mid + i];
    }
    forall i, j | 0 <= i < j < |a| ensures Less(a[i].0, a[j].0) {
      assert a[i] == ps[i] && a[j] == ps[j];
    }
    forall i, j | 0 <= i < j < |b| ensures Less(b[i].0, b[j].0) {
      assert b[i] == ps[mid + i] && b[j] == ps[mid + j];
    }
  }

  /** Half of a run one longer than a capacity of at least 2 fits the capacity, and so does the rest. */
  lemma HalvesFit(len: nat, cap: nat)
    requires cap >= 2 && cap < len <= cap + 1
    ensures 0 < len / 2 < len && len / 2 <= cap && len - len / 2 <= cap
  {
  }

  lemma TakeDrop(ps: seq<Pair>, mid: nat)
    requires mid <= |ps|
    ensures ps[..mid] + ps[mid..] == ps
  {
  }

  /** Two children in a row enumerate one after the other. */
  lemma PairChildren(T: Table, a: nat, b: nat, bound: nat)
    requires a < bound && b < bound
    ensures EnumerateChildren(T, [a, b], bound) == Concat(Enumerate(T, a), Enumerate(T, b))
  {
    assert [a, b] == [a] + [b];
    ChildrenAppend(T, [a], [b], bound);
    SingleChild(T, a, bound);
    SingleChild(T, b, bound);
  }

  /** One new leaf page holding sorted pairs that fit a leaf. */
  method WriteLeaf(ctx: UpdateContext, cfg: Config, ps: seq<Pair>, lo: Option<Key>, hi: Option<Key>, root: bool, now: nat)
    returns (id: nat)
    requires ctx.Valid() && ValidConfig(cfg) && now < U64_LIMIT
    requires SortedPairs(ps) && Sized(ps, cfg) && InRange(ps, lo, hi) && |ps| <= cfg.maxLeafKeys
    modifies ctx
    ensures ctx.Valid() && unchanged(ctx.aof)
    ensures old(ctx.View()) <= ctx.View() && |ctx.View()| == old(|ctx.View()|) + 1 && id == old(|ctx.View()|)
    ensures WF(Decoded(ctx.View()), cfg, id, lo, hi, 0, root)
    ensures Enumerate(Decoded(ctx.View()), id) == Ok(ps)
  {
    var n;
    id, n := CreateLeaf(ctx, cfg, root, now, KeysOf(ps), ValuesOf(ps));
    DecodedAt(ctx.View(), id);
    LeafPageWF(Decoded(ctx.View()), cfg, id, n, ps, lo, hi, root);
  }

  /**
    The pairs of one leaf written as one new leaf, or, when they exceed the
    leaf capacity, as two new leaves holding the lower and upper halves.
  */
  method WriteLeaves(ctx: UpdateContext, cfg: Config, ps: seq<Pair>, lo: Option<Key>, hi: Option<Key>, root: bool, now: nat)
    returns (r: Rewrite)
    requires ctx.Valid() && ValidConfig(cfg) && now < U64_LIMIT
    requires SortedPairs(ps) && Sized(ps, cfg) && InRange(ps, lo, hi) && |ps| <= cfg.maxLeafKeys + 1
    modifies ctx
    ensures ctx.Valid() && unchanged(ctx.aof)
    ensures old(ctx.View()) <= ctx.View() && |ctx.View()| <= old(|ctx.View()|) + 2
    ensures MembersBelow(r, |ctx.View()|) && MembersNew(r, old(|ctx.View()|)) && (r.Split? <==> |ps| > cfg.maxLeafKeys)
    ensures RewriteWF(Decoded(ctx.View()), cfg, r, lo, hi, 0, root)
    ensures RewriteContents(Decoded(ctx.View()), r, |ctx.View()|) == Ok(ps)
  {
    if |ps| <= cfg.maxLeafKeys {
      var id := WriteLeaf(ctx, cfg, ps, lo, hi, root, now);
      SingleChild(Decoded(ctx.View()), id, |ctx.View()|);
      r := Replaced(id);
      assert Members(r)[0] == id;
    } else {
      r := SplitLeaf(ctx, cfg, ps, lo, hi, now);
    }
  }

  /** Pairs one more than a leaf holds, split into two new non-root leaves at the middle. */
  method SplitLeaf(ctx: UpdateContext, cfg: Config, ps: seq<Pair>, lo: Option<Key>, hi: Option<Key>, now: nat)
    returns (r: Rewrite)
    requires ctx.Valid() && ValidConfig(cfg) && now < U64_LIMIT
    requires SortedPairs(ps) && Sized(ps, cfg) && InRange(ps, lo, hi) && cfg.maxLeafKeys < |ps| <= cfg.maxLeafKeys + 1
    modifies ctx
    ensures ctx.Valid() && unchanged(ctx.aof)
    ensures old(ctx.View()) <= ctx.View() && |ctx.View()| == old(|ctx.View()|) + 2
    ensures r.Split? && MembersBelow(r, |ctx.View()|) && MembersNew(r, old(|ctx.View()|))
    ensures RewriteWF(Decoded(ctx.View()), cfg, r, lo, hi, 0, false)
    ensures RewriteContents(Decoded(ctx.View()), r, |ctx.View()|) == Ok(ps)
  {
    HalvesFit(|ps|, cfg.maxLeafKeys);
    var mid := |ps| / 2;
    SplitRange(ps, mid, lo, hi);
    var m, sep := ps[0].0, ps[mid].0;
    var l := WriteLeaf(ctx, cfg, ps[..mid], Some(m), Some(sep), false, now);
    ghost var A1 := ctx.View();
    var rr := WriteLeaf(ctx, cfg, ps[mid..], Some(sep), hi, false, now);
    r := Split(l, m, sep, rr);
    DecodedPrefix(A1, ctx.View());
    SplitLeafWF(Decoded(A1), Decoded(ctx.View()), cfg, ps, mid, r, lo, hi);
  }

  lemma SplitLeafWF(T1: Table, T2: Table, cfg: Config, ps: seq<Pair>, mid: nat, r: Rewrite, lo: Option<Key>, hi: Option<Key>)
    requires T1 <= T2 && 0 < mid < |ps| && r.Split? && r.leftMin == ps[0].0 && r.sep == ps[mid].0
    requires Sized(ps, cfg) && AboveLo(ps[0].0, lo) && Less(ps[0].0, ps[mid].0) && BelowHi(ps[mid].0, hi)
    requires r.left < |T1| && r.right < |T2|
    requires WF(T1, cfg, r.left, Some(ps[0].0), Some(ps[mid].0), 0, false)
    requires Enumerate(T1, r.left) == Ok(ps[..mid])
    requires WF(T2, cfg, r.right, Some(ps[mid].0), hi, 0, false)
    requires Enumerate(T2, r.right) == Ok(ps[mid..])
    ensures MembersBelow(r, |T2|)
    ensures RewriteWF(T2, cfg, r, lo, hi, 0, false)
    ensures RewriteContents(T2, r, |T2|) == Ok(ps)
  {
    WFExtend(T1, T2, cfg, r.left, Some(ps[0].0), Some(ps[mid].0), 0, false);
    EnumerateExtend(T1, T2, r.left);
    PairChildren(T2, r.left, r.right, |T2|);
    TakeDrop(ps, mid);
    assert Members(r)[0] == r.left && Members(r)[1] == r.right;
  }

  // ---------------------------------------------------------------------
  // Rewriting an internal node
  // ---------------------------------------------------------------------

  /** One new internal page over a run of children that fits an internal node. */
  method WriteInternal(ctx: UpdateContext, cfg: Config, ghost A: Arena, keys: seq<Key>, ids: seq<nat>,
                       lo: Option<Key>, hi: Option<Key>, h: nat, root: bool, now: nat)
    returns (id: nat)
    requires ctx.Valid() && ValidConfig(cfg) && now < U64_LIMIT
    requires A <= ctx.View() && |ctx.View()| < U64_LIMIT
    requires ChildrenWF(Decoded(A), cfg, keys, ids, hi, h, |A|)
    requires 1 <= |keys| <= cfg.maxInternalKeys && StrictlyAscending(keys) && KeysInRange(keys, lo, hi)
    requires forall i | 0 <= i < |keys| :: |keys[i]| == cfg.keySize
    modifies ctx
    ensures ctx.Valid() && unchanged(ctx.aof)
    ensures old(ctx.View()) <= ctx.View() && |ctx.View()| == old(|ctx.View()|) + 1 && id == old(|ctx.View()|)
    ensures WF(Decoded(ctx.View()), cfg, id, lo, hi, h + 1, root)
    ensures Decoded(ctx.View())[id] == Ok(Internal(FlagsFor(root), now, cfg.keySize, cfg.valSize, keys, ids))
    ensures Enumerate(Decoded(ctx.View()), id) == EnumerateChildren(Decoded(A), ids, |A|)
  {
    assert forall i | 0 <= i < |ids| :: ids[i] < U64_LIMIT;
    var n;
    id, n := CreateInternal(ctx, cfg, root, now, keys, ids);
    DecodedAt(ctx.View(), id);
    DecodedPrefix(A, ctx.View());
    InternalWritten(Decoded(A), Decoded(ctx.View()), cfg, id, n, lo, hi, h, root);
  }

  /** The new internal page, seen in the table it sits in: well formed, enumerating its children's pairs. */
  lemma InternalWritten(TA: Table, TB: Table, cfg: Config, id: nat, n: Node, lo: Option<Key>, hi: Option<Key>, h: nat, root: bool)
    requires TA <= TB && |TA| <= id < |TB| && TB[id] == Ok(n) && n.Internal?
    requires ValidNode(n, cfg) && IsRoot(n.flags) == root
    requires ChildrenWF(TA, cfg, n.keys, n.pageIDs, hi, h, |TA|)
    requires 1 <= |n.keys| && KeysInRange(n.keys, lo, hi)
    ensures WF(TB, cfg, id, lo, hi, h + 1, root)
    ensures Enumerate(TB, id) == EnumerateChildren(TA, n.pageIDs, |TA|)
  {
    ChildrenMove(TA, TB, cfg, n.keys, n.pageIDs, hi, h, |TA|, id);
    InternalPageWF(TB, cfg, id, n, lo, hi, h, root);
  }

  /** A run of ascending keys in range split at mid: both halves ascend, meeting at the key at mid. */
  lemma KeySplitRange(keys: seq<Key>, mid: nat, lo: Option<Key>, hi: Option<Key>)
    requires StrictlyAscending(keys) && KeysInRange(keys, lo, hi) && 0 < mid < |keys|
    ensures StrictlyAscending(keys[..mid]) && StrictlyAscending(keys[mid..])
    ensures KeysInRange(keys[..mid], Some(keys[0]), Some(keys[mid]))
    ensures KeysInRange(keys[mid..], Some(keys[mid]), hi)
    ensures AboveLo(keys[0], lo) && Less(keys[0], keys[mid]) && BelowHi(keys[mid], hi)
  {
    var a, b := keys[..mid], keys[mid..];
    forall i | 0 <= i < |a| ensures AboveLo(a[i], Some(keys[0])) && BelowHi(a[i], Some(keys[mid])) {
      assert a[i] == keys[i];
    }
    forall i | 0 <= i < |b| ensures AboveLo(b[i], Some(keys[mid])) && BelowHi(b[i], hi) {
      assert b[i] == keys[mid + i];
    }
    forall i, j | 0 <= i < j < |a| ensures Less(a[i], a[j]) {
      assert a[i] == keys[i] && a[j] == keys[j];
    }
    forall i, j | 0 <= i < j < |b| ensures Less(b[i], b[j]) {
      assert b[i] == keys[mid + i] && b[j] == keys[mid + j];
    }
  }

  lemma IDsTakeDrop(ids: seq<nat>, mid: nat)
    requires mid <= |ids|
    ensures ids[..mid] + ids[mid..] == ids
  {
  }

  /** A run of children one more than an internal node holds, split into two new non-root nodes. */
  method SplitInternal(ctx: UpdateContext, cfg: Config, keys: seq<Key>, ids: seq<nat>,
                       lo: Option<Key>, hi: Option<Key>, h: nat, now: nat)
    returns (r: Rewrite)
    requires ctx.Valid() && ValidConfig(cfg) && now < U64_LIMIT
    requires |ctx.View()| + 2 <= U64_LIMIT
    requires ChildrenWF(Decoded(ctx.View()), cfg, keys, ids, hi, h, |ctx.View()|)
    requires cfg.maxInternalKeys < |keys| <= cfg.maxInternalKeys + 1
    requires StrictlyAscending(keys) && KeysInRange(keys, lo, hi)
    requires forall i | 0 <= i < |keys| :: |keys[i]| == cfg.keySize
    modifies ctx
    ensures ctx.Valid() && unchanged(ctx.aof)
    ensures old(ctx.View()) <= ctx.View() && |ctx.View()| == old(|ctx.View()|) + 2
    ensures r.Split? && MembersBelow(r, |ctx.View()|) && MembersNew(r, old(|ctx.View()|))
    ensures RewriteWF(Decoded(ctx.View()), cfg, r, lo, hi, h + 1, false)
    ensures RewriteContents(Decoded(ctx.View()), r, |ctx.View()|) ==
            EnumerateChildren(Decoded(old(ctx.View())), ids, old(|ctx.View()|))
  {
    ghost var A0 := ctx.View();
    HalvesFit(|keys|, cfg.maxInternalKeys);
    var mid := |keys| / 2;
    KeySplitRange(keys, mid, lo, hi);
    ChildrenWFTake(Decoded(A0), cfg, keys, ids, hi, h, |A0|, mid);
    ChildrenWFDrop(Decoded(A0), cfg, keys, ids, hi, h, |A0|, mid);
    var m, sep := keys[0], keys[mid];
    var l := WriteInternal(ctx, cfg, A0, keys[..mid], ids[..mid], Some(m), Some(sep), h, false, now);
    ghost var A1 := ctx.View();
    var rr := WriteInternal(ctx, cfg, A0, keys[mid..], ids[mid..], Some(sep), hi, h, false, now);
    r := Split(l, m, sep, rr);
    DecodedPrefix(A1, ctx.View());
    SplitInternalWF(Decoded(A0), Decoded(A1), Decoded(ctx.View()), cfg, keys, ids, mid, r, lo, hi, h);
  }

  lemma SplitInternalWF(T0: Table, T1: Table, T2: Table, cfg: Config, keys: seq<Key>, ids: seq<nat>, mid: nat,
                        r: Rewrite, lo: Option<Key>, hi: Option<Key>, h: nat)
    requires T1 <= T2 && 0 < mid < |keys| == |ids| && r.Split? && r.leftMin == keys[0] && r.sep == keys[mid]
    requires |keys[0]| == cfg.keySize && |keys[mid]| == cfg.keySize
    requires AboveLo(keys[0], lo) && Less(keys[0], keys[mid]) && BelowHi(keys[mid], hi)
    requires r.left < |T1| && r.right < |T2|
    requires WF(T1, cfg, r.left, Some(keys[0]), Some(keys[mid]), h + 1, false)
    requires Enumerate(T1, r.left) == EnumerateChildren(T0, ids[..mid], |T0|)
    requires WF(T2, cfg, r.right, Some(keys[mid]), hi, h + 1, false)
    requires Enumerate(T2, r.right) == EnumerateChildren(T0, ids[mid..], |T0|)
    ensures MembersBelow(r, |T2|)
    ensures RewriteWF(T2, cfg, r, lo, hi, h + 1, false)
    ensures RewriteContents(T2, r, |T2|) == EnumerateChildren(T0, ids, |T0|)
  {
    WFExtend(T1, T2, cfg, r.left, Some(keys[0]), Some(keys[mid]), h + 1, false);
    EnumerateExtend(T1, T2, r.left);
    PairChildren(T2, r.left, r.right, |T2|);
    IDsTakeDrop(ids, mid);
    ChildrenAppend(T0, ids[..mid], ids[mid..], |T0|);
    assert Members(r)[0] == r.left && Members(r)[1] == r.right;
  }

  /** The keys of a rewritten parent keep the configured key size. */
  lemma NewKeysSized(cfg: Config, keys: seq<Key>, c: nat, s: Key, r: Rewrite)
    requires c < |keys| && |s| == cfg.keySize && (r.Split? ==> |r.sep| == cfg.keySize)
    requires forall i | 0 <= i < |keys| :: |keys[i]| == cfg.keySize
    ensures forall i | 0 <= i < |NewKeys(keys, c, s, r)| :: |NewKeys(keys, c, s, r)[i]| == cfg.keySize
  {
    var ks := NewKeys(keys, c, s, r);
    forall i | 0 <= i < |ks| ensures |ks[i]| == cfg.keySize {
      if i < c {
        assert ks[i] == keys[i];
      } else if i < c + |Members(r)| {
        assert ks[i] == MemberKeys(s, r)[i - c];
      } else {
        assert ks[i] == keys[i - |Members(r)| + 1];
      }
    }
  }

  /**
    What rewriting a parent needs: its children well formed at height h
    in T, child c rewritten to r under the separator s, and the parent's new
    keys ascending and within (lo, hi).
  */
  ghost predicate ParentInput(T: Table, cfg: Config, keys: seq<Key>, ids: seq<nat>, c: nat, s: Key, r: Rewrite,
                              lo: Option<Key>, hi: Option<Key>, h: nat)
  {
    && ChildrenWF(T, cfg, keys, ids, hi, h, |T|)
    && c < |keys| <= cfg.maxInternalKeys && (c == 0 || s == keys[c]) && |s| == cfg.keySize
    && (forall i | 0 <= i < |keys| :: |keys[i]| == cfg.keySize)
    && MembersBelow(r, |T|)
    && RewriteWF(T, cfg, r, Some(s), ChildHi(keys, c, hi), h, false)
    && StrictlyAscending(NewKeys(keys, c, s, r)) && KeysInRange(NewKeys(keys, c, s, r), lo, hi)
  }

  /**
    One step up the path: the parent with keys and ids, whose child c was
    rewritten to r under the key s, is written anew under that child's
    replacement. It stays one page when the new keys fit and splits in two
    otherwise.
  */
  method RewriteParent(ctx: UpdateContext, cfg: Config, keys: seq<Key>, ids: seq<nat>, c: nat, s: Key, r: Rewrite,
                       lo: Option<Key>, hi: Option<Key>, h: nat, root: bool, now: nat)
    returns (r2: Rewrite)
    requires ctx.Valid() && ValidConfig(cfg) && now < U64_LIMIT
    requires |ctx.View()| + 2 <= U64_LIMIT
    requires ParentInput(Decoded(ctx.View()), cfg, keys, ids, c, s, r, lo, hi, h)
    modifies ctx
    ensures ctx.Valid() && unchanged(ctx.aof)
    ensures old(ctx.View()) <= ctx.View() && |ctx.View()| <= old(|ctx.View()|) + 2
    ensures MembersBelow(r2, |ctx.View()|) && MembersNew(r2, old(|ctx.View()|))
    ensures r2.Split? <==> r.Split? && |keys| == cfg.maxInternalKeys
    ensures RewriteWF(Decoded(ctx.View()), cfg, r2, lo, hi, h + 1, root)
    ensures RewriteContents(Decoded(ctx.View()), r2, |ctx.View()|) ==
            EnumerateChildren(Decoded(old(ctx.View())), NewIDs(ids, c, r), old(|ctx.View()|))
  {
    ghost var A := ctx.View();
    NewParentWF(Decoded(A), cfg, keys, ids, hi, h, |A|, c, s, r);
    NewKeysSized(cfg, keys, c, s, r);
    r2 := WriteInternals(ctx, cfg, NewKeys(keys, c, s, r), NewIDs(ids, c, r), lo, hi, h, root, now);
  }

  /**
    A run of children written as one new internal node, or, when its keys
    exceed the internal capacity by one, as two new internal nodes.
  */
  method WriteInternals(ctx: UpdateContext, cfg: Config, keys: seq<Key>, ids: seq<nat>,
                        lo: Option<Key>, hi: Option<Key>, h: nat, root: bool, now: nat)
    returns (r: Rewrite)
    requires ctx.Valid() && ValidConfig(cfg) && now < U64_LIMIT
    requires |ctx.View()| + 2 <= U64_LIMIT
    requires ChildrenWF(Decoded(ctx.View()), cfg, keys, ids, hi, h, |ctx.View()|)
    requires 1 <= |keys| <= cfg.maxInternalKeys + 1
    requires StrictlyAscending(keys) && KeysInRange(keys, lo, hi)
    requires forall i | 0 <= i < |keys| :: |keys[i]| == cfg.keySize
    modifies ctx
    ensures ctx.Valid() && unchanged(ctx.aof)
    ensures old(ctx.View()) <= ctx.View() && |ctx.View()| <= old(|ctx.View()|) + 2
    ensures MembersBelow(r, |ctx.View()|) && MembersNew(r, old(|ctx.View()|)) && (r.Split? <==> |keys| > cfg.maxInternalKeys)
    ensures RewriteWF(Decoded(ctx.View()), cfg, r, lo, hi, h + 1, root)
    ensures RewriteContents(Decoded(ctx.View()), r, |ctx.View()|) ==
            EnumerateChildren(Decoded(old(ctx.View())), ids, old(|ctx.View()|))
  {
    if |keys| <= cfg.maxInternalKeys {
      var id := WriteInternal(ctx, cfg, old(ctx.View()), keys, ids, lo, hi, h, root, now);
      r := Replaced(id);
      SingleChild(Decoded(ctx.View()), id, |ctx.View()|);
      assert Members(r)[0] == id;
    } else {
      r := SplitInternal(ctx, cfg, keys, ids, lo, hi, h, now);
    }
  }

  /** The children of the rewritten parent are well formed, whichever way the child was rewritten. */
  lemma NewParentWF(T: Table, cfg: Config, keys: seq<Key>, ids: seq<nat>, hi: Option<Key>, h: nat, b: nat,
                    c: nat, s: Key, r: Rewrite)
    requires ChildrenWF(T, cfg, keys, ids, hi, h, b) && c < |keys| && (c == 0 || s == keys[c])
    requires MembersBelow(r, b) && RewriteWF(T, cfg, r, Some(s), ChildHi(keys, c, hi), h, false)
    ensures ChildrenWF(T, cfg, NewKeys(keys, c, s, r), NewIDs(ids, c, r), hi, h, b)
  {
    assert Members(r)[0] < b;
    if r.Replaced? {
      ReplacedChildWF(T, cfg, keys, ids, hi, h, b, c, s, r);
    } else {
      assert Members(r)[1] < b;
      SplitChildWF(T, cfg, keys, ids, hi, h, b, c, s, r);
    }
  }

  // ---------------------------------------------------------------------
  // The path from the root to the leaf for a key
  // ---------------------------------------------------------------------

  /**
    initWithPageID:parentID:fromAOF: the node stored at a page id of the
    transaction's view, or why there is none.
  */
  method LoadNode(ctx: UpdateContext, ghost A: Arena, id: nat) returns (r: Result<Node>)
    requires ctx.Valid() && A == ctx.View()
    ensures id < |A| ==> r == Decoded(A)[id]
    ensures id >= |A| ==> r == Err(OutOfRange)
  {
    var p := ctx.ReadPage(id);
    if p == null {
      r := Err(OutOfRange);
    } else {
      DecodedAt(A, id);
      r := DecodeNode(p.data);
    }
  }

  /** A well-formed leaf enumerates its own entries. */
  lemma LeafLevel(T: Table, cfg: Config, id: nat, n: Node, lo: Option<Key>, hi: Option<Key>, h: nat, root: bool)
    requires WF(T, cfg, id, lo, hi, h, root) && T[id] == Ok(n) && n.Leaf?
    ensures h == 0 && ValidNode(n, cfg) && IsRoot(n.flags) == root && KeysInRange(n.keys, lo, hi)
    ensures Enumerate(T, id) == Ok(LeafEntries(n))
  {
  }

  /** A well-formed internal node enumerates its children in order. */
  lemma InternalLevel(T: Table, cfg: Config, id: nat, n: Node, lo: Option<Key>, hi: Option<Key>, h: nat, root: bool)
    requires WF(T, cfg, id, lo, hi, h, root) && T[id] == Ok(n) && n.Internal?
    ensures h >= 1 && |n.keys| >= 1 && ValidNode(n, cfg) && IsRoot(n.flags) == root && KeysInRange(n.keys, lo, hi)
    ensures ChildrenWF(T, cfg, n.keys, n.pageIDs, hi, h - 1, id)
    ensures Enumerate(T, id) == EnumerateChildren(T, n.pageIDs, id)
  {
  }

  /** One node on the walk down: its page id, its node and the range [lo, hi) its keys lie in. */
  datatype Visit = Visit(id: nat, node: Node, lo: Option<Key>, hi: Option<Key>)

  /** A visit to the well-formed node at height h, with the key below the node's upper bound. */
  ghost predicate AtLevel(T: Table, cfg: Config, key: Key, v: Visit, h: nat, root: bool)
  {
    WF(T, cfg, v.id, v.lo, v.hi, h, root) && T[v.id] == Ok(v.node) && BelowHi(key, v.hi)
  }

  /** The child position taken at an internal node. */
  function ChildIndex(n: Node, key: Key): (c: nat)
    requires n.Internal? && |n.keys| > 0
    ensures c < |n.keys|
  {
    FloorIndex(n.keys, key)
  }

  /** The step from visit p down to visit q: q is the child of p whose range holds key. */
  predicate StepDown(p: Visit, q: Visit, key: Key)
  {
    && p.node.Internal? && |p.node.keys| > 0 && |p.node.pageIDs| == |p.node.keys|
    && var c := ChildIndex(p.node, key);
       && q.id == p.node.pageIDs[c]
       && q.lo == Some(p.node.keys[c]) && q.hi == ChildHi(p.node.keys, c, p.hi)
  }

  /** The visit at depth j of a walk down t is at the height j levels below the root. */
  ghost predicate LevelAt(T: Table, t: Tree, key: Key, path: seq<Visit>, j: nat)
    requires j < |path|
  {
    j <= Height(T, t.root) && AtLevel(T, t.cfg, key, path[j], Height(T, t.root) - j, j == 0)
  }

  /** The visit at depth j of a walk is the child of the one before it whose range holds key. */
  predicate StepAt(path: seq<Visit>, key: Key, j: nat)
    requires 0 < j < |path|
  {
    StepDown(path[j - 1], path[j], key)
  }

  /** The walk from the root of t towards key: path[j] is the visit at depth j. */
  ghost predicate PathWF(T: Table, t: Tree, key: Key, path: seq<Visit>)
  {
    && 0 < |path| <= Height(T, t.root) + 1
    && path[0].id == t.root && path[0].lo == None && path[0].hi == None
    && (forall j | 0 <= j < |path| :: LevelAt(T, t, key, path, j))
    && (forall j | 0 < j < |path| :: StepAt(path, key, j))
  }

  /** The step from a visit to its child keeps the key below the child's upper bound. */
  lemma StepDownLevel(T: Table, cfg: Config, key: Key, v: Visit, h: nat, root: bool)
    requires AtLevel(T, cfg, key, v, h, root) && v.node.Internal?
    ensures h >= 1 && |v.node.keys| > 0 && |v.node.pageIDs| == |v.node.keys|
    ensures var c := ChildIndex(v.node, key);
            var id := v.node.pageIDs[c];
            && id < v.id && T[id].Ok?
            && StepDown(v, Visit(id, T[id].value, Some(v.node.keys[c]), ChildHi(v.node.keys, c, v.hi)), key)
            && AtLevel(T, cfg, key, Visit(id, T[id].value, Some(v.node.keys[c]), ChildHi(v.node.keys, c, v.hi)), h - 1, false)
  {
    InternalLevel(T, cfg, v.id, v.node, v.lo, v.hi, h, root);
    FloorIndexSorted(v.node.keys, key);
    var c := FloorIndex(v.node.keys, key);
    assert WF(T, cfg, v.node.pageIDs[c], Some(v.node.keys[c]), ChildHi(v.node.keys, c, v.hi), h - 1, false);
  }

  /** A walk ending at an internal node extends by the child whose range holds key. */
  lemma PathExtend(T: Table, t: Tree, key: Key, path: seq<Visit>)
    requires PathWF(T, t, key, path) && path[|path| - 1].node.Internal?
    ensures var v := path[|path| - 1];
            && |v.node.keys| > 0 && |v.node.pageIDs| == |v.node.keys|
            && var c := ChildIndex(v.node, key);
               var id := v.node.pageIDs[c];
               && id < |T| && T[id].Ok?
               && PathWF(T, t, key, path + [Visit(id, T[id].value, Some(v.node.keys[c]), ChildHi(v.node.keys, c, v.hi))])
  {
    var j := |path| - 1;
    var v := path[j];
    var H := Height(T, t.root);
    assert LevelAt(T, t, key, path, j);
    StepDownLevel(T, t.cfg, key, v, H - j, j == 0);
    var c := ChildIndex(v.node, key);
    var id := v.node.pageIDs[c];
    var p2 := path + [Visit(id, T[id].value, Some(v.node.keys[c]), ChildHi(v.node.keys, c, v.hi))];
    forall k | 0 <= k < |p2| ensures LevelAt(T, t, key, p2, k) {
      if k < |path| {
        assert LevelAt(T, t, key, path, k) && p2[k] == path[k];
      }
    }
    forall k | 0 < k < |p2| ensures StepAt(p2, key, k) {
      if k < |path| {
        assert StepAt(path, key, k) && p2[k - 1] == path[k - 1] && p2[k] == path[k];
      }
    }
  }

  /** A walk ending at a leaf has reached the bottom of the tree. */
  lemma PathLeaf(T: Table, t: Tree, key: Key, path: seq<Visit>)
    requires PathWF(T, t, key, path) && path[|path| - 1].node.Leaf?
    ensures |path| == Height(T, t.root) + 1
  {
    var j := |path| - 1;
    var v := path[j];
    assert LevelAt(T, t, key, path, j);
    LeafLevel(T, t.cfg, v.id, v.node, v.lo, v.hi, Height(T, t.root) - j, j == 0);
  }

  /** The walk starts at the root. */
  lemma PathStart(T: Table, t: Tree, key: Key)
    requires ValidTree(T, t)
    ensures t.root < |T| && T[t.root].Ok?
    ensures PathWF(T, t, key, [Visit(t.root, T[t.root].value, None, None)])
  {
  }

  /**
    The search for key: from the root down, at each internal node the child
    whose range holds key (childForKey:), until a leaf.
  */
  method Descend(ctx: UpdateContext, ghost A: Arena, t: Tree, key: Key) returns (path: seq<Visit>)
    requires ctx.Valid() && A == ctx.View() && ValidTree(Decoded(A), t)
    ensures PathWF(Decoded(A), t, key, path)
    ensures |path| == Height(Decoded(A), t.root) + 1
    ensures path[|path| - 1].node.Leaf?
  {
    ghost var T := Decoded(A);
    PathStart(T, t, key);
    var res := LoadNode(ctx, A, t.root);
    var v := Visit(t.root, res.value, None, None);
    path := [v];
    while v.node.Internal?
      invariant PathWF(T, t, key, path) && v == path[|path| - 1]
      decreases Height(T, t.root) + 1 - |path|
    {
      PathExtend(T, t, key, path);
      var c := ChildIndex(v.node, key);
      res := LoadNode(ctx, A, v.node.pageIDs[c]);
      v := Visit(v.node.pageIDs[c], res.value, Some(v.node.keys[c]), ChildHi(v.node.keys, c, v.hi));
      path := path + [v];
    }
    PathLeaf(T, t, key, path);
  }

  /** The level above path[j], whose height is h + 1: the parent visit and the step down from it. */
  lemma PathParent(T: Table, t: Tree, key: Key, path: seq<Visit>, j: nat, h: nat)
    requires PathWF(T, t, key, path) && 0 < j < |path| && h + j == Height(T, t.root)
    ensures AtLevel(T, t.cfg, key, path[j - 1], h + 1, j - 1 == 0)
    ensures StepDown(path[j - 1], path[j], key)
  {
    assert LevelAt(T, t, key, path, j - 1) && StepAt(path, key, j);
  }

  /** The last visit of a walk down to the leaf level is at height 0. */
  lemma PathBottom(T: Table, t: Tree, key: Key, path: seq<Visit>)
    requires PathWF(T, t, key, path) && |path| == Height(T, t.root) + 1
    ensures AtLevel(T, t.cfg, key, path[|path| - 1], 0, |path| - 1 == 0)
  {
    assert LevelAt(T, t, key, path, |path| - 1);
  }

  /**
    The subtree at each visit of a walk down to the leaf level holds key
    exactly when the leaf at the end of the walk does.
  */
  lemma {:induction false} PathHasKey(T: Table, t: Tree, key: Key, path: seq<Visit>, j: nat)
    requires PathWF(T, t, key, path) && |path| == Height(T, t.root) + 1
    requires path[|path| - 1].node.Leaf? && j < |path|
    ensures Enumerate(T, path[j].id).Ok?
    ensures HasKey(Enumerate(T, path[j].id).value, key) <==> key in path[|path| - 1].node.keys
    decreases |path| - j
  {
    if j == |path| - 1 {
      PathBottom(T, t, key, path);
      var v := path[j];
      LeafLevel(T, t.cfg, v.id, v.node, v.lo, v.hi, 0, j == 0);
      LeafHasKey(v.node, key);
    } else {
      PathHasKey(T, t, key, path, j + 1);
      var h := Height(T, t.root) - (j + 1);
      PathParent(T, t, key, path, j + 1, h);
      var p, q := path[j], path[j + 1];
      ParentChild(T, T, t.cfg, key, p, q, h, j == 0);
      var c := ChildIndex(p.node, key);
      ChildrenAroundKey(T, t.cfg, p.node.keys, p.node.pageIDs, p.hi, h, |T|, c, key);
      HasKeyAround(EnumerateChildren(T, p.node.pageIDs[..c], |T|).value, Enumerate(T, q.id).value,
                   EnumerateChildren(T, p.node.pageIDs[c + 1..], |T|).value, key);
    }
  }

  /** Keys in [lo, hi) are in particular below hi. */
  lemma KeysInRangeNone(keys: seq<Key>, lo: Option<Key>, hi: Option<Key>)
    requires KeysInRange(keys, lo, hi)
    ensures KeysInRange(keys, None, hi)
  {
  }

  /** A split child's separator lies above the child's own lower bound s. */
  lemma SplitAbove(cfg: Config, T: Table, r: Rewrite, s: Key, hi: Option<Key>, h: nat)
    requires r.Split? && RewriteWF(T, cfg, r, Some(s), hi, h, false)
    ensures Less(s, r.sep) && BelowHi(r.sep, hi)
  {
    if s != r.leftMin {
      LessTransitive(s, r.leftMin, r.sep);
    }
  }

  // ---------------------------------------------------------------------
  // insertValue:forKey:
  // ---------------------------------------------------------------------

  /**
    Whether inserting key overflows every node on its walk down from id: a
    leaf overflows when it is full and the key is new to it, an internal
    node when it is full and the child the key goes to overflows.
  */
  predicate InsertSplits(T: Table, cfg: Config, id: nat, key: Key)
    decreases id
  {
    && id < |T| && T[id].Ok?
    && match T[id].value
       case Leaf(_, _, _, _, keys, _) => |keys| == cfg.maxLeafKeys && key !in keys
       case Internal(_, _, _, _, keys, ids) =>
         && |keys| == cfg.maxInternalKeys && |keys| > 0 && |ids| == |keys|
         && ids[FloorIndex(keys, key)] < id && InsertSplits(T, cfg, ids[FloorIndex(keys, key)], key)
  }

  /** An internal node on the walk overflows exactly when it is full and the child taken overflows. */
  lemma InsertSplitsStep(T: Table, cfg: Config, key: Key, p: Visit, q: Visit, h: nat, root: bool)
    requires AtLevel(T, cfg, key, p, h + 1, root) && StepDown(p, q, key)
    ensures InsertSplits(T, cfg, p.id, key) <==>
            |p.node.keys| == cfg.maxInternalKeys && InsertSplits(T, cfg, q.id, key)
  {
    StepDownLevel(T, cfg, key, p, h + 1, root);
  }

  /** A leaf holds a pair for key exactly when key is among its keys. */
  lemma LeafHasKey(n: Node, key: Key)
    requires Shaped(n) && n.Leaf?
    ensures HasKey(LeafEntries(n), key) <==> key in n.keys
  {
    var ps := LeafEntries(n);
    if key in n.keys {
      var i :| 0 <= i < |n.keys| && n.keys[i] == key;
      assert ps[i].0 == key;
    }
  }

  /** The leaf for key rewritten with the key inserted (or its value replaced): one leaf or two. */
  method InsertLeaf(ctx: UpdateContext, cfg: Config, ghost A0: Arena, key: Key, value: Value, v: Visit, root: bool, now: nat)
    returns (r: Rewrite)
    requires ctx.Valid() && ValidConfig(cfg) && now < U64_LIMIT && A0 <= ctx.View()
    requires |key| == cfg.keySize && |value| == cfg.valSize
    requires AtLevel(Decoded(A0), cfg, key, v, 0, root) && v.node.Leaf?
    modifies ctx
    ensures ctx.Valid() && unchanged(ctx.aof)
    ensures old(ctx.View()) <= ctx.View() && |ctx.View()| <= old(|ctx.View()|) + 2
    ensures MembersBelow(r, |ctx.View()|) && MembersNew(r, old(|ctx.View()|))
    ensures RewriteWF(Decoded(ctx.View()), cfg, r, MinLo(v.lo, key), v.hi, 0, root)
    ensures r.Split? <==> InsertSplits(Decoded(A0), cfg, v.id, key)
    ensures Enumerate(Decoded(A0), v.id).Ok?
    ensures RewriteContents(Decoded(ctx.View()), r, |ctx.View()|) ==
            Ok(InsertSorted(Enumerate(Decoded(A0), v.id).value, key, value))
  {
    LeafLevel(Decoded(A0), cfg, v.id, v.node, v.lo, v.hi, 0, root);
    LeafInsertFacts(v.node, cfg, v.lo, v.hi, key, value);
    LeafEntriesSorted(v.node);
    InsertSortedLength(LeafEntries(v.node), key, value);
    LeafHasKey(v.node, key);
    r := WriteLeaves(ctx, cfg, InsertSorted(LeafEntries(v.node), key, value), MinLo(v.lo, key), v.hi, root, now);
  }

  /**
    One level up after an insert: the parent visit p, whose child q was
    rewritten to r, is rewritten around it.
  */
  method InsertStep(ctx: UpdateContext, cfg: Config, ghost A0: Arena, key: Key, value: Value,
                    p: Visit, ghost q: Visit, h: nat, root: bool, r: Rewrite, now: nat)
    returns (r2: Rewrite)
    requires ctx.Valid() && ValidConfig(cfg) && now < U64_LIMIT
    requires A0 <= ctx.View() && |ctx.View()| + 2 <= U64_LIMIT && |key| == cfg.keySize
    requires AtLevel(Decoded(A0), cfg, key, p, h + 1, root) && StepDown(p, q, key)
    requires MembersBelow(r, |ctx.View()|)
    requires RewriteWF(Decoded(ctx.View()), cfg, r, MinLo(q.lo, key), q.hi, h, false)
    requires Enumerate(Decoded(A0), q.id).Ok?
    requires RewriteContents(Decoded(ctx.View()), r, |ctx.View()|) ==
             Ok(InsertSorted(Enumerate(Decoded(A0), q.id).value, key, value))
    modifies ctx
    ensures ctx.Valid() && unchanged(ctx.aof)
    ensures old(ctx.View()) <= ctx.View() && |ctx.View()| <= old(|ctx.View()|) + 2
    ensures MembersBelow(r2, |ctx.View()|) && MembersNew(r2, old(|ctx.View()|))
    ensures RewriteWF(Decoded(ctx.View()), cfg, r2, MinLo(p.lo, key), p.hi, h + 1, root)
    ensures r2.Split? <==> r.Split? && |p.node.keys| == cfg.maxInternalKeys
    ensures Enumerate(Decoded(A0), p.id).Ok?
    ensures RewriteContents(Decoded(ctx.View()), r2, |ctx.View()|) ==
            Ok(InsertSorted(Enumerate(Decoded(A0), p.id).value, key, value))
  {
    ghost var V := ctx.View();
    var c := ChildIndex(p.node, key);
    var s := ChildKey(p.node.keys, c, key);
    DecodedPrefix(A0, V);
    InsertStepFacts(Decoded(A0), Decoded(V), cfg, key, value, p, q, h, root, r);
    r2 := RewriteParent(ctx, cfg, p.node.keys, p.node.pageIDs, c, s, r, MinLo(p.lo, key), p.hi, h, root, now);
  }

  /** Everything one insert step up the path needs, in table terms. */
  lemma InsertStepFacts(T0: Table, TV: Table, cfg: Config, key: Key, value: Value, p: Visit, q: Visit,
                        h: nat, root: bool, r: Rewrite)
    requires T0 <= TV && ValidConfig(cfg) && |key| == cfg.keySize
    requires AtLevel(T0, cfg, key, p, h + 1, root) && StepDown(p, q, key)
    requires MembersBelow(r, |TV|) && RewriteWF(TV, cfg, r, MinLo(q.lo, key), q.hi, h, false)
    requires Enumerate(T0, q.id).Ok?
    requires RewriteContents(TV, r, |TV|) == Ok(InsertSorted(Enumerate(T0, q.id).value, key, value))
    ensures var c := ChildIndex(p.node, key);
            ParentInput(TV, cfg, p.node.keys, p.node.pageIDs, c, ChildKey(p.node.keys, c, key), r,
                        MinLo(p.lo, key), p.hi, h)
    ensures Enumerate(T0, p.id).Ok?
    ensures EnumerateChildren(TV, NewIDs(p.node.pageIDs, ChildIndex(p.node, key), r), |TV|) ==
            Ok(InsertSorted(Enumerate(T0, p.id).value, key, value))
  {
    var c := ChildIndex(p.node, key);
    ParentChild(T0, TV, cfg, key, p, q, h, root);
    InsertKeys(TV, cfg, p.node.keys, c, key, r, p.lo, p.hi, h);
    ChildrenInsert(TV, cfg, p.node.keys, p.node.pageIDs, p.hi, h, |TV|, c, key, value, r, |TV|);
  }

  /** Children well formed below b stay so, with the same pairs, in a larger table under its size. */
  lemma ChildrenMove(T0: Table, TV: Table, cfg: Config, keys: seq<Key>, ids: seq<nat>, hi: Option<Key>, h: nat,
                     b: nat, b2: nat)
    requires T0 <= TV && b <= |T0| && b <= b2 <= |TV| && ChildrenWF(T0, cfg, keys, ids, hi, h, b)
    ensures ChildrenWF(TV, cfg, keys, ids, hi, h, b2)
    ensures EnumerateChildren(TV, ids, b2) == EnumerateChildren(T0, ids, b)
  {
    ChildrenWFExtend(T0, TV, cfg, keys, ids, hi, h, b);
    ChildrenWFBound(TV, cfg, keys, ids, hi, h, b, b2);
    EnumerateChildrenExtend(T0, TV, ids, b);
    ChildrenBound(TV, ids, b, b2);
  }

  /** The keys of a parent after an insert below child c: ascending, sized and in the lowered range. */
  lemma InsertKeys(T: Table, cfg: Config, keys: seq<Key>, c: nat, key: Key, r: Rewrite,
                   lo: Option<Key>, hi: Option<Key>, h: nat)
    requires |keys| >= 1 && StrictlyAscending(keys) && KeysInRange(keys, lo, hi) && c == FloorIndex(keys, key)
    requires |key| == cfg.keySize && forall i | 0 <= i < |keys| :: |keys[i]| == cfg.keySize
    requires RewriteWF(T, cfg, r, Some(ChildKey(keys, c, key)), ChildHi(keys, c, hi), h, false)
    ensures var s := ChildKey(keys, c, key);
            && (c == 0 || s == keys[c]) && |s| == cfg.keySize
            && StrictlyAscending(NewKeys(keys, c, s, r))
            && KeysInRange(NewKeys(keys, c, s, r), MinLo(lo, key), hi)
  {
    ChildKeyFacts(keys, c, key);
    var s := ChildKey(keys, c, key);
    if r.Split? {
      SplitAbove(cfg, T, r, s, ChildHi(keys, c, hi), h);
    }
    NewKeysAscending(keys, c, key, r);
    NewKeysInRange(keys, c, key, r, lo, hi);
  }

  /** The parent's children and the child taken, seen from a later table. */
  lemma ParentChild(T0: Table, TV: Table, cfg: Config, key: Key, p: Visit, q: Visit, h: nat, root: bool)
    requires T0 <= TV && AtLevel(T0, cfg, key, p, h + 1, root) && StepDown(p, q, key)
    ensures |p.node.keys| >= 1 && ValidNode(p.node, cfg) && KeysInRange(p.node.keys, p.lo, p.hi)
    ensures KeysInRange(p.node.keys, None, p.hi)
    ensures ChildrenWF(TV, cfg, p.node.keys, p.node.pageIDs, p.hi, h, |TV|)
    ensures EnumerateChildren(TV, p.node.pageIDs, |TV|) == Enumerate(T0, p.id)
    ensures Enumerate(TV, q.id) == Enumerate(T0, q.id)
  {
    var n, c := p.node, ChildIndex(p.node, key);
    InternalLevel(T0, cfg, p.id, n, p.lo, p.hi, h + 1, root);
    ChildrenMove(T0, TV, cfg, n.keys, n.pageIDs, p.hi, h, p.id, |TV|);
    assert n.pageIDs[c] < p.id;
    EnumerateExtend(T0, TV, q.id);
    KeysInRangeNone(n.keys, p.lo, p.hi);
  }

  // ---------------------------------------------------------------------
  // The root
  // ---------------------------------------------------------------------

  /** The two halves of a split root are the children of a well-formed new root above them. */
  lemma RootChildren(T: Table, cfg: Config, r: Rewrite, h: nat, b: nat)
    requires r.Split? && MembersBelow(r, b) && RewriteWF(T, cfg, r, None, None, h, true)
    ensures ChildrenWF(T, cfg, [r.leftMin, r.sep], [r.left, r.right], None, h, b)
    ensures StrictlyAscending([r.leftMin, r.sep]) && KeysInRange([r.leftMin, r.sep], None, None)
    ensures EnumerateChildren(T, [r.left, r.right], b) == RewriteContents(T, r, b)
  {
    assert Members(r)[0] == r.left && Members(r)[1] == r.right;
  }

  /**
    The top of the rewritten path becomes the new tree: a replaced root is
    the new root as it is, and a split root gets a new internal root over the
    two halves, one level higher.
  */
  method FinishRoot(ctx: UpdateContext, cfg: Config, r: Rewrite, h: nat, now: nat) returns (t2: Tree)
    requires ctx.Valid() && ValidConfig(cfg) && now < U64_LIMIT && |ctx.View()| < U64_LIMIT
    requires MembersBelow(r, |ctx.View()|) && RewriteWF(Decoded(ctx.View()), cfg, r, None, None, h, true)
    modifies ctx
    ensures ctx.Valid() && unchanged(ctx.aof)
    ensures old(ctx.View()) <= ctx.View() && |ctx.View()| <= old(|ctx.View()|) + 1
    ensures t2.cfg == cfg && ValidTree(Decoded(ctx.View()), t2)
    ensures Height(Decoded(ctx.View()), t2.root) == if r.Split? then h + 1 else h
    ensures t2.root == if r.Split? then old(|ctx.View()|) else r.id
    ensures r.Split? ==>
              Decoded(ctx.View())[t2.root] ==
                Ok(Internal(FlagsFor(true), now, cfg.keySize, cfg.valSize, [r.leftMin, r.sep], [r.left, r.right]))
    ensures r.Split? ==> TwoChildren(Decoded(ctx.View()), t2.root, h)
    ensures Contents(Decoded(ctx.View()), t2) == RewriteContents(Decoded(old(ctx.View())), r, old(|ctx.View()|))
  {
    ghost var A := ctx.View();
    if r.Replaced? {
      assert Members(r)[0] == r.id;
      SingleChild(Decoded(A), r.id, |A|);
      t2 := Tree(cfg, r.id);
      WFHeight(Decoded(A), cfg, r.id, None, None, h, true);
    } else {
      RootChildren(Decoded(A), cfg, r, h, |A|);
      var id := WriteInternal(ctx, cfg, A, [r.leftMin, r.sep], [r.left, r.right], None, None, h, true, now);
      t2 := Tree(cfg, id);
      WFHeight(Decoded(ctx.View()), cfg, id, None, None, h + 1, true);
      WFTwoChildren(Decoded(ctx.View()), cfg, id, h);
    }
  }

  /** The node at id is internal over exactly two children, each a leaf exactly when h is 0. */
  ghost predicate TwoChildren(T: Table, id: nat, h: nat)
  {
    && id < |T| && T[id].Ok? && T[id].value.Internal? && |T[id].value.pageIDs| == 2
    && forall j | 0 <= j < 2 ::
         var c := T[id].value.pageIDs[j]; c < |T| && T[c].Ok? && (T[c].value.Leaf? <==> h == 0)
  }

  /** A well-formed internal root of height h + 1 over two children has them at height h. */
  lemma WFTwoChildren(T: Table, cfg: Config, id: nat, h: nat)
    requires WF(T, cfg, id, None, None, h + 1, true) && T[id].value.Internal? && |T[id].value.pageIDs| == 2
    ensures TwoChildren(T, id, h)
  {
    var n := T[id].value;
    InternalLevel(T, cfg, id, n, None, None, h + 1, true);
    forall j | 0 <= j < 2 ensures n.pageIDs[j] < |T| && T[n.pageIDs[j]].Ok? && (T[n.pageIDs[j]].value.Leaf? <==> h == 0) {
      assert WF(T, cfg, n.pageIDs[j], Some(n.keys[j]), ChildHi(n.keys, j, None), h, false);
      assert NodeWF(T, cfg, T[n.pageIDs[j]].value, n.pageIDs[j], Some(n.keys[j]), ChildHi(n.keys, j, None), h, false);
    }
  }

  // ---------------------------------------------------------------------
  // insertValue:forKey:
  // ---------------------------------------------------------------------

  /** The pages one write may append to a tree of height h: two per level and a new root. */
  function WriteBound(h: nat): (n: nat)
    ensures n > 2 * h
  {
    2 * h + 3
  }

  /**
    insertValue:forKey: the tree over the transaction's view with key mapped
    to value, added in order or replacing the old value. Only the pages on
    the path from the root to the key's leaf are written anew, all of them
    after the pages already there, so the receiver keeps its contents; the
    tree grows one level exactly when its root splits.
  */
  method Insert(ctx: UpdateContext, t: Tree, key: Key, value: Value, now: nat) returns (t2: Tree)
    requires ctx.Valid() && now < U64_LIMIT && ValidTree(Decoded(ctx.View()), t)
    requires |key| == t.cfg.keySize && |value| == t.cfg.valSize
    requires |ctx.View()| + WriteBound(Height(Decoded(ctx.View()), t.root)) <= U64_LIMIT
    modifies ctx
    ensures ctx.Valid() && unchanged(ctx.aof)
    ensures old(ctx.View()) <= ctx.View()
    ensures |ctx.View()| <= old(|ctx.View()| + WriteBound(Height(Decoded(ctx.View()), t.root)))
    ensures t2.cfg == t.cfg && t2.root >= old(|ctx.View()|)
    ensures ValidTree(Decoded(ctx.View()), t2) && ValidTree(Decoded(ctx.View()), t)
    ensures Contents(Decoded(ctx.View()), t) == old(Contents(Decoded(ctx.View()), t))
    ensures old(Contents(Decoded(ctx.View()), t)).Ok?
    ensures Contents(Decoded(ctx.View()), t2) == Ok(InsertSorted(old(Contents(Decoded(ctx.View()), t)).value, key, value))
    ensures var H := old(Height(Decoded(ctx.View()), t.root));
            Height(Decoded(ctx.View()), t2.root) ==
            if old(InsertSplits(Decoded(ctx.View()), t.cfg, t.root, key)) then H + 1 else H
    ensures old(InsertSplits(Decoded(ctx.View()), t.cfg, t.root, key)) ==>
            TwoChildren(Decoded(ctx.View()), t2.root, old(Height(Decoded(ctx.View()), t.root)))
  {
    ghost var A0 := ctx.View();
    var path := Descend(ctx, A0, t, key);
    var r := InsertPath(ctx, t.cfg, A0, t, key, value, path, now);
    InsertUpTop(A0, ctx.View(), t.cfg, t, key, value, path, r);
    t2 := FinishRoot(ctx, t.cfg, r, |path| - 1, now);
    DecodedPrefix(A0, ctx.View());
    TreeExtend(Decoded(A0), Decoded(ctx.View()), t);
  }

  /**
    A tree that is a single leaf overflows on insert exactly when it holds as
    many pairs as a leaf can and the key is new, so that Insert then returns
    a root over two leaves one level higher.
  */
  lemma RootLeafSplits(T: Table, t: Tree, key: Key)
    requires ValidTree(T, t) && Height(T, t.root) == 0
    ensures Contents(T, t).Ok?
    ensures InsertSplits(T, t.cfg, t.root, key) <==>
            |Contents(T, t).value| == t.cfg.maxLeafKeys && !HasKey(Contents(T, t).value, key)
  {
    var n := T[t.root].value;
    assert NodeWF(T, t.cfg, n, t.root, None, None, 0, true);
    LeafLevel(T, t.cfg, t.root, n, None, None, 0, true);
    LeafHasKey(n, key);
  }

  /**
    The state of the walk back up after an insert, with V the transaction's
    view: the rewrite r stands for the subtree at path[i], of height h, with
    the key inserted, on new pages only.
  */
  ghost predicate InsertUpInv(A0: Arena, V: Arena, cfg: Config, key: Key, value: Value, path: seq<Visit>,
                              r: Rewrite, i: nat, h: nat)
  {
    && i < |path| && h + i == |path| - 1
    && A0 <= V && |V| <= |A0| + 2 * (h + 1)
    && MembersBelow(r, |V|) && MembersNew(r, |A0|)
    && RewriteWF(Decoded(V), cfg, r, MinLo(path[i].lo, key), path[i].hi, h, i == 0)
    && (r.Split? <==> InsertSplits(Decoded(A0), cfg, path[i].id, key))
    && Enumerate(Decoded(A0), path[i].id).Ok?
    && RewriteContents(Decoded(V), r, |V|) == Ok(InsertSorted(Enumerate(Decoded(A0), path[i].id).value, key, value))
  }

  /** At the top of the walk, the rewrite stands for the whole tree with the key inserted. */
  lemma InsertUpTop(A0: Arena, V: Arena, cfg: Config, t: Tree, key: Key, value: Value, path: seq<Visit>, r: Rewrite)
    requires PathWF(Decoded(A0), t, key, path) && |path| == Height(Decoded(A0), t.root) + 1
    requires InsertUpInv(A0, V, cfg, key, value, path, r, 0, |path| - 1)
    ensures A0 <= V && |V| <= |A0| + 2 * |path|
    ensures MembersBelow(r, |V|) && MembersNew(r, |A0|)
    ensures RewriteWF(Decoded(V), cfg, r, None, None, |path| - 1, true)
    ensures r.Split? <==> InsertSplits(Decoded(A0), cfg, t.root, key)
    ensures Enumerate(Decoded(A0), t.root).Ok?
    ensures RewriteContents(Decoded(V), r, |V|) == Ok(InsertSorted(Enumerate(Decoded(A0), t.root).value, key, value))
  {
  }

  /** One level of the walk back up: the parent of path[i] is rewritten around r. */
  method InsertUp(ctx: UpdateContext, cfg: Config, ghost A0: Arena, ghost t: Tree, key: Key, value: Value,
                  path: seq<Visit>, i: nat, h: nat, r: Rewrite, now: nat)
    returns (r2: Rewrite, i2: nat, h2: nat)
    requires ctx.Valid() && ValidConfig(cfg) && now < U64_LIMIT && t.cfg == cfg
    requires PathWF(Decoded(A0), t, key, path) && |path| == Height(Decoded(A0), t.root) + 1
    requires |key| == cfg.keySize && |A0| + 2 * |path| + 1 <= U64_LIMIT
    requires 0 < i && InsertUpInv(A0, ctx.View(), cfg, key, value, path, r, i, h)
    modifies ctx
    ensures ctx.Valid() && unchanged(ctx.aof)
    ensures i2 == i - 1 && h2 == h + 1
    ensures InsertUpInv(A0, ctx.View(), cfg, key, value, path, r2, i2, h2)
  {
    i2, h2 := i - 1, h + 1;
    PathParent(Decoded(A0), t, key, path, i, h);
    InsertSplitsStep(Decoded(A0), cfg, key, path[i2], path[i], h, i2 == 0);
    r2 := InsertStep(ctx, cfg, A0, key, value, path[i2], path[i], h, i2 == 0, r, now);
  }

  /** The first step of the walk back up: the leaf at the end of the path rewritten with the pair. */
  method InsertBottom(ctx: UpdateContext, cfg: Config, ghost A0: Arena, ghost t: Tree, key: Key, value: Value,
                      path: seq<Visit>, now: nat)
    returns (r: Rewrite)
    requires ctx.Valid() && ValidConfig(cfg) && now < U64_LIMIT && A0 == ctx.View() && t.cfg == cfg
    requires PathWF(Decoded(A0), t, key, path) && |path| == Height(Decoded(A0), t.root) + 1
    requires path[|path| - 1].node.Leaf?
    requires |key| == cfg.keySize && |value| == cfg.valSize
    modifies ctx
    ensures ctx.Valid() && unchanged(ctx.aof)
    ensures InsertUpInv(A0, ctx.View(), cfg, key, value, path, r, |path| - 1, 0)
  {
    PathBottom(Decoded(A0), t, key, path);
    r := InsertLeaf(ctx, cfg, A0, key, value, path[|path| - 1], |path| - 1 == 0, now);
  }

  /**
    The leaf at the end of the walk rewritten with the key inserted, then
    every node of the walk bottom-up around its rewritten child, up to a
    rewrite of the root.
  */
  method InsertPath(ctx: UpdateContext, cfg: Config, ghost A0: Arena, ghost t: Tree, key: Key, value: Value,
                    path: seq<Visit>, now: nat)
    returns (r: Rewrite)
    requires ctx.Valid() && ValidConfig(cfg) && now < U64_LIMIT && A0 == ctx.View() && t.cfg == cfg
    requires PathWF(Decoded(A0), t, key, path) && |path| == Height(Decoded(A0), t.root) + 1
    requires path[|path| - 1].node.Leaf?
    requires |key| == cfg.keySize && |value| == cfg.valSize && |A0| + 2 * |path| + 1 <= U64_LIMIT
    modifies ctx
    ensures ctx.Valid() && unchanged(ctx.aof)
    ensures InsertUpInv(A0, ctx.View(), cfg, key, value, path, r, 0, |path| - 1)
  {
    r := InsertBottom(ctx, cfg, A0, t, key, value, path, now);
    r := InsertClimb(ctx, cfg, A0, t, key, value, path, r, now);
  }

  /** The walk back up from the rewritten leaf: each node of the walk, bottom-up, around its rewritten child. */
  method InsertClimb(ctx: UpdateContext, cfg: Config, ghost A0: Arena, ghost t: Tree, key: Key, value: Value,
                     path: seq<Visit>, r0: Rewrite, now: nat)
    returns (r: Rewrite)
    requires ctx.Valid() && ValidConfig(cfg) && now < U64_LIMIT && t.cfg == cfg
    requires PathWF(Decoded(A0), t, key, path) && |path| == Height(Decoded(A0), t.root) + 1
    requires |key| == cfg.keySize && |A0| + 2 * |path| + 1 <= U64_LIMIT
    requires InsertUpInv(A0, ctx.View(), cfg, key, value, path, r0, |path| - 1, 0)
    modifies ctx
    ensures ctx.Valid() && unchanged(ctx.aof)
    ensures InsertUpInv(A0, ctx.View(), cfg, key, value, path, r, 0, |path| - 1)
  {
    var i: nat, h: nat := |path| - 1, 0;
    r := r0;
    while i > 0
      invariant ctx.Valid() && unchanged(ctx.aof)
      invariant InsertUpInv(A0, ctx.View(), cfg, key, value, path, r, i, h)
    {
      r, i, h := InsertUp(ctx, cfg, A0, t, key, value, path, i, h, r, now);
    }
  }

  // ---------------------------------------------------------------------
  // removeValueForKey:
  // ---------------------------------------------------------------------

  /** The leaf for key written anew without it: always one leaf, over the same range. */
  method RemoveLeaf(ctx: UpdateContext, cfg: Config, ghost A0: Arena, key: Key, v: Visit, root: bool, now: nat)
    returns (id: nat)
    requires ctx.Valid() && ValidConfig(cfg) && now < U64_LIMIT && A0 <= ctx.View()
    requires AtLevel(Decoded(A0), cfg, key, v, 0, root) && v.node.Leaf?
    modifies ctx
    ensures ctx.Valid() && unchanged(ctx.aof)
    ensures old(ctx.View()) <= ctx.View() && |ctx.View()| == old(|ctx.View()|) + 1 && id == old(|ctx.View()|)
    ensures WF(Decoded(ctx.View()), cfg, id, v.lo, v.hi, 0, root)
    ensures Enumerate(Decoded(A0), v.id).Ok?
    ensures Enumerate(Decoded(ctx.View()), id) == Ok(RemoveSorted(Enumerate(Decoded(A0), v.id).value, key))
  {
    LeafLevel(Decoded(A0), cfg, v.id, v.node, v.lo, v.hi, 0, root);
    LeafRemoveFacts(v.node, cfg, v.lo, v.hi, key);
    id := WriteLeaf(ctx, cfg, RemoveSorted(LeafEntries(v.node), key), v.lo, v.hi, root, now);
  }

  /**
    One level up after a remove: the parent visit p, whose child q was
    written anew as the page id, is written anew with id in q's place and
    its keys as they were. A remove never splits a node, so this is one page.
  */
  method RemoveStep(ctx: UpdateContext, cfg: Config, ghost A0: Arena, key: Key,
                    p: Visit, ghost q: Visit, h: nat, root: bool, id: nat, now: nat)
    returns (id2: nat)
    requires ctx.Valid() && ValidConfig(cfg) && now < U64_LIMIT
    requires A0 <= ctx.View() && |ctx.View()| < U64_LIMIT
    requires AtLevel(Decoded(A0), cfg, key, p, h + 1, root) && StepDown(p, q, key)
    requires WF(Decoded(ctx.View()), cfg, id, q.lo, q.hi, h, false)
    requires Enumerate(Decoded(A0), q.id).Ok?
    requires Enumerate(Decoded(ctx.View()), id) == Ok(RemoveSorted(Enumerate(Decoded(A0), q.id).value, key))
    modifies ctx
    ensures ctx.Valid() && unchanged(ctx.aof)
    ensures old(ctx.View()) <= ctx.View() && |ctx.View()| == old(|ctx.View()|) + 1 && id2 == old(|ctx.View()|)
    ensures WF(Decoded(ctx.View()), cfg, id2, p.lo, p.hi, h + 1, root)
    ensures Enumerate(Decoded(A0), p.id).Ok?
    ensures Enumerate(Decoded(ctx.View()), id2) == Ok(RemoveSorted(Enumerate(Decoded(A0), p.id).value, key))
  {
    ghost var V := ctx.View();
    var c := ChildIndex(p.node, key);
    DecodedPrefix(A0, V);
    RemoveStepFacts(Decoded(A0), Decoded(V), cfg, key, p, q, h, root, id);
    id2 := WriteInternal(ctx, cfg, V, p.node.keys, p.node.pageIDs[c := id], p.lo, p.hi, h, root, now);
  }

  /** Everything one remove step up the path needs, in table terms. */
  lemma RemoveStepFacts(T0: Table, TV: Table, cfg: Config, key: Key, p: Visit, q: Visit,
                        h: nat, root: bool, id: nat)
    requires T0 <= TV && ValidConfig(cfg)
    requires AtLevel(T0, cfg, key, p, h + 1, root) && StepDown(p, q, key)
    requires WF(TV, cfg, id, q.lo, q.hi, h, false)
    requires Enumerate(T0, q.id).Ok?
    requires Enumerate(TV, id) == Ok(RemoveSorted(Enumerate(T0, q.id).value, key))
    ensures var n, c := p.node, ChildIndex(p.node, key);
            && ChildrenWF(TV, cfg, n.keys, n.pageIDs[c := id], p.hi, h, |TV|)
            && 1 <= |n.keys| <= cfg.maxInternalKeys && StrictlyAscending(n.keys)
            && KeysInRange(n.keys, p.lo, p.hi) && (forall i | 0 <= i < |n.keys| :: |n.keys[i]| == cfg.keySize)
    ensures Enumerate(T0, p.id).Ok?
    ensures EnumerateChildren(TV, p.node.pageIDs[ChildIndex(p.node, key) := id], |TV|) ==
            Ok(RemoveSorted(Enumerate(T0, p.id).value, key))
  {
    var n, c := p.node, ChildIndex(p.node, key);
    var r := Replaced(id);
    ParentChild(T0, TV, cfg, key, p, q, h, root);
    ChildrenWFReplace(TV, cfg, n.keys, n.pageIDs, p.hi, h, |TV|, c, n.keys[c], id);
    assert n.keys[c := n.keys[c]] == n.keys;
    SingleChild(TV, id, |TV|);
    ChildrenRemove(TV, cfg, n.keys, n.pageIDs, p.hi, h, |TV|, c, key, r, |TV|);
    NewReplaced(n.keys, n.pageIDs, c, n.keys[c], r);
  }

  /**
    removeValueForKey: the tree over the transaction's view without key.
    When the tree does not hold the key nothing is written and the receiver
    is the answer. Otherwise exactly the path to the key's leaf is written
    anew, one page per level after the pages already there, so the receiver
    keeps its contents. Nodes are not merged, so the height stays.
  */
  method Remove(ctx: UpdateContext, t: Tree, key: Key, now: nat) returns (t2: Tree)
    requires ctx.Valid() && now < U64_LIMIT && ValidTree(Decoded(ctx.View()), t)
    requires |ctx.View()| + Height(Decoded(ctx.View()), t.root) + 1 <= U64_LIMIT
    modifies ctx
    ensures ctx.Valid() && unchanged(ctx.aof)
    ensures old(ctx.View()) <= ctx.View()
    ensures t2.cfg == t.cfg
    ensures ValidTree(Decoded(ctx.View()), t2) && ValidTree(Decoded(ctx.View()), t)
    ensures Contents(Decoded(ctx.View()), t) == old(Contents(Decoded(ctx.View()), t))
    ensures old(Contents(Decoded(ctx.View()), t)).Ok?
    ensures Contents(Decoded(ctx.View()), t2) == Ok(RemoveSorted(old(Contents(Decoded(ctx.View()), t)).value, key))
    ensures Height(Decoded(ctx.View()), t2.root) == old(Height(Decoded(ctx.View()), t.root))
    ensures !HasKey(old(Contents(Decoded(ctx.View()), t)).value, key) ==> t2 == t && ctx.View() == old(ctx.View())
    ensures HasKey(old(Contents(Decoded(ctx.View()), t)).value, key) ==>
              && |ctx.View()| == old(|ctx.View()| + Height(Decoded(ctx.View()), t.root) + 1)
              && t2.root == |ctx.View()| - 1
  {
    ghost var A0 := ctx.View();
    var path := Descend(ctx, A0, t, key);
    PathHasKey(Decoded(A0), t, key, path, 0);
    if key !in path[|path| - 1].node.keys {
      RemoveAbsent(Enumerate(Decoded(A0), t.root).value, key);
      t2 := t;
      return;
    }
    var id := RemovePath(ctx, t.cfg, A0, t, key, path, now);
    t2 := Tree(t.cfg, id);
    WFHeight(Decoded(ctx.View()), t.cfg, id, None, None, |path| - 1, true);
    DecodedPrefix(A0, ctx.View());
    TreeExtend(Decoded(A0), Decoded(ctx.View()), t);
  }

  /**
    The state of the walk back up after a remove, with V the transaction's
    view: the new page id stands for the subtree at path[i], of height h,
    without the key, and is the last page of V.
  */
  ghost predicate RemoveUpInv(A0: Arena, V: Arena, cfg: Config, key: Key, path: seq<Visit>, id: nat, i: nat, h: nat)
  {
    && i < |path| && h + i == |path| - 1
    && A0 <= V && |V| == |A0| + h + 1 && id == |V| - 1
    && WF(Decoded(V), cfg, id, path[i].lo, path[i].hi, h, i == 0)
    && Enumerate(Decoded(A0), path[i].id).Ok?
    && Enumerate(Decoded(V), id) == Ok(RemoveSorted(Enumerate(Decoded(A0), path[i].id).value, key))
  }

  /** The first step of the walk back up: the leaf at the end of the path written anew without the key. */
  method RemoveBottom(ctx: UpdateContext, cfg: Config, ghost A0: Arena, ghost t: Tree, key: Key,
                      path: seq<Visit>, now: nat)
    returns (id: nat)
    requires ctx.Valid() && ValidConfig(cfg) && now < U64_LIMIT && A0 == ctx.View() && t.cfg == cfg
    requires PathWF(Decoded(A0), t, key, path) && |path| == Height(Decoded(A0), t.root) + 1
    requires path[|path| - 1].node.Leaf?
    modifies ctx
    ensures ctx.Valid() && unchanged(ctx.aof)
    ensures RemoveUpInv(A0, ctx.View(), cfg, key, path, id, |path| - 1, 0)
  {
    PathBottom(Decoded(A0), t, key, path);
    id := RemoveLeaf(ctx, cfg, A0, key, path[|path| - 1], |path| - 1 == 0, now);
  }

  /** One level of the walk back up: the parent of path[i] is written anew over the page id. */
  method RemoveUp(ctx: UpdateContext, cfg: Config, ghost A0: Arena, ghost t: Tree, key: Key,
                  path: seq<Visit>, i: nat, h: nat, id: nat, now: nat)
    returns (id2: nat, i2: nat, h2: nat)
    requires ctx.Valid() && ValidConfig(cfg) && now < U64_LIMIT && t.cfg == cfg
    requires PathWF(Decoded(A0), t, key, path) && |path| == Height(Decoded(A0), t.root) + 1
    requires |A0| + |path| <= U64_LIMIT
    requires 0 < i && RemoveUpInv(A0, ctx.View(), cfg, key, path, id, i, h)
    modifies ctx
    ensures ctx.Valid() && unchanged(ctx.aof)
    ensures i2 == i - 1 && h2 == h + 1
    ensures RemoveUpInv(A0, ctx.View(), cfg, key, path, id2, i2, h2)
  {
    i2, h2 := i - 1, h + 1;
    PathParent(Decoded(A0), t, key, path, i, h);
    id2 := RemoveStep(ctx, cfg, A0, key, path[i2], path[i], h, i2 == 0, id, now);
  }

  /** At the top of the walk, the last page written is a root holding the tree's pairs without the key. */
  lemma RemoveUpTop(A0: Arena, V: Arena, cfg: Config, t: Tree, key: Key, path: seq<Visit>, id: nat)
    requires PathWF(Decoded(A0), t, key, path) && |path| == Height(Decoded(A0), t.root) + 1
    requires RemoveUpInv(A0, V, cfg, key, path, id, 0, |path| - 1)
    ensures A0 <= V && |V| == |A0| + |path| && id == |V| - 1
    ensures WF(Decoded(V), cfg, id, None, None, |path| - 1, true)
    ensures Enumerate(Decoded(A0), t.root).Ok?
    ensures Enumerate(Decoded(V), id) == Ok(RemoveSorted(Enumerate(Decoded(A0), t.root).value, key))
  {
  }

  /**
    The leaf at the end of the walk written anew without the key, then every
    node of the walk bottom-up over its new child, up to a new root.
  */
  method RemovePath(ctx: UpdateContext, cfg: Config, ghost A0: Arena, ghost t: Tree, key: Key,
                    path: seq<Visit>, now: nat)
    returns (id: nat)
    requires ctx.Valid() && ValidConfig(cfg) && now < U64_LIMIT && A0 == ctx.View() && t.cfg == cfg
    requires PathWF(Decoded(A0), t, key, path) && |path| == Height(Decoded(A0), t.root) + 1
    requires path[|path| - 1].node.Leaf? && |A0| + |path| <= U64_LIMIT
    modifies ctx
    ensures ctx.Valid() && unchanged(ctx.aof)
    ensures A0 <= ctx.View() && |ctx.View()| == |A0| + |path| && id == |ctx.View()| - 1
    ensures WF(Decoded(ctx.View()), cfg, id, None, None, |path| - 1, true)
    ensures Enumerate(Decoded(A0), t.root).Ok?
    ensures Enumerate(Decoded(ctx.View()), id) == Ok(RemoveSorted(Enumerate(Decoded(A0), t.root).value, key))
  {
    id := RemoveBottom(ctx, cfg, A0, t, key, path, now);
    id := RemoveClimb(ctx, cfg, A0, t, key, path, id, now);
    RemoveUpTop(A0, ctx.View(), cfg, t, key, path, id);
  }

  /** The walk back up from the new leaf: each node of the walk, bottom-up, written anew over its new child. */
  method RemoveClimb(ctx: UpdateContext, cfg: Config, ghost A0: Arena, ghost t: Tree, key: Key,
                     path: seq<Visit>, id0: nat, now: nat)
    returns (id: nat)
    requires ctx.Valid() && ValidConfig(cfg) && now < U64_LIMIT && t.cfg == cfg
    requires PathWF(Decoded(A0), t, key, path) && |path| == Height(Decoded(A0), t.root) + 1
    requires |A0| + |path| <= U64_LIMIT
    requires RemoveUpInv(A0, ctx.View(), cfg, key, path, id0, |path| - 1, 0)
    modifies ctx
    ensures ctx.Valid() && unchanged(ctx.aof)
    ensures RemoveUpInv(A0, ctx.View(), cfg, key, path, id, 0, |path| - 1)
  {
    var i: nat, h: nat := |path| - 1, 0;
    id := id0;
    while i > 0
      invariant ctx.Valid() && unchanged(ctx.aof)
      invariant RemoveUpInv(A0, ctx.View(), cfg, key, path, id, i, h)
    {
      id, i, h := RemoveUp(ctx, cfg, A0, t, key, path, i, h, id, now);
    }
  }

  // ---------------------------------------------------------------------
  // initEmptyBTreeWithKeySize:valueSize:updateContext:
  // ---------------------------------------------------------------------

  /** A new tree of the given key and value sizes: one empty root leaf, written in the context. */
  method InitEmpty(ctx: UpdateContext, cfg: Config, now: nat) returns (t: Tree)
    requires ctx.Valid() && ValidConfig(cfg) && now < U64_LIMIT
    modifies ctx
    ensures ctx.Valid() && unchanged(ctx.aof)
    ensures old(ctx.View()) <= ctx.View() && |ctx.View()| == old(|ctx.View()|) + 1
    ensures t.cfg == cfg && t.root == old(|ctx.View()|)
    ensures ValidTree(Decoded(ctx.View()), t)
    ensures Contents(Decoded(ctx.View()), t) == Ok([])
    ensures Height(Decoded(ctx.View()), t.root) == 0
  {
    var id := WriteLeaf(ctx, cfg, [], None, None, true, now);
    t := Tree(cfg, id);
    WFHeight(Decoded(ctx.View()), cfg, id, None, None, 0, true);
  }
}

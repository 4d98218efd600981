/**
  A B+tree node (GTWAOFBTreeNode.h): one page of the store holding either
  an internal node (cookie "BPTI": keys and child page ids) or a leaf
  (cookie "BPTL": keys and values).

  Page layout of a node, all integers big-endian:

    bytes  0..4    cookie, "BPTI" or "BPTL"
    bytes  4..8    flags (bit 0: this node is the root)
    bytes  8..16   timestamp of the write (lastModified)
    bytes 16..24   keySize
    bytes 24..32   valSize
    bytes 32..40   count, the number of entries
    bytes 40..     count entries, each a key of keySize bytes followed by
                   a value of valSize bytes (leaf) or an 8-byte page id
                   (internal); zero bytes up to the end of the page

  An internal node has one key per child: key j is the lowest key that may
  occur under child j, so child j holds the keys from key j up to (not
  including) key j + 1.
*/
module BTreeNode {
  import opened Bytes
  import opened Results
  import opened Entries
  import opened AOF

  const INTERNAL_COOKIE: seq<byte> := [0x42, 0x50, 0x54, 0x49]  // "BPTI"
  const LEAF_COOKIE: seq<byte> := [0x42, 0x50, 0x54, 0x4C]      // "BPTL"

  const NODE_HEADER_SIZE: nat := 40
  const PAGE_ID_SIZE: nat := 8

  /** The root flag, bit 0 of the flags word. */
  const ROOT_FLAG: nat := 1

  /**
    The key and value widths of a tree and the capacities of its pages
    (maxLeafPageKeys, maxInternalPageKeys). Every full node must fit a page.
  */
  datatype Config = Config(keySize: nat, valSize: nat, maxLeafKeys: nat, maxInternalKeys: nat)

  predicate ValidConfig(c: Config)
  {
    && c.maxLeafKeys >= 2 && c.maxInternalKeys >= 2
    && 0 < c.keySize < U64_LIMIT && c.valSize < U64_LIMIT
    && NODE_HEADER_SIZE + c.maxLeafKeys * (c.keySize + c.valSize) <= AOF_PAGE_SIZE
    && NODE_HEADER_SIZE + c.maxInternalKeys * (c.keySize + PAGE_ID_SIZE) <= AOF_PAGE_SIZE
  }

  datatype Node =
    | Internal(flags: nat, timestamp: nat, keySize: nat, valSize: nat, keys: seq<Key>, pageIDs: seq<nat>)
    | Leaf(flags: nat, timestamp: nat, keySize: nat, valSize: nat, keys: seq<Key>, objects: seq<Value>)

  /** The flags word of a node written as the root or as a non-root node. */
  function FlagsFor(root: bool): (f: nat)
    ensures IsRoot(f) == root && f < U32_LIMIT
  {
    if root then ROOT_FLAG else 0
  }

  /** Whether a flags word marks the root. */
  predicate IsRoot(flags: nat)
  {
    flags % 2 == ROOT_FLAG
  }

  // ---------------------------------------------------------------------
  // The root option as declared
  // ---------------------------------------------------------------------

  /** Bitwise and, or on non-negative words. */
  function BitAnd(a: nat, b: nat): (r: nat)
    ensures r <= a && r <= b
  {
    if a == 0 || b == 0 then 0
    else 2 * BitAnd(a / 2, b / 2) + (if a % 2 == 1 && b % 2 == 1 then 1 else 0)
  }

  function BitOr(a: nat, b: nat): (r: nat)
    ensures r >= a && r >= b
  {
    if a == 0 then b
    else if b == 0 then a
    else 2 * BitOr(a / 2, b / 2) + (if a % 2 == 1 || b % 2 == 1 then 1 else 0)
  }

  /**
    GTWAOFBTreeRoot is the first, unassigned member of an NS_OPTIONS
    enumeration and therefore has the value 0.
  */
  const DECLARED_ROOT_FLAG: nat := 0

  /** Setting the declared option on a node about to become the root. */
  function FlagsAsDeclared(root: bool): (f: nat)
    ensures !root ==> f == 0
  {
    if root then BitOr(0, DECLARED_ROOT_FLAG) else 0
  }

  /** Testing a flags word for the declared option. */
  predicate IsRootAsDeclared(flags: nat)
  {
    BitAnd(flags, DECLARED_ROOT_FLAG) != 0
  }

  /** With the declared value no flags word, whatever its bits, tests as the root. */
  lemma RootAsDeclaredNeverSet(flags: nat)
    ensures !IsRootAsDeclared(flags)
    ensures FlagsAsDeclared(true) == FlagsAsDeclared(false)
  {
  }

  /** With the root as bit 0 the test is the bitwise one and tells root from non-root. */
  lemma {:induction false} RootFlagIsBitZero(flags: nat)
    ensures IsRoot(flags) <==> BitAnd(flags, ROOT_FLAG) != 0
    ensures IsRoot(BitOr(flags, ROOT_FLAG))
    ensures IsRoot(FlagsFor(true)) && !IsRoot(FlagsFor(false))
  {
    if flags > 0 {
      assert BitAnd(flags / 2, 0) == 0;
    }
  }

  /** What each entry stores after its key: a value or a page id. */
  function Width(n: Node): (w: nat)
    ensures n.Leaf? ==> w == n.valSize
    ensures n.Internal? ==> w == PAGE_ID_SIZE
  {
    if n.Leaf? then n.valSize else PAGE_ID_SIZE
  }

  /**
    The representation invariant every decoded node has: one child per key,
    fixed-width keys and values, and integers that fit their 8-byte fields.
  */
  predicate Shaped(n: Node)
  {
    && n.flags < U32_LIMIT && n.timestamp < U64_LIMIT && n.keySize < U64_LIMIT && n.valSize < U64_LIMIT && |n.keys| < U64_LIMIT
    && (forall i | 0 <= i < |n.keys| :: |n.keys[i]| == n.keySize)
    && (match n
        case Internal(_, _, _, _, keys, ids) =>
          |ids| == |keys| && forall i | 0 <= i < |ids| :: ids[i] < U64_LIMIT
        case Leaf(_, _, _, vs, keys, objs) =>
          |objs| == |keys| && forall i | 0 <= i < |objs| :: |objs[i]| == vs)
  }

  /** A node whose encoding fits a page. */
  predicate Encodable(n: Node)
  {
    Shaped(n) && NODE_HEADER_SIZE + |n.keys| * (n.keySize + Width(n)) <= AOF_PAGE_SIZE
  }

  /** A node as a tree with configuration cfg may hold it. */
  predicate ValidNode(n: Node, cfg: Config)
  {
    && Shaped(n)
    && n.keySize == cfg.keySize && n.valSize == cfg.valSize
    && |n.keys| <= (if n.Leaf? then cfg.maxLeafKeys else cfg.maxInternalKeys)
    && StrictlyAscending(n.keys)
  }

  // ---------------------------------------------------------------------
  // Page codec
  // ---------------------------------------------------------------------

  function EncodeEntries(keys: seq<Key>, vals: seq<seq<byte>>): (r: seq<byte>)
    requires |keys| == |vals|
  {
    if keys == [] then [] else keys[0] + vals[0] + EncodeEntries(keys[1..], vals[1..])
  }

  /** count entries of a key of ks bytes and a value of w bytes each. */
  function DecodeEntries(b: seq<byte>, count: nat, ks: nat, w: nat): (r: Result<(seq<Key>, seq<seq<byte>>)>)
    ensures r.Err? ==> r.error == CorruptPage
    ensures r.Ok? ==> |r.value.0| == count && |r.value.1| == count
    ensures r.Ok? ==> forall i | 0 <= i < count :: |r.value.0[i]| == ks && |r.value.1[i]| == w
  {
    if count == 0 then Ok(([], []))
    else if |b| < ks + w then Err(CorruptPage)
    else
      match DecodeEntries(b[ks + w..], count - 1, ks, w)
      case Err(e) => Err(e)
      case Ok(rest) => Ok(([b[..ks]] + rest.0, [b[ks..ks + w]] + rest.1))
  }

  function EncodeIDs(ids: seq<nat>): (r: seq<seq<byte>>)
    requires forall i | 0 <= i < |ids| :: ids[i] < U64_LIMIT
    ensures |r| == |ids| && forall i | 0 <= i < |r| :: r[i] == BigLongLongData(ids[i])
  {
    if ids == [] then [] else [BigLongLongData(ids[0])] + EncodeIDs(ids[1..])
  }

  function DecodeIDs(fields: seq<seq<byte>>): (r: seq<nat>)
    requires forall i | 0 <= i < |fields| :: |fields[i]| == PAGE_ID_SIZE
    ensures |r| == |fields| && forall i | 0 <= i < |r| :: r[i] == IntegerFromBigLongLong(fields[i])
  {
    if fields == [] then [] else [IntegerFromBigLongLong(fields[0])] + DecodeIDs(fields[1..])
  }

  lemma {:induction false} IDsRoundTrip(ids: seq<nat>)
    requires forall i | 0 <= i < |ids| :: ids[i] < U64_LIMIT
    ensures DecodeIDs(EncodeIDs(ids)) == ids
  {
    if ids != [] {
      IntegerRoundTrip(ids[0]);
      IDsRoundTrip(ids[1..]);
      assert EncodeIDs(ids)[1..] == EncodeIDs(ids[1..]);
    }
  }

  function ValueFields(n: Node): (r: seq<seq<byte>>)
    requires Shaped(n)
    ensures |r| == |n.keys| && forall i | 0 <= i < |r| :: |r[i]| == Width(n)
  {
    if n.Leaf? then n.objects else EncodeIDs(n.pageIDs)
  }

  function Zeros(n: nat): (r: seq<byte>)
    ensures |r| == n && forall i | 0 <= i < n :: r[i] == 0
  {
    if n == 0 then [] else [0] + Zeros(n - 1)
  }

  /** The flags word as 4 big-endian bytes. */
  function FlagBytes(f: nat): (r: seq<byte>)
    requires f < U32_LIMIT
    ensures |r| == 4 && DecodeBE(r) == f
  {
    Pow256Values();
    DecodeEncodeBE(f, 4);
    EncodeBE(f, 4)
  }

  function EncodeHeader(n: Node): (r: seq<byte>)
    requires Shaped(n)
    ensures |r| == NODE_HEADER_SIZE
    ensures r[..4] == (if n.Internal? then INTERNAL_COOKIE else LEAF_COOKIE)
    ensures r[4..8] == FlagBytes(n.flags)
    ensures r[8..16] == BigLongLongData(n.timestamp)
    ensures r[16..24] == BigLongLongData(n.keySize)
    ensures r[24..32] == BigLongLongData(n.valSize)
    ensures r[32..40] == BigLongLongData(|n.keys|)
  {
    Pow256Values();
    (if n.Internal? then INTERNAL_COOKIE else LEAF_COOKIE)
      + FlagBytes(n.flags)
      + BigLongLongData(n.timestamp)
      + BigLongLongData(n.keySize)
      + BigLongLongData(n.valSize)
      + BigLongLongData(|n.keys|)
  }

  /** The page a builder writes for a node. */
  function EncodeNode(n: Node): (r: seq<byte>)
    requires Encodable(n)
    ensures |r| == AOF_PAGE_SIZE
    ensures r[..4] == (if n.Internal? then INTERNAL_COOKIE else LEAF_COOKIE)
  {
    var entries := EncodeEntries(n.keys, ValueFields(n));
    EntriesLength(n.keys, ValueFields(n), n.keySize, Width(n));
    var body := EncodeHeader(n) + entries;
    body + Zeros(AOF_PAGE_SIZE - |body|)
  }

  /** Reads a node back from a page; anything but a well-formed node page is CorruptPage. */
  function DecodeNode(page: seq<byte>): (r: Result<Node>)
    ensures r.Err? ==> r.error == CorruptPage
    ensures r.Ok? ==> Shaped(r.value)
    ensures r.Ok? ==> |page| >= NODE_HEADER_SIZE
    ensures r.Ok? ==> (r.value.Internal? <==> page[..4] == INTERNAL_COOKIE)
    ensures r.Ok? ==> (r.value.Leaf? <==> page[..4] == LEAF_COOKIE)
    ensures |page| < NODE_HEADER_SIZE ==> r == Err(CorruptPage)
    ensures |page| >= NODE_HEADER_SIZE && page[..4] != INTERNAL_COOKIE && page[..4] != LEAF_COOKIE ==>
              r == Err(CorruptPage)
  {
    if |page| < NODE_HEADER_SIZE then Err(CorruptPage)
    else
      var cookie := page[..4];
      if cookie != INTERNAL_COOKIE && cookie != LEAF_COOKIE then Err(CorruptPage)
      else
        Pow256Values();
        var flags := DecodeBE(page[4..8]);
        var ts := IntegerFromBigLongLongRange(page, Range(8, 8));
        var ks := IntegerFromBigLongLongRange(page, Range(16, 8));
        var vs := IntegerFromBigLongLongRange(page, Range(24, 8));
        var count := IntegerFromBigLongLongRange(page, Range(32, 8));
        var internal := cookie == INTERNAL_COOKIE;
        match DecodeEntries(page[NODE_HEADER_SIZE..], count, ks, if internal then PAGE_ID_SIZE else vs)
        case Err(e) => Err(e)
        case Ok(kv) =>
          if internal then Ok(Internal(flags, ts, ks, vs, kv.0, DecodeIDs(kv.1)))
          else Ok(Leaf(flags, ts, ks, vs, kv.0, kv.1))
  }

  lemma {:induction false} EntriesLength(keys: seq<Key>, vals: seq<seq<byte>>, ks: nat, w: nat)
    requires |keys| == |vals|
    requires forall i | 0 <= i < |keys| :: |keys[i]| == ks && |vals[i]| == w
    ensures |EncodeEntries(keys, vals)| == |keys| * (ks + w)
  {
    if keys != [] {
      EntriesLength(keys[1..], vals[1..], ks, w);
      assert |keys| * (ks + w) == (ks + w) + (|keys| - 1) * (ks + w);
    }
  }

  lemma {:induction false} EntriesRoundTrip(keys: seq<Key>, vals: seq<seq<byte>>, ks: nat, w: nat, pad: seq<byte>)
    requires |keys| == |vals|
    requires forall i | 0 <= i < |keys| :: |keys[i]| == ks && |vals[i]| == w
    ensures DecodeEntries(EncodeEntries(keys, vals) + pad, |keys|, ks, w) == Ok((keys, vals))
  {
    if keys != [] {
      var b := EncodeEntries(keys, vals) + pad;
      var rest := EncodeEntries(keys[1..], vals[1..]);
      assert b == keys[0] + vals[0] + (rest + pad);
      assert b[..ks] == keys[0];
      assert b[ks..ks + w] == vals[0];
      assert b[ks + w..] == rest + pad;
      EntriesRoundTrip(keys[1..], vals[1..], ks, w, pad);
      assert [keys[0]] + keys[1..] == keys;
      assert [vals[0]] + vals[1..] == vals;
    }
  }

  /** An 8-byte field holding the encoding of v reads back as v. */
  lemma FieldReadBack(s: seq<byte>, o: nat, v: nat)
    requires v < U64_LIMIT && o + 8 <= |s| && s[o..o + 8] == BigLongLongData(v)
    ensures IntegerFromBigLongLongRange(s, Range(o, 8)) == v
  {
    assert s[o..][..8] == s[o..o + 8];
    assert BigLongLongData(v)[..8] == BigLongLongData(v);
    IntegerRoundTrip(v);
  }

  /** The header written for a node reads back field by field, whatever follows it. */
  lemma HeaderReadBack(n: Node, rest: seq<byte>)
    requires Shaped(n)
    ensures var page := EncodeHeader(n) + rest;
            && page[..4] == (if n.Internal? then INTERNAL_COOKIE else LEAF_COOKIE)
            && DecodeBE(page[4..8]) == n.flags
            && IntegerFromBigLongLongRange(page, Range(8, 8)) == n.timestamp
            && IntegerFromBigLongLongRange(page, Range(16, 8)) == n.keySize
            && IntegerFromBigLongLongRange(page, Range(24, 8)) == n.valSize
            && IntegerFromBigLongLongRange(page, Range(32, 8)) == |n.keys|
            && page[NODE_HEADER_SIZE..] == rest
  {
    Pow256Values();
    var h := EncodeHeader(n);
    var page := h + rest;
    assert page[8..16] == h[8..16];
    assert page[16..24] == h[16..24];
    assert page[24..32] == h[24..32];
    assert page[32..40] == h[32..40];
    assert page[..4] == h[..4];
    assert page[4..8] == h[4..8];
    FieldReadBack(page, 8, n.timestamp);
    FieldReadBack(page, 16, n.keySize);
    FieldReadBack(page, 24, n.valSize);
    FieldReadBack(page, 32, |n.keys|);
  }

  /** Decoding the page a builder writes gives the node back. */
  lemma NodeRoundTrip(n: Node)
    requires Encodable(n)
    ensures DecodeNode(EncodeNode(n)) == Ok(n)
  {
    var vals := ValueFields(n);
    var entries := EncodeEntries(n.keys, vals);
    EntriesLength(n.keys, vals, n.keySize, Width(n));
    var pad := Zeros(AOF_PAGE_SIZE - NODE_HEADER_SIZE - |entries|);
    assert EncodeNode(n) == EncodeHeader(n) + (entries + pad);
    HeaderReadBack(n, entries + pad);
    EntriesRoundTrip(n.keys, vals, n.keySize, Width(n), pad);
    if n.Internal? {
      IDsRoundTrip(n.pageIDs);
    }
  }

  /** A node a configuration admits always fits its page. */
  lemma ValidNodeEncodable(n: Node, cfg: Config)
    requires ValidConfig(cfg) && ValidNode(n, cfg)
    ensures Encodable(n)
  {
    var w := Width(n);
    var m := if n.Leaf? then cfg.maxLeafKeys else cfg.maxInternalKeys;
    MulMonotone(|n.keys|, m, cfg.keySize + w);
  }

  /** Keys are at least one byte wide, so no capacity exceeds the page size. */
  lemma ConfigBounds(cfg: Config)
    requires ValidConfig(cfg)
    ensures cfg.maxLeafKeys <= AOF_PAGE_SIZE && cfg.maxInternalKeys <= AOF_PAGE_SIZE
  {
    MulMonotone(1, cfg.keySize + cfg.valSize, cfg.maxLeafKeys);
    MulMonotone(1, cfg.keySize + PAGE_ID_SIZE, cfg.maxInternalKeys);
  }

  lemma MulMonotone(a: nat, b: nat, c: nat)
    requires a <= b
    ensures a * c <= b * c
  {
  }

  // ---------------------------------------------------------------------
  // Readers
  // ---------------------------------------------------------------------

  /** count: the number of entries, equal to the number of children. */
  function Count(n: Node): (r: nat)
    ensures Shaped(n) && n.Internal? ==> r == |n.pageIDs|
    ensures Shaped(n) && n.Leaf? ==> r == |n.objects|
  {
    |n.keys|
  }

  /** childrenPageIDs: the child page ids of an internal node, none for a leaf. */
  function ChildrenPageIDs(n: Node): (r: Option<seq<nat>>)
    ensures r.Some? <==> n.Internal?
    ensures r.Some? ==> |r.value| == Count(n) || !Shaped(n)
  {
    if n.Internal? then Some(n.pageIDs) else None
  }

  /** minKey: the lowest key of a non-empty node. */
  function MinKey(n: Node): (r: Option<Key>)
    ensures r.Some? <==> |n.keys| > 0
    ensures r.Some? ==> r.value in n.keys
    ensures r.Some? && StrictlyAscending(n.keys) ==>
              forall j | 0 <= j < |n.keys| :: n.keys[j] == r.value || Less(r.value, n.keys[j])
  {
    if |n.keys| == 0 then None else Some(n.keys[0])
  }

  /** maxKey: the highest key of a non-empty node. */
  function MaxKey(n: Node): (r: Option<Key>)
    ensures r.Some? <==> |n.keys| > 0
    ensures r.Some? ==> r.value in n.keys
    ensures r.Some? && StrictlyAscending(n.keys) ==>
              forall j | 0 <= j < |n.keys| :: n.keys[j] == r.value || Less(n.keys[j], r.value)
  {
    if |n.keys| == 0 then None else Some(n.keys[|n.keys| - 1])
  }

  /** enumerateKeysAndObjectsUsingBlock: the (key, value) pairs of a leaf in key order. */
  function LeafEntries(n: Node): (r: seq<Pair>)
    requires Shaped(n)
    ensures n.Leaf? ==> |r| == Count(n) && forall i | 0 <= i < |r| :: r[i] == (n.keys[i], n.objects[i])
    ensures n.Internal? ==> r == []
  {
    if n.Leaf? then Zip(n.keys, n.objects) else []
  }

  /** enumerateKeysAndPageIDsUsingBlock: the (key, child id) pairs of an internal node. */
  function ChildEntries(n: Node): (r: seq<(Key, nat)>)
    requires Shaped(n)
    ensures n.Internal? ==> |r| == Count(n) && forall i | 0 <= i < |r| :: r[i] == (n.keys[i], n.pageIDs[i])
    ensures n.Leaf? ==> r == []
  {
    if n.Leaf? then [] else seq(|n.keys|, i requires 0 <= i < |n.keys| => (n.keys[i], n.pageIDs[i]))
  }

  /** The keys of a leaf are those of its entry sequence, so the entries are sorted iff the keys are. */
  lemma LeafEntriesSorted(n: Node)
    requires Shaped(n) && n.Leaf?
    ensures SortedPairs(LeafEntries(n)) <==> StrictlyAscending(n.keys)
  {
  }

  /** Whether k sorts at or after key. */
  predicate AtOrAfter(k: Key, key: Key)
  {
    key == k || Less(key, k)
  }

  /**
    The index childForKey follows: the last key at or before k, or the first
    key when k sorts before all of them.
  */
  function FloorIndex(keys: seq<Key>, k: Key): (i: nat)
    requires |keys| > 0
    ensures i < |keys|
    ensures i > 0 ==> AtOrAfter(k, keys[i])
    ensures forall j | i < j < |keys| :: !AtOrAfter(k, keys[j])
    decreases |keys|
  {
    if |keys| == 1 || AtOrAfter(k, keys[|keys| - 1]) then |keys| - 1
    else FloorIndex(keys[..|keys| - 1], k)
  }

  /** With sorted keys the floor index is the unique i with keys[i] <= k < keys[i+1]. */
  lemma FloorIndexSorted(keys: seq<Key>, k: Key)
    requires |keys| > 0 && StrictlyAscending(keys)
    ensures var i := FloorIndex(keys, k);
            (AtOrAfter(k, keys[i]) || (i == 0 && Less(k, keys[0])))
            && (i + 1 < |keys| ==> Less(k, keys[i + 1]))
  {
    var i := FloorIndex(keys, k);
    if !AtOrAfter(k, keys[i]) {
      LessTrichotomy(k, keys[i]);
    }
    if i + 1 < |keys| {
      LessTrichotomy(k, keys[i + 1]);
    }
  }

  /** childForKey: the id of the child whose key range holds k; none on a leaf or an empty node. */
  function ChildForKey(n: Node, k: Key): (r: Option<nat>)
    ensures r.Some? <==> n.Internal? && |n.keys| > 0 && |n.pageIDs| == |n.keys|
    ensures r.Some? ==> r.value == n.pageIDs[FloorIndex(n.keys, k)]
  {
    if n.Internal? && |n.keys| > 0 && |n.pageIDs| == |n.keys| then Some(n.pageIDs[FloorIndex(n.keys, k)])
    else None
  }

  /** With strictly ascending keys, the floor index of a key of the node is its own position. */
  lemma FloorIndexOfKey(keys: seq<Key>, i: nat)
    requires i < |keys| && StrictlyAscending(keys)
    ensures FloorIndex(keys, keys[i]) == i
  {
    var f := FloorIndex(keys, keys[i]);
    FloorIndexSorted(keys, keys[i]);
    LessTrichotomy(keys[i], keys[i]);
    LessTrichotomy(keys[i], keys[f]);
    if f + 1 < |keys| {
      LessTrichotomy(keys[i], keys[f + 1]);
    }
  }

  /**
    Each (key, child id) entry of a valid internal node is where the node
    routes its own key: childForKey of the entry's key gives the entry's id.
  */
  lemma ChildEntriesRoute(n: Node, cfg: Config)
    requires ValidNode(n, cfg) && n.Internal? && |n.keys| > 0
    ensures forall i | 0 <= i < |ChildEntries(n)| :: ChildForKey(n, ChildEntries(n)[i].0) == Some(ChildEntries(n)[i].1)
  {
    forall i | 0 <= i < |ChildEntries(n)|
      ensures ChildForKey(n, ChildEntries(n)[i].0) == Some(ChildEntries(n)[i].1)
    {
      FloorIndexOfKey(n.keys, i);
    }
  }

  /** Each key strictly below the next. */
  predicate AdjacentAscending(keys: seq<Key>)
  {
    forall i | 0 < i < |keys| :: Less(keys[i - 1], keys[i])
  }

  /** Adjacent order implies order of every pair, by transitivity. */
  lemma {:induction false} AdjacentAscendingIsStrict(keys: seq<Key>)
    requires AdjacentAscending(keys)
    ensures StrictlyAscending(keys)
    decreases |keys|
  {
    if |keys| > 1 {
      var init := keys[..|keys| - 1];
      assert AdjacentAscending(init);
      AdjacentAscendingIsStrict(init);
      forall i, j | 0 <= i < j < |keys| ensures Less(keys[i], keys[j]) {
        if j < |keys| - 1 {
          assert keys[i] == init[i] && keys[j] == init[j];
        } else if i < j - 1 {
          assert Less(init[i], init[j - 1]);
          LessTransitive(keys[i], keys[j - 1], keys[j]);
        }
      }
    }
  }

  /**
    verify: the node has the shape its page promises, is within the
    capacity of its kind, and its keys are strictly ascending. The check
    compares neighbours only; transitivity makes that enough.
  */
  function Verify(n: Node, cfg: Config): (r: bool)
    ensures r <==> ValidNode(n, cfg)
  {
    if Shaped(n) && n.keySize == cfg.keySize && n.valSize == cfg.valSize
       && |n.keys| <= (if n.Leaf? then cfg.maxLeafKeys else cfg.maxInternalKeys)
       && AdjacentAscending(n.keys)
    then
      AdjacentAscendingIsStrict(n.keys);
      true
    else
      false
  }

  // ---------------------------------------------------------------------
  // Builders (GTWMutableAOFBTreeNode): each writes one page into a context
  // ---------------------------------------------------------------------

  /** initLeaf…: writes a leaf page and answers its id and node. */
  method CreateLeaf(ctx: UpdateContext, cfg: Config, root: bool, now: nat, keys: seq<Key>, objects: seq<Value>)
    returns (id: nat, n: Node)
    requires ctx.Valid() && ValidConfig(cfg) && now < U64_LIMIT
    requires |keys| == |objects| <= cfg.maxLeafKeys
    requires forall i | 0 <= i < |keys| :: |keys[i]| == cfg.keySize && |objects[i]| == cfg.valSize
    modifies ctx
    ensures ctx.Valid() && unchanged(ctx.aof)
    ensures n == Leaf(FlagsFor(root), now, cfg.keySize, cfg.valSize, keys, objects)
    ensures Encodable(n)
    ensures id == old(ctx.nextPageID)
    ensures ctx.View() == old(ctx.View()) + [EncodeNode(n)]
    ensures DecodeNode(ctx.View()[id]) == Ok(n)
  {
    n := Leaf(FlagsFor(root), now, cfg.keySize, cfg.valSize, keys, objects);
    MulMonotone(|keys|, cfg.maxLeafKeys, cfg.keySize + cfg.valSize);
    ConfigBounds(cfg);
    NodeRoundTrip(n);
    var page := ctx.CreatePageWithData(EncodeNode(n));
    id := page.pageID;
  }

  /** initInternal…: writes an internal page and answers its id and node. */
  method CreateInternal(ctx: UpdateContext, cfg: Config, root: bool, now: nat, keys: seq<Key>, pageIDs: seq<nat>)
    returns (id: nat, n: Node)
    requires ctx.Valid() && ValidConfig(cfg) && now < U64_LIMIT
    requires |keys| == |pageIDs| <= cfg.maxInternalKeys
    requires forall i | 0 <= i < |keys| :: |keys[i]| == cfg.keySize && pageIDs[i] < U64_LIMIT
    modifies ctx
    ensures ctx.Valid() && unchanged(ctx.aof)
    ensures n == Internal(FlagsFor(root), now, cfg.keySize, cfg.valSize, keys, pageIDs)
    ensures Encodable(n)
    ensures id == old(ctx.nextPageID)
    ensures ctx.View() == old(ctx.View()) + [EncodeNode(n)]
    ensures DecodeNode(ctx.View()[id]) == Ok(n)
  {
    n := Internal(FlagsFor(root), now, cfg.keySize, cfg.valSize, keys, pageIDs);
    MulMonotone(|keys|, cfg.maxInternalKeys, cfg.keySize + PAGE_ID_SIZE);
    ConfigBounds(cfg);
    NodeRoundTrip(n);
    var page := ctx.CreatePageWithData(EncodeNode(n));
    id := page.pageID;
  }
}

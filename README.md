# GTWAOF core, modelled in Dafny

GTWAOF is an append-only file (AOF) of fixed-size pages. Pages are never
changed once written. A write transaction runs against an update context
that hands out new page ids after the last page of the file and buffers the
pages it creates; the store publishes all of them, in order, when the
transaction body answers YES and none when it answers NO.

On top of the page store sits a copy-on-write B+tree. Each node is one page,
"BPTI" for internal nodes and "BPTL" for leaves. The read-only tree
enumerates its pairs in key order, finds the lowest node that covers a key
prefix, and enumerates the pairs under a prefix. The mutable tree comes from
`initEmptyBTreeWithKeySize:valueSize:updateContext:`. Its
`insertValue:forKey:` and `removeValueForKey:` write the changed
root-to-leaf path as new pages in the context and answer a new tree, so
every older tree stays valid. Keys are byte strings compared with
`gtw_compare`, and integers are stored as 8-byte big-endian fields.

The model has these modules:

| module | file | source | form |
|---|---|---|---|
| `Results` | `results.dfy` | shared | `Option` and `Result` with the error kinds |
| `Bytes` | `bytes.dfy` | `NSData+GTWCompare.h` | pure: byte-string order, prefix test, big-endian integer codec |
| `Entries` | `entries.dfy` | shared | pure: sorted key/value pair sequences, insert, remove, prefix filter |
| `LinkedPage` | `linked_page.dfy` | `GTWAOFPage+GTWAOFLinkedPage.h` | pure: the 24-byte linked-page header |
| `Pages` | `page.dfy` | `GTWAOFPage.h` | class `Page`: committed flag, id and buffer, updated in place |
| `AOF` | `aof.dfy` | `GTWAOF.h`, `GTWAOFUpdateContext.h` | classes `AppendOnlyFile` and `UpdateContext` |
| `BTreeNode` | `btree_node.dfy` | `GTWAOFBTreeNode.h` | node page layout, accessors, `verify`, and the two writers of a new node |
| `BTree` | `btree.dfy` | `GTWAOFBTree.h` (readers) | pure: the tree as the pages decode, well-formedness, enumeration, lca, prefix |
| `MutableBTree` | `mutable_btree.dfy` | `GTWAOFBTree.h` (`GTWMutableAOFBTree`) | methods that write new pages through an `UpdateContext` |

The tree is read through `BTree.Decoded(A)`, which is every page of a
store's view decoded as a node. The mutating methods state their result in
terms of the view of the context before and after the call. They name the
pairs the new tree holds (`InsertSorted` or `RemoveSorted` applied to the
old tree's pairs), prove that the new tree is well formed, and prove that
the old tree still holds what it held. Well formed (`BTree.WF`) means:

- keys ascend strictly and lie within the node's key range;
- each child covers the range between its key and the next key;
- every leaf sits at the same depth;
- node sizes stay within the configured capacities;
- only the root carries the root flag;
- every child's page id is smaller than its parent's.

## Model

| member | source | states |
|---|---|---|
| Bytes.CompareSame | GTWAOF/NSData+GTWCompare.h:13 | gtw_compare answers the same exactly when the two byte strings are equal |
| Bytes.CompareAntisymmetric | GTWAOF/NSData+GTWCompare.h:13 | swapping the operands of gtw_compare flips its answer |
| Bytes.LessTrichotomy | GTWAOF/NSData+GTWCompare.h:13 | the order of gtw_compare is total and irreflexive: exactly one of equal, before, after |
| Bytes.LessTransitive | GTWAOF/NSData+GTWCompare.h:13 | the order of gtw_compare is transitive, so keys can be kept sorted by it |
| Bytes.TruncatedCompare | GTWAOF/NSData+GTWCompare.h:14 | gtw_trucatedCompare is gtw_compare of both operands cut to the shorter length |
| Bytes.HasPrefix | GTWAOF/NSData+GTWCompare.h:15 | gtw_hasPrefix holds iff the prefix is no longer than the data and equals its first bytes |
| Bytes.PrefixTruncatedSame | GTWAOF/NSData+GTWCompare.h:14-15 | data with a prefix compares the same as the prefix under the truncated compare |
| Bytes.PrefixNotAfter | GTWAOF/NSData+GTWCompare.h:13-15 | a string with prefix p is p itself or sorts after p |
| Bytes.PrefixBlockBelow | GTWAOF/NSData+GTWCompare.h:13-15 | every string with prefix p sorts before a key above p that does not start with p |
| Bytes.PrefixBlockAbove | GTWAOF/NSData+GTWCompare.h:13-15 | every string with prefix p sorts after a key below p, so the keys with a prefix form one contiguous run |
| Bytes.DecodeEncodeBE | GTWAOF/NSData+GTWCompare.h:17-19 | decoding the big-endian encoding of v in n bytes gives back v |
| Bytes.EncodeDecodeBE | GTWAOF/NSData+GTWCompare.h:17-19 | encoding what n bytes decode to gives back the same n bytes |
| Bytes.DecodeBEOrder | GTWAOF/NSData+GTWCompare.h:13-17 | for fields of equal width, the decoded integer order is the byte-string order |
| Bytes.BigLongLongData | GTWAOF/NSData+GTWCompare.h:19 | gtw_bigLongLongDataWithInteger: always 8 bytes |
| Bytes.IntegerFromBigLongLong | GTWAOF/NSData+GTWCompare.h:17 | gtw_integerFromBigLongLong: an unsigned 64-bit value read from the first 8 bytes |
| Bytes.IntegerFromBigLongLongRange | GTWAOF/NSData+GTWCompare.h:18 | the integer read from the 8 bytes at the range's location |
| Bytes.IntegerRoundTrip | GTWAOF/NSData+GTWCompare.h:17-19 | reading back the 8 bytes written for v gives v, for every unsigned 64-bit v |
| Bytes.BytesRoundTrip | GTWAOF/NSData+GTWCompare.h:17-19 | writing the integer read from 8 bytes gives those 8 bytes |
| Bytes.EncodingPreservesOrder | GTWAOF/NSData+GTWCompare.h:13-19 | a < b iff the encoding of a sorts before that of b, in both directions |
| LinkedPage.ToUnsigned | GTWAOF/GTWAOFPage+GTWAOFLinkedPage.h:21 | the previous page id's two's-complement bits, read back as the same signed value |
| LinkedPage.EncodeHeader | GTWAOF/GTWAOFPage+GTWAOFLinkedPage.h:13-18 | 24 header bytes: the cookie, then 4 zero padding bytes |
| LinkedPage.HeaderRoundTrip | GTWAOF/GTWAOFPage+GTWAOFLinkedPage.h:13-21 | cookie, lastModified and previousPageID read back from a written header what was written, and the payload starts at byte 24 |
| LinkedPage.DecodersReadOnlyHeaderFields | GTWAOF/GTWAOFPage+GTWAOFLinkedPage.h:20-21 | the decoders depend on the cookie, timestamp and previous-id bytes only |
| LinkedPage.Cookie | GTWAOF/GTWAOFPage+GTWAOFLinkedPage.h:13-14 | the cookie is the first 4 bytes of the page, and the page is the cookie followed by everything from byte 4 on |
| LinkedPage.LastModified | GTWAOF/GTWAOFPage+GTWAOFLinkedPage.h:16-20 | lastModified is an unsigned 64-bit value whose 8-byte big-endian encoding is bytes 8 to 16 of the page |
| LinkedPage.PreviousPageID | GTWAOF/GTWAOFPage+GTWAOFLinkedPage.h:17-21 | previousPageID is a signed 64-bit value whose two's-complement big-endian encoding is bytes 16 to 24 of the page |
| Pages.Page.constructor | GTWAOF/GTWAOFPage.h:18 | initWithPageID:data:committed: stores the three given values |
| Pages.Page.SetData | GTWAOF/GTWAOFPage.h:20 | setData: allowed on an uncommitted page only; replaces the buffer and keeps id and flag |
| Pages.Page.CommitWithPageID | GTWAOF/GTWAOFPage.h:21 | commitWithPageID: marks the page committed under the id and keeps the buffer |
| AOF.AppendOnlyFile.constructor | GTWAOF/GTWAOF.h:17-18 | a new store has no pages and an empty cache |
| AOF.AppendOnlyFile.PageSize | GTWAOF/GTWAOF.h:19 | pageSize is AOF_PAGE_SIZE, 8192 |
| AOF.AppendOnlyFile.ReadPage | GTWAOF/GTWAOF.h:18-20 | readPage: answers a page exactly for the ids 0 to pageCount - 1, carrying that id and buffer, committed; nil otherwise, so pageCount is the number of readable pages |
| AOF.AppendOnlyFile.CachedObjectForPage | GTWAOF/GTWAOF.h:21 | cachedObjectForPage: answers nil or the object last stored for that id |
| AOF.AppendOnlyFile.SetObjectForPage | GTWAOF/GTWAOF.h:22 | setObject:forPage: stores the object for the id and leaves the pages alone |
| AOF.AppendOnlyFile.UpdateWithBlock | GTWAOF/GTWAOF.h:18-26 | answers the body's result; on YES the store becomes the context's view, pageCount grows by the number of created pages, and each created page is committed at its id; on NO nothing changes |
| AOF.AppendOnlyFile.AppendAndCommit | GTWAOF/GTWAOF.h:26 | appends the created pages' buffers in creation order and commits page j under old count + j |
| AOF.UpdateContext.View | GTWAOF/GTWAOFUpdateContext.h:14-18 | a reader in the transaction sees nextPageID pages of AOF_PAGE_SIZE bytes |
| AOF.UpdateContext.constructor | GTWAOF/GTWAOFUpdateContext.h:21 | initWithAOF: nextPageID starts at the store's page count with no created pages, so the view is the store |
| AOF.UpdateContext.PageSize | GTWAOF/GTWAOFUpdateContext.h:20 | the context's page size is its store's |
| AOF.UpdateContext.ReadPage | GTWAOF/GTWAOFUpdateContext.h:22 | readPage: the buffered page for a created id, the store's committed page below the count, nil at or beyond nextPageID; the page holds the view's buffer at that id |
| AOF.UpdateContext.CreatePageWithData | GTWAOF/GTWAOFUpdateContext.h:23 | createPageWithData: a new uncommitted page under nextPageID; nextPageID grows by one, the view by that buffer, the store is untouched |
| BTreeNode.FlagsFor | GTWAOF/GTWAOFBTreeNode.h:21-23 | the flags word written for a node carries the root flag exactly when the node is a root |
| BTreeNode.RootAsDeclaredNeverSet | GTWAOF/GTWAOFBTreeNode.h:21-23 | with GTWAOFBTreeRoot = 0 as declared, the flag test is false for every flags word and root and non-root flags coincide |
| BTreeNode.RootFlagIsBitZero | GTWAOF/GTWAOFBTreeNode.h:21-23 | with the root flag as bit 0, the flag test matches the bit, setting the bit makes a root, and root and non-root flags differ |
| BTreeNode.EncodeNode | GTWAOF/GTWAOFBTreeNode.h:13-14 | a node page is exactly AOF_PAGE_SIZE bytes and starts with BPTI for internal nodes and BPTL for leaves |
| BTreeNode.DecodeNode | GTWAOF/GTWAOFBTreeNode.h:13-19 | reading a page answers an internal node iff the cookie is BPTI and a leaf iff BPTL; a short page or another cookie is a corrupt page |
| BTreeNode.NodeRoundTrip | GTWAOF/GTWAOFBTreeNode.h:34-43 | a node read back from the page written for it is that node: flags, timestamp, sizes, keys, and objects or page ids |
| BTreeNode.ValidNodeEncodable | GTWAOF/GTWAOFBTreeNode.h:37-38 | a node within the configured capacities fits one page |
| BTreeNode.IDsRoundTrip | GTWAOF/GTWAOFBTreeNode.h:48-51 | child page ids read back as written |
| BTreeNode.EntriesRoundTrip | GTWAOF/GTWAOFBTreeNode.h:47-52 | the entry area reads back the keys and values written, whatever padding follows |
| BTreeNode.HeaderReadBack | GTWAOF/GTWAOFBTreeNode.h:34-46 | the header fields (flags, lastModified, keySize, valSize, count) read back as written |
| BTreeNode.Count | GTWAOF/GTWAOFBTreeNode.h:46 | count is the number of children of an internal node, of objects of a leaf |
| BTreeNode.ChildrenPageIDs | GTWAOF/GTWAOFBTreeNode.h:48 | childrenPageIDs is answered exactly for internal nodes, one id per entry |
| BTreeNode.MinKey | GTWAOF/GTWAOFBTreeNode.h:50 | minKey is absent only for an empty node, is one of its keys, and the least when keys ascend |
| BTreeNode.MaxKey | GTWAOF/GTWAOFBTreeNode.h:49 | maxKey is absent only for an empty node, is one of its keys, and the greatest when keys ascend |
| BTreeNode.LeafEntries | GTWAOF/GTWAOFBTreeNode.h:52 | a leaf enumerates its key/object pairs in stored order; an internal node enumerates none |
| BTreeNode.ChildEntries | GTWAOF/GTWAOFBTreeNode.h:51 | an internal node enumerates its key/page-id pairs in stored order; a leaf enumerates none |
| BTreeNode.ChildEntriesRoute | GTWAOF/GTWAOFBTreeNode.h:51-53 | in a valid internal node, childForKey: on each key that enumerateKeysAndPageIDsUsingBlock: visits answers the page id visited with it |
| BTreeNode.FloorIndexOfKey | GTWAOF/GTWAOFBTreeNode.h:53 | with strictly ascending keys, the floor index of the i-th key is i |
| BTreeNode.LeafEntriesSorted | GTWAOF/GTWAOFBTreeNode.h:52 | a leaf's pairs are sorted iff its keys ascend strictly |
| BTreeNode.FloorIndex | GTWAOF/GTWAOFBTreeNode.h:53 | the last key at or below the search key, or the first key when none is |
| BTreeNode.FloorIndexSorted | GTWAOF/GTWAOFBTreeNode.h:53 | with ascending keys, the search key lies in the chosen child's range: at or after its key (unless first) and before the next |
| BTreeNode.ChildForKey | GTWAOF/GTWAOFBTreeNode.h:53 | childForKey: answers a child exactly for a non-empty internal node, the child at the floor index |
| BTreeNode.Verify | GTWAOF/GTWAOFBTreeNode.h:54 | verify answers YES exactly for a node whose sizes, capacities and key order are valid |
| BTreeNode.AdjacentAscendingIsStrict | GTWAOF/GTWAOFBTreeNode.h:54 | checking each key against the next is enough for strict order |
| BTreeNode.CreateInternal | GTWAOF/GTWAOFBTreeNode.h:60 | initInternal…: one new page at nextPageID that reads back as the internal node with the given keys and ids |
| BTreeNode.CreateLeaf | GTWAOF/GTWAOFBTreeNode.h:61 | initLeaf…: one new page at nextPageID that reads back as the leaf with the given keys and objects |
| BTree.DecodedPrefix | GTWAOF/GTWAOF.h:20 | appending pages never changes how the earlier pages decode |
| BTree.ReadNode | GTWAOF/GTWAOFBTreeNode.h:42 | reading a node fails with out-of-range exactly beyond the page count, else answers that page decoded |
| BTree.WFHeight | GTWAOF/GTWAOFBTree.h:12-15 | every leaf of a well-formed tree sits at its height |
| BTree.EnumerateExtend | GTWAOF/GTWAOFBTree.h:21 | a subtree enumerates the same pairs after any pages are appended |
| BTree.WFExtend | GTWAOF/GTWAOFBTree.h:17 | a well-formed subtree stays well formed when pages are appended |
| BTree.TreeExtend | GTWAOF/GTWAOFBTree.h:17-21 | a tree stays valid and keeps its contents when pages are appended |
| BTree.WFEnumerate | GTWAOF/GTWAOFBTree.h:21 | a well-formed subtree enumerates without error, sorted, within its key range |
| BTree.Enumerate | GTWAOF/GTWAOFBTree.h:21 | enumerating fails with out-of-range for a page id beyond the table and with the page's error for an unreadable page; a well-shaped leaf enumerates its own pairs |
| BTree.Contents | GTWAOF/GTWAOFBTree.h:21 | the tree's pairs are available only when its root page is in range and reads as a node; a root beyond the table is out of range |
| BTree.ContentsSorted | GTWAOF/GTWAOFBTree.h:21 | enumerateKeysAndObjectsUsingBlock: visits the tree's pairs in strictly ascending key order |
| BTree.Lca | GTWAOF/GTWAOFBTree.h:20 | the lca node's page id is at most the root's, as for every node reached by going down |
| BTree.LcaStops | GTWAOF/GTWAOFBTree.h:20 | in a well-formed tree the search stops only at a readable leaf, or at an internal node where the key after the child chosen for the prefix itself has the prefix, so the range of keys with the prefix reaches into two children and no one child's range covers it |
| BTree.LcaContainsPrefix | GTWAOF/GTWAOFBTree.h:20 | the pairs under the lca node with the prefix are all the tree's pairs with the prefix |
| BTree.EnumeratePrefix | GTWAOF/GTWAOFBTree.h:20-22 | the prefix enumeration succeeds exactly when the lca subtree enumerates, and every pair it visits is under the lca node and has the prefix |
| BTree.EnumeratePrefixIsFilter | GTWAOF/GTWAOFBTree.h:22 | enumerateKeysAndObjectsMatchingPrefix: visits exactly the tree's pairs with the prefix, in order |
| BTree.OpenTree | GTWAOF/GTWAOFBTree.h:17-18 | a tree opens at a root page id exactly when that page reads as a node, and fails with the read's error otherwise |
| Entries.InsertSortedProperties | GTWAOF/GTWAOFBTree.h:41 | inserting into sorted pairs keeps them sorted and contains the new pair; every pair is the new one or an old one, and the length grows by at most one |
| Entries.InsertSortedLength | GTWAOF/GTWAOFBTree.h:41 | inserting a key already present keeps the number of pairs; a new key adds exactly one |
| Entries.InsertSortedMap | GTWAOF/GTWAOFBTree.h:41 | as a map, inserting k with v is the old map with k set to v |
| Entries.RemoveSorted | GTWAOF/GTWAOFBTree.h:42 | every pair left is one of the old pairs and has a different key |
| Entries.RemoveSortedProperties | GTWAOF/GTWAOFBTree.h:42 | removing from sorted pairs keeps them sorted, and as a map is the old map without k |
| Entries.FilterPrefix | GTWAOF/GTWAOFBTree.h:22 | the pairs kept all come from the input and all have the prefix |
| Entries.ScanPrefixIsFilter | GTWAOF/GTWAOFBTree.h:22 | on sorted pairs, skipping below the prefix then taking while it matches yields exactly the filtered pairs |
| Entries.MinLo | GTWAOF/GTWAOFBTree.h:41 | the lowered bound admits the inserted key and every key the old bound admitted |
| MutableBTree.LeafPageWF | GTWAOF/GTWAOFBTreeNode.h:61 | a leaf page written from sorted pairs within a range is a well-formed leaf enumerating them |
| MutableBTree.InternalPageWF | GTWAOF/GTWAOFBTreeNode.h:60 | an internal page over well-formed children is well formed, one level above them, enumerating their pairs |
| MutableBTree.WriteLeaf | GTWAOF/GTWAOFBTree.h:33 | one new page holding a well-formed leaf over the given sorted pairs |
| MutableBTree.SplitLeaf | GTWAOF/GTWAOFBTree.h:36 | an overfull run of pairs becomes two new non-root leaves, the right one starting at the separator, together holding the pairs |
| MutableBTree.WriteLeaves | GTWAOF/GTWAOFBTree.h:33-36 | one leaf when the pairs fit, two split leaves only when they overflow; either way the pairs are kept and at most 2 pages are written; it splits exactly when the pairs exceed the leaf capacity |
| MutableBTree.WriteInternal | GTWAOF/GTWAOFBTree.h:31 | one new well-formed internal page one level above its children, enumerating their pairs, holding exactly the given keys and child ids |
| MutableBTree.SplitInternal | GTWAOF/GTWAOFBTree.h:32 | an overfull run of children becomes two new non-root internal nodes that together enumerate the same pairs |
| MutableBTree.RewriteParent | GTWAOF/GTWAOFBTree.h:29-32 | a parent rewritten around its rewritten child: the child's one or two pages take its place, the parent splits exactly when the child split and the parent was full, and the pairs are the old ones with the child's replaced |
| MutableBTree.WriteInternals | GTWAOF/GTWAOFBTree.h:31-32 | children that fit make one internal node; one more makes a split into two; it splits exactly when the keys exceed the internal capacity |
| MutableBTree.LoadNode | GTWAOF/GTWAOFUpdateContext.h:22 | a node read in the transaction is the view's page decoded, or out of range |
| MutableBTree.Descend | GTWAOF/GTWAOFBTreeNode.h:53 | the childForKey: walk from the root to a leaf; each step goes to the child whose range holds the key, one node per level |
| MutableBTree.PathExtend | GTWAOF/GTWAOFBTreeNode.h:53 | one more childForKey: step below an internal node keeps the walk well formed and one level lower |
| MutableBTree.PathLeaf | GTWAOF/GTWAOFBTreeNode.h:53 | a walk that ended at a leaf has one visit per level of the tree |
| MutableBTree.InsertSplitsStep | GTWAOF/GTWAOFBTree.h:29-32 | an internal node on the walk overflows exactly when it is full and the child the key goes to overflows |
| MutableBTree.LeafHasKey | GTWAOF/GTWAOFBTreeNode.h:52 | a leaf holds a pair for a key exactly when the key is among its keys |
| MutableBTree.InsertLeaf | GTWAOF/GTWAOFBTree.h:33-36 | the key's leaf rewritten with the pair inserted, as one leaf or two halves; two exactly when the leaf was full and the key new to it |
| MutableBTree.InsertStep | GTWAOF/GTWAOFBTree.h:29-32 | one level of the insert: the parent rewritten around its rewritten child holds its old pairs with the pair inserted, and splits exactly when the child split and the parent was full |
| MutableBTree.InsertBottom | GTWAOF/GTWAOFBTree.h:33-36 | the first step of the insert, at the leaf ending the walk |
| MutableBTree.InsertUp | GTWAOF/GTWAOFBTree.h:29-32 | one level up the walk: the insert invariant, including "split exactly when every node from here down overflows", moves from path[i] to its parent |
| MutableBTree.InsertClimb | GTWAOF/GTWAOFBTree.h:29-32 | the loop up the walk carries the insert invariant from the leaf's level to the root's |
| MutableBTree.InsertUpTop | GTWAOF/GTWAOFBTree.h:29-30 | at the top of the walk the rewrite stands for the whole tree with the pair inserted, and is a split exactly when the insert overflows every node on the walk |
| MutableBTree.InsertPath | GTWAOF/GTWAOFBTree.h:29-38 | the rewrite of the whole walk: at most two new pages per level, a well-formed root-level rewrite holding the old pairs with the pair inserted, split exactly when every node on the walk overflows |
| MutableBTree.FinishRoot | GTWAOF/GTWAOFBTree.h:29-36 | a replaced root becomes the tree; a split root gets a new internal root page with keys [leftMin, sep] over the two halves, one level higher, whose two children are leaves exactly when the old root was a leaf |
| MutableBTree.WFTwoChildren | GTWAOF/GTWAOFBTree.h:30-36 | an internal root with two children in a well-formed tree of height h + 1 has two readable children that are leaves exactly when h = 0 |
| MutableBTree.Insert | GTWAOF/GTWAOFBTree.h:41 | insertValue:forKey: a valid new tree holding the old pairs with key mapped to value; the old tree is unchanged; the height grows by one exactly when the insert overflows every node on the walk to the key's leaf, and then the new root is an internal node over two children, two leaves when the old root was a leaf |
| MutableBTree.RootLeafSplits | GTWAOF/GTWAOFBTree.h:35-36 | for a tree whose root is a leaf, the insert splits the root exactly when the tree is full and does not hold the key |
| MutableBTree.RemoveLeaf | GTWAOF/GTWAOFBTree.h:42 | the key's leaf written anew without the key, over the same range |
| MutableBTree.RemoveStep | GTWAOF/GTWAOFBTree.h:42 | one level of the remove: the parent written anew over the new child holds its old pairs without the key |
| MutableBTree.RemoveBottom | GTWAOF/GTWAOFBTree.h:42 | the first step of the remove, at the leaf ending the walk |
| MutableBTree.RemoveUp | GTWAOF/GTWAOFBTree.h:42 | one level up the walk: the remove invariant moves from path[i] to its parent |
| MutableBTree.RemoveClimb | GTWAOF/GTWAOFBTree.h:42 | the loop up the walk carries the remove invariant from the leaf's level to the root's |
| MutableBTree.RemoveUpTop | GTWAOF/GTWAOFBTree.h:42 | at the top of the walk the last page is a root holding the tree's pairs without the key |
| MutableBTree.RemovePath | GTWAOF/GTWAOFBTree.h:42 | exactly one new page per level; the last is a well-formed root holding the old pairs without the key |
| MutableBTree.Remove | GTWAOF/GTWAOFBTree.h:42 | removeValueForKey: a valid new tree holding the old pairs without the key, at the same height; the old tree is unchanged; for an absent key the answer is the receiver and nothing is written, otherwise one new page per level with the new root last |
| MutableBTree.HasKeyAround | GTWAOF/GTWAOFBTree.h:42 | with every key before below k and every key after above k, the pairs hold k exactly when the middle run does |
| MutableBTree.PathHasKey | GTWAOF/GTWAOFBTree.h:42 | each subtree on the walk to the key's leaf holds the key exactly when that leaf does |
| MutableBTree.InitEmpty | GTWAOF/GTWAOFBTree.h:40 | initEmptyBTreeWithKeySize:valueSize:updateContext: one new page, an empty root leaf, making a valid tree of height 0 with no pairs |

## Left out

- The node page layout after the cookie is the model's own choice, because
  the headers declare only the cookies and the node's fields. The layout is:
  flags (4 bytes), timestamp, keySize, valSize and count (8 bytes each),
  then the entries, then zero padding. The round-trip lemmas hold for this
  layout.
- `maxLeafPageKeys` and `maxInternalPageKeys` are configuration parameters
  (`BTreeNode.Config`), because the headers do not fix their values. They
  are at least 2, and a full node must fit a page.
- A node's `parentID` and the `initWithPageID:parentID:` parent link are
  not stored. The insert and remove carry the explicit root-to-leaf walk
  (`MutableBTree.Descend`) instead, which stands in for that parent link.
- A page's `pageID` is the id the node was read at (`BTree.ReadNode`'s
  argument). It is not a field of the decoded node.
- BTree.Enumerate: a child whose page id is not below its parent's id is
  answered as `CorruptPage`, and at such a child `BTree.Lca` stops at the
  parent and `BTree.Height` counts 0. The declared readers (`childForKey:`,
  the enumerators, `lcaNodeForKeysWithPrefix:`) take a child's page id
  whatever it is, and the headers put no order on ids. The model uses
  "child id below parent id" as the termination measure of every reader.
  Nothing in the headers bounds the descent, and following ids blindly
  could loop on a cycle of ids. Pages are only appended, and the model's
  own writers always write a node after its children. So every tree
  `InitEmpty`, `Insert` and `Remove` produce satisfies the order, and
  `BTree.WF` includes it.
- BTreeNode.Verify: checks one node: its sizes, its capacities and the
  strict order of its keys. The recursive check of a whole subtree is
  `BTree.WF`, and `BTree.ValidTree` extends it to a whole tree.
  `InitEmpty`, `Insert` and `Remove` each ensure `ValidTree` of the tree they
  answer. So "every node verifies after every insert" is a proved property
  of the model, not something a `verify` call computes. The headers declare
  no subtree-count field to check: `count` is the node's own number of
  entries.
- MutableBTree.Remove: never merges or rebalances nodes; an emptied leaf
  stays in the tree. The headers describe no underflow handling, and the
  tree's pairs are still exactly the old pairs without the key. Removing
  an absent key writes nothing and answers the receiver.
- MutableBTree.Insert: requires the key and value to have the tree's key and
  value sizes, because fixed-size entries are what the node layout stores.
- MutableBTree.Insert: requires the new pages to stay within 64-bit page ids
  (`|view| + WriteBound(height)`), and MutableBTree.Remove requires
  `|view| + height + 1`, because ids are written as 8-byte fields.
- AOF.AppendOnlyFile.CachedObjectForPage: eviction is a nondeterministic
  choice, so the contract says only "nil or the stored object".
- AOF.UpdateContext.CreatePageWithData: requires a buffer of exactly
  AOF_PAGE_SIZE (8192) bytes. The header states no size, but the store
  holds fixed-size pages, and every writer in the model passes one encoded
  8192-byte node page. What happens to a shorter or longer buffer is not
  modelled.
- AOF.AppendOnlyFile.UpdateWithBlock: takes the transaction body's BOOL
  answer, not the block itself. The caller runs the body on the context
  first.
- Timestamps (`NSDate`, `lastModified`) are a `now` parameter in seconds,
  because there is no clock.
- The BOOL* stop argument of the enumeration blocks is not modelled. The
  enumerations are the complete pair sequences they would visit.
- The file backends (`GTWAOFDirectFile.h`, `GTWAOFMemoryMappedFile.h`) and
  I/O errors are left out. `GTWAOFMemory.h` keeps its pages in a mutable
  dictionary from page id to page (`GTWAOFMemory.h:17`). The model keeps a
  sequence instead, because the ids are dense: 0 to pageCount - 1.
- The other page types (raw dictionary, raw values, raw quads, quad store,
  term id generator) and `NSData+GTWTerm.h` are not part of this model. Only
  the linked-page header they share is modelled.

## Findings

| source | as written | input that shows it | evidently intended | confidence | as-written member | corrected member |
|---|---|---|---|---|---|---|
| GTWAOF/GTWAOFBTreeNode.h:21-23 | `GTWAOFBTreeRoot` is the first and only member of an `NS_OPTIONS` enum with no explicit value, so it is 0, and `flags & GTWAOFBTreeRoot` is 0 for every flags word | any node, e.g. a root written with flags `GTWAOFBTreeRoot`: its flags word is 0, the same as a non-root node's | a root flag with a bit of its own, `1 << 0` | not executed | BTreeNode.RootAsDeclaredNeverSet | BTreeNode.RootFlagIsBitZero |

# Suffix database: B-tree data model

This project models the data model of `sufdb`, a suffix database laid out as a
B-tree. The keys of the tree are suffixes of stored documents. The database
(`SufDB`) holds three things:

- an arena of nodes, where index 0 is the root;
- a store of documents, each an owned UTF-8 string;
- the Knuth order, which is the largest number of children an internal node may have.

A node holds its keys (`suffixes`) and, when it is internal, the arena indices
of its children (`edges`). A key is a `Suffix` handle `(doci, sufi)`. It names
the tail of document `doci` that starts at byte offset `sufi`.

The model has two modules:

- `Utf8` (`utf8.dfy`) models what the string type guarantees. A document is a
  byte sequence that is well-formed UTF-8 according to Table 3-7 of section 3.9
  of the Unicode Standard. The module also models the character-boundary test
  that string slicing performs. It proves that this one-byte test is the same as
  "the offset does not split an encoded character". It also proves that
  cutting a string at a boundary leaves two well-formed strings.
- `BTree` (`btree.dfy`) has the entities `Suffix`, `Document`, `Node` and
  `SufDB`, written as datatypes. It has the documented invariants as the
  predicates `NodeValid` and `Valid`. It has the two accessors `Root` and
  `SuffixText` (the source's `root` and `suffix`). It also has
  `SuffixOutcome`, which spells out every way the `suffix` accessor can panic.

Both accessors take the database by shared reference in the source. In the
model they are functions of the immutable `SufDB` value, so neither of them can
change the arena, the document store or the order.

## Model

| member | source | states |
|---|---|---|
| `BTree.SufDB.Root` | src/btree.rs:38-40 | The root is the node at arena index 0, which lines 5-6 promise is always present. The arena must hold that node, because indexing an empty arena panics. In a valid database the root satisfies the node invariants, so every child index it holds names a node of the arena. |
| `BTree.SufDB.SuffixText` | src/btree.rs:42-44 | For a handle whose document exists and whose offset is a character boundary, the result is exactly the document's bytes from `sufi` to the end. So its length is `len - sufi`, and the document is its first `sufi` bytes followed by the result. Offset 0 gives the whole document and offset `len` gives the empty string. The result is itself a well-formed UTF-8 string. |
| `BTree.SufDB.SuffixOutcome` | src/btree.rs:43 | The evaluation of `suffix` on any handle. It succeeds exactly when the handle resolves, and then it yields `SuffixText`. It panics with an index error exactly when `doci` is out of range. It panics with a range error exactly when the document exists but `sufi` is past its end. Otherwise it panics because the offset is not a character boundary. |
| `BTree.Node.IsLeaf` | src/btree.rs:20-23 | A node is a leaf exactly when its edge list is absent; otherwise it is an internal node. |
| `BTree.SufDB.NodeValid` | src/btree.rs:11-23 | The invariants of one node: an internal node has exactly `suffixes.len() + 1` edges and at most `order` children, and every edge is the index of a node in the arena. Every key it holds names an existing document at a character boundary; this last part is inferred from lines 26 and 43, not documented. |
| `BTree.SufDB.Valid` | src/btree.rs:5-13 | The per-node invariants of the database: node 0, the root, is present, and every node of the arena satisfies `NodeValid`, so in particular every stored key sits on a character boundary of an existing document. The global tree shape is not part of it. |
| `BTree.InternalNodeShape` | src/btree.rs:11-23 | In a valid database, an internal node has exactly one more edge than keys. It has at most `order` children, so at most `order - 1` keys. Every edge is the index of a node in the arena. |
| `BTree.DescentStaysInArena` | src/btree.rs:5-7 | In a valid database, every walk down the tree that starts at the root (index 0) and follows edges of internal nodes stays inside the arena, and every node it reaches satisfies the node invariants. |
| `BTree.StoredKeysResolve` | src/btree.rs:18-19 | Every key stored in any node of a valid database names an existing document at a character boundary. So `suffix` on it does not panic, and it yields at most the whole document. |
| `BTree.ResolvesIffCharStart` | src/btree.rs:29-35 | A handle into an existing document resolves exactly when its offset is the end of the document or the start of one of its characters. An offset at which a character starts resolves and denotes a non-empty suffix. |
| `Utf8.IsCharBoundary` | src/btree.rs:43 | The character-boundary test that the slice `[sufi..]` performs: offset 0, the length, or an offset inside the string whose byte is not a continuation byte `10xxxxxx`. An offset past the end is not a boundary. A handle whose offset fails it makes `SuffixOutcome` report a panic. |
| `Utf8.BoundaryIffCharStart` | src/btree.rs:26 | For a well-formed UTF-8 string, an offset passes the byte-level boundary test (it is 0, it is the length, or it is inside the string and its byte is not a continuation byte `10xxxxxx`) exactly when it is the end of the string or the start of a character found by decoding from the front. |
| `Utf8.SplitAtBoundary` | src/btree.rs:43 | Slicing a well-formed UTF-8 string at a character boundary never goes past its end. Both the bytes before the offset and the bytes from it are well-formed UTF-8. This is why the `&str` that `suffix` returns is a valid string. |
| `Utf8.CharStartsInside` | src/btree.rs:26 | Every offset at which decoding starts a character lies strictly inside the string. |

## Left out

- `main` (src/btree.rs:47) is an empty entry point and has no behaviour to model.
- Search, lower-bound descent, prefix iteration, `contains`, insertion, node splitting, root promotion and the doubly linked leaf chain are not in this source file, so they are not modelled.
- The order-at-least-3 check at construction is not modelled. No constructor exists in this file, so `order` is any natural number and `Valid` does not bound it from below.
- Suffix enumeration (computing the offsets of all suffixes of a document) is done by another component and is not part of this model.
- Unicode beyond encoding well-formedness is not modelled: no code-point decoding, normalisation or case folding.
- Native integer width is not modelled. `usize` indices are unbounded naturals, because the accessors do no arithmetic that could overflow.
- Debug printing, the `dead_code` lint setting, I/O and paging are not modelled.
- `BTree.SufDB.Valid` states only the per-node invariants of src/btree.rs:5-7, 11-13 and 20-23: the root is present, an internal node has one more edge than keys and at most `order` children, and edges index into the arena. It does not capture the global tree shape: acyclicity (the root may be its own child), one parent per node, reachability of every node from the root, equal leaf depth, the `order - 1` key bound for leaves, or the minimum fill of non-root nodes. None of these is written in this source file.
- `BTree.SufDB.NodeValid` requires every stored key to name an existing document at a character boundary. The source does not document this. It is inferred from lines 26 and 43: a key that broke it would make `suffix` panic.
- The ordering of keys by suffix comparison and the key-range separation between children are not modelled. They are not stated in this source file.

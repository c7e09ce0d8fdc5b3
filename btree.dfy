/** The data model of the suffix database: a B-tree kept in an arena of nodes,
    whose keys are handles to suffixes of stored documents. */
module BTree {
  import opened Utf8

  datatype Option<T> = None | Some(value: T)

  /** A non-owning handle to one suffix: the document at index `doci`, read
      from byte offset `sufi` to its end. */
  datatype Suffix = Suffix(doci: nat, sufi: nat)

  /** A document: a contiguous, well-formed UTF-8 byte sequence. */
  datatype Document = Document(text: Text)

  /** A B-tree node. Its keys are `suffixes`; `edges` holds the arena indices
      of its children, and is `None` exactly when the node is a leaf. */
  datatype Node = Node(suffixes: seq<Suffix>, edges: Option<seq<nat>>) {

    predicate IsLeaf() {
      edges.None?
    }
  }

  /** The ways `SufDB::suffix` can panic: the document index is out of
      bounds, or the slice start is past the end of the document or falls
      inside an encoded character. */
  datatype Panic = IndexOutOfBounds | SliceOutOfRange | NotCharBoundary

  datatype Outcome<T> = Ok(value: T) | Panicked(reason: Panic)

  /** A suffix database: the node arena (index 0 is the root), the document
      store, and the Knuth order (the most children an internal node has). */
  datatype SufDB = SufDB(nodes: seq<Node>, documents: seq<Document>, order: nat) {

    /** `suf` names an existing document and an offset on one of its
        character boundaries, so that it denotes a suffix of that document. */
    predicate Resolves(suf: Suffix) {
      suf.doci < |documents| && IsCharBoundary(documents[suf.doci].text, suf.sufi)
    }

    /** The documented invariants of one node: an internal node has one more
        edge than it has keys, at most `order` children, and only edges into
        the arena; every key it holds resolves to a suffix. */
    predicate NodeValid(n: Node) {
      && (n.edges.Some? ==>
            && |n.edges.value| == |n.suffixes| + 1
            && |n.edges.value| <= order
            && (forall e :: e in n.edges.value ==> e < |nodes|))
      && (forall s :: s in n.suffixes ==> Resolves(s))
    }

    /** The per-node invariants of the database: the root (index 0) is
        present, and every node of the arena satisfies the node invariants.
        The global tree shape (acyclicity, one parent per node, equal leaf
        depth) is not part of it. */
    predicate Valid() {
      && |nodes| > 0
      && (forall i :: 0 <= i < |nodes| ==> NodeValid(nodes[i]))
    }

    /** The root node, `SufDB::root`: the node at arena index 0. Indexing an
        empty arena panics, so the arena must hold a node. In a valid
        database the root satisfies the node invariants, so each of its
        children, if any, is a node of the arena. */
    function Root(): (r: Node)
      requires |nodes| > 0
      ensures r == nodes[0]
      ensures Valid() ==> NodeValid(r)
    {
      nodes[0]
    }

    /** The text a suffix handle denotes, `SufDB::suffix`: the bytes of
        document `doci` from offset `sufi` to the end. The result is itself a
        well-formed string, and the document is the bytes before `sufi`
        followed by it. */
    function SuffixText(suf: Suffix): (r: Text)
      requires Resolves(suf)
      ensures suf.sufi <= |documents[suf.doci].text|
      ensures |r| == |documents[suf.doci].text| - suf.sufi
      ensures documents[suf.doci].text == documents[suf.doci].text[..suf.sufi] + r
      ensures forall k :: 0 <= k < |r| ==> r[k] == documents[suf.doci].text[suf.sufi + k]
      ensures suf.sufi == 0 ==> r == documents[suf.doci].text
      ensures suf.sufi == |documents[suf.doci].text| ==> r == []
    {
      var text := documents[suf.doci].text;
      SplitAtBoundary(text, suf.sufi);
      assert text == text[..suf.sufi] + text[suf.sufi..];
      text[suf.sufi..]
    }

    /** What evaluating `SufDB::suffix` on `suf` does in every case: the
        document index is checked first, then the slice start against the
        length, then the character boundary. */
    function SuffixOutcome(suf: Suffix): (r: Outcome<Text>)
      ensures r.Ok? <==> Resolves(suf)
      ensures r.Ok? ==> r.value == SuffixText(suf)
      ensures r == Panicked(IndexOutOfBounds) <==> suf.doci >= |documents|
      ensures r == Panicked(SliceOutOfRange) <==>
                suf.doci < |documents| && suf.sufi > |documents[suf.doci].text|
    {
      if suf.doci >= |documents| then Panicked(IndexOutOfBounds)
      else if suf.sufi > |documents[suf.doci].text| then Panicked(SliceOutOfRange)
      else if !IsCharBoundary(documents[suf.doci].text, suf.sufi) then Panicked(NotCharBoundary)
      else Ok(SuffixText(suf))
    }
  }

  /** In a valid database an internal node has exactly one more child than
      keys, at most `order` children and so at most `order - 1` keys, and
      every child is a node of the arena. */
  lemma InternalNodeShape(db: SufDB, i: nat)
    requires db.Valid() && i < |db.nodes|
    ensures !db.nodes[i].IsLeaf() ==>
              && |db.nodes[i].edges.value| == |db.nodes[i].suffixes| + 1
              && |db.nodes[i].suffixes| + 1 <= db.order
              && forall k :: 0 <= k < |db.nodes[i].edges.value| ==>
                   db.nodes[i].edges.value[k] < |db.nodes|
  {
    var n := db.nodes[i];
    assert db.NodeValid(n);
    if n.edges.Some? {
      forall k | 0 <= k < |n.edges.value| ensures n.edges.value[k] < |db.nodes| {
        assert n.edges.value[k] in n.edges.value;
      }
    }
  }

  /** `p` is a walk down the tree from the root: it starts at index 0 and each
      later index is one of the edges of the internal node before it. */
  predicate IsDescent(db: SufDB, p: seq<nat>) {
    && |p| > 0
    && p[0] == 0
    && (forall j :: 0 <= j < |p| - 1 ==>
          && p[j] < |db.nodes|
          && db.nodes[p[j]].edges.Some?
          && p[j + 1] in db.nodes[p[j]].edges.value)
  }

  /** In a valid database, following edges from the root never leaves the
      arena: every node reached by a walk down from the root exists and
      satisfies the node invariants. */
  lemma DescentStaysInArena(db: SufDB, p: seq<nat>)
    requires db.Valid() && IsDescent(db, p)
    ensures forall j :: 0 <= j < |p| ==> p[j] < |db.nodes| && db.NodeValid(db.nodes[p[j]])
  {
    forall j | 0 <= j < |p| ensures p[j] < |db.nodes| {
      if j > 0 {
        assert db.NodeValid(db.nodes[p[j - 1]]);
      }
    }
  }

  /** Every key stored in a valid database can be passed to `SuffixText` without
      panicking, and denotes a well-formed tail of its document. */
  lemma StoredKeysResolve(db: SufDB, i: nat, k: nat)
    requires db.Valid() && i < |db.nodes| && k < |db.nodes[i].suffixes|
    ensures db.Resolves(db.nodes[i].suffixes[k])
    ensures db.SuffixOutcome(db.nodes[i].suffixes[k]).Ok?
    ensures |db.SuffixText(db.nodes[i].suffixes[k])| <=
              |db.documents[db.nodes[i].suffixes[k].doci].text|
  {
  }

  /** A suffix handle resolves exactly when its offset does not split an
      encoded character of an existing document: it is the document's end or
      the start of one of its characters. An offset at which a character
      starts denotes a non-empty suffix. */
  lemma ResolvesIffCharStart(db: SufDB, suf: Suffix)
    requires suf.doci < |db.documents|
    ensures db.Resolves(suf) <==>
              (suf.sufi == |db.documents[suf.doci].text|
               || suf.sufi in CharStarts(db.documents[suf.doci].text))
    ensures suf.sufi in CharStarts(db.documents[suf.doci].text) ==>
              db.Resolves(suf) && |db.SuffixText(suf)| > 0
  {
    var text := db.documents[suf.doci].text;
    BoundaryIffCharStart(text, suf.sufi);
    if suf.sufi in CharStarts(text) {
      CharStartsInside(text, suf.sufi);
    }
  }
}

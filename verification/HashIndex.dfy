/** The index of block hashes: include/par2/verificationhashtable.h:93-235 and 353-480,
  src/verificationhashtable.cpp:36-112.

  Entries live in one list in the order in which they were loaded; links are positions in it, and
  NIL is the null pointer. */
module HashIndex {
  import opened Arithmetic
  import opened BitWords

  const NIL: int := -1

  /** One entry. `file` is the source file, `block` the number of its data block within that file. */
  datatype Node = Node(file: nat, block: nat, first: bool, crc: nat, hash: nat, left: int, right: int, same: int,
                       next: int)

  datatype Key = Key(crc: nat, hash: nat)

  function KeyOf(n: Node): Key { Key(n.crc, n.hash) }

  /** The order of the comparison operators. */
  predicate Less(a: Key, b: Key) {
    a.crc < b.crc || (a.crc == b.crc && a.hash < b.hash)
  }

  /** Every link leads to a later entry. */
  predicate LinkOk(nodes: seq<Node>, i: int, link: int) {
    link == NIL || i < link < |nodes|
  }

  ghost predicate Linked(nodes: seq<Node>) {
    forall i :: 0 <= i < |nodes| ==>
        LinkOk(nodes, i, nodes[i].left) && LinkOk(nodes, i, nodes[i].right) && LinkOk(nodes, i, nodes[i].same)
  }

  ghost predicate IsRoot(nodes: seq<Node>, i: int) {
    Linked(nodes) && (i == NIL || 0 <= i < |nodes|)
  }

  // ---------------------------------------------------------------------- trees and chains

  /** The entry with a key in the tree below i. */
  ghost function Find(nodes: seq<Node>, i: int, key: Key): (r: int)
    requires IsRoot(nodes, i)
    ensures IsRoot(nodes, r)
    decreases |nodes| - i
  {
    if i == NIL then NIL
    else if Less(KeyOf(nodes[i]), key) then (if nodes[i].right == NIL then NIL else Find(nodes, nodes[i].right, key))
    else if Less(key, KeyOf(nodes[i])) then (if nodes[i].left == NIL then NIL else Find(nodes, nodes[i].left, key))
    else i
  }

  /** The entries linked by `same` from entry i on. */
  ghost function Chain(nodes: seq<Node>, i: int): (r: seq<nat>)
    requires IsRoot(nodes, i)
    ensures forall k :: 0 <= k < |r| ==> r[k] < |nodes|
    decreases |nodes| - i
  {
    if i == NIL then [] else [i] + (if nodes[i].same == NIL then [] else Chain(nodes, nodes[i].same))
  }

  /** All keys in the tree below i satisfy P. */
  ghost predicate AllIn(nodes: seq<Node>, i: int, P: Key -> bool)
    requires IsRoot(nodes, i)
    decreases |nodes| - i
  {
    i != NIL ==>
      && P(KeyOf(nodes[i]))
      && (nodes[i].left != NIL ==> AllIn(nodes, nodes[i].left, P))
      && (nodes[i].right != NIL ==> AllIn(nodes, nodes[i].right, P))
  }

  function Below(key: Key): Key -> bool { (k: Key) => Less(k, key) }

  function Above(key: Key): Key -> bool { (k: Key) => Less(key, k) }

  /** A search tree. */
  ghost predicate Ordered(nodes: seq<Node>, i: int)
    requires IsRoot(nodes, i)
    decreases |nodes| - i
  {
    i != NIL ==>
      && (nodes[i].left != NIL ==> Ordered(nodes, nodes[i].left) && AllIn(nodes, nodes[i].left, Below(KeyOf(nodes[i]))))
      && (nodes[i].right != NIL ==>
          Ordered(nodes, nodes[i].right) && AllIn(nodes, nodes[i].right, Above(KeyOf(nodes[i]))))
  }

  /** The same entries, except for the links of entry p, and possibly more. */
  ghost predicate OnlyLinks(nodes: seq<Node>, nodes': seq<Node>, p: nat) {
    && Linked(nodes) && Linked(nodes') && |nodes| <= |nodes'| && p < |nodes|
    && (forall i :: 0 <= i < |nodes| && i != p ==> nodes'[i] == nodes[i])
    && KeyOf(nodes'[p]) == KeyOf(nodes[p])
  }

  /** A tree whose keys satisfy P is not touched by relinking an entry whose key does not. */
  lemma {:induction false} Untouched(nodes: seq<Node>, nodes': seq<Node>, p: nat, i: int, P: Key -> bool,
                                     Q: Key -> bool, key: Key)
    requires OnlyLinks(nodes, nodes', p) && IsRoot(nodes, i) && AllIn(nodes, i, P) && !P(KeyOf(nodes[p]))
    ensures Find(nodes', i, key) == Find(nodes, i, key)
    ensures AllIn(nodes', i, Q) == AllIn(nodes, i, Q)
    decreases |nodes| - i
  {
    if i != NIL {
      assert nodes'[i] == nodes[i];
      if nodes[i].left != NIL { Untouched(nodes, nodes', p, nodes[i].left, P, Q, key); }
      if nodes[i].right != NIL { Untouched(nodes, nodes', p, nodes[i].right, P, Q, key); }
    }
  }

  lemma {:induction false} UntouchedOrder(nodes: seq<Node>, nodes': seq<Node>, p: nat, i: int, P: Key -> bool)
    requires OnlyLinks(nodes, nodes', p) && IsRoot(nodes, i) && AllIn(nodes, i, P) && !P(KeyOf(nodes[p]))
             && Ordered(nodes, i)
    ensures Ordered(nodes', i)
    decreases |nodes| - i
  {
    if i != NIL {
      var key := KeyOf(nodes[i]);
      assert nodes'[i] == nodes[i];
      if nodes[i].left != NIL {
        UntouchedOrder(nodes, nodes', p, nodes[i].left, P);
        Untouched(nodes, nodes', p, nodes[i].left, P, Below(key), key);
      }
      if nodes[i].right != NIL {
        UntouchedOrder(nodes, nodes', p, nodes[i].right, P);
        Untouched(nodes, nodes', p, nodes[i].right, P, Above(key), key);
      }
    }
  }

  // ---------------------------------------------------------------------- inserting

  /** The pointer that Insert ends up at. */
  datatype Link = Left(i: nat) | Right(i: nat) | Same(i: nat)

  ghost function Last(nodes: seq<Node>, i: int): (r: nat)
    requires IsRoot(nodes, i) && i != NIL
    ensures r < |nodes| && nodes[r].same == NIL
    decreases |nodes| - i
  {
    if nodes[i].same == NIL then i else Last(nodes, nodes[i].same)
  }

  ghost function Attach(nodes: seq<Node>, i: int, key: Key): (r: Link)
    requires IsRoot(nodes, i) && i != NIL
    ensures r.i < |nodes|
    decreases |nodes| - i
  {
    if Less(KeyOf(nodes[i]), key) then (if nodes[i].right == NIL then Right(i) else Attach(nodes, nodes[i].right, key))
    else if Less(key, KeyOf(nodes[i]))
        then (if nodes[i].left == NIL then Left(i) else Attach(nodes, nodes[i].left, key))
    else Same(Last(nodes, i))
  }

  function SetLink(nodes: seq<Node>, link: Link, k: int): (r: seq<Node>)
    requires link.i < |nodes|
    ensures |r| == |nodes|
  {
    match link
    case Left(i) => nodes[i := nodes[i].(left := k)]
    case Right(i) => nodes[i := nodes[i].(right := k)]
    case Same(i) => nodes[i := nodes[i].(same := k)]
  }

  predicate IsLeaf(n: Node) { n.left == NIL && n.right == NIL && n.same == NIL }

  function Inserted(nodes: seq<Node>, link: Link, n: Node): seq<Node>
    requires link.i < |nodes|
  {
    SetLink(nodes + [n], link, |nodes|)
  }

  lemma InsertedLinks(nodes: seq<Node>, link: Link, n: Node)
    requires Linked(nodes) && link.i < |nodes| && IsLeaf(n)
    ensures OnlyLinks(nodes, Inserted(nodes, link, n), link.i) && |Inserted(nodes, link, n)| == |nodes| + 1
    ensures Inserted(nodes, link, n)[|nodes|] == n
  {}

  lemma FindLeaf(nodes: seq<Node>, k: nat, key: Key)
    requires Linked(nodes) && k < |nodes| && IsLeaf(nodes[k])
    ensures Find(nodes, k, key) == if key == KeyOf(nodes[k]) then k else NIL
    ensures Ordered(nodes, k) && Chain(nodes, k) == [k]
  {}

  /** Hanging a new entry into the tree adds its key and changes nothing else. */
  lemma {:induction false} TreeInsert(nodes: seq<Node>, i: int, n: Node, key: Key)
    requires IsRoot(nodes, i) && i != NIL && Ordered(nodes, i) && IsLeaf(n) && Find(nodes, i, KeyOf(n)) == NIL
    ensures var link := Attach(nodes, i, KeyOf(n));
            && !link.Same?
            && var nodes' := Inserted(nodes, link, n);
               && OnlyLinks(nodes, nodes', link.i)
               && Find(nodes', i, key) == if key == KeyOf(n) then |nodes| else Find(nodes, i, key)
    decreases |nodes| - i
  {
    var at := KeyOf(nodes[i]);
    var link := Attach(nodes, i, KeyOf(n));
    var nodes' := Inserted(nodes, link, n);
    InsertedLinks(nodes, link, n);
    FindLeaf(nodes', |nodes|, key);
    if Less(at, KeyOf(n)) {
      if nodes[i].right != NIL {
        TreeInsert(nodes, nodes[i].right, n, key);
        AttachInside(nodes, nodes[i].right, KeyOf(n), Above(at));
      }
      if nodes[i].left != NIL { Untouched(nodes, nodes', link.i, nodes[i].left, Below(at), Below(at), key); }
    } else {
      if nodes[i].left != NIL {
        TreeInsert(nodes, nodes[i].left, n, key);
        AttachInside(nodes, nodes[i].left, KeyOf(n), Below(at));
      }
      if nodes[i].right != NIL { Untouched(nodes, nodes', link.i, nodes[i].right, Above(at), Above(at), key); }
    }
  }

  /** The entry that Insert stops at in a tree has a key of that tree. */
  lemma {:induction false} AttachInside(nodes: seq<Node>, i: int, key: Key, P: Key -> bool)
    requires IsRoot(nodes, i) && i != NIL && AllIn(nodes, i, P)
    ensures var link := Attach(nodes, i, key); !link.Same? ==> P(KeyOf(nodes[link.i]))
    decreases |nodes| - i
  {
    if Less(KeyOf(nodes[i]), key) {
      if nodes[i].right != NIL { AttachInside(nodes, nodes[i].right, key, P); }
    } else if Less(key, KeyOf(nodes[i])) {
      if nodes[i].left != NIL { AttachInside(nodes, nodes[i].left, key, P); }
    }
  }

  lemma {:induction false} TreeInsertIn(nodes: seq<Node>, i: int, n: Node, P: Key -> bool)
    requires IsRoot(nodes, i) && i != NIL && Ordered(nodes, i) && IsLeaf(n) && Find(nodes, i, KeyOf(n)) == NIL
    requires AllIn(nodes, i, P) && P(KeyOf(n))
    ensures var link := Attach(nodes, i, KeyOf(n));
            && !link.Same? && OnlyLinks(nodes, Inserted(nodes, link, n), link.i)
               && AllIn(Inserted(nodes, link, n), i, P)
    decreases |nodes| - i
  {
    var at := KeyOf(nodes[i]);
    var link := Attach(nodes, i, KeyOf(n));
    var nodes' := Inserted(nodes, link, n);
    InsertedLinks(nodes, link, n);
    if Less(at, KeyOf(n)) {
      if nodes[i].right != NIL {
        TreeInsertIn(nodes, nodes[i].right, n, P);
        AttachInside(nodes, nodes[i].right, KeyOf(n), Above(at));
      }
      if nodes[i].left != NIL { Untouched(nodes, nodes', link.i, nodes[i].left, Below(at), P, at); }
    } else {
      if nodes[i].left != NIL {
        TreeInsertIn(nodes, nodes[i].left, n, P);
        AttachInside(nodes, nodes[i].left, KeyOf(n), Below(at));
      }
      if nodes[i].right != NIL { Untouched(nodes, nodes', link.i, nodes[i].right, Above(at), P, at); }
    }
  }

  lemma {:induction false} TreeInsertOrder(nodes: seq<Node>, i: int, n: Node)
    requires IsRoot(nodes, i) && i != NIL && Ordered(nodes, i) && IsLeaf(n) && Find(nodes, i, KeyOf(n)) == NIL
    ensures var link := Attach(nodes, i, KeyOf(n));
            && !link.Same? && OnlyLinks(nodes, Inserted(nodes, link, n), link.i) && Ordered(Inserted(nodes, link, n), i)
    decreases |nodes| - i
  {
    var at := KeyOf(nodes[i]);
    var link := Attach(nodes, i, KeyOf(n));
    var nodes' := Inserted(nodes, link, n);
    InsertedLinks(nodes, link, n);
    FindLeaf(nodes', |nodes|, at);
    if Less(at, KeyOf(n)) {
      if nodes[i].right != NIL {
        TreeInsertOrder(nodes, nodes[i].right, n);
        TreeInsertIn(nodes, nodes[i].right, n, Above(at));
        AttachInside(nodes, nodes[i].right, KeyOf(n), Above(at));
      }
      if nodes[i].left != NIL {
        UntouchedOrder(nodes, nodes', link.i, nodes[i].left, Below(at));
        Untouched(nodes, nodes', link.i, nodes[i].left, Below(at), Below(at), at);
      }
    } else {
      if nodes[i].left != NIL {
        TreeInsertOrder(nodes, nodes[i].left, n);
        TreeInsertIn(nodes, nodes[i].left, n, Below(at));
        AttachInside(nodes, nodes[i].left, KeyOf(n), Below(at));
      }
      if nodes[i].right != NIL {
        UntouchedOrder(nodes, nodes', link.i, nodes[i].right, Above(at));
        Untouched(nodes, nodes', link.i, nodes[i].right, Above(at), Above(at), at);
      }
    }
  }

  // ---------------------------------------------------------------------- chains of equal entries

  /** The same trees: keys and tree links agree. */
  ghost predicate SameTrees(nodes: seq<Node>, nodes': seq<Node>) {
    && Linked(nodes) && Linked(nodes') && |nodes| <= |nodes'|
    && forall i :: 0 <= i < |nodes| ==>
       KeyOf(nodes'[i]) == KeyOf(nodes[i]) && nodes'[i].left == nodes[i].left && nodes'[i].right == nodes[i].right
  }

  lemma {:induction false} SameTree(nodes: seq<Node>, nodes': seq<Node>, i: int, key: Key, P: Key -> bool)
    requires SameTrees(nodes, nodes') && IsRoot(nodes, i)
    ensures Find(nodes', i, key) == Find(nodes, i, key)
    ensures AllIn(nodes', i, P) == AllIn(nodes, i, P)
    decreases |nodes| - i
  {
    if i != NIL {
      if nodes[i].left != NIL { SameTree(nodes, nodes', nodes[i].left, key, P); }
      if nodes[i].right != NIL { SameTree(nodes, nodes', nodes[i].right, key, P); }
    }
  }

  lemma {:induction false} SameTreeOrder(nodes: seq<Node>, nodes': seq<Node>, i: int)
    requires SameTrees(nodes, nodes') && IsRoot(nodes, i)
    ensures Ordered(nodes', i) == Ordered(nodes, i)
    decreases |nodes| - i
  {
    if i != NIL {
      var at := KeyOf(nodes[i]);
      if nodes[i].left != NIL {
        SameTreeOrder(nodes, nodes', nodes[i].left);
        SameTree(nodes, nodes', nodes[i].left, at, Below(at));
      }
      if nodes[i].right != NIL {
        SameTreeOrder(nodes, nodes', nodes[i].right);
        SameTree(nodes, nodes', nodes[i].right, at, Above(at));
      }
    }
  }

  /** A chain that does not contain entry p does not change when p is relinked. */
  lemma {:induction false} ChainKept(nodes: seq<Node>, nodes': seq<Node>, p: nat, i: int)
    requires OnlyLinks(nodes, nodes', p) && IsRoot(nodes, i) && p !in Chain(nodes, i)
    ensures Chain(nodes', i) == Chain(nodes, i)
    decreases |nodes| - i
  {
    if i != NIL {
      assert nodes'[i] == nodes[i];
      if nodes[i].same != NIL { ChainKept(nodes, nodes', p, nodes[i].same); }
    }
  }

  lemma {:induction false} ChainSame(nodes: seq<Node>, nodes': seq<Node>, i: int)
    requires Linked(nodes) && Linked(nodes') && |nodes| <= |nodes'| && IsRoot(nodes, i)
    requires forall k :: 0 <= k < |nodes| ==> nodes'[k].same == nodes[k].same
    ensures Chain(nodes', i) == Chain(nodes, i)
    decreases |nodes| - i
  {
    if i != NIL && nodes[i].same != NIL { ChainSame(nodes, nodes', nodes[i].same); }
  }

  lemma {:induction false} LastInChain(nodes: seq<Node>, i: int)
    requires IsRoot(nodes, i) && i != NIL
    ensures Last(nodes, i) in Chain(nodes, i)
    decreases |nodes| - i
  {
    if nodes[i].same != NIL { LastInChain(nodes, nodes[i].same); }
  }

  /** Linking a new entry to the end of a chain appends it. */
  lemma {:induction false} ChainInsert(nodes: seq<Node>, i: int, n: Node)
    requires IsRoot(nodes, i) && i != NIL && IsLeaf(n)
    ensures var nodes' := Inserted(nodes, Same(Last(nodes, i)), n);
    Linked(nodes') && Chain(nodes', i) == Chain(nodes, i) + [|nodes|]
    decreases |nodes| - i
  {
    var nodes' := Inserted(nodes, Same(Last(nodes, i)), n);
    InsertedLinks(nodes, Same(Last(nodes, i)), n);
    FindLeaf(nodes', |nodes|, KeyOf(n));
    if nodes[i].same != NIL {
      ChainInsert(nodes, nodes[i].same, n);
      assert nodes'[i].same == nodes[i].same;
    }
  }

  // ---------------------------------------------------------------------- buckets

  /** crc & hashmask, where the number of buckets, hashmask + 1, is a power of two. */
  function Bucket(size: nat, crc: nat): (b: nat)
    requires size > 0
    ensures b < size
  {
    crc % size
  }

  /** It is what the program computes: the crc masked with the number of buckets less one. */
  lemma BucketIsMask(crc: Bits32, n: nat)
    requires n <= 32
    ensures Bucket(Pow2(n), Number(crc)) == Number(AndBits(crc, FromNumber(Pow2(n) - 1, 32)))
  {
    MaskIsRemainder(crc, n);
  }

  function InBucket(size: nat, b: nat): Key -> bool
    requires size > 0
  {
    (k: Key) => Bucket(size, k.crc) == b
  }

  ghost predicate Bucketed(nodes: seq<Node>, table: seq<int>) {
    && Linked(nodes) && |table| > 0
    && forall b :: 0 <= b < |table| ==>
       IsRoot(nodes, table[b]) && Ordered(nodes, table[b]) && AllIn(nodes, table[b], InBucket(|table|, b))
  }

  /** What a search for a key leads to. */
  ghost function View(nodes: seq<Node>, table: seq<int>, key: Key): seq<nat>
    requires Bucketed(nodes, table)
  {
    Chain(nodes, Find(nodes, table[Bucket(|table|, key.crc)], key))
  }

  /** The entries with a key among the first n loaded, in load order: a linear scan. */
  ghost function Matching(nodes: seq<Node>, n: nat, key: Key): (r: seq<nat>)
    requires n <= |nodes|
    ensures forall i :: 0 <= i < |r| ==> r[i] < n && KeyOf(nodes[r[i]]) == key
  {
    if n == 0 then [] else Matching(nodes, n - 1, key) + if KeyOf(nodes[n - 1]) == key then [n - 1] else []
  }

  /** For every key the search leads to what a linear scan finds. */
  ghost predicate Indexed(nodes: seq<Node>, table: seq<int>) {
    Bucketed(nodes, table) && forall key :: View(nodes, table, key) == Matching(nodes, |nodes|, key)
  }

  lemma {:induction false} MatchingSame(nodes: seq<Node>, nodes': seq<Node>, n: nat, key: Key)
    requires n <= |nodes| <= |nodes'| && forall i :: 0 <= i < n ==> KeyOf(nodes'[i]) == KeyOf(nodes[i])
    ensures Matching(nodes', n, key) == Matching(nodes, n, key)
  {
    if n > 0 { MatchingSame(nodes, nodes', n - 1, key); }
  }

  lemma MatchingMore(nodes: seq<Node>, nodes': seq<Node>, key: Key)
    requires |nodes'| == |nodes| + 1 && forall i :: 0 <= i < |nodes| ==> KeyOf(nodes'[i]) == KeyOf(nodes[i])
    ensures Matching(nodes', |nodes'|, key) == Matching(nodes, |nodes|, key) + if KeyOf(nodes'[|nodes|]) == key
            then [|nodes|] else []
  {
    MatchingSame(nodes, nodes', |nodes|, key);
  }

  /** What Insert does to the entries and the buckets. */
  ghost function NodesAfter(nodes: seq<Node>, table: seq<int>, n: Node): seq<Node>
    requires Bucketed(nodes, table)
  {
    var root := table[Bucket(|table|, n.crc)];
    if root == NIL then nodes + [n] else Inserted(nodes, Attach(nodes, root, KeyOf(n)), n)
  }

  ghost function TableAfter(nodes: seq<Node>, table: seq<int>, n: Node): seq<int>
    requires |table| > 0
  {
    var b := Bucket(|table|, n.crc);
    if table[b] == NIL then table[b := |nodes|] else table
  }

  /** A new entry in an empty bucket. */
  lemma InsertEmpty(nodes: seq<Node>, table: seq<int>, n: Node, key: Key)
    requires Bucketed(nodes, table) && IsLeaf(n) && table[Bucket(|table|, n.crc)] == NIL
    ensures var nodes', table' := nodes + [n], table[Bucket(|table|, n.crc) := |nodes|];
            && Bucketed(nodes', table')
            && View(nodes', table', key) == View(nodes, table, key) + if key == KeyOf(n) then [|nodes|] else []
  {
    var size, b := |table|, Bucket(|table|, n.crc);
    var nodes', table' := nodes + [n], table[b := |nodes|];
    assert SameTrees(nodes, nodes');
    FindLeaf(nodes', |nodes|, key);
    forall c | 0 <= c < size
      ensures IsRoot(nodes', table'[c]) && Ordered(nodes', table'[c]) && AllIn(nodes', table'[c], InBucket(size, c)) {
      if c != b {
        SameTreeOrder(nodes, nodes', table[c]);
        SameTree(nodes, nodes', table[c], key, InBucket(size, c));
      }
    }
    var c := Bucket(size, key.crc);
    if c != b {
      SameTree(nodes, nodes', table[c], key, InBucket(size, c));
      ChainSame(nodes, nodes', Find(nodes, table[c], key));
    }
  }

  /** The other buckets when an entry of this bucket is relinked. */
  lemma OtherBucket(nodes: seq<Node>, table: seq<int>, nodes': seq<Node>, p: nat, c: nat, key: Key)
    requires Bucketed(nodes, table) && OnlyLinks(nodes, nodes', p) && c < |table| && Bucket(|table|, nodes[p].crc) != c
    ensures IsRoot(nodes', table[c]) && Ordered(nodes', table[c]) && AllIn(nodes', table[c], InBucket(|table|, c))
    ensures Find(nodes', table[c], key) == Find(nodes, table[c], key)
  {
    var P := InBucket(|table|, c);
    Untouched(nodes, nodes', p, table[c], P, P, key);
    UntouchedOrder(nodes, nodes', p, table[c], P);
  }

  lemma InsertedSame(nodes: seq<Node>, link: Link, n: Node)
    requires link.i < |nodes| && !link.Same?
    ensures forall k :: 0 <= k < |nodes| ==> Inserted(nodes, link, n)[k].same == nodes[k].same
  {}

  /** A new key in a bucket that is in use. */
  lemma InsertNew(nodes: seq<Node>, table: seq<int>, n: Node, key: Key)
    requires Bucketed(nodes, table) && IsLeaf(n) && table[Bucket(|table|, n.crc)] != NIL
             && Find(nodes, table[Bucket(|table|, n.crc)], KeyOf(n)) == NIL
    ensures var nodes' := NodesAfter(nodes, table, n);
            Bucketed(nodes', table)
                && View(nodes', table, key) == View(nodes, table, key) + if key == KeyOf(n) then [|nodes|] else []
  {
    hide Ordered, AllIn, Find, Attach, Inserted, Bucket;
    var size, b := |table|, Bucket(|table|, n.crc);
    var link := Attach(nodes, table[b], KeyOf(n));
    var nodes' := Inserted(nodes, link, n);
    InsertedLinks(nodes, link, n);
    TreeInsert(nodes, table[b], n, key);
    TreeInsertOrder(nodes, table[b], n);
    TreeInsertIn(nodes, table[b], n, InBucket(size, b));
    AttachInside(nodes, table[b], KeyOf(n), InBucket(size, b));
    forall c | 0 <= c < size
      ensures IsRoot(nodes', table[c]) && Ordered(nodes', table[c]) && AllIn(nodes', table[c], InBucket(size, c)) {
      if c != b { OtherBucket(nodes, table, nodes', link.i, c, key); }
    }
    NewView(nodes, table, n, key, link);
  }

  lemma NewView(nodes: seq<Node>, table: seq<int>, n: Node, key: Key, link: Link)
    requires Bucketed(nodes, table) && IsLeaf(n) && link.i < |nodes| && !link.Same?
    requires Bucketed(Inserted(nodes, link, n), table)
    requires Find(nodes, table[Bucket(|table|, n.crc)], KeyOf(n)) == NIL
             && Bucket(|table|, nodes[link.i].crc) == Bucket(|table|, n.crc)
    requires Find(Inserted(nodes, link, n), table[Bucket(|table|, n.crc)], key)
          == if key == KeyOf(n) then |nodes| else Find(nodes, table[Bucket(|table|, n.crc)], key)
    ensures View(Inserted(nodes, link, n), table, key) == View(nodes, table, key) + if key == KeyOf(n) then [|nodes|]
            else []
  {
    hide Ordered, AllIn, Find, Inserted, Bucket;
    var nodes' := Inserted(nodes, link, n);
    InsertedLinks(nodes, link, n);
    InsertedSame(nodes, link, n);
    FindLeaf(nodes', |nodes|, key);
    var b, c := Bucket(|table|, n.crc), Bucket(|table|, key.crc);
    if c != b { OtherBucket(nodes, table, nodes', link.i, c, key); }
    ChainSame(nodes, nodes', Find(nodes, table[c], key));
  }

  lemma {:induction false} AttachFound(nodes: seq<Node>, i: int, key: Key)
    requires IsRoot(nodes, i) && i != NIL && Find(nodes, i, key) != NIL
    ensures Attach(nodes, i, key) == Same(Last(nodes, Find(nodes, i, key)))
    decreases |nodes| - i
  {
    if Less(KeyOf(nodes[i]), key) { AttachFound(nodes, nodes[i].right, key); }
    else if Less(key, KeyOf(nodes[i])) { AttachFound(nodes, nodes[i].left, key); }
  }

  /** The buckets are right whatever the chains are. */
  lemma SameTreesBucketed(nodes: seq<Node>, nodes': seq<Node>, table: seq<int>)
    requires Bucketed(nodes, table) && SameTrees(nodes, nodes')
    ensures Bucketed(nodes', table)
  {
    hide Ordered, AllIn, Find;
    var size := |table|;
    forall c | 0 <= c < size
      ensures IsRoot(nodes', table[c]) && Ordered(nodes', table[c]) && AllIn(nodes', table[c], InBucket(size, c))
    {
      SameTreeOrder(nodes, nodes', table[c]);
      SameTree(nodes, nodes', table[c], Key(0, 0), InBucket(size, c));
    }
  }

  /** Where the chain with the key of a new entry ends. */
  lemma ChainEnd(nodes: seq<Node>, table: seq<int>, key: Key) returns (p: nat)
    requires Indexed(nodes, table) && Find(nodes, table[Bucket(|table|, key.crc)], key) != NIL
    ensures p == Last(nodes, Find(nodes, table[Bucket(|table|, key.crc)], key)) && p < |nodes| && KeyOf(nodes[p]) == key
  {
    hide Find, Ordered, AllIn, Chain, Matching;
    var head := Find(nodes, table[Bucket(|table|, key.crc)], key);
    p := Last(nodes, head);
    LastInChain(nodes, head);
    assert Chain(nodes, head) == View(nodes, table, key);
  }

  lemma SameView(nodes: seq<Node>, table: seq<int>, n: Node, key: Key, p: nat)
    requires Indexed(nodes, table) && IsLeaf(n) && Find(nodes, table[Bucket(|table|, n.crc)], KeyOf(n)) != NIL
    requires p == Last(nodes, Find(nodes, table[Bucket(|table|, n.crc)], KeyOf(n))) && p < |nodes|
             && KeyOf(nodes[p]) == KeyOf(n)
    requires var nodes' := Inserted(nodes, Same(p), n);
             OnlyLinks(nodes, nodes', p) && SameTrees(nodes, nodes') && Bucketed(nodes', table)
    ensures View(Inserted(nodes, Same(p), n), table, key) == View(nodes, table, key) + if key == KeyOf(n)
            then [|nodes|] else []
  {
    hide Find, Ordered, AllIn, Chain, Matching, Last, Inserted, SameTrees, OnlyLinks;
    var nodes', c := Inserted(nodes, Same(p), n), Bucket(|table|, key.crc);
    SameTree(nodes, nodes', table[c], key, InBucket(|table|, c));
    if key == KeyOf(n) {
      ChainInsert(nodes, Find(nodes, table[c], key), n);
    } else {
      assert View(nodes, table, key) == Matching(nodes, |nodes|, key);
      assert p !in Matching(nodes, |nodes|, key);
      ChainKept(nodes, nodes', p, Find(nodes, table[c], key));
    }
  }

  /** Another entry with a key that is there already. */
  lemma InsertSame(nodes: seq<Node>, table: seq<int>, n: Node, key: Key)
    requires Indexed(nodes, table) && IsLeaf(n) && table[Bucket(|table|, n.crc)] != NIL
    requires Find(nodes, table[Bucket(|table|, n.crc)], KeyOf(n)) != NIL
    ensures var nodes' := NodesAfter(nodes, table, n);
            Bucketed(nodes', table)
                && View(nodes', table, key) == View(nodes, table, key) + if key == KeyOf(n) then [|nodes|] else []
  {
    hide Find, Ordered, AllIn, Chain, Matching, View, Last, Attach;
    var p := ChainEnd(nodes, table, KeyOf(n));
    AttachFound(nodes, table[Bucket(|table|, n.crc)], KeyOf(n));
    var nodes' := Inserted(nodes, Same(p), n);
    InsertedLinks(nodes, Same(p), n);
    assert SameTrees(nodes, nodes');
    SameTreesBucketed(nodes, nodes', table);
    SameView(nodes, table, n, key, p);
  }

  lemma InsertCase(nodes: seq<Node>, table: seq<int>, n: Node, key: Key)
    requires Indexed(nodes, table) && IsLeaf(n)
    ensures var nodes', table' := NodesAfter(nodes, table, n), TableAfter(nodes, table, n);
            Bucketed(nodes', table')
                && View(nodes', table', key) == View(nodes, table, key) + if key == KeyOf(n) then [|nodes|] else []
  {
    var root := table[Bucket(|table|, n.crc)];
    if root == NIL { InsertEmpty(nodes, table, n, key); }
    else if Find(nodes, root, KeyOf(n)) == NIL { InsertNew(nodes, table, n, key); }
    else { InsertSame(nodes, table, n, key); }
  }

  lemma NodesAfterKeys(nodes: seq<Node>, table: seq<int>, n: Node)
    requires Bucketed(nodes, table) && IsLeaf(n)
    ensures var nodes' := NodesAfter(nodes, table, n);
            |nodes'| == |nodes| + 1 && KeyOf(nodes'[|nodes|]) == KeyOf(n)
                && forall i :: 0 <= i < |nodes| ==> KeyOf(nodes'[i]) == KeyOf(nodes[i])
  {
    hide Ordered, AllIn, Find, Attach;
    var root := table[Bucket(|table|, n.crc)];
    if root != NIL { InsertedLinks(nodes, Attach(nodes, root, KeyOf(n)), n); }
  }

  /** Insert keeps the index in agreement with the linear scan. */
  lemma InsertKeeps(nodes: seq<Node>, table: seq<int>, n: Node)
    requires Indexed(nodes, table) && IsLeaf(n)
    ensures Indexed(NodesAfter(nodes, table, n), TableAfter(nodes, table, n))
  {
    assert |table| > 0;
    hide Bucketed, View, NodesAfter, TableAfter;
    var nodes', table' := NodesAfter(nodes, table, n), TableAfter(nodes, table, n);
    InsertCase(nodes, table, n, KeyOf(n));
    forall key ensures View(nodes', table', key) == Matching(nodes', |nodes'|, key) {
      InsertCase(nodes, table, n, key);
      NodesAfterKeys(nodes, table, n);
      MatchingMore(nodes, nodes', key);
    }
  }

  // ---------------------------------------------------------------------- searching in two stages

  /** The topmost entry with a crc. */
  ghost function FindCrc(nodes: seq<Node>, i: int, crc: nat): (r: int)
    requires IsRoot(nodes, i)
    ensures IsRoot(nodes, r) && (r != NIL ==> nodes[r].crc == crc)
    decreases |nodes| - i
  {
    if i == NIL then NIL
    else if nodes[i].crc < crc then (if nodes[i].right == NIL then NIL else FindCrc(nodes, nodes[i].right, crc))
    else if crc < nodes[i].crc then (if nodes[i].left == NIL then NIL else FindCrc(nodes, nodes[i].left, crc))
    else i
  }

  /** Searching by crc and then by hash below the entry found is searching by both. */
  lemma {:induction false} TwoStages(nodes: seq<Node>, i: int, key: Key)
    requires IsRoot(nodes, i)
    ensures var e := FindCrc(nodes, i, key.crc); Find(nodes, i, key) == if e == NIL then NIL else Find(nodes, e, key)
    decreases |nodes| - i
  {
    if i != NIL {
      if nodes[i].crc < key.crc {
        if nodes[i].right != NIL { TwoStages(nodes, nodes[i].right, key); }
      } else if key.crc < nodes[i].crc {
        if nodes[i].left != NIL { TwoStages(nodes, nodes[i].left, key); }
      }
    }
  }

  method SearchCrc(nodes: seq<Node>, start: int, crc: nat) returns (entry: int)
    requires IsRoot(nodes, start)
    ensures entry == FindCrc(nodes, start, crc)
  {
    entry := start;
    while entry != NIL
      invariant IsRoot(nodes, entry) && FindCrc(nodes, entry, crc) == FindCrc(nodes, start, crc)
      decreases if entry == NIL then 0 else |nodes| - entry
    {
      if nodes[entry].crc < crc {
        entry := nodes[entry].right;
      } else if nodes[entry].crc > crc {
        entry := nodes[entry].left;
      } else {
        break;
      }
    }
  }

  method SearchHash(nodes: seq<Node>, start: int, hash: nat) returns (entry: int)
    requires IsRoot(nodes, start) && start != NIL
    ensures entry == Find(nodes, start, Key(nodes[start].crc, hash))
  {
    var crc := nodes[start].crc;
    entry := start;
    while entry != NIL
      invariant IsRoot(nodes, entry) && Find(nodes, entry, Key(crc, hash)) == Find(nodes, start, Key(crc, hash))
      decreases if entry == NIL then 0 else |nodes| - entry
    {
      var e := nodes[entry];
      if e.crc < crc || (e.crc == crc && e.hash < hash) {
        entry := e.right;
      } else if e.crc > crc || (e.crc == crc && e.hash > hash) {
        entry := e.left;
      } else {
        break;
      }
    }
  }

  // ---------------------------------------------------------------------- the table

  /** The crc and hash of one block, as a verification packet lists them. */
  datatype BlockEntry = BlockEntry(crc: nat, hash: nat)

  lemma Below65536(n: nat)
    requires 8 <= n <= 16
    ensures Pow2(n + 1) == 2 * Pow2(n) && 256 <= Pow2(n) <= 65536 && (Pow2(n) < 65536 <==> n < 16)
  {
    assert Pow2(8) == 256;
    Pow2Add(8, 8);
    Pow2Monotone(8, n);
    Pow2Monotone(n, 15);
  }

  class VerificationHashTable {
    var nodes: seq<Node>
    var hashtable: seq<int>
    var hashmask: nat

    ghost predicate Valid()
      reads this
    {
      |hashtable| == hashmask + 1 && Indexed(nodes, hashtable)
    }

    /** A table with as many buckets as the number of blocks suggests, between 256 and 65536. */
    constructor SetLimit(limit: nat)
      ensures Valid() && nodes == []
      ensures exists n :: 8 <= n <= 16 && |hashtable| == Pow2(n)
      ensures 256 <= |hashtable| <= 65536 && (limit <= 65536 ==> |hashtable| >= limit)
      ensures |hashtable| > 256 ==> |hashtable| < 2 * limit
    {
      var size := 256;
      ghost var n := 8;
      assert Pow2(8) == 256;
      while size < limit && size < 65536
        invariant 8 <= n <= 16 && size == Pow2(n)
        invariant size > 256 ==> size < 2 * limit
        decreases 16 - n
      {
        Below65536(n);
        size, n := 2 * size, n + 1;
      }
      Below65536(n);
      nodes, hashtable, hashmask := [], seq(size, _ => NIL), size - 1;
    }

    /** Link a new entry into its bucket: down the tree to its place, or along the entries equal to it. */
    method Insert(n: Node)
      requires Valid() && IsLeaf(n)
      modifies this
      ensures Valid() && hashmask == old(hashmask)
      ensures nodes == NodesAfter(old(nodes), old(hashtable), n)
              && hashtable == TableAfter(old(nodes), old(hashtable), n)
    {
      var b := Bucket(|hashtable|, n.crc);
      InsertKeeps(nodes, hashtable, n);
      var root := hashtable[b];
      if root == NIL {
        hashtable := hashtable[b := |nodes|];
        nodes := nodes + [n];
        return;
      }
      var parent := FindPlace(nodes, root, n);
      nodes := SetLink(nodes + [n], parent, |nodes|);
    }

    /** Load the blocks of one source file, linking each to the next. */
    method Load(file: nat, entries: seq<BlockEntry>)
      requires Valid()
      modifies this
      ensures Valid() && hashmask == old(hashmask)
      ensures Loaded(old(nodes), nodes, file, entries, |entries|)
    {
      hide Indexed, Loaded;
      NothingLoaded(nodes, file, entries);
      var preventry := NIL;
      var blocknumber := 0;
      while blocknumber < |entries|
        invariant 0 <= blocknumber <= |entries| && |nodes| == |old(nodes)| + blocknumber
        invariant Valid() && hashmask == old(hashmask)
        invariant Loaded(old(nodes), nodes, file, entries, blocknumber)
        invariant preventry == if blocknumber == 0 then NIL else |nodes| - 1
      {
        preventry := LoadEntry(file, entries, blocknumber, preventry, old(nodes));
        blocknumber := blocknumber + 1;
      }
    }

    /** Load one block and make the block before it point to it. */
    method LoadEntry(file: nat, entries: seq<BlockEntry>, blocknumber: nat, preventry: int, ghost before: seq<Node>)
      returns (k: int)
      requires Valid() && blocknumber < |entries|
      requires Loaded(before, nodes, file, entries, blocknumber)
      requires preventry == if blocknumber == 0 then NIL else |nodes| - 1
      modifies this
      ensures Valid() && hashmask == old(hashmask)
      ensures |nodes| == |old(nodes)| + 1 && k == |nodes| - 1
      ensures Loaded(before, nodes, file, entries, blocknumber + 1)
    {
      LoadedSize(before, nodes, file, entries, blocknumber);
      hide Indexed, NodesAfter, TableAfter, Loaded, Grown;
      var entry := entries[blocknumber];
      k := |nodes|;
      var n := Node(file, blocknumber, blocknumber == 0, entry.crc, entry.hash, NIL, NIL, NIL, NIL);
      IdentityKept(nodes, hashtable, n);
      Insert(n);
      GrownSize(old(nodes), nodes, n);
      LoadedMore(before, old(nodes), nodes, file, entries, blocknumber, n);
      if preventry != NIL {
        NextIrrelevant(nodes, hashtable, preventry, k);
        nodes := nodes[preventry := nodes[preventry].(next := k)];
      }
    }
  }

  /** Everything about an entry but its place in the trees and chains. */
  predicate SameIdentity(n: Node, n': Node) {
    n'.file == n.file && n'.block == n.block && n'.first == n.first && n'.crc == n.crc && n'.hash == n.hash
        && n'.next == n.next
  }

  /** The first count blocks of a file have been loaded behind the earlier entries. */
  ghost predicate Loaded(before: seq<Node>, now: seq<Node>, file: nat, entries: seq<BlockEntry>, count: nat) {
    && count <= |entries| && |now| == |before| + count
    && (forall i :: 0 <= i < |before| ==> SameIdentity(before[i], now[i]))
    && (forall i :: |before| <= i < |now| ==>
          IsBlock(now[i], file, entries, i - |before|, if i + 1 < |now| then i + 1 else NIL))
  }

  /** The entry of block j of a file. */
  predicate IsBlock(n: Node, file: nat, entries: seq<BlockEntry>, j: nat, next: int) {
    && j < |entries| && n.file == file && n.block == j && n.first == (j == 0)
    && n.crc == entries[j].crc && n.hash == entries[j].hash && n.next == next
  }

  lemma NothingLoaded(nodes: seq<Node>, file: nat, entries: seq<BlockEntry>)
    ensures Loaded(nodes, nodes, file, entries, 0)
  {}

  lemma LoadedSize(before: seq<Node>, now: seq<Node>, file: nat, entries: seq<BlockEntry>, count: nat)
    requires Loaded(before, now, file, entries, count)
    ensures |now| == |before| + count
  {}

  /** One entry has been added and the others have kept their identity. */
  ghost predicate Grown(nodes: seq<Node>, nodes': seq<Node>, n: Node) {
    && |nodes'| == |nodes| + 1 && SameIdentity(n, nodes'[|nodes|])
    && forall i :: 0 <= i < |nodes| ==> SameIdentity(nodes[i], nodes'[i])
  }

  lemma GrownSize(nodes: seq<Node>, nodes': seq<Node>, n: Node)
    requires Grown(nodes, nodes', n)
    ensures |nodes'| == |nodes| + 1
  {}

  /** The nodes of a file once its entry k has been linked to the entry before it. */
  function Chained(nodes: seq<Node>, preventry: int, k: int): seq<Node>
    requires preventry == NIL || 0 <= preventry < |nodes|
  {
    if preventry == NIL then nodes else nodes[preventry := nodes[preventry].(next := k)]
  }

  lemma LoadedMore(before: seq<Node>, now: seq<Node>, now': seq<Node>, file: nat, entries: seq<BlockEntry>, count: nat,
                   n: Node)
    requires Loaded(before, now, file, entries, count) && Grown(now, now', n) && IsBlock(n, file, entries, count, NIL)
    ensures Loaded(before, Chained(now', if count == 0 then NIL else |now| - 1, |now|), file, entries, count + 1)
  {
    var k := |now|;
    var more := Chained(now', if count == 0 then NIL else k - 1, k);
    forall i | 0 <= i < |before| ensures SameIdentity(before[i], more[i]) {
      assert SameIdentity(now[i], now'[i]);
    }
    forall i | |before| <= i < |more|
      ensures IsBlock(more[i], file, entries, i - |before|, if i + 1 < |more| then i + 1 else NIL)
    {
      if i < k {
        assert SameIdentity(now[i], now'[i]);
        assert IsBlock(now[i], file, entries, i - |before|, if i + 1 < k then i + 1 else NIL);
      }
    }
  }

  lemma IdentityKept(nodes: seq<Node>, table: seq<int>, n: Node)
    requires Indexed(nodes, table) && IsLeaf(n)
    ensures Grown(nodes, NodesAfter(nodes, table, n), n)
  {
    hide Ordered, AllIn, Find, Attach;
  }

  /** Searching does not look at `next`. */
  lemma NextIrrelevant(nodes: seq<Node>, table: seq<int>, p: nat, k: int)
    requires Indexed(nodes, table) && p < |nodes|
    ensures Indexed(nodes[p := nodes[p].(next := k)], table)
  {
    hide Ordered, AllIn, Find;
    var nodes' := nodes[p := nodes[p].(next := k)];
    assert SameTrees(nodes, nodes');
    SameTreesBucketed(nodes, nodes', table);
    forall key ensures View(nodes', table, key) == Matching(nodes', |nodes'|, key) {
      var b := Bucket(|table|, key.crc);
      SameTree(nodes, nodes', table[b], key, InBucket(|table|, b));
      ChainSame(nodes, nodes', Find(nodes, table[b], key));
      MatchingSame(nodes, nodes', |nodes|, key);
    }
  }

  /** The two loops of Insert, ending at the null pointer that is to be set. */
  method FindPlace(nodes: seq<Node>, root: int, n: Node) returns (parent: Link)
    requires IsRoot(nodes, root) && root != NIL
    ensures parent == Attach(nodes, root, KeyOf(n))
  {
    var cur := root;
    parent := Same(root);
    while cur != NIL
      invariant IsRoot(nodes, cur)
      invariant if cur == NIL then parent == Attach(nodes, root, KeyOf(n))
                else Attach(nodes, cur, KeyOf(n)) == Attach(nodes, root, KeyOf(n))
      decreases if cur == NIL then 0 else |nodes| - cur
    {
      if Less(KeyOf(nodes[cur]), KeyOf(n)) {
        parent, cur := Right(cur), nodes[cur].right;
      } else if Less(KeyOf(n), KeyOf(nodes[cur])) {
        parent, cur := Left(cur), nodes[cur].left;
      } else {
        break;
      }
    }
    while cur != NIL
      invariant IsRoot(nodes, cur)
      invariant if cur == NIL then parent == Attach(nodes, root, KeyOf(n))
                else Same(Last(nodes, cur)) == Attach(nodes, root, KeyOf(n))
      decreases if cur == NIL then 0 else |nodes| - cur
    {
      parent, cur := Same(cur), nodes[cur].same;
    }
  }
}

/** Choosing an entry for the window under the checksummer: include/par2/verificationhashtable.h:287-480. */
module FindMatch {
  import opened HashIndex

  /** What the checksummer says about its window. The short values are for the first n bytes. */
  datatype Window = Window(crc: nat, hash: nat, shortCrc: nat -> nat, shortHash: nat -> nat,
                           shortBlock: bool, blockLength: nat, offset: nat, disk: nat)

  /** What is known of the data block of an entry: whether it has been located, in which disk file, and
      its length; and whether a source file has been found complete. */
  datatype Blocks = Blocks(located: nat -> bool, disk: nat -> nat, length: nat -> nat, complete: nat -> bool)

  predicate RightLength(w: Window, d: Blocks, i: nat) { !(w.shortBlock && w.blockLength != d.length(i)) }

  /** An entry that can still be used. */
  predicate Fits(w: Window, d: Blocks, i: nat) { !d.located(i) && RightLength(w, d, i) }

  /** The first entry of a list that fits, and the first one that also belongs to a file. */
  function FirstFit(w: Window, d: Blocks, m: seq<nat>): (r: int)
    ensures r == NIL <==> forall k :: 0 <= k < |m| ==> !Fits(w, d, m[k])
    ensures r != NIL ==> r >= 0 && Fits(w, d, r)
    ensures r != NIL ==> exists k :: 0 <= k < |m| && m[k] == r && forall j :: 0 <= j < k ==> !Fits(w, d, m[j])
  {
    if m == [] then NIL
    else if Fits(w, d, m[0]) then m[0]
    else
      var r := FirstFit(w, d, m[1..]);
      assert forall k :: 0 < k < |m| ==> m[k] == m[1..][k - 1];
      assert r != NIL ==> exists k :: 1 <= k < |m| && m[k] == r && forall j :: 0 <= j < k ==> !Fits(w, d, m[j]) by {
        if r != NIL {
          var k :| 0 <= k < |m[1..]| && m[1..][k] == r && forall j :: 0 <= j < k ==> !Fits(w, d, m[1..][j]);
          assert m[k + 1] == r;
        }
      }
      r
  }

  function FirstOf(w: Window, d: Blocks, nodes: seq<Node>, file: nat, m: seq<nat>): (r: int)
    requires forall k :: 0 <= k < |m| ==> m[k] < |nodes|
    ensures r == NIL <==> forall k :: 0 <= k < |m| ==> !(Fits(w, d, m[k]) && nodes[m[k]].file == file)
    ensures r != NIL ==> r in m && Fits(w, d, r) && nodes[r].file == file
  {
    if m == [] then NIL
    else if Fits(w, d, m[0]) && nodes[m[0]].file == file then m[0]
    else FirstOf(w, d, nodes, file, m[1..])
  }

  /** It is the first such entry of the list. */
  lemma {:induction false} FirstOfFile(w: Window, d: Blocks, nodes: seq<Node>, file: nat, m: seq<nat>) returns (k: nat)
    requires (forall k :: 0 <= k < |m| ==> m[k] < |nodes|) && FirstOf(w, d, nodes, file, m) != NIL
    ensures k < |m| && m[k] == FirstOf(w, d, nodes, file, m)
    ensures forall j :: 0 <= j < k ==> !(Fits(w, d, m[j]) && nodes[m[j]].file == file)
  {
    hide Fits;
    if Fits(w, d, m[0]) && nodes[m[0]].file == file {
      k := 0;
    } else {
      var rest := FirstOfFile(w, d, nodes, file, m[1..]);
      k := rest + 1;
      assert forall j :: 0 < j < |m| ==> m[j] == m[1..][j - 1];
    }
  }

  /** The choice among several entries with the same crc and hash. */
  function ChooseMany(w: Window, d: Blocks, nodes: seq<Node>, preferred: int, m: seq<nat>): int
    requires forall k :: 0 <= k < |m| ==> m[k] < |nodes|
  {
    if preferred != NIL && preferred >= 0
        && FirstOf(w, d, nodes, preferred, m) != NIL then FirstOf(w, d, nodes, preferred, m)
    else FirstFit(w, d, m)
  }

  /** No entry before this one in the list is usable. */
  ghost predicate IsFirst(w: Window, d: Blocks, m: seq<nat>, e: int) {
    exists k :: 0 <= k < |m| && m[k] == e && forall j :: 0 <= j < k ==> !Fits(w, d, m[j])
  }

  /** No entry before this one in the list is usable and of the file. */
  ghost predicate IsFirstOf(w: Window, d: Blocks, nodes: seq<Node>, file: int, m: seq<nat>, e: int)
    requires forall k :: 0 <= k < |m| ==> m[k] < |nodes|
  {
    exists k :: 0 <= k < |m| && m[k] == e && forall j :: 0 <= j < k ==> !(Fits(w, d, m[j]) && nodes[m[j]].file == file)
  }

  /** Among several entries: none exactly if none can be used, the first usable one of the preferred file if there is
      one, otherwise the first usable one. An entry is usable if its block has not been located and, near the end of the
      file, is as long as what is left. */
  lemma SeveralRule(w: Window, d: Blocks, nodes: seq<Node>, preferred: int, m: seq<nat>)
    requires forall k :: 0 <= k < |m| ==> m[k] < |nodes|
    ensures forall i {:trigger Fits(w, d, i)} ::
              Fits(w, d, i) <==> !d.located(i) && (w.shortBlock ==> w.blockLength == d.length(i))
    ensures var e := ChooseMany(w, d, nodes, preferred, m);
            && (e == NIL <==> forall k :: 0 <= k < |m| ==> !Fits(w, d, m[k]))
            && (e != NIL ==> e in m && Fits(w, d, e))
            && ((exists k :: 0 <= k < |m| && Fits(w, d, m[k]) && nodes[m[k]].file == preferred) ==>
                  0 <= e < |nodes| && nodes[e].file == preferred && IsFirstOf(w, d, nodes, preferred, m, e))
            && ((forall k :: 0 <= k < |m| && Fits(w, d, m[k]) ==> nodes[m[k]].file != preferred) && e != NIL ==>
                  IsFirst(w, d, m, e))
  {
    assert forall i {:trigger Fits(w, d, i)} ::
        Fits(w, d, i) <==> !d.located(i) && (w.shortBlock ==> w.blockLength == d.length(i));
    hide Fits;
    if exists k :: 0 <= k < |m| && Fits(w, d, m[k]) && nodes[m[k]].file == preferred {
      assert FirstOf(w, d, nodes, preferred, m) != NIL;
      var k := FirstOfFile(w, d, nodes, preferred, m);
    }
  }

  /** The choice when there is one entry. */
  function ChooseOne(w: Window, d: Blocks, nodes: seq<Node>, suggested: int, i: nat): (int, bool)
    requires i < |nodes|
  {
    if d.complete(nodes[i].file) then (NIL, true)
    else if !RightLength(w, d, i) then (NIL, false)
    else if nodes[i].first && w.offset == 0 then (i, false)
    else if i == suggested then (if d.located(i) && d.disk(i) == w.disk then (NIL, true) else (i, false))
    else if d.located(i) then (NIL, true)
    else (i, false)
  }

  /** A single entry is returned exactly when its file is not complete, its length is right, and it is a first block at
      the start of the file, or not located, or the suggestion and located in another disk file. It is a duplicate
      exactly when its file is complete, or its length is right and it is refused for being located. */
  lemma SingleRule(w: Window, d: Blocks, nodes: seq<Node>, suggested: int, i: nat)
    requires i < |nodes|
    ensures var (e, duplicate) := ChooseOne(w, d, nodes, suggested, i);
            var right := w.shortBlock ==> w.blockLength == d.length(i);
            var open := (nodes[i].first && w.offset == 0) || !d.located(i) || (i == suggested && d.disk(i) != w.disk);
            && (e == i || e == NIL)
            && (e == i <==> !d.complete(nodes[i].file) && right && open)
            && (duplicate <==> d.complete(nodes[i].file) || (right && !open))
  {}

  /** The choice among all entries with a key. */
  function Choose(w: Window, d: Blocks, nodes: seq<Node>, suggested: int, preferred: int, m: seq<nat>): (int, bool)
    requires forall k :: 0 <= k < |m| ==> m[k] < |nodes|
  {
    if |m| == 0 then (NIL, false)
    else if |m| == 1 then ChooseOne(w, d, nodes, suggested, m[0])
    else (ChooseMany(w, d, nodes, preferred, m), false)
  }

  /** Whether the suggested entry is taken at once, and the hash to go on with otherwise. */
  function Suggestion(w: Window, d: Blocks, nodes: seq<Node>, suggested: int): (bool, nat)
    requires suggested == NIL || 0 <= suggested < |nodes|
  {
    if suggested == NIL then (false, w.hash)
    else
      var n := nodes[suggested];
      if n.next == NIL then
        var length := d.length(suggested);
        if w.shortCrc(length) == n.crc then (w.shortHash(length) == n.hash, w.shortHash(length)) else (false, w.hash)
      else if !d.located(suggested) && n.crc == w.crc then (w.hash == n.hash, w.hash)
      else (false, w.hash)
  }

  /** The suggestion is taken at once exactly when its crc and hash are those of the window, cut to its length if it is
      a last block, and it is a last block or not located. The search goes on with the hash of the window, except after
      a last block of which only the crc agreed: then it goes on with the hash of the cut window. */
  lemma SuggestionRule(w: Window, d: Blocks, nodes: seq<Node>, suggested: int)
    requires suggested == NIL || 0 <= suggested < |nodes|
    ensures Suggestion(w, d, nodes, NIL) == (false, w.hash)
    ensures suggested != NIL ==>
              var (taken, hash) := Suggestion(w, d, nodes, suggested);
              var n, length := nodes[suggested], d.length(suggested);
              && (taken <==> (n.next == NIL || !d.located(suggested))
                             && KeyOf(n) == if n.next == NIL then Key(w.shortCrc(length), w.shortHash(length))
                                else Key(w.crc, w.hash))
              && (hash == if n.next == NIL && w.shortCrc(length) == n.crc then w.shortHash(length) else w.hash)
  {}

  lemma ChainHead(nodes: seq<Node>, i: int)
    requires IsRoot(nodes, i)
    ensures Chain(nodes, i) == [] <==> i == NIL
    ensures i != NIL ==>
            Chain(nodes, i)[0] == i && Chain(nodes, i)[1..] == Chain(nodes, nodes[i].same)
                && IsRoot(nodes, nodes[i].same)
  {}

  /** Look through the entries equal to one for one that fits. */
  method FirstUnused(w: Window, d: Blocks, nodes: seq<Node>, start: int) returns (entry: int)
    requires IsRoot(nodes, start)
    ensures entry == FirstFit(w, d, Chain(nodes, start))
  {
    entry := start;
    while entry != NIL && !Fits(w, d, entry)
      invariant IsRoot(nodes, entry) && FirstFit(w, d, Chain(nodes, entry)) == FirstFit(w, d, Chain(nodes, start))
      decreases if entry == NIL then 0 else |nodes| - entry
    {
      ChainHead(nodes, entry);
      entry := nodes[entry].same;
    }
    ChainHead(nodes, entry);
  }

  /** Look for an unused entry of the preferred file, remembering the first unused one on the way. */
  method PreferFile(w: Window, d: Blocks, nodes: seq<Node>, start: int, file: nat) returns (entry: int, other: int)
    requires IsRoot(nodes, start)
    ensures entry == FirstOf(w, d, nodes, file, Chain(nodes, start))
    ensures entry == NIL ==> other == FirstFit(w, d, Chain(nodes, start))
    ensures other == NIL || (0 <= other < |nodes| && Fits(w, d, other))
  {
    entry, other := start, NIL;
    while entry != NIL && (nodes[entry].file != file || !Fits(w, d, entry))
      invariant IsRoot(nodes, entry)
                && FirstOf(w, d, nodes, file, Chain(nodes, entry)) == FirstOf(w, d, nodes, file, Chain(nodes, start))
      invariant other == NIL || (0 <= other < |nodes| && Fits(w, d, other))
      invariant FirstFit(w, d, Chain(nodes, start)) == if other == NIL then FirstFit(w, d, Chain(nodes, entry))
                else other
      decreases if entry == NIL then 0 else |nodes| - entry
    {
      ChainHead(nodes, entry);
      if other == NIL && Fits(w, d, entry) {
        other := entry;
      }
      entry := nodes[entry].same;
    }
    ChainHead(nodes, entry);
  }

  /** Find a match for the window. Unless the suggested entry is taken at once, this is a choice among
      exactly the entries, in load order, that have the window's crc and hash. */
  method Match(w: Window, d: Blocks, nodes: seq<Node>, table: seq<int>, suggested: int, preferred: int)
    returns (entry: int, duplicate: bool)
    requires Indexed(nodes, table) && (suggested == NIL || 0 <= suggested < |nodes|) && preferred >= NIL
    ensures var (taken, hash) := Suggestion(w, d, nodes, suggested);
            (entry, duplicate) == if taken then (suggested, false)
                                  else Choose(w, d, nodes, suggested, preferred,
                                              Matching(nodes, |nodes|, Key(w.crc, hash)))
  {
    hide Matching, Choose, Find;
    duplicate := false;
    var taken, hash := TrySuggestion(w, d, nodes, suggested);
    if taken {
      return suggested, false;
    }
    entry := Lookup(w.crc, hash, nodes, table);
    ghost var m := Matching(nodes, |nodes|, Key(w.crc, hash));
    ChainHead(nodes, entry);
    if entry == NIL {
      ChooseCases(w, d, nodes, suggested, preferred, m);
      return NIL, false;
    }
    ChainHead(nodes, nodes[entry].same);
    ChooseCases(w, d, nodes, suggested, preferred, m);
    if nodes[entry].same == NIL {
      assert m == [entry];
      entry, duplicate := Only(w, d, nodes, suggested, entry);
      return;
    }
    assert |m| > 1;
    entry := Several(w, d, nodes, preferred, entry);
  }

  method TrySuggestion(w: Window, d: Blocks, nodes: seq<Node>, suggested: int) returns (taken: bool, hash: nat)
    requires suggested == NIL || 0 <= suggested < |nodes|
    ensures (taken, hash) == Suggestion(w, d, nodes, suggested)
  {
    taken, hash := false, w.hash;
    if suggested != NIL {
      if nodes[suggested].next == NIL {
        var length := d.length(suggested);
        if w.shortCrc(length) == nodes[suggested].crc {
          hash := w.shortHash(length);
          taken := hash == nodes[suggested].hash;
        }
      } else if !d.located(suggested) && nodes[suggested].crc == w.crc {
        taken := hash == nodes[suggested].hash;
      }
    }
  }

  /** Search by crc, then by hash below the entry found. */
  method Lookup(crc: nat, hash: nat, nodes: seq<Node>, table: seq<int>) returns (entry: int)
    requires Indexed(nodes, table)
    ensures IsRoot(nodes, entry) && Chain(nodes, entry) == Matching(nodes, |nodes|, Key(crc, hash))
    ensures entry != NIL <==> exists i :: 0 <= i < |nodes| && KeyOf(nodes[i]) == Key(crc, hash)
  {
    var root := table[Bucket(|table|, crc)];
    TwoStages(nodes, root, Key(crc, hash));
    entry := SearchCrc(nodes, root, crc);
    if entry != NIL {
      entry := SearchHash(nodes, entry, hash);
    }
    assert Chain(nodes, entry) == View(nodes, table, Key(crc, hash));
    ChainHead(nodes, entry);
    MatchingEmpty(nodes, |nodes|, Key(crc, hash));
  }

  lemma {:induction false} MatchingEmpty(nodes: seq<Node>, n: nat, key: Key)
    requires n <= |nodes|
    ensures Matching(nodes, n, key) != [] <==> exists i :: 0 <= i < n && KeyOf(nodes[i]) == key
  {
    if n > 0 { MatchingEmpty(nodes, n - 1, key); }
  }

  /** The list is in load order and lists every entry with the key. */
  lemma {:induction false} MatchingAscends(nodes: seq<Node>, n: nat, key: Key)
    requires n <= |nodes|
    ensures var m := Matching(nodes, n, key);
            && (forall i, j :: 0 <= i < j < |m| ==> m[i] < m[j])
            && (forall i :: 0 <= i < n && KeyOf(nodes[i]) == key ==> i in m)
  {
    if n > 0 { MatchingAscends(nodes, n - 1, key); }
  }

  /** If one entry alone has the crc, it is the list or nothing is. */
  lemma {:induction false} MatchingAlone(nodes: seq<Node>, n: nat, key: Key, i: nat)
    requires i < |nodes| && n <= |nodes| && nodes[i].crc == key.crc
    requires forall j :: 0 <= j < |nodes| && nodes[j].crc == key.crc ==> j == i
    ensures Matching(nodes, n, key) == if i < n && nodes[i].hash == key.hash then [i] else []
  {
    if n > 0 {
      MatchingAlone(nodes, n - 1, key, i);
    }
  }

  /** What Match returns. */
  ghost function Answer(w: Window, d: Blocks, nodes: seq<Node>, suggested: int, preferred: int): int
    requires suggested == NIL || 0 <= suggested < |nodes|
  {
    var (taken, hash) := Suggestion(w, d, nodes, suggested);
    if taken then suggested
    else Choose(w, d, nodes, suggested, preferred, Matching(nodes, |nodes|, Key(w.crc, hash))).0
  }

  /** If nothing is returned, every entry with the key that was looked up is located, too long or too short for the end
      of the file, or belongs to a file that is complete. */
  lemma NothingUsable(w: Window, d: Blocks, nodes: seq<Node>, suggested: int, preferred: int, i: nat)
    requires suggested == NIL || 0 <= suggested < |nodes|
    requires Answer(w, d, nodes, suggested, preferred) == NIL && i < |nodes|
    requires KeyOf(nodes[i]) == Key(w.crc, Suggestion(w, d, nodes, suggested).1)
    ensures d.located(i) || d.complete(nodes[i].file) || (w.shortBlock && w.blockLength != d.length(i))
  {
    var key := Key(w.crc, Suggestion(w, d, nodes, suggested).1);
    var m := Matching(nodes, |nodes|, key);
    MatchingAscends(nodes, |nodes|, key);
    hide Matching, Suggestion, Choose, ChooseOne, ChooseMany;
    ChooseCases(w, d, nodes, suggested, preferred, m);
    if |m| == 1 {
      SingleRule(w, d, nodes, suggested, i);
    } else {
      SeveralRule(w, d, nodes, preferred, m);
    }
  }

  /** A last block is expected, the crc of the window cut to its length agrees, but not the hash of the whole window. */
  predicate Misdirected(w: Window, d: Blocks, nodes: seq<Node>, suggested: int)
    requires suggested == NIL || 0 <= suggested < |nodes|
  {
    && suggested != NIL && nodes[suggested].next == NIL
    && w.shortCrc(d.length(suggested)) == nodes[suggested].crc && w.shortHash(d.length(suggested)) != w.hash
  }

  /** If one entry alone has the crc of the window, also its hash, and can be used, then it is found exactly when the
      suggestion does not misdirect the search. */
  lemma FoundExactly(w: Window, d: Blocks, nodes: seq<Node>, suggested: int, preferred: int, i: nat)
    requires suggested == NIL || 0 <= suggested < |nodes|
    requires i < |nodes| && KeyOf(nodes[i]) == Key(w.crc, w.hash)
    requires forall j :: 0 <= j < |nodes| && nodes[j].crc == w.crc ==> j == i
    requires !d.located(i) && !d.complete(nodes[i].file) && (w.shortBlock ==> w.blockLength == d.length(i))
    requires !Suggestion(w, d, nodes, suggested).0
    ensures Answer(w, d, nodes, suggested, preferred)
            == if Misdirected(w, d, nodes, suggested) then NIL else i
  {
    var key := Key(w.crc, Suggestion(w, d, nodes, suggested).1);
    SuggestionRule(w, d, nodes, suggested);
    MatchingAlone(nodes, |nodes|, key, i);
    hide Matching, Suggestion, Choose, ChooseOne, ChooseMany;
    ChooseCases(w, d, nodes, suggested, preferred, if key.hash == w.hash then [i] else []);
    SingleRule(w, d, nodes, suggested, i);
  }

  /** An input on which it is not: a last block with crc 1 is expected, the window has crc 3 and hash 4, and cut to the
      length of that block crc 1 and hash 5. The second entry is the one of the window. */
  lemma MissExample()
    ensures var nodes := [Node(0, 1, false, 1, 2, NIL, NIL, NIL, NIL), Node(1, 0, true, 3, 4, NIL, NIL, NIL, NIL)];
            var w := Window(3, 4, _ => 1, _ => 5, false, 8, 8, 0);
            var d := Blocks(_ => false, _ => 0, _ => 8, _ => false);
            KeyOf(nodes[1]) == Key(w.crc, w.hash) && Answer(w, d, nodes, 0, NIL) == NIL
  {
    var nodes := [Node(0, 1, false, 1, 2, NIL, NIL, NIL, NIL), Node(1, 0, true, 3, 4, NIL, NIL, NIL, NIL)];
    FoundExactly(Window(3, 4, _ => 1, _ => 5, false, 8, 8, 0), Blocks(_ => false, _ => 0, _ => 8, _ => false), nodes, 0,
                 NIL, 1);
  }

  lemma ChooseCases(w: Window, d: Blocks, nodes: seq<Node>, suggested: int, preferred: int, m: seq<nat>)
    requires forall k :: 0 <= k < |m| ==> m[k] < |nodes|
    ensures |m| == 0 ==> Choose(w, d, nodes, suggested, preferred, m) == (NIL, false)
    ensures |m| == 1 ==> Choose(w, d, nodes, suggested, preferred, m) == ChooseOne(w, d, nodes, suggested, m[0])
    ensures |m| > 1 ==> Choose(w, d, nodes, suggested, preferred, m) == (ChooseMany(w, d, nodes, preferred, m), false)
  {}

  /** One entry with this crc and hash. */
  method Only(w: Window, d: Blocks, nodes: seq<Node>, suggested: int, next: nat) returns (entry: int, duplicate: bool)
    requires next < |nodes|
    ensures (entry, duplicate) == ChooseOne(w, d, nodes, suggested, next)
  {
    if d.complete(nodes[next].file) {
      return NIL, true;
    }
    if w.shortBlock && w.blockLength != d.length(next) {
      return NIL, false;
    }
    if nodes[next].first && w.offset == 0 {
      return next, false;
    }
    if next == suggested {
      if d.located(next) && d.disk(next) == w.disk {
        return NIL, true;
      } else {
        return next, false;
      }
    } else {
      if d.located(next) {
        return NIL, true;
      }
      return next, false;
    }
  }

  /** Several entries with this crc and hash. */
  method Several(w: Window, d: Blocks, nodes: seq<Node>, preferred: int, next: int) returns (entry: int)
    requires IsRoot(nodes, next) && preferred >= NIL
    ensures entry == ChooseMany(w, d, nodes, preferred, Chain(nodes, next))
  {
    var start := next;
    if preferred != NIL {
      entry, start := PreferFile(w, d, nodes, next, preferred);
      if entry != NIL {
        return;
      }
      ChainHead(nodes, start);
    }
    entry := FirstUnused(w, d, nodes, start);
  }
}

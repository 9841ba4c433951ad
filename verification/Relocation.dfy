/**
  Out-of-place relocation of nodes (src/ssd_index.cpp, include/ssd_index.h): node records in
  the graph file, and rewriting all neighbours of a node into freshly allocated slots before
  the ids are moved there.
 */
module Relocation {
  import opened Allocator
  import opened Arith
  import opened Basics
  import opened Commit
  import opened PageLayout
  import opened SlotOrder

  const SECTOR_LEN: nat := 4096

  newtype byte = x: int | 0 <= x < 256

  type Disk = map<nat, byte>

  /** Sizes of one graph file; npp == 0 means that a node spans several sectors. */
  datatype Format = Format(npp: nat, coordLen: nat, maxDegree: nat) {
    function NodeLen(): nat { coordLen + 4 * (maxDegree + 1) }

    function SectorsPerNode(): nat { (NodeLen() + SECTOR_LEN - 1) / SECTOR_LEN }

    /** loc_sector_no */
    function SectorOf(l: nat): nat {
      1 + if npp > 0 then l / npp else l * SectorsPerNode()
    }

    /** u_loc_offset */
    function OffsetOf(l: nat): nat {
      SectorOf(l) * SECTOR_LEN + if npp == 0 then 0 else (l % npp) * NodeLen()
    }

    predicate Fits() { npp * NodeLen() <= SECTOR_LEN }
  }

  lemma SlotBound(f: Format, l: nat)
    requires f.npp > 0 && f.Fits()
    ensures 0 <= (l % f.npp) * f.NodeLen() && (l % f.npp) * f.NodeLen() + f.NodeLen() <= SECTOR_LEN
  {
    Quotient(l, f.npp);
    var o: nat := l % f.npp;
    MulMono(o + 1, f.npp, f.NodeLen());
  }

  /** The record of a location lies in the sector that the allocator has as its page, in the place of its
      slot. */
  lemma RecordInPage(f: Format, l: nat)
    requires f.npp > 0 && f.Fits()
    ensures var p, o := Sectors(f.npp).page(l), Sectors(f.npp).off(l);
            && f.OffsetOf(l) == p * SECTOR_LEN + o * f.NodeLen()
            && p * SECTOR_LEN <= f.OffsetOf(l) && f.OffsetOf(l) + f.NodeLen() <= (p + 1) * SECTOR_LEN
  {
    SlotBound(f, l);
  }

  /** Of two nodes in sectors of their own, the one with the smaller location ends first. */
  lemma SpreadApart(f: Format, l: nat, l': nat)
    requires f.npp == 0 && l < l'
    ensures f.OffsetOf(l) + f.NodeLen() <= f.OffsetOf(l')
  {
    var k := f.SectorsPerNode();
    assert f.NodeLen() <= k * SECTOR_LEN;
    MulMono(l + 1, l', k);
  }

  lemma PackedApart(f: Format, l: nat, l': nat)
    requires f.npp > 0 && f.Fits() && l != l' && l / f.npp <= l' / f.npp
    ensures f.OffsetOf(l) + f.NodeLen() <= f.OffsetOf(l') || f.OffsetOf(l') + f.NodeLen() <= f.OffsetOf(l)
  {
    SlotBound(f, l);
    SlotBound(f, l');
    if l / f.npp == l' / f.npp {
      Quotient(l, f.npp);
      Quotient(l', f.npp);
      var o: nat, o': nat := l % f.npp, l' % f.npp;
      if o < o' { MulMono(o + 1, o', f.NodeLen()); } else { MulMono(o' + 1, o, f.NodeLen()); }
    }
  }

  /** The records of distinct locations never overlap, in both layouts. */
  lemma RecordsApart(f: Format, l: nat, l': nat)
    requires f.Fits() && l != l'
    ensures f.OffsetOf(l) + f.NodeLen() <= f.OffsetOf(l') || f.OffsetOf(l') + f.NodeLen() <= f.OffsetOf(l)
  {
    if f.npp == 0 {
      if l < l' { SpreadApart(f, l, l'); } else { SpreadApart(f, l', l); }
    } else {
      if l / f.npp <= l' / f.npp { PackedApart(f, l, l'); } else { PackedApart(f, l', l); }
    }
  }

  // ---------------------------------------------------------------- records

  function ByteAt(d: Disk, a: nat): byte { if a in d then d[a] else 0 }

  /** A 32-bit number, least significant byte first. */
  function Word(d: Disk, a: nat): nat {
    (ByteAt(d, a) as nat) + 256 * (ByteAt(d, a + 1) as nat)
      + 65536 * (ByteAt(d, a + 2) as nat) + 16777216 * (ByteAt(d, a + 3) as nat)
  }

  /** Vector, degree and adjacency of a node. */
  datatype Node = Node(coords: seq<byte>, nbrs: seq<nat>)

  /** The degree stored in the record of a location. */
  function Degree(d: Disk, f: Format, l: nat): nat { Word(d, f.OffsetOf(l) + f.coordLen) }

  function ReadNode(d: Disk, f: Format, l: nat): Node {
    var a := f.OffsetOf(l);
    Node(seq(f.coordLen, i requires 0 <= i < f.coordLen => ByteAt(d, a + i)),
         seq(Degree(d, f, l), i requires 0 <= i < Degree(d, f, l) => Word(d, a + f.coordLen + 4 + 4 * i)))
  }

  /** The two disks agree on n bytes from a on. */
  ghost predicate Agree(d: Disk, d': Disk, a: nat, n: nat) {
    forall i: nat :: a <= i < a + n ==> ByteAt(d', i) == ByteAt(d, i)
  }

  /** A record with an admissible degree lies within its own bytes. */
  lemma ReadAgree(d: Disk, d': Disk, f: Format, l: nat)
    requires Degree(d, f, l) <= f.maxDegree && Agree(d, d', f.OffsetOf(l), f.NodeLen())
    ensures ReadNode(d', f, l) == ReadNode(d, f, l)
  {
    assert Degree(d', f, l) == Degree(d, f, l);
    assert ReadNode(d', f, l).nbrs == ReadNode(d, f, l).nbrs;
    assert ReadNode(d', f, l).coords == ReadNode(d, f, l).coords;
  }

  method WriteWord(d: Disk, a: nat, x: nat) returns (d': Disk)
    requires x < 0x1_0000_0000
    ensures Word(d', a) == x && Agree(d, d', 0, a) && forall i: nat :: a + 4 <= i ==> ByteAt(d', i) == ByteAt(d, i)
  {
    d' := d[a := (x % 256) as byte][a + 1 := (x / 256 % 256) as byte]
           [a + 2 := (x / 65536 % 256) as byte][a + 3 := (x / 16777216) as byte];
    Digits(x);
  }

  lemma Digits(x: nat)
    requires x < 0x1_0000_0000
    ensures x == x % 256 + 256 * (x / 256 % 256) + 65536 * (x / 65536 % 256) + 16777216 * (x / 16777216)
  {
  }

  ghost predicate Outside(d: Disk, d': Disk, a: nat, n: nat) {
    forall i: nat :: i < a || a + n <= i ==> ByteAt(d', i) == ByteAt(d, i)
  }

  method WriteBytes(d: Disk, a: nat, s: seq<byte>) returns (d': Disk)
    ensures Outside(d, d', a, |s|) && forall i :: 0 <= i < |s| ==> ByteAt(d', a + i) == s[i]
  {
    d' := d;
    var i := 0;
    while i < |s|
      invariant 0 <= i <= |s| && Outside(d, d', a, |s|) && forall k :: 0 <= k < i ==> ByteAt(d', a + k) == s[k]
    {
      d' := d'[a + i := s[i]];
      i := i + 1;
    }
  }

  method WriteWords(d: Disk, a: nat, s: seq<nat>) returns (d': Disk)
    requires forall x :: x in s ==> x < 0x1_0000_0000
    ensures Outside(d, d', a, 4 * |s|) && forall i :: 0 <= i < |s| ==> Word(d', a + 4 * i) == s[i]
  {
    d' := d;
    var i := 0;
    while i < |s|
      invariant 0 <= i <= |s| && Outside(d, d', a, 4 * |s|) && forall k :: 0 <= k < i ==> Word(d', a + 4 * k) == s[k]
    {
      ghost var b := d';
      assert s[i] in s;
      d' := WriteWord(d', a + 4 * i, s[i]);
      forall k | 0 <= k < i ensures Word(d', a + 4 * k) == s[k] {
        assert Word(b, a + 4 * k) == s[k];
      }
      i := i + 1;
    }
  }

  /** Coordinates, then the adjacency with its count in front. */
  method WriteNode(d: Disk, f: Format, l: nat, node: Node) returns (d': Disk)
    requires |node.coords| == f.coordLen && |node.nbrs| <= f.maxDegree < 0x1_0000_0000
    requires forall x :: x in node.nbrs ==> x < 0x1_0000_0000
    ensures ReadNode(d', f, l) == node && Outside(d, d', f.OffsetOf(l), f.NodeLen())
  {
    var a := f.OffsetOf(l);
    var d1 := WriteBytes(d, a, node.coords);
    var words := [|node.nbrs|] + node.nbrs;
    d' := WriteWords(d1, a + f.coordLen, words);
    ListRead(d', f, l, node.nbrs);
    assert ReadNode(d', f, l).coords == node.coords;
  }

  lemma ListRead(d: Disk, f: Format, l: nat, nbrs: seq<nat>)
    requires var a := f.OffsetOf(l) + f.coordLen; forall i :: 0 <= i <= |nbrs| ==> Word(d, a + 4 * i) == ([|nbrs|] + nbrs)[i]
    ensures ReadNode(d, f, l).nbrs == nbrs
  {
    var a, words := f.OffsetOf(l) + f.coordLen, [|nbrs|] + nbrs;
    assert Word(d, a + 4 * 0) == words[0];
    forall i | 0 <= i < |nbrs| ensures Word(d, a + 4 + 4 * i) == nbrs[i] {
      assert Word(d, a + 4 * (i + 1)) == words[i + 1];
    }
  }

  // ---------------------------------------------------------------- relocation

  /** How an over-long adjacency of a node is cut down; the pruning itself is not modelled. */
  type Prune = (nat, seq<nat>) -> seq<nat>

  ghost predicate IdsFit(s: seq<nat>) { forall x :: x in s ==> x < 0x1_0000_0000 }

  ghost predicate PruneFits(prune: Prune, f: Format) {
    forall n: nat, s: seq<nat> :: |s| <= f.maxDegree + 1 && IdsFit(s) ==> |prune(n, s)| <= f.maxDegree && IdsFit(prune(n, s))
  }

  /** The record of neighbour n before and after it was linked to id: the vector stays; an adjacency that
      names id stays, and otherwise gets id at its end; only one longer than `range` is pruned. */
  ghost predicate Linked(node: Node, node': Node, n: nat, id: nat, range: nat, prune: Prune) {
    && node'.coords == node.coords
    && if id in node.nbrs then node'.nbrs == (if |node.nbrs| <= range then node.nbrs else prune(n, node.nbrs))
       else if |node.nbrs| < range then node'.nbrs == node.nbrs + [id]
       else node'.nbrs == prune(n, node.nbrs + [id])
  }

  method Link(node: Node, n: nat, id: nat, range: nat, prune: Prune) returns (node': Node)
    ensures Linked(node, node', n, id, range, prune)
  {
    var nhood, exist, m := [], false, 0;
    while m < |node.nbrs|
      invariant 0 <= m <= |node.nbrs| && nhood == node.nbrs[..m] && (exist <==> id in node.nbrs[..m])
    {
      if node.nbrs[m] == id { exist := true; }
      nhood := nhood + [node.nbrs[m]];
      m := m + 1;
    }
    assert node.nbrs[..m] == node.nbrs;
    if !exist { nhood := nhood + [id]; }
    if |nhood| > range { nhood := prune(n, nhood); }
    node' := Node(node.coords, nhood);
  }

  ghost predicate DegreesOk(d: Disk, f: Format, m: map<nat, nat>) {
    forall id :: id in m ==> Degree(d, f, m[id]) <= f.maxDegree
  }

  lemma WordFits(d: Disk, a: nat)
    ensures Word(d, a) < 0x1_0000_0000
  {
  }

  lemma ReadFits(d: Disk, f: Format, l: nat)
    ensures IdsFit(ReadNode(d, f, l).nbrs) && |ReadNode(d, f, l).coords| == f.coordLen
    ensures |ReadNode(d, f, l).nbrs| == Degree(d, f, l)
  {
    var s := ReadNode(d, f, l).nbrs;
    forall x | x in s ensures x < 0x1_0000_0000 {
      var i :| 0 <= i < |s| && s[i] == x;
      WordFits(d, f.OffsetOf(l) + f.coordLen + 4 + 4 * i);
    }
  }

  /** Writing one location's record leaves the others. */
  lemma WriteElsewhere(d: Disk, d': Disk, f: Format, l: nat, l': nat)
    requires f.Fits() && l != l' && Outside(d, d', f.OffsetOf(l), f.NodeLen()) && Degree(d, f, l') <= f.maxDegree
    ensures ReadNode(d', f, l') == ReadNode(d, f, l') && Degree(d', f, l') == Degree(d, f, l')
  {
    RecordsApart(f, l, l');
    ReadAgree(d, d', f, l');
  }

  /** Copies of the first n neighbours are in place, and every record in use is untouched. */
  ghost predicate Copied(d0: Disk, d: Disk, f: Format, m: map<nat, nat>, id: nat, nbrs: seq<nat>, locs: seq<nat>, n: nat, range: nat, prune: Prune)
    requires n <= |nbrs| == |locs| && forall k :: k in nbrs ==> k in m
  {
    && (forall k :: 0 <= k < n ==> IsCopy(d0, d, f, m[nbrs[k]], nbrs[k], id, locs[k], range, prune))
    && (forall j :: j in m ==> ReadNode(d, f, m[j]) == ReadNode(d0, f, m[j]) && Degree(d, f, m[j]) == Degree(d0, f, m[j]))
  }

  ghost predicate IsCopy(d0: Disk, d: Disk, f: Format, l: nat, n: nat, id: nat, l': nat, range: nat, prune: Prune) {
    && Linked(ReadNode(d0, f, l), ReadNode(d, f, l'), n, id, range, prune)
    && Degree(d, f, l') <= f.maxDegree
  }

  lemma CopiedMore(d0: Disk, d: Disk, d': Disk, f: Format, m: map<nat, nat>, id: nat, nbrs: seq<nat>, locs: seq<nat>, n: nat, range: nat, prune: Prune)
    requires f.Fits() && n < |nbrs| == |locs| && forall k :: k in nbrs ==> k in m
    requires Distinct(locs) && Avoids(m, locs) && DegreesOk(d0, f, m)
    requires Copied(d0, d, f, m, id, nbrs, locs, n, range, prune)
    requires Outside(d, d', f.OffsetOf(locs[n]), f.NodeLen())
    requires IsCopy(d0, d', f, m[nbrs[n]], nbrs[n], id, locs[n], range, prune)
    ensures Copied(d0, d', f, m, id, nbrs, locs, n + 1, range, prune)
  {
    forall k | 0 <= k < n ensures IsCopy(d0, d', f, m[nbrs[k]], nbrs[k], id, locs[k], range, prune) {
      assert IsCopy(d0, d, f, m[nbrs[k]], nbrs[k], id, locs[k], range, prune);
      WriteElsewhere(d, d', f, locs[n], locs[k]);
    }
    forall j | j in m ensures ReadNode(d', f, m[j]) == ReadNode(d0, f, m[j]) && Degree(d', f, m[j]) == Degree(d0, f, m[j]) {
      WriteElsewhere(d, d', f, locs[n], m[j]);
    }
  }

  /** Writes a linked copy of every neighbour of a node into its new location. */
  method RewriteNeighbours(d0: Disk, f: Format, m: map<nat, nat>, id: nat, nbrs: seq<nat>, locs: seq<nat>, range: nat, prune: Prune)
    returns (d: Disk)
    requires f.Fits() && f.maxDegree < 0xFFFF_FFFF && range <= f.maxDegree && id < 0x1_0000_0000 && PruneFits(prune, f)
    requires |nbrs| == |locs| && (forall k :: k in nbrs ==> k in m)
    requires Distinct(locs) && Avoids(m, locs) && DegreesOk(d0, f, m)
    ensures Copied(d0, d, f, m, id, nbrs, locs, |nbrs|, range, prune) && Untouched(d0, d, f, locs)
  {
    d := d0;
    var n := 0;
    while n < |nbrs|
      invariant 0 <= n <= |nbrs| && Copied(d0, d, f, m, id, nbrs, locs, n, range, prune) && Untouched(d0, d, f, locs)
    {
      assert nbrs[n] in nbrs;
      var node := ReadNode(d, f, m[nbrs[n]]);
      ReadFits(d, f, m[nbrs[n]]);
      var linked := Link(node, nbrs[n], id, range, prune);
      ghost var b := d;
      LinkedFits(node, linked, nbrs[n], id, range, prune, f);
      d := WriteNode(d, f, locs[n], linked);
      ReadFits(d, f, locs[n]);
      CopiedMore(d0, b, d, f, m, id, nbrs, locs, n, range, prune);
      UntouchedMore(d0, b, d, f, locs, n);
      n := n + 1;
    }
  }

  /** Every whole record at another location, in use or not, is as before. */
  ghost predicate Untouched(d0: Disk, d: Disk, f: Format, locs: seq<nat>) {
    forall l: nat :: l !in locs && Degree(d0, f, l) <= f.maxDegree ==>
      ReadNode(d, f, l) == ReadNode(d0, f, l) && Degree(d, f, l) == Degree(d0, f, l)
  }

  lemma UntouchedMore(d0: Disk, d: Disk, d': Disk, f: Format, locs: seq<nat>, n: nat)
    requires f.Fits() && n < |locs| && Untouched(d0, d, f, locs) && Outside(d, d', f.OffsetOf(locs[n]), f.NodeLen())
    ensures Untouched(d0, d', f, locs)
  {
    forall l: nat | l !in locs && Degree(d0, f, l) <= f.maxDegree
      ensures ReadNode(d', f, l) == ReadNode(d0, f, l) && Degree(d', f, l) == Degree(d0, f, l)
    {
      assert locs[n] in locs;
      WriteElsewhere(d, d', f, locs[n], l);
    }
  }

  lemma LinkedFits(node: Node, node': Node, n: nat, id: nat, range: nat, prune: Prune, f: Format)
    requires Linked(node, node', n, id, range, prune)
    requires |node.nbrs| <= f.maxDegree && IdsFit(node.nbrs) && id < 0x1_0000_0000 && PruneFits(prune, f) && range <= f.maxDegree
    ensures |node'.nbrs| <= f.maxDegree && IdsFit(node'.nbrs)
  {
    var nhood := if id in node.nbrs then node.nbrs else node.nbrs + [id];
    assert IdsFit(nhood);
  }

  /** Where a moved id points. */
  lemma {:induction false} MovedAt(m: map<nat, nat>, ids: seq<nat>, locs: seq<nat>, j: nat)
    requires |ids| == |locs|
    ensures j in ids ==> j in Moved(m, ids, locs) && Moves(ids, locs, j, Moved(m, ids, locs)[j])
    ensures j !in ids ==> (j in Moved(m, ids, locs) <==> j in m) && (j in m ==> Moved(m, ids, locs)[j] == m[j])
    decreases |ids|
  {
    if ids != [] {
      var n := |ids| - 1;
      MovedAt(m, ids[..n], locs[..n], j);
      if j == ids[n] {
        assert ids[n] == j && locs[n] == Moved(m, ids, locs)[j];
      } else if j in ids {
        assert j in ids[..n];
        var k :| 0 <= k < n && ids[..n][k] == j && locs[..n][k] == Moved(m, ids[..n], locs[..n])[j];
        assert ids[k] == j && locs[k] == Moved(m, ids, locs)[j];
      }
    }
  }

  /** What the index holds: the record of every id. */
  type Contents = map<nat, Node>

  ghost function ContentsOf(d: Disk, f: Format, m: map<nat, nat>): Contents { map id | id in m :: ReadNode(d, f, m[id]) }

  ghost predicate Relinked(node: Node, node': Node, nbrs: seq<nat>, id: nat, range: nat, prune: Prune, j: nat) {
    if j in nbrs then Linked(node, node', j, id, range, prune) else node' == node
  }

  /** The contents before and after all neighbours of id were linked to it. */
  ghost predicate Repaired(c: Contents, c': Contents, id: nat, range: nat, prune: Prune) {
    && id in c && c'.Keys == c.Keys
    && forall j :: j in c ==> j in c' && Relinked(c[j], c'[j], c[id].nbrs, id, range, prune, j)
  }

  /** A neighbour that named id is left alone, unless it is too long; one with room gets id at the
      end; a full one is pruned with id at the end. */
  lemma RepairedMeans(c: Contents, c': Contents, id: nat, range: nat, prune: Prune)
    requires Repaired(c, c', id, range, prune)
    ensures forall j :: j in c[id].nbrs && j in c ==>
      && j in c'
      && (if id in c[j].nbrs then |c[j].nbrs| <= range ==> c'[j].nbrs == c[j].nbrs
          else if |c[j].nbrs| < range then c'[j].nbrs == c[j].nbrs + [id] else c'[j].nbrs == prune(j, c[j].nbrs + [id]))
  {
    forall j | j in c[id].nbrs && j in c ensures Linked(c[j], c'[j], j, id, range, prune) {
      assert Relinked(c[j], c'[j], c[id].nbrs, id, range, prune, j);
    }
  }

  /** Relocation preserves content: read through the id map, every vector is unchanged, a
      neighbour's adjacency is the linked one, and everybody else's is unchanged. */
  lemma ContentKept(d0: Disk, d: Disk, f: Format, m: map<nat, nat>, id: nat, nbrs: seq<nat>, locs: seq<nat>, range: nat, prune: Prune, j: nat)
    requires |nbrs| == |locs| && (forall k :: k in nbrs ==> k in m)
    requires Copied(d0, d, f, m, id, nbrs, locs, |nbrs|, range, prune) && DegreesOk(d0, f, m) && j in m
    ensures var m' := Moved(m, nbrs, locs);
            && j in m' && Degree(d, f, m'[j]) <= f.maxDegree
            && Relinked(ReadNode(d0, f, m[j]), ReadNode(d, f, m'[j]), nbrs, id, range, prune, j)
            && ReadNode(d, f, m'[j]).coords == ReadNode(d0, f, m[j]).coords
  {
    MovedAt(m, nbrs, locs, j);
    if j in nbrs {
      var k :| 0 <= k < |nbrs| && nbrs[k] == j && locs[k] == Moved(m, nbrs, locs)[j];
      assert IsCopy(d0, d, f, m[nbrs[k]], nbrs[k], id, locs[k], range, prune);
    }
  }

  /** The id and all ids that its record names exist. */
  ghost predicate Complete(c: Contents, id: nat) { id in c && forall k :: k in c[id].nbrs ==> k in c }

  /** The written locations hold the linked records of the neighbours, in order. */
  ghost predicate Written(c: Contents, d: Disk, f: Format, id: nat, locs: seq<nat>, range: nat, prune: Prune) {
    && id in c && |locs| == |c[id].nbrs|
    && forall k :: 0 <= k < |locs| ==>
         c[id].nbrs[k] in c && Linked(c[c[id].nbrs[k]], ReadNode(d, f, locs[k]), c[id].nbrs[k], id, range, prune)
  }

  lemma CopiedWritten(d0: Disk, d: Disk, f: Format, m: map<nat, nat>, id: nat, nbrs: seq<nat>, locs: seq<nat>, range: nat, prune: Prune)
    requires id in m && nbrs == ReadNode(d0, f, m[id]).nbrs && |nbrs| == |locs| && forall k :: k in nbrs ==> k in m
    requires Copied(d0, d, f, m, id, nbrs, locs, |nbrs|, range, prune)
    ensures Written(ContentsOf(d0, f, m), d, f, id, locs, range, prune)
  {
    forall k | 0 <= k < |locs| ensures Linked(ReadNode(d0, f, m[nbrs[k]]), ReadNode(d, f, locs[k]), nbrs[k], id, range, prune) {
      assert IsCopy(d0, d, f, m[nbrs[k]], nbrs[k], id, locs[k], range, prune);
    }
  }

  ghost predicate ParamsOk(f: Format, range: nat, prune: Prune) {
    f.Fits() && range <= f.maxDegree < 0xFFFF_FFFF && PruneFits(prune, f)
  }

  /** The index between two repairs. */
  ghost predicate Ready(a: PageAllocator, d: Disk, f: Format)
    reads a
  {
    a.Guarded() && a.flights == {} && f.npp == a.g.npp && DegreesOk(d, f, a.id2loc)
  }

  /** Writes the linked copies to reserved locations, and moves the ids there. */
  method Relocate(a: PageAllocator, d0: Disk, f: Format, id: nat, nbrs: seq<nat>, locs: seq<nat>, range: nat, prune: Prune)
    returns (d: Disk)
    requires Ready(a, d0, f) && ParamsOk(f, range, prune) && id < 0x1_0000_0000 && id in a.id2loc && nbrs == ReadNode(d0, f, a.id2loc[id]).nbrs
    requires |locs| == |nbrs| && (forall k :: k in nbrs ==> k in a.id2loc)
    requires Distinct(locs) && AllocatedAll(a.layout, a.g, locs) && Avoids(a.id2loc, locs)
    modifies a`layout, a`emptyPages, a`id2loc, a`settled, a`flights, a`missing
    ensures Ready(a, d, f) && (old(a.Valid()) ==> a.Valid()) && a.id2loc.Keys == old(a.id2loc.Keys) && Untouched(d0, d, f, locs)
    ensures Written(ContentsOf(d0, f, old(a.id2loc)), d, f, id, locs, range, prune)
    ensures Repaired(ContentsOf(d0, f, old(a.id2loc)), ContentsOf(d, f, a.id2loc), id, range, prune)
    ensures a.id2loc == Moved(old(a.id2loc), nbrs, locs) && Emptied(old(a.layout), a.layout, a.emptyPages)
    ensures forall l :: LookUp(a.layout, a.g, l).Allocated? <==> LookUp(old(a.layout), a.g, l).Allocated? && l !in locs
  {
    ghost var m := a.id2loc;
    d := RewriteNeighbours(d0, f, a.id2loc, id, nbrs, locs, range, prune);
    CopiedWritten(d0, d, f, m, id, nbrs, locs, range, prune);
    a.CommitMoves(nbrs, locs);
    AllRepaired(d0, d, f, m, id, nbrs, locs, range, prune);
    RepairedIs(d0, d, f, m, a.id2loc, id, range, prune);
  }

  /** The repair of one inserted node: allocate, write linked copies, commit.  It stops on an id that
      does not exist, its own or a neighbour's.  A node without neighbours asks for no slots; if
      the allocator then returns some all the same, the commit would read ids that are not there,
      and the repair fails.  Otherwise the contents are the repaired ones, the allocator's
      invariant is kept, and only the new locations were written.  Those are the first ones that the
      allocator has to offer, so slots that earlier repairs left come before new space. */
  method RelocateNeighbours(a: PageAllocator, d0: Disk, f: Format, id: nat, hints: seq<nat>, range: nat, prune: Prune)
    returns (ok: bool, d: Disk, ghost written: seq<nat>)
    requires Ready(a, d0, f) && ParamsOk(f, range, prune) && id < 0x1_0000_0000
    modifies a
    ensures ok <==> var c := ContentsOf(d0, f, old(a.id2loc)); Complete(c, id) && (c[id].nbrs != [] || old(a.Surplus(hints, true)) == 0)
    ensures ok ==> Ready(a, d, f) && (old(a.Valid()) ==> a.Valid()) && a.id2loc.Keys == old(a.id2loc.Keys)
    ensures ok ==> Repaired(ContentsOf(d0, f, old(a.id2loc)), ContentsOf(d, f, a.id2loc), id, range, prune)
    ensures ok ==> var c, c' := ContentsOf(d0, f, old(a.id2loc)), ContentsOf(d, f, a.id2loc);
      forall j :: j in c[id].nbrs && j in c ==>
        && j in c'
        && (if id in c[j].nbrs then |c[j].nbrs| <= range ==> c'[j].nbrs == c[j].nbrs
            else if |c[j].nbrs| < range then c'[j].nbrs == c[j].nbrs + [id] else c'[j].nbrs == prune(j, c[j].nbrs + [id]))
    ensures ok ==> Untouched(d0, d, f, written) && Avoids(old(a.id2loc), written)
    ensures ok ==> Written(ContentsOf(d0, f, old(a.id2loc)), d, f, id, written, range, prune)
    ensures ok ==> id in old(a.id2loc) && written == old(a.Answer(|ReadNode(d0, f, a.id2loc[id]).nbrs|, hints, true))
    ensures ok ==> Shifted(a.g, old(a.layout), old(a.id2loc), old(a.curLoc), a.layout, a.emptyPages, a.id2loc, a.curLoc,
                           ReadNode(d0, f, old(a.id2loc)[id]).nbrs, written)
  {
    var m := a.id2loc;
    ok, d, written := false, d0, [];
    if id !in m { return; }
    var nbrs := ReadNode(d0, f, m[id]).nbrs;
    ghost var y, cur := a.layout, a.curLoc;
    var locs, taken := Reserve(a, |nbrs|, hints, true);
    if |locs| != |nbrs| || exists k :: k in nbrs && k !in m { return; }
    ghost var y1, gap := a.layout, a.missing;
    d := Relocate(a, d0, f, id, nbrs, locs, range, prune);
    NowShifted(a.g, y, m, cur, y1, a.layout, a.emptyPages, a.id2loc, a.curLoc, nbrs, locs, taken, gap);
    RepairedMeans(ContentsOf(d0, f, m), ContentsOf(d, f, a.id2loc), id, range, prune);
    ok, written := true, locs;
  }

  /** What a repair does to the allocator: the neighbours' ids lead to the new locations, pages that
      became empty are queued, no slot stays reserved, and the frontier does not go back. */
  ghost predicate Shifted(g: Geometry, y: Layout, m: map<nat, nat>, cur: nat, y': Layout, q: seq<nat>, m': map<nat, nat>, cur': nat,
                          nbrs: seq<nat>, locs: seq<nat>) {
    && |nbrs| == |locs| && m' == Moved(m, nbrs, locs) && SameAllocated(y, y', g) && Emptied(y, y', q)
    && g.page(cur) <= g.page(cur') && cur <= cur' < cur + |nbrs| + g.npp
  }

  lemma NowShifted(g: Geometry, y: Layout, m: map<nat, nat>, cur: nat, y1: Layout, y': Layout, q: seq<nat>, m': map<nat, nat>, cur': nat,
                   nbrs: seq<nat>, locs: seq<nat>, taken: seq<Pos>, gap: set<nat>)
    requires Sound(g) && |nbrs| == |locs| && Took(y, y1, taken) && LocsAre(g, locs, taken) && RowsOk(y1, g.npp, g.page(cur'), gap)
    requires m' == Moved(m, nbrs, locs) && Emptied(y1, y', q)
    requires forall l :: LookUp(y', g, l).Allocated? <==> LookUp(y1, g, l).Allocated? && l !in locs
    requires cur <= cur' < cur + |nbrs| + g.npp
    ensures Shifted(g, y, m, cur, y', q, m', cur', nbrs, locs)
  {
    EmptiedTook(y, y1, y', taken, q);
    AllocatedAgain(y, y1, y', g, locs, taken);
    if cur < cur' { PageMono(g, cur, cur'); }
  }

  ghost predicate RelinkedAt(d0: Disk, d: Disk, f: Format, m: map<nat, nat>, m': map<nat, nat>, nbrs: seq<nat>, id: nat, range: nat, prune: Prune, j: nat)
    requires j in m && j in m'
  {
    Degree(d, f, m'[j]) <= f.maxDegree && Relinked(ReadNode(d0, f, m[j]), ReadNode(d, f, m'[j]), nbrs, id, range, prune, j)
  }

  lemma AllRepaired(d0: Disk, d: Disk, f: Format, m: map<nat, nat>, id: nat, nbrs: seq<nat>, locs: seq<nat>, range: nat, prune: Prune)
    requires |nbrs| == |locs| && (forall k :: k in nbrs ==> k in m)
    requires Copied(d0, d, f, m, id, nbrs, locs, |nbrs|, range, prune) && DegreesOk(d0, f, m)
    ensures Moved(m, nbrs, locs).Keys == m.Keys
    ensures forall j :: j in m ==> RelinkedAt(d0, d, f, m, Moved(m, nbrs, locs), nbrs, id, range, prune, j)
  {
    var m' := Moved(m, nbrs, locs);
    forall j: nat ensures j in m' <==> j in m { MovedAt(m, nbrs, locs, j); }
    forall j | j in m ensures RelinkedAt(d0, d, f, m, m', nbrs, id, range, prune, j) {
      ContentKept(d0, d, f, m, id, nbrs, locs, range, prune, j);
    }
  }

  lemma RepairedIs(d0: Disk, d: Disk, f: Format, m: map<nat, nat>, m': map<nat, nat>, id: nat, range: nat, prune: Prune)
    requires m'.Keys == m.Keys && id in m
    requires forall j :: j in m ==> RelinkedAt(d0, d, f, m, m', ReadNode(d0, f, m[id]).nbrs, id, range, prune, j)
    ensures DegreesOk(d, f, m') && Repaired(ContentsOf(d0, f, m), ContentsOf(d, f, m'), id, range, prune)
  {
    assert forall j :: j in m' <==> j in m;
    forall j | j in m'
      ensures Degree(d, f, m'[j]) <= f.maxDegree
      ensures Relinked(ReadNode(d0, f, m[j]), ReadNode(d, f, m'[j]), ReadNode(d0, f, m[id]).nbrs, id, range, prune, j)
    {
      assert RelinkedAt(d0, d, f, m, m', ReadNode(d0, f, m[id]).nbrs, id, range, prune, j);
    }
  }

  // ---------------------------------------------------------------- the repair of all ids

  /** Pruning chooses among what it is given. */
  ghost predicate PruneSelects(prune: Prune) { forall n: nat, s: seq<nat>, x: nat :: x in prune(n, s) ==> x in s }

  ghost predicate PruneKeeps(prune: Prune) { forall n: nat, s: seq<nat> :: s != [] ==> prune(n, s) != [] }

  ghost predicate AllComplete(c: Contents) { forall id :: id in c ==> Complete(c, id) }

  ghost predicate AllLinked(c: Contents) { forall id :: id in c ==> c[id].nbrs != [] }

  ghost predicate NoneMissing(c: Contents, lo: nat, hi: nat) { forall id: nat :: lo <= id < hi ==> id in c }

  /** The same ids with the same vectors, and records that name only ids that exist. */
  ghost predicate Follows(c: Contents, c': Contents, prune: Prune) {
    && c'.Keys == c.Keys && AllComplete(c') && (forall j :: j in c ==> j in c' && c'[j].coords == c[j].coords)
    && (AllLinked(c) && PruneKeeps(prune) ==> AllLinked(c'))
  }

  lemma RepairedKeeps(c: Contents, c': Contents, id: nat, range: nat, prune: Prune)
    requires Repaired(c, c', id, range, prune) && AllComplete(c) && PruneSelects(prune)
    ensures Follows(c, c', prune)
  {
    forall j | j in c' ensures Complete(c', j) && c'[j].coords == c[j].coords {
      assert j in c && Complete(c, j);
      RelinkedNames(c[j], c'[j], c[id].nbrs, id, range, prune, j);
    }
    if AllLinked(c) && PruneKeeps(prune) {
      forall j | j in c' ensures c'[j].nbrs != [] {
        assert j in c;
        RelinkedLinked(c[j], c'[j], c[id].nbrs, id, range, prune, j);
      }
    }
  }

  lemma RelinkedNames(node: Node, node': Node, nbrs: seq<nat>, id: nat, range: nat, prune: Prune, j: nat)
    requires PruneSelects(prune) && Relinked(node, node', nbrs, id, range, prune, j)
    ensures node'.coords == node.coords && forall x :: x in node'.nbrs ==> x in node.nbrs || x == id
  {
    var nhood := if id in node.nbrs then node.nbrs else node.nbrs + [id];
    forall x | x in prune(j, nhood) ensures x in nhood { }
  }

  lemma RelinkedLinked(node: Node, node': Node, nbrs: seq<nat>, id: nat, range: nat, prune: Prune, j: nat)
    requires PruneKeeps(prune) && node.nbrs != [] && Relinked(node, node', nbrs, id, range, prune, j)
    ensures node'.nbrs != []
  {
  }

  lemma FollowsTrans(c: Contents, c1: Contents, c2: Contents, prune: Prune)
    requires Follows(c, c1, prune) && Follows(c1, c2, prune)
    ensures Follows(c, c2, prune)
  {
    forall j | j in c ensures j in c2 && c2[j].coords == c[j].coords { assert j in c1; }
  }

  /** Contents that go through the repairs of the ids from lo on. */
  ghost predicate Repairs(hist: seq<Contents>, lo: nat, range: nat, prune: Prune) {
    hist != [] && forall k: nat :: k < |hist| - 1 ==> Repaired(hist[k], hist[k + 1], lo + k, range, prune)
  }

  /** The id is named by each of its neighbours that had room. */
  ghost predicate NamedBy(c: Contents, c': Contents, id: nat, range: nat) {
    id in c && forall j :: j in c[id].nbrs && j in c && |c[j].nbrs| < range ==> j in c' && id in c'[j].nbrs
  }

  /** So is every repaired id, right after its repair. */
  ghost predicate Named(hist: seq<Contents>, lo: nat, range: nat) {
    forall k: nat :: k < |hist| - 1 ==> NamedBy(hist[k], hist[k + 1], lo + k, range)
  }

  lemma RepairsName(hist: seq<Contents>, lo: nat, range: nat, prune: Prune)
    requires Repairs(hist, lo, range, prune)
    ensures Named(hist, lo, range)
  {
    forall k: nat | k < |hist| - 1 ensures NamedBy(hist[k], hist[k + 1], lo + k, range) {
      assert Repaired(hist[k], hist[k + 1], lo + k, range, prune);
    }
  }

  /** A neighbour that has room in every repair still names it at the end. */
  lemma {:induction false} NamedAtEnd(hist: seq<Contents>, lo: nat, range: nat, prune: Prune, k: nat, j: nat, n: nat)
    requires Repairs(hist, lo, range, prune) && k < n < |hist| && lo + k in hist[k] && j in hist[k][lo + k].nbrs
    requires forall i :: 0 <= i < n ==> j in hist[i] && |hist[i][j].nbrs| < range
    ensures j in hist[n] && lo + k in hist[n][j].nbrs
    decreases n
  {
    assert Repaired(hist[n - 1], hist[n], lo + (n - 1), range, prune);
    if k < n - 1 { NamedAtEnd(hist, lo, range, prune, k, j, n - 1); }
  }

  /** The contents c0 became c by the repairs up to `at`. */
  ghost predicate Came(hist: seq<Contents>, c0: Contents, c: Contents, lo: nat, at: nat, range: nat, prune: Prune) {
    && Repairs(hist, lo, range, prune) && Named(hist, lo, range) && at == lo + |hist| - 1 && hist[0] == c0 && hist[|hist| - 1] == c
    && Follows(c0, c, prune) && NoneMissing(c0, lo, at)
  }

  /** After the repairs up to `at`: their contents, and where they wrote. */
  ghost predicate Repairing(hist: seq<Contents>, d0: Disk, d: Disk, f: Format, m0: map<nat, nat>, m: map<nat, nat>, lo: nat, at: nat,
                            range: nat, prune: Prune, written: seq<nat>) {
    && Came(hist, ContentsOf(d0, f, m0), ContentsOf(d, f, m), lo, at, range, prune)
    && Untouched(d0, d, f, written) && (at <= lo + 1 ==> Avoids(m0, written)) && (at == lo ==> written == [] && m == m0)
  }

  lemma HistoryMore(hist: seq<Contents>, c: Contents, lo: nat, range: nat, prune: Prune)
    requires Repairs(hist, lo, range, prune) && Repaired(hist[|hist| - 1], c, lo + |hist| - 1, range, prune)
    ensures Repairs(hist + [c], lo, range, prune)
  {
    var h := hist + [c];
    forall k: nat | k < |h| - 1 ensures Repaired(h[k], h[k + 1], lo + k, range, prune) {
      if k < |hist| - 1 { assert Repaired(hist[k], hist[k + 1], lo + k, range, prune); }
    }
  }

  lemma CameMore(hist: seq<Contents>, c0: Contents, c: Contents, c': Contents, lo: nat, at: nat, range: nat, prune: Prune)
    requires Came(hist, c0, c, lo, at, range, prune) && PruneSelects(prune) && Repaired(c, c', at, range, prune)
    ensures Came(hist + [c'], c0, c', lo, at + 1, range, prune)
  {
    HistoryMore(hist, c', lo, range, prune);
    RepairsName(hist + [c'], lo, range, prune);
    RepairedKeeps(c, c', at, range, prune);
    FollowsTrans(c0, c, c', prune);
    assert at in c0;
  }

  lemma RepairMore(hist: seq<Contents>, d0: Disk, d: Disk, d': Disk, f: Format, m0: map<nat, nat>, m: map<nat, nat>, m': map<nat, nat>,
                   lo: nat, at: nat, range: nat, prune: Prune, written: seq<nat>, more: seq<nat>)
    requires Repairing(hist, d0, d, f, m0, m, lo, at, range, prune, written) && PruneSelects(prune)
    requires Repaired(ContentsOf(d, f, m), ContentsOf(d', f, m'), at, range, prune)
    requires Untouched(d, d', f, more) && Avoids(m, more)
    ensures Repairing(hist + [ContentsOf(d', f, m')], d0, d', f, m0, m', lo, at + 1, range, prune, written + more)
  {
    CameMore(hist, ContentsOf(d0, f, m0), ContentsOf(d, f, m), ContentsOf(d', f, m'), lo, at, range, prune);
    UntouchedBoth(d0, d, d', f, written, more);
  }

  lemma UntouchedBoth(d0: Disk, d1: Disk, d2: Disk, f: Format, locs: seq<nat>, more: seq<nat>)
    requires Untouched(d0, d1, f, locs) && Untouched(d1, d2, f, more)
    ensures Untouched(d0, d2, f, locs + more)
  {
  }

  /** Why a repair loop stopped at id `at`: it does not exist, or its node has no neighbours by
      then. */
  ghost predicate StopsAt(hist: seq<Contents>, c: Contents, lo: nat, hi: nat, at: nat, range: nat, prune: Prune) {
    && hist != [] && Came(hist, c, hist[|hist| - 1], lo, at, range, prune) && at < hi
    && (at !in c || (at in hist[|hist| - 1] && hist[|hist| - 1][at].nbrs == []))
  }

  lemma StopsWhy(hist: seq<Contents>, c: Contents, lo: nat, hi: nat, at: nat, range: nat, prune: Prune)
    requires StopsAt(hist, c, lo, hi, at, range, prune)
    ensures AllLinked(c) && PruneKeeps(prune) ==> !NoneMissing(c, lo, hi)
  {
  }

  lemma RepairNone(d: Disk, f: Format, m: map<nat, nat>, lo: nat, range: nat, prune: Prune)
    requires AllComplete(ContentsOf(d, f, m))
    ensures Repairing([ContentsOf(d, f, m)], d, d, f, m, m, lo, lo, range, prune, [])
  {
  }

  /** The repair loop over the ids from lo to hi - 1, for any hints.  It stops at the first id that
      does not exist, or at a node that has no neighbours by then; if every node has some, it
      completes exactly if no id is missing.  A location that no repair wrote still holds its old
      record.  The first repair writes to none that the old id map leads to, and if that leads only
      to pages that must be left alone, no repair does. */
  method RepairAll(a: PageAllocator, d0: Disk, f: Format, lo: nat, hi: nat, hints: nat -> seq<nat>, range: nat, prune: Prune)
    returns (ok: bool, d: Disk, at: nat, ghost hist: seq<Contents>, ghost written: seq<nat>)
    requires Ready(a, d0, f) && ParamsOk(f, range, prune) && hi <= 0x1_0000_0000 && PruneSelects(prune)
    requires AllComplete(ContentsOf(d0, f, a.id2loc))
    modifies a
    ensures ok ==> at == (if lo < hi then hi else lo) && Ready(a, d, f) && (old(a.Valid()) ==> a.Valid())
    ensures ok ==> Repairing(hist, d0, d, f, old(a.id2loc), a.id2loc, lo, at, range, prune, written)
    ensures ok && (forall j :: j in old(a.id2loc) ==> a.g.page(old(a.id2loc)[j]) < a.firstUsable) ==> Avoids(old(a.id2loc), written)
    ensures !ok ==> StopsAt(hist, ContentsOf(d0, f, old(a.id2loc)), lo, hi, at, range, prune)
    ensures AllLinked(ContentsOf(d0, f, old(a.id2loc))) && PruneKeeps(prune) ==>
      (ok <==> NoneMissing(ContentsOf(d0, f, old(a.id2loc)), lo, hi))
  {
    ghost var m0, c := a.id2loc, ContentsOf(d0, f, a.id2loc);
    ghost var y0, front, gap := a.layout, a.g.page(a.curLoc), a.missing;
    ghost var exact := a.Valid();
    NoFlights(y0, a.g, a.settled, m0);
    ok, d, at, hist, written := true, d0, lo, [c], [];
    RepairNone(d0, f, m0, lo, range, prune);
    while at < hi && ok
      invariant ok ==> (at <= hi || at == lo) && Ready(a, d, f) && Repairing(hist, d0, d, f, m0, a.id2loc, lo, at, range, prune, written)
      invariant ok ==> Above(a.g, a.firstUsable, front, written) && front <= a.g.page(a.curLoc) && (exact ==> a.Valid())
      invariant !ok ==> StopsAt(hist, c, lo, hi, at, range, prune)
      decreases hi - at, ok
    {
      ok, d, at, hist, written := RepairNext(a, hist, d0, d, f, m0, lo, hi, at, hints(at), range, prune, written, front);
    }
    if !ok {
      StopsWhy(hist, c, lo, hi, at, range, prune);
    } else {
      WrittenAbove(a.g, y0, m0, a.firstUsable, front, written, gap);
    }
  }

  lemma AboveAvoids(g: Geometry, y: Layout, m: map<nat, nat>, first: nat, front: nat, locs: seq<nat>, gap: set<nat>)
    requires Guards(y, m, g, gap, []) && RowsOk(y, g.npp, front, gap) && Above(g, first, front, locs)
    requires forall id :: id in m ==> g.page(m[id]) < first
    ensures Avoids(m, locs)
  {
    forall id | id in m ensures m[id] !in locs { assert Taken(y, g, gap, m[id]); }
  }

  lemma WrittenAbove(g: Geometry, y: Layout, m: map<nat, nat>, first: nat, front: nat, written: seq<nat>, gap: set<nat>)
    requires Guards(y, m, g, gap, []) && RowsOk(y, g.npp, front, gap) && Above(g, first, front, written)
    ensures (forall j :: j in m ==> g.page(m[j]) < first) ==> Avoids(m, written)
  {
    if forall j :: j in m ==> g.page(m[j]) < first {
      AboveAvoids(g, y, m, first, front, written, gap);
    }
  }

  lemma AboveMore(g: Geometry, y: Layout, q: seq<nat>, hints: seq<nat>, first: nat, threshold: nat, cur: nat, front: nat,
                  written: seq<nat>, more: seq<nat>, gap: set<nat>)
    requires Sound(g) && RowsOk(y, g.npp, g.page(cur), gap) && front <= g.page(cur) && Above(g, first, front, written)
    requires more == FirstOf(g, OldSlots(y, q, hints, first, threshold, true), cur, |more|)
    ensures Above(g, first, front, written + more)
  {
    AnswerAbove(g, y, q, hints, first, threshold, true, cur, |more|, gap);
  }

  method RepairNext(a: PageAllocator, ghost hist1: seq<Contents>, ghost d0: Disk, d1: Disk, f: Format, ghost m0: map<nat, nat>,
                    ghost lo: nat, ghost hi: nat, at1: nat, hints: seq<nat>, range: nat, prune: Prune, ghost written1: seq<nat>, ghost front: nat)
    returns (ok: bool, d: Disk, at: nat, ghost hist: seq<Contents>, ghost written: seq<nat>)
    requires Ready(a, d1, f) && ParamsOk(f, range, prune) && at1 < hi <= 0x1_0000_0000 && PruneSelects(prune)
    requires Repairing(hist1, d0, d1, f, m0, a.id2loc, lo, at1, range, prune, written1)
    requires Above(a.g, a.firstUsable, front, written1) && front <= a.g.page(a.curLoc)
    modifies a
    ensures if ok then at == at1 + 1 && Ready(a, d, f) && Repairing(hist, d0, d, f, m0, a.id2loc, lo, at, range, prune, written)
            else at == at1 && StopsAt(hist, ContentsOf(d0, f, m0), lo, hi, at, range, prune)
    ensures ok ==> Above(a.g, a.firstUsable, front, written) && front <= a.g.page(a.curLoc) && (old(a.Valid()) ==> a.Valid())
  {
    ghost var m, y, q, cur, gap := a.id2loc, a.layout, a.emptyPages, a.curLoc, a.missing;
    assert at1 in hist1[|hist1| - 1] ==> Complete(hist1[|hist1| - 1], at1);
    ghost var more;
    ok, d, more := RelocateNeighbours(a, d1, f, at1, hints, range, prune);
    at, hist, written := at1, hist1, written1;
    if ok {
      RepairMore(hist1, d0, d1, d, f, m0, m, a.id2loc, lo, at1, range, prune, written1, more);
      AboveMore(a.g, y, q, hints, a.firstUsable, a.threshold, cur, front, written1, more, gap);
      at, hist, written := at + 1, hist + [ContentsOf(d, f, a.id2loc)], written + more;
    }
  }
}

/** What ext2_mkdir, ext2_ln and ext2_rm answer, case by case, and which inodes they touch. */
module Ext2Answers {
  import opened DirectoryBlock
  import opened Ext2Image
  import opened Ext2Laws
  import opened Ext2Lookup
  import opened Ext2Tools
  import opened Ext2Release
  import opened Ext2Commands

  // ----- lookups

  /** A lookup that has failed stays failed, whatever the rest of the path. */
  lemma {:induction false} LookupStuck(img: Image, n: int, path: seq<string>, name: string)
    requires !Lookup(img, n, path).Found?
    ensures Lookup(img, n, path + [name]) == Lookup(img, n, path)
    decreases |path|
  {
    hide Search, Run;
    assert (path + [name])[0] == path[0] && (path + [name])[1..] == path[1..] + [name];
    var next := Search(img.blocks, Run(img, n), path[0]);
    if next.Found? { LookupStuck(img, next.inode, path[1..], name); }
  }

  // ----- insertion

  /** Some block of the directory has room behind its last entry. */
  ghost predicate Roomy(img: Image, n: int, nameLen: nat) {
    exists i :: 0 <= i < |img.At(n)| && Slack(Content(img.blocks, img.At(n)[i]), nameLen)
  }

  predicate Full(img: Image) { forall i | 0 <= i < |img.blockBits| :: img.blockBits[i] }

  /** Without room, and with no block free, the pointer for the next block is taken for none if it is
      -1, and otherwise the entry is written to block junk, which may be past the image. */
  ghost predicate InsertAnswers(img: Image, img': Image, n: int, inode: int, fileType: int, name: string, junk: int,
                                r: Outcome)
  {
    var stuck := !Roomy(img, n, |name|) && Full(img);
    && (r == NoBlock <==> stuck && Stale(img, n) == 0xFFFF_FFFF)
    && (r == Fault <==> stuck && Stale(img, n) != 0xFFFF_FFFF && !(0 <= junk < 128))
    && (r in {NoBlock, Fault} ==> img' == img)
    && (r !in {NoBlock, Fault} ==> r == Done && exists b :: Writes(img, img', b, inode, fileType, name))
  }

  /** The new entry is the last of block b, and no other block has changed. */
  ghost predicate Writes(img: Image, img': Image, b: int, inode: int, fileType: int, name: string) {
    && 0 <= b < |img'.blocks| == |img.blocks| && img'.blocks == img.blocks[b := img'.blocks[b]]
    && img'.blocks[b].Entries? && img'.blocks[b].es != []
    && var e := img'.blocks[b].es[|img'.blocks[b].es| - 1];
       e.inode == inode && e.fileType == fileType && e.name == name
  }

  lemma InsertAnswered(img: Image, n: int, inode: int, fileType: int, name: string, junk: int)
    requires CanInsert(img, n, |name|) && (HasFree(img) ==> InImage(FirstFree(img.blockBits, 0) + 1))
    ensures var e := Inserting(img, n, inode, fileType, name, junk);
            InsertAnswers(img, e.img, n, inode, fileType, name, junk, e.outcome)
  {
    hide Content, Slack, Writes;
    var e := Inserting(img, n, inode, fileType, name, junk);
    var at, k := img.At(n), FirstSlack(img.blocks, img.At(n), 0, |name|);
    if k < |at| { assert Slack(Content(img.blocks, at[k]), |name|); }
    if e.outcome == Done { InsertWrites(img, n, inode, fileType, name, junk); }
  }

  lemma InsertWrites(img: Image, n: int, inode: int, fileType: int, name: string, junk: int)
    requires CanInsert(img, n, |name|)
    requires HasSlack(img, n, |name|) || InImage(if HasFree(img) then FirstFree(img.blockBits, 0) + 1 else junk)
    ensures exists b :: Writes(img, Insert(img, n, inode, fileType, name, junk), b, inode, fileType, name)
  {
    hide FirstFree, RecLen;
    var img' := Insert(img, n, inode, fileType, name, junk);
    if HasSlack(img, n, |name|) {
      var b := img.At(n)[FirstSlack(img.blocks, img.At(n), 0, |name|)];
      assert Writes(img, img', b, inode, fileType, name);
    } else {
      var b := if HasFree(img) then FirstFree(img.blockBits, 0) + 1 else junk;
      assert Writes(img, img', b, inode, fileType, name);
    }
  }

  /** Of the inodes only n is another one, and it still is what it was, with as many links. */
  ghost predicate GrowsOnly(img: Image, img': Image, n: int) {
    && img'.inodeBits == img.inodeBits && (forall m | m != n :: img'.Node(m) == img.Node(m))
    && img'.sFreeInodes == img.sFreeInodes && img'.gFreeInodes == img.gFreeInodes
    && var d, d' := img.Node(n), img'.Node(n); d'.mode == d.mode && d'.dtime == d.dtime && d'.links == d.links
  }

  lemma ExtendGrows(img: Image, n: int, es: seq<Entry>, junk: int)
    requires CanExtend(img, n)
    ensures var img' := Extend(img, n, es, junk);
            && GrowsOnly(img, img', n) && img'.Node(n).size == img.Node(n).size + EXT2_BLOCK_SIZE
            && img'.Node(n).sectors == img.Node(n).sectors + 2
  {
    hide FirstFree;
  }

  lemma InsertGrows(img: Image, n: int, inode: int, fileType: int, name: string, junk: int)
    requires CanInsert(img, n, |name|)
    ensures GrowsOnly(img, Inserting(img, n, inode, fileType, name, junk).img, n)
  {
    hide Extend, Split, HasSlack, HasFree, GrowsOnly;
    if HasSlack(img, n, |name|) {
      SameGrows(img, Insert(img, n, inode, fileType, name, junk), n);
    } else {
      SameGrows(img, img, n);
      ExtendGrows(img, n, [Entry(inode, EXT2_BLOCK_SIZE, fileType, name)], junk);
    }
  }

  lemma SameGrows(img: Image, img': Image, n: int)
    requires img'.inodes == img.inodes && img'.inodeBits == img.inodeBits
    requires img'.sFreeInodes == img.sFreeInodes && img'.gFreeInodes == img.gFreeInodes
    ensures GrowsOnly(img, img', n)
  {
  }

  // ----- mkdir

  /** The parent is missing: ENOENT. The new path is there: EEXIST. Something on the way is a file
      or a link: NotADirectory. Otherwise the directory is made, unless there is no inode or no
      block; and only then is the image another one. */
  ghost predicate MkdirAnswers(img: Image, img': Image, parent: seq<string>, name: string, r: Outcome) {
    var p, there := Lookup(img, EXT2_ROOT_INO, parent), Lookup(img, EXT2_ROOT_INO, parent + [name]);
    && (p == Missing ==> r == ENOENT)
    && (there.Found? ==> r == EEXIST)
    && (p == NotDirectory || there == NotDirectory ==> r == NotADirectory)
    && (p == Astray || there == Astray ==> r == Strayed)
    && (p.Found? && there == Missing ==> r in {Done, NoInode, NoBlock, Fault})
    && (r == NoInode <==> p.Found? && there == Missing && forall i | 0 <= i < |img.inodeBits| :: img.inodeBits[i])
    && (r !in {Done, NoBlock, Fault} ==> img' == img)
    && (r in {Done, NoBlock, Fault} ==>
          p.Found? && there == Missing && MkdirTouches(img, img', p.inode, FirstFree(img.inodeBits, 0) + 1, r))
  }

  lemma MkdirAnswered(img: Image, held: set<int>, parent: seq<string>, name: string, junk: int)
    requires Consistent(img, held)
    ensures var e := MkdirEnding(img, held, parent, name, junk); MkdirAnswers(img, e.img, parent, name, e.outcome)
  {
    hide Consistent, Lookup, Making, CanMake, MkdirTouches, FirstFree;
    var p, there := Lookup(img, EXT2_ROOT_INO, parent), Lookup(img, EXT2_ROOT_INO, parent + [name]);
    ShapeIfConsistent(img, held);
    if !p.Found? { LookupStuck(img, EXT2_ROOT_INO, parent, name); }
    if MkdirVerdict(img, parent, name) == Done {
      MkdirCanMake(img, held, parent, name);
      MakingOutcome(img, p.inode, name, junk);
      MakingTouches(img, p.inode, name, junk);
    }
  }

  lemma MakingOutcome(img: Image, p: int, name: string, junk: int)
    requires CanMake(img, p)
    ensures Making(img, p, name, junk).outcome in {Done, NoBlock, Fault}
  {
    hide CanInsert, Birth, Insert, AddLinks, HasSlack, HasFree;
    BirthCanInsert(img, p, |name|);
  }

  /** The first free inode has become a directory of one block that was never deleted; its parent has
      a link more once the new name is made; and no other inode has changed. */
  ghost predicate MkdirTouches(img: Image, img': Image, p: int, n: int, r: Outcome) {
    && 1 <= n <= |img.inodeBits| && n != p && !img.inodeBits[n - 1] && (forall i | 0 <= i < n - 1 :: img.inodeBits[i])
    && img'.inodeBits == img.inodeBits[n - 1 := true]
    && img'.sFreeInodes == img.sFreeInodes - 1 && img'.gFreeInodes == img.gFreeInodes - 1
    && (forall m | m != n && m != p :: img'.Node(m) == img.Node(m))
    && var d, up, up' := img'.Node(n), img.Node(p), img'.Node(p);
       && d.mode == EXT2_S_IFDIR && d.dtime == 0 && d.links == 2 && d.size == EXT2_BLOCK_SIZE && d.sectors == 2
       && up'.mode == up.mode && up'.dtime == up.dtime && up'.links == up.links + if r == Done then 1 else 0
  }

  lemma TakeTouches(img: Image, p: int)
    requires CanMake(img, p)
    ensures var n, taken := FirstFree(img.inodeBits, 0) + 1, TakeInode(img);
            && taken.inodeBits == img.inodeBits[n - 1 := true] && n != p
            && taken.sFreeInodes == img.sFreeInodes - 1 && taken.gFreeInodes == img.gFreeInodes - 1
            && (forall m | m != n :: taken.Node(m) == img.Node(m))
            && var d := taken.Node(n);
               d.mode == EXT2_S_IFDIR && d.dtime == 0 && d.links == 2 && d.size == 0 && d.sectors == 0
  {
  }

  lemma MakingTouches(img: Image, p: int, name: string, junk: int)
    requires CanMake(img, p)
    ensures var e := Making(img, p, name, junk);
            MkdirTouches(img, e.img, p, FirstFree(img.inodeBits, 0) + 1, e.outcome)
  {
    hide CanMake, CanInsert, Inserting, TakeInode, Extend, CanExtend, FirstPointer, HasFree, Dots;
    NodeRange(img, p);
    var n, taken, born := FirstFree(img.inodeBits, 0) + 1, TakeInode(img), Birth(img, p);
    TakenParts(img, p);
    TakeTouches(img, p);
    ExtendGrows(taken, n, Dots(n, p), FirstPointer(img));
    BirthCanInsert(img, p, |name|);
    InsertGrows(born, p, n, EXT2_FT_DIR, name, junk);
    InsertingInodes(born, p, n, EXT2_FT_DIR, name, junk);
  }

  lemma NodeRange(img: Image, p: int)
    requires CanMake(img, p)
    ensures FirstFree(img.inodeBits, 0) < |img.inodeBits| == |img.inodes| == INODE_NUM && 1 <= p <= INODE_NUM
  {
  }

  lemma InsertingInodes(img: Image, n: int, inode: int, fileType: int, name: string, junk: int)
    requires CanInsert(img, n, |name|)
    ensures |Inserting(img, n, inode, fileType, name, junk).img.inodes| == INODE_NUM && 1 <= n <= INODE_NUM
  {
    InsertInodes(img, n, inode, fileType, name, junk);
  }

  // ----- ln

  /** The target's parent is looked up before the source's; either may be missing, or not a directory.
      The source has to be there, and not a directory. From then on a link is counted for it: with
      the new name taken already, that is all that happens. */
  ghost predicate LnAnswers(img: Image, img': Image, srcParent: seq<string>, srcName: string, parent: seq<string>,
                            name: string, r: Outcome)
  {
    var to, from := Lookup(img, EXT2_ROOT_INO, parent), Lookup(img, EXT2_ROOT_INO, srcParent);
    && (to == Missing || (to.Found? && from == Missing) ==> r == ENOENT)
    && (to == NotDirectory || (to.Found? && from == NotDirectory) ==> r == NotADirectory)
    && (to == Astray || (to.Found? && from == Astray) ==> r == Strayed)
    && (r in {ENOENT, NotADirectory, Strayed} ==> img' == img)
    && (to.Found? && from.Found? ==>
          var sources, taken := Table(Lines(img, from.inode)), Table(Lines(img, to.inode));
          && (r == ENOENT <==> srcName !in sources)
          && (srcName in sources && sources[srcName].fileType == EXT2_FT_DIR ==> r == EISDIR && img' == img)
          && (srcName in sources && sources[srcName].fileType != EXT2_FT_DIR ==>
                && (name in taken && taken[name].fileType == EXT2_FT_DIR ==> r == EISDIR)
                && (name in taken && taken[name].fileType != EXT2_FT_DIR ==> r == EEXIST)
                && (name !in taken ==> r in {Done, NoBlock, Fault})
                && LnTouches(img, img', to.inode, sources[srcName].inode, r)))
  }

  /** The file has a link more, the directory no fewer and no more; and nothing but the link has
      changed unless the entry has been made. */
  ghost predicate LnTouches(img: Image, img': Image, p: int, file: int, r: Outcome) {
    && file != p && img'.Node(file) == img.Node(file).(links := img.Node(file).links + 1)
    && (forall m | m != file && m != p :: img'.Node(m) == img.Node(m))
    && img'.Node(p).mode == img.Node(p).mode && img'.Node(p).dtime == img.Node(p).dtime
    && img'.Node(p).links == img.Node(p).links
    && img'.inodeBits == img.inodeBits && img'.sFreeInodes == img.sFreeInodes && img'.gFreeInodes == img.gFreeInodes
    && (r != Done ==> img'.blocks == img.blocks && img'.blockBits == img.blockBits && img'.Node(p) == img.Node(p)
                      && img'.sFreeBlocks == img.sFreeBlocks && img'.gFreeBlocks == img.gFreeBlocks)
  }

  lemma LnAnswered(img: Image, held: set<int>, srcParent: seq<string>, srcName: string, parent: seq<string>,
                   name: string)
    requires Consistent(img, held) && Nameable(name)
    ensures var e := LnEnding(img, held, srcParent, srcName, parent, name);
            LnAnswers(img, e.img, srcParent, srcName, parent, name, e.outcome)
  {
    hide Consistent, Lookup, Table, Lines, Linking, LinkAsked, CanInsert, LnTouches;
    var ends := LnEnds(img, srcParent, srcName, parent);
    if ends.Ends? {
      LnCanLink(img, held, srcParent, srcName, parent, name);
      LinkingTouches(img, held, ends.file, ends.to, name);
    }
  }

  lemma LinkingTouches(img: Image, held: set<int>, file: int, p: int, name: string)
    requires LinkAsked(img, held, file, p, name)
    ensures var e, taken := Linking(img, file, p, name), Table(Lines(img, p));
            && LnTouches(img, e.img, p, file, e.outcome)
            && (name in taken && taken[name].fileType == EXT2_FT_DIR ==> e.outcome == EISDIR)
            && (name in taken && taken[name].fileType != EXT2_FT_DIR ==> e.outcome == EEXIST)
            && (name !in taken ==> e.outcome in {Done, NoBlock, Fault})
  {
    hide Consistent, Table, Lines, CanInsert, Insert, HasSlack, HasFree;
    var linked := AddLinks(img, file, 1);
    LinkedCanInsert(img, file, p, |name|);
    InsertGrows(linked, p, file, EXT2_FT_REG_FILE, name, Stale(linked, p));
  }

  // ----- rm

  /** The parent has to be there. Of its names only a directory's is refused; any other is removed, it
      alone, and its inode has a link less. With the last one the inode and its blocks are given back:
      those that twelve pointers lead to. */
  ghost predicate RmAnswers(img: Image, img': Image, parent: seq<string>, name: string, r: Outcome) {
    var p := Lookup(img, EXT2_ROOT_INO, parent);
    && (p == Missing ==> r == ENOENT) && (p == NotDirectory ==> r == NotADirectory) && (p == Astray ==> r == Strayed)
    && (r !in {Done, Indirect} ==> img' == img)
    && (p.Found? ==>
          var names := Table(Lines(img, p.inode));
          && (r == ENOENT <==> name !in names)
          && (r == EISDIR <==> name in names && names[name].fileType == EXT2_FT_DIR)
          && (name in names && names[name].fileType != EXT2_FT_DIR ==>
                r in {Done, Indirect} && Unlinked(img, img', p.inode, name, names[name].inode, r)))
  }

  ghost predicate Unlinked(img: Image, img': Image, n: int, name: string, file: int, r: Outcome) {
    var d := img.Node(file);
    && Table(Lines(img', n)) == Table(Lines(img, n)) - {name}
    && (forall m | img.Directory(m) && m != n :: Lines(img', m) == Lines(img, m))
    && img'.Node(file) == d.(links := d.links - 1) && (forall m | m != file :: img'.Node(m) == img.Node(m))
    && (r == Indirect <==> d.links == 1 && 12 < d.sectors / 2)
    && (d.links == 1 ==> Returned(img, img', file))
    && (d.links != 1 ==>
          && img'.inodeBits == img.inodeBits && img'.blockBits == img.blockBits
          && img'.sFreeInodes == img.sFreeInodes && img'.gFreeInodes == img.gFreeInodes
          && img'.sFreeBlocks == img.sFreeBlocks && img'.gFreeBlocks == img.gFreeBlocks)
  }

  lemma RemovesRest(img: Image, mid: Image, n: int, i: int, b: int, was: seq<Entry>, j: int)
    requires img.Shape() && Removes(img, mid, n, i, b, was, j)
    ensures var file := was[j].inode;
            && mid.Shape() && mid.inodeBits == img.inodeBits && mid.blockBits == img.blockBits
            && mid.sFreeInodes == img.sFreeInodes && mid.gFreeInodes == img.gFreeInodes
            && mid.sFreeBlocks == img.sFreeBlocks && mid.gFreeBlocks == img.gFreeBlocks
            && mid.Node(file) == img.Node(file).(links := img.Node(file).links - 1)
            && (forall m | m != file :: mid.Node(m) == img.Node(m))
  {
  }

  lemma ReturnedSame(img: Image, mid: Image, img': Image, file: int)
    requires Returned(mid, img', file) && img.Shape()
    requires mid.inodeBits == img.inodeBits && mid.blockBits == img.blockBits
    requires mid.sFreeInodes == img.sFreeInodes && mid.gFreeInodes == img.gFreeInodes
    requires mid.sFreeBlocks == img.sFreeBlocks && mid.gFreeBlocks == img.gFreeBlocks
    requires mid.Node(file).block == img.Node(file).block && mid.Node(file).sectors == img.Node(file).sectors
    ensures Returned(img, img', file)
  {
  }

  /** Removing one entry of a file: what becomes of everything else. */
  lemma RmUnlinks(img: Image, held: set<int>, mid: Image, n: int, i: int, b: int, was: seq<Entry>, j: int)
    requires Consistent(img, held) && Removes(img, mid, n, i, b, was, j)
    ensures var e := Unlinking(mid, was[j].inode);
            e.outcome in {Done, Indirect} && Unlinked(img, e.img, n, was[j].name, was[j].inode, e.outcome)
  {
    hide Consistent, Erase, AddLinks, Returned, Table, Flat, ClearWord, ClearWords, Image.FileAt, Image.File;
    var file := was[j].inode;
    var e := Unlinking(mid, file);
    ShapeIfConsistent(img, held);
    RemoveConsistent(img, held, mid, n, i, b, was, j);
    RemovesRest(img, mid, n, i, b, was, j);
    if mid.Node(file).links == 0 {
      RemovedFile(img, held, mid, n, i, b, was, j);
      ReleaseReturns(mid, file);
      ReturnedSame(img, mid, e.img, file);
    }
  }
}

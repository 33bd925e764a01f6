/** ext2_mkdir, ext2_ln and ext2_rm as a whole: which way they go, what they leave, and when what
    they leave is consistent. */
module Ext2Commands {
  import opened DirectoryBlock
  import opened Ext2Image
  import opened Ext2Laws
  import opened Ext2Lookup
  import opened Ext2Tools
  import opened Ext2Release

  /** How a command ends whose lookup of a directory fails. */
  function Failure(r: Place): Outcome
    requires !r.Found?
  {
    match r
    case Missing => ENOENT
    case NotDirectory => NotADirectory
    case Astray => Strayed
  }

  // ----- mkdir

  /** Done here: it goes on to make the directory. */
  ghost function MkdirVerdict(img: Image, parent: seq<string>, name: string): Outcome {
    var p, there := Lookup(img, EXT2_ROOT_INO, parent), Lookup(img, EXT2_ROOT_INO, parent + [name]);
    if !p.Found? then Failure(p)
    else if there.Found? then EEXIST
    else if !there.Missing? then Failure(there)
    else if FirstFree(img.inodeBits, 0) < INODE_NUM then Done else NoInode
  }

  lemma MkdirCanMake(img: Image, held: set<int>, parent: seq<string>, name: string)
    requires Consistent(img, held) && MkdirVerdict(img, parent, name) == Done
    ensures Lookup(img, EXT2_ROOT_INO, parent).Found? && CanMake(img, Lookup(img, EXT2_ROOT_INO, parent).inode)
  {
    hide Owned, BlocksOk, Dotted, Unique, Linked, Counted, Lookup, CanMake;
    RootDirectory(img, held);
    LookupDirectory(img, EXT2_ROOT_INO, parent);
    CanMakeIf(img, held, Lookup(img, EXT2_ROOT_INO, parent).inode);
  }

  ghost function MkdirEnding(img: Image, held: set<int>, parent: seq<string>, name: string, junk: int): Ending
    requires Consistent(img, held)
  {
    if MkdirVerdict(img, parent, name) == Done then
      MkdirCanMake(img, held, parent, name);
      Making(img, Lookup(img, EXT2_ROOT_INO, parent).inode, name, junk)
    else Ending(MkdirVerdict(img, parent, name), img)
  }

  /** The parent that was looked up has the one more name, the new directory its two dots, and no
      other directory has changed; if the lookup of the parent was right the new path leads to the
      new directory, and every path to a directory still leads there. */
  ghost predicate MkdirDone(img: Image, img': Image, held: set<int>, parent: seq<string>, name: string) {
    var p, n := Lookup(img, EXT2_ROOT_INO, parent), FirstFree(img.inodeBits, 0) + 1;
    && p.Found? && Made(img, img', held, p.inode, n, name)
    && (p == Resolve(img, EXT2_ROOT_INO, parent) ==> Resolve(img', EXT2_ROOT_INO, parent + [name]) == Found(n))
    && forall path | Resolve(img, EXT2_ROOT_INO, path).Found? ::
       Resolve(img', EXT2_ROOT_INO, path) == Resolve(img, EXT2_ROOT_INO, path)
  }

  /** Once mkdir goes on, the image stays consistent exactly if the name is new in the parent that
      was looked up and there is room; and then mkdir has done its work. */
  lemma MkdirExact(img: Image, held: set<int>, parent: seq<string>, name: string, junk: int)
    requires Consistent(img, held) && Nameable(name) && MkdirVerdict(img, parent, name) == Done
    ensures var p, e := Lookup(img, EXT2_ROOT_INO, parent), MkdirEnding(img, held, parent, name, junk);
            && p.Found?
            && (Consistent(e.img, held) <==>
                name !in Table(Lines(img, p.inode)) && RoomToMake(img, held, p.inode, |name|, junk))
            && (Consistent(e.img, held) ==> e.outcome == Done && MkdirDone(img, e.img, held, parent, name))
  {
    hide Consistent, Lookup, Resolve, Making, Made, CanMake, RoomToMake, Table, Lines, MkdirVerdict;
    MkdirCanMake(img, held, parent, name);
    var p, e := Lookup(img, EXT2_ROOT_INO, parent).inode, MkdirEnding(img, held, parent, name, junk);
    MakingExact(img, held, p, name, junk);
    if Consistent(e.img, held) {
      MadeResolves(img, e.img, held, p, FirstFree(img.inodeBits, 0) + 1, parent, name);
    }
  }

  /** Where the lookups are right, a name that mkdir goes on with is new. */
  lemma RightIsNew(img: Image, held: set<int>, parent: seq<string>, name: string)
    requires Consistent(img, held) && UnmistakenAlong(img, EXT2_ROOT_INO, parent + [name])
    ensures Lookup(img, EXT2_ROOT_INO, parent) == Resolve(img, EXT2_ROOT_INO, parent)
    ensures MkdirVerdict(img, parent, name) == Done ==>
              Resolve(img, EXT2_ROOT_INO, parent).Found?
                  && name !in Table(Lines(img, Resolve(img, EXT2_ROOT_INO, parent).inode))
  {
    hide Consistent, Lookup, Resolve, Table, Lines, Unmistaken;
    var path := parent + [name];
    RootDirectory(img, held);
    assert forall k | 0 <= k <= |parent| :: path[..k] == parent[..k];
    assert parent[..|parent|] == parent;
    LookupIfUnmistaken(img, held, EXT2_ROOT_INO, path);
    LookupIfUnmistaken(img, held, EXT2_ROOT_INO, parent);
    if MkdirVerdict(img, parent, name) == Done {
      ResolveAppend(img, EXT2_ROOT_INO, parent, name);
      AnswerIs(Table(Lines(img, Resolve(img, EXT2_ROOT_INO, parent).inode)), name);
    }
  }

  // ----- ln

  /** The two directories of a hard link and the file, or why it comes to nothing. */
  datatype Ends = Ends(to: int, file: int) | Fails(outcome: Outcome)

  ghost function LnEnds(img: Image, srcParent: seq<string>, srcName: string, parent: seq<string>): Ends {
    var p, q := Lookup(img, EXT2_ROOT_INO, parent), Lookup(img, EXT2_ROOT_INO, srcParent);
    if !p.Found? then Fails(Failure(p))
    else if !q.Found? then Fails(Failure(q))
    else
      var from := Table(Lines(img, q.inode));
      if srcName !in from then Fails(ENOENT)
      else if from[srcName].fileType == EXT2_FT_DIR then Fails(EISDIR)
      else Ends(p.inode, from[srcName].inode)
  }

  lemma LnCanLink(img: Image, held: set<int>, srcParent: seq<string>, srcName: string, parent: seq<string>,
                  name: string)
    requires Consistent(img, held) && Nameable(name) && LnEnds(img, srcParent, srcName, parent).Ends?
    ensures var ends := LnEnds(img, srcParent, srcName, parent); LinkAsked(img, held, ends.file, ends.to, name)
  {
    hide Owned, BlocksOk, Dotted, Unique, Linked, Counted, Lookup, Table, Lines, CanInsert;
    RootDirectory(img, held);
    LookupDirectory(img, EXT2_ROOT_INO, parent);
    LookupDirectory(img, EXT2_ROOT_INO, srcParent);
    var q, ends := Lookup(img, EXT2_ROOT_INO, srcParent).inode, LnEnds(img, srcParent, srcName, parent);
    TargetOk(img, held, q, srcName);
    CanLink(img, held, ends.to, |name|);
  }

  ghost function LnEnding(img: Image, held: set<int>, srcParent: seq<string>, srcName: string, parent: seq<string>,
                          name: string): Ending
    requires Consistent(img, held) && Nameable(name)
  {
    match LnEnds(img, srcParent, srcName, parent)
    case Fails(outcome) => Ending(outcome, img)
    case Ends(to, file) =>
      LnCanLink(img, held, srcParent, srcName, parent, name);
      Linking(img, file, to, name)
  }

  /** ext2_ln leaves a consistent image exactly if it fails before it counts the link, or the name is
      new and there is room; and in the second case it adds the one name for the file. */
  lemma LnExact(img: Image, held: set<int>, srcParent: seq<string>, srcName: string, parent: seq<string>, name: string)
    requires Consistent(img, held) && Nameable(name)
    ensures var ends, e := LnEnds(img, srcParent, srcName, parent),
            LnEnding(img, held, srcParent, srcName, parent, name);
            && (Consistent(e.img, held) <==>
                ends.Fails? || (name !in Table(Lines(img, ends.to)) && RoomToLink(img, held, ends.to, |name|)))
            && (ends.Ends? && Consistent(e.img, held) ==>
                  e.outcome == Done && Inserted(img, e.img, ends.to, ends.file, EXT2_FT_REG_FILE, name))
  {
    hide Consistent, Lookup, Linking, LinkAsked, Inserted, RoomToLink, Table, Lines, LnEnds;
    var ends := LnEnds(img, srcParent, srcName, parent);
    if ends.Ends? {
      LnCanLink(img, held, srcParent, srcName, parent, name);
      LinkingExact(img, held, ends.file, ends.to, name);
    }
  }

  // ----- rm

  /** Done here: it removes the entry. */
  ghost function RmVerdict(img: Image, parent: seq<string>, name: string): Outcome {
    var p := Lookup(img, EXT2_ROOT_INO, parent);
    if !p.Found? then Failure(p)
    else
      var names := Table(Lines(img, p.inode));
      if name !in names then ENOENT
      else if names[name].fileType == EXT2_FT_DIR then EISDIR
      else Done
  }

  /** From the image without the entry and the link: the file is given back with its last link. A
      file with indirect blocks is given back up to those. */
  function Unlinking(mid: Image, file: int): Ending {
    if mid.Node(file).links != 0 then Ending(Done, mid)
    else if DIRECT < mid.Node(file).sectors / 2 then Ending(Indirect, Release(mid, file))
    else Ending(Done, Release(mid, file))
  }

  /** What is held after the removal of file's entry. */
  ghost function HeldAfter(img: Image, held: set<int>, file: int): set<int> {
    if img.Node(file).links == 1 then Rest(held, img.FileAt(file)) else held
  }

  /** The entry goes and no other name of any directory; and so does the file if that was its last
      link. The image is consistent exactly if it was not, or nothing else went with the file. */
  ghost predicate RmDone(img: Image, img': Image, held: set<int>, n: int, name: string, r: Outcome) {
    exists mid, i, b, was, j :: Removes(img, mid, n, i, b, was, j) && RmLeaves(img, mid, img', held, n, was[j], name, r)
  }

  ghost predicate RmLeaves(img: Image, mid: Image, img': Image, held: set<int>, n: int, e: Entry, name: string,
                           r: Outcome)
  {
    && e.name == name && Removed(img, mid, held, n, name) && Table(Lines(img, n))[name] == Target(e.inode, e.fileType)
    && Ending(r, img') == Unlinking(mid, e.inode)
    && (r == Done ==>
          (Consistent(img', HeldAfter(img, held, e.inode)) <==> img.Node(e.inode).links != 1 || Clean(img, e.inode)))
  }

  lemma RemovesParts(img: Image, mid: Image, n: int, i: int, b: int, was: seq<Entry>, j: int)
    requires img.Shape() && Removes(img, mid, n, i, b, was, j)
    ensures var file := was[j].inode;
            && mid.inodeBits == img.inodeBits && mid.blockBits == img.blockBits && mid.FileAt(file) == img.FileAt(file)
            && mid.Node(file).links == img.Node(file).links - 1 && mid.Node(file).sectors == img.Node(file).sectors
  {
  }

  /** Removing one entry of a file: when the image stays consistent. */
  lemma RmExact(img: Image, held: set<int>, mid: Image, n: int, i: int, b: int, was: seq<Entry>, j: int)
    requires Consistent(img, held) && Removes(img, mid, n, i, b, was, j)
    ensures var e := Unlinking(mid, was[j].inode); RmDone(img, e.img, held, n, was[j].name, e.outcome)
  {
    hide Consistent, Removed, Clean, Release, Rest, Lines, Table, Image.FileAt;
    var file := was[j].inode;
    var e := Unlinking(mid, file);
    RemoveConsistent(img, held, mid, n, i, b, was, j);
    ShapeIfConsistent(img, held);
    RemovesParts(img, mid, n, i, b, was, j);
    ConsistentIfRemoved(img, mid, held, n, was[j].name);
    if mid.Node(file).links == 0 {
      RemovedFile(img, held, mid, n, i, b, was, j);
      ReleaseExact(mid, held, file);
      CleanSame(img, mid, file);
    }
    RemovesTarget(img, held, mid, n, i, b, was, j);
    assert RmLeaves(img, mid, e.img, held, n, was[j], was[j].name, e.outcome);
  }

  lemma RemovesTarget(img: Image, held: set<int>, mid: Image, n: int, i: int, b: int, was: seq<Entry>, j: int)
    requires Consistent(img, held) && Removes(img, mid, n, i, b, was, j)
    ensures was[j].name in Table(Lines(img, n))
    ensures Table(Lines(img, n))[was[j].name] == Target(was[j].inode, was[j].fileType)
  {
    hide Owned, Dotted, BlocksOk, Linked, Counted, Lines, Table, Flat, UniqueNames;
    OwnLines(img, n, i);
    UniqueAt(img, n);
    UniqueTarget(Flat(img.blocks, img.At(n)[..i]), was, Flat(img.blocks, img.At(n)[i + 1..]), j);
  }

  lemma UniqueTarget(xs: seq<Entry>, was: seq<Entry>, ys: seq<Entry>, j: nat)
    requires UniqueNames(xs + was + ys) && j < |was| && was[j].Live()
    ensures was[j].name in Table(xs + was + ys)
            && Table(xs + was + ys)[was[j].name] == Target(was[j].inode, was[j].fileType)
  {
    hide Table;
    var all := xs + was + ys;
    assert all[|xs| + j] == was[j];
    FirstInTable(all, |xs| + j);
  }

  lemma RemovedFile(img: Image, held: set<int>, mid: Image, n: int, i: int, b: int, was: seq<Entry>, j: int)
    requires Consistent(img, held) && Removes(img, mid, n, i, b, was, j)
    ensures mid.File(was[j].inode)
  {
    hide Owned, Dotted, Unique, Linked, Counted, BlocksOk, Lines;
    BlockOk(img, b, was);
    EntryUsed(img, was[j]);
  }

  lemma CleanSame(img: Image, mid: Image, file: int)
    requires mid.inodeBits == img.inodeBits && mid.blockBits == img.blockBits && mid.FileAt(file) == img.FileAt(file)
    ensures Clean(mid, file) <==> Clean(img, file)
  {
  }

  lemma ShapeIfConsistent(img: Image, held: set<int>)
    requires Consistent(img, held)
    ensures img.Shape()
  {
  }

  lemma ConsistentIfRemoved(img: Image, img': Image, held: set<int>, n: int, name: string)
    requires Removed(img, img', held, n, name)
    ensures Consistent(img', held)
  {
  }
}

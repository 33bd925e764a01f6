/** What ext2_mkdir, ext2_ln and ext2_rm do to an image, when it stays consistent, and what paths
    then lead to. */
module Ext2Tools {
  import opened DirectoryBlock
  import opened Ext2Image
  import opened Ext2Laws
  import opened Ext2Lookup

  /** How a run ends. Strayed: a lookup came to bytes that are no entries. NoBlock: the pointer for
      the next block says that there is none. Fault: a write past the image. */
  datatype Outcome =
    Done | ENOENT | EEXIST | EISDIR | NotADirectory | Strayed | NoInode | NoBlock | Fault | Indirect

  datatype Ending = Ending(outcome: Outcome, img: Image)

  predicate InImage(b: int) { 0 <= b < BLOCK_NUM }

  // ----- room

  lemma {:induction false} FreeBit(bits: seq<bool>)
    ensures FirstFree(bits, 0) < |bits| <==> 0 < Zeros(bits)
  {
    if bits != [] {
      var front := bits[..|bits| - 1];
      FreeBit(front);
      FirstFreeIs(bits, if FirstFree(front, 0) < |front| then FirstFree(front, 0)
          else if bits[|front|] then |bits| else |front|);
    }
  }

  lemma FirstFreeIs(bits: seq<bool>, k: nat)
    requires k <= |bits| && (forall i | 0 <= i < k :: bits[i]) && (k < |bits| ==> !bits[k])
    ensures FirstFree(bits, 0) == k
  {
    var f := FirstFree(bits, 0);
  }

  /** Block b is in use, but by no directory and no file. */
  ghost predicate Usable(img: Image, held: set<int>, b: int) { img.Marked(b) && Vacant(img, held, b) }

  /** The new directory gets a block, and its parent has room for one more entry or gets a block
      for it: a free one, or what the pointer holds is usable and, in mkdir, by chance also what the
      variable for the block holds. */
  ghost predicate RoomToMake(img: Image, held: set<int>, p: int, nameLen: nat, junk: int) {
    var first, next := FirstPointer(img), Stale(img, p);
    && (HasFree(img) || Usable(img, held, first))
    && (HasSlack(img, p, nameLen) ||
        (|img.At(p)| < DIRECT &&
         (2 <= Zeros(img.blockBits) || (junk == next && Usable(img, held, next) && (HasFree(img) || next != first)))))
  }

  ghost predicate RoomToLink(img: Image, held: set<int>, p: int, nameLen: nat) {
    HasSlack(img, p, nameLen) || (|img.At(p)| < DIRECT && (HasFree(img) || Usable(img, held, Stale(img, p))))
  }

  /** What the first pointer of the first free inode holds. */
  function FirstPointer(img: Image): int {
    var d := img.Node(FirstFree(img.inodeBits, 0) + 1);
    if d.block != [] then d.block[0] else NO_BLOCK
  }

  // ----- insertion into a full image

  /** A new entry in directory n, or how the search for a block for it ends. */
  ghost function Inserting(img: Image, n: int, inode: int, fileType: int, name: string, junk: int): Ending
    requires CanInsert(img, n, |name|)
  {
    if !HasSlack(img, n, |name|) && !HasFree(img) && Stale(img, n) == NO_BLOCK then Ending(NoBlock, img)
    else if !HasSlack(img, n, |name|) && !HasFree(img) && !InImage(junk) then Ending(Fault, img)
    else Ending(Done, Insert(img, n, inode, fileType, name, junk))
  }

  lemma ExtendOwns(img: Image, n: int, es: seq<Entry>, junk: int)
    requires CanExtend(img, n)
    ensures var img' := Extend(img, n, es, junk);
            && img'.Shape() && (forall m :: img'.Directory(m) <==> img.Directory(m))
            && img'.At(n) == img.At(n) + [Chosen(img, n)] && (forall m | m != n :: img'.At(m) == img.At(m))
            && (!HasFree(img) ==> img'.blockBits == img.blockBits)
            && (!HasFree(img) ==> img'.blocks == Put(img.blocks, junk, es))
  {
    var d, d' := img.Node(n), Extend(img, n, es, junk).Node(n);
    assert d'.Blocks() == d.Blocks() + 1;
    assert d'.block[..d'.Blocks()] == d.block[..d.Blocks()] + [Chosen(img, n)];
  }

  /** Without what Fits asks for, the next block makes the image inconsistent. */
  lemma ExtendNeeds(img: Image, held: set<int>, n: int, es: seq<Entry>, junk: int)
    requires img.Shape() && Owned(img, held) && img.Directory(n) && CanExtend(img, n) && !Fits(img, held, n, junk)
    ensures Extend(img, n, es, junk).Shape() && !Owned(Extend(img, n, es, junk), held)
  {
    hide Extend, Image.At, Image.Directory, FilesOwned, CanExtend;
    var img', s := Extend(img, n, es, junk), Stale(img, n);
    ExtendOwns(img, n, es, junk);
    if Owned(img', held) {
      LastOwned(img', held, n);
      assert img'.Owns(n, |img.At(n)|, img'.At(n)[|img.At(n)|]);
      NotEntries(img, img', held, n, s);
    }
  }

  lemma LastOwned(img: Image, held: set<int>, n: int)
    requires img.Shape() && Owned(img, held) && img.Directory(n) && img.At(n) != []
    ensures var b := img.At(n)[|img.At(n)| - 1];
            img.Marked(b) && img.blocks[b].Entries? && b !in held && |img.At(n)| <= DIRECT
  {
    OwnedShape(img, held, n);
    assert img.Owns(n, |img.At(n)| - 1, img.At(n)[|img.At(n)| - 1]);
  }

  /** A block that becomes directory n's was not a directory's before. */
  lemma NotEntries(img: Image, img': Image, held: set<int>, n: int, s: int)
    requires img.Shape() && img'.Shape() && Owned(img, held) && Owned(img', held)
             && img.Directory(n) && 0 <= s < BLOCK_NUM
    requires forall m :: img'.Directory(m) <==> img.Directory(m)
    requires img'.At(n) == img.At(n) + [s] && forall m | m != n :: img'.At(m) == img.At(m)
    ensures !img.blocks[s].Entries?
  {
    hide Image.At, Image.Directory, FilesOwned;
    assert img'.Owns(n, |img.At(n)|, s);
    assert forall m, i :: img.Owns(m, i, s) ==> img'.Owns(m, i, s);
  }

  /** Some block has two owners, or one that it must not have. */
  ghost predicate Damaged(img: Image, held: set<int>) {
    exists n, i, b :: img.Owns(n, i, b)
        && (!img.Marked(b) || b in held || exists m, j :: img.Owns(m, j, b) && (m, j) != (n, i))
  }

  lemma DamagedNotOwned(img: Image, held: set<int>)
    requires img.Shape() && Damaged(img, held)
    ensures !Owned(img, held)
  {
    hide FilesOwned;
    var n, i, b :| img.Owns(n, i, b)
        && (!img.Marked(b) || b in held || exists m, j :: img.Owns(m, j, b) && (m, j) != (n, i));
    if Owned(img, held) { OwnedShape(img, held, n); }
  }

  /** Whatever is done to other directories later. */
  lemma StaysDamaged(img: Image, img': Image, held: set<int>)
    requires Damaged(img, held) && (forall n, i, b | img.Owns(n, i, b) :: img'.Owns(n, i, b))
             && img'.blockBits == img.blockBits
    ensures Damaged(img', held)
  {
    var n, i, b :| img.Owns(n, i, b)
        && (!img.Marked(b) || b in held || exists m, j :: img.Owns(m, j, b) && (m, j) != (n, i));
    assert img'.Owns(n, i, b) && img'.Marked(b) == img.Marked(b);
  }

  /** A full image, and a pointer to a block that is not usable. */
  lemma ExtendDamages(img: Image, held: set<int>, n: int, es: seq<Entry>)
    requires img.Shape() && Owned(img, held) && img.Directory(n) && CanExtend(img, n) && |img.At(n)| < DIRECT
    requires !Fits(img, held, n, Stale(img, n))
    ensures Damaged(Extend(img, n, es, Stale(img, n)), held)
  {
    hide Extend, Image.At, Image.Directory, FilesOwned, CanExtend, DirShape;
    var s := Stale(img, n);
    var img', i := Extend(img, n, es, s), |img.At(n)|;
    ExtendOwns(img, n, es, s);
    assert img'.Owns(n, i, s);
    if img.Marked(s) && s !in held {
      var m, j :| img.Owns(m, j, s);
      assert img'.Owns(m, j, s) && (m, j) != (n, i);
    }
  }

  lemma InsertOwns(img: Image, n: int, inode: int, fileType: int, name: string, junk: int)
    requires CanInsert(img, n, |name|) && !HasFree(img)
    ensures var img' := Insert(img, n, inode, fileType, name, junk);
            && img'.Shape() && img'.blockBits == img.blockBits && |img'.inodes| == |img.inodes|
            && forall m, i, b | img.Owns(m, i, b) :: img'.Owns(m, i, b)
  {
    hide Extend, Split;
    if HasSlack(img, n, |name|) {
      var img' := Insert(img, n, inode, fileType, name, junk);
      assert forall m :: img'.At(m) == img.At(m) && (img'.Directory(m) <==> img.Directory(m));
    } else {
      ExtendOwns(img, n, [Entry(inode, EXT2_BLOCK_SIZE, fileType, name)], junk);
    }
  }

  // ----- a name there already

  lemma TwiceNotUnique(xs: seq<Entry>, e: Entry, ys: seq<Entry>)
    requires e.Live() && e.name in Table(xs + ys)
    ensures !UniqueNames(xs + [e] + ys)
  {
    hide Table;
    var es, all := xs + ys, xs + [e] + ys;
    InTable(es, e.name);
    var i :| 0 <= i < |es| && es[i].Live() && es[i].name == e.name;
    var i' := if i < |xs| then i else i + 1;
    assert all[i'] == es[i] && all[|xs|] == e;
  }

  lemma SplitNotUnique(xs: seq<Entry>, was: seq<Entry>, ys: seq<Entry>, inode: int, fileType: int, name: string)
    requires was != [] && name != "" && name in Table(xs + was + ys)
    ensures !UniqueNames(xs + Split(was, inode, fileType, name) + ys)
  {
    hide Table, UniqueNames;
    var es := Split(was, inode, fileType, name);
    var e, front := es[|es| - 1], es[..|es| - 1];
    SplitFront(xs, was, ys, inode, fileType, name);
    assert xs + front + ys == (xs + front) + ys && xs + es + ys == (xs + front) + [e] + ys;
    TwiceNotUnique(xs + front, e, ys);
  }

  lemma SplitRewrites(img: Image, n: int, i: int, b: int, was: seq<Entry>, es: seq<Entry>)
    requires img.Shape() && img.Directory(n) && 0 <= i < |img.At(n)| && img.At(n)[i] == b
    requires 0 <= b < BLOCK_NUM && img.blocks[b] == Entries(was)
    ensures Rewrites(img, img.(blocks := img.blocks[b := Entries(es)]), n, i, b, was, es)
  {
  }

  lemma InsertNotUnique(img: Image, held: set<int>, n: int, inode: int, fileType: int, name: string, junk: int)
    requires img.Shape() && Owned(img, held) && img.Directory(n) && name != "" && name in Table(Lines(img, n))
    requires CanInsert(img, n, |name|) && (HasSlack(img, n, |name|) || Fits(img, held, n, junk))
    ensures var img' := Insert(img, n, inode, fileType, name, junk);
            img'.Directory(n) && !UniqueNames(Lines(img', n))
  {
    hide Owned, Extend, Attaches, Fits, Table, UniqueNames, Lines, Vacant, CanExtend, Rewrites, Sole, Split;
    var at, i := img.At(n), FirstSlack(img.blocks, img.At(n), 0, |name|);
    if i < |at| {
      var b, was := at[i], img.blocks[at[i]].es;
      var img', es := Insert(img, n, inode, fileType, name, junk), Split(was, inode, fileType, name);
      SplitRewrites(img, n, i, b, was, es);
      RewritesUses(img, img', n, i, b, was, es);
      RewritesOwned(img, img', n, i, b, was, es, held);
      var xs, ys := RewritesLines(img, img', n, i, b, was, es);
      SplitNotUnique(xs, was, ys, inode, fileType, name);
    } else {
      var e := Entry(inode, EXT2_BLOCK_SIZE, fileType, name);
      ExtendAttaches(img, held, n, [e], junk);
      var img', b := Extend(img, n, [e], junk), Chosen(img, n);
      AttachesUses(img, img', n, b, [e]);
      AttachesLines(img, img', n, b, [e], held);
      var es := Lines(img, n);
      assert es + [] == es && es + [e] + [] == es + [e];
      TwiceNotUnique(es, e, []);
    }
  }

  // ----- mkdir

  ghost predicate CanMake(img: Image, p: int) {
    && img.Shape() && FirstFree(img.inodeBits, 0) < INODE_NUM && img.Directory(p) && CanExtend(img, p)
  }

  /** The new directory n: its inode and its first block, not yet named anywhere. */
  ghost function Birth(img: Image, p: int): Image
    requires CanMake(img, p)
  {
    var n, taken := FirstFree(img.inodeBits, 0) + 1, TakeInode(img);
    Extend(taken, n, Dots(n, p), FirstPointer(img))
  }

  /** ext2_mkdir from the inode on. junk is what its variable for a block happens to hold. */
  ghost function Making(img: Image, p: int, name: string, junk: int): Ending
    requires CanMake(img, p)
  {
    var n, born := FirstFree(img.inodeBits, 0) + 1, Birth(img, p);
    if !HasFree(img) && !InImage(FirstPointer(img)) then Ending(Fault, born)
    else
      BirthCanInsert(img, p, |name|);
      var named := Inserting(born, p, n, EXT2_FT_DIR, name, junk);
      if named.outcome == Done then Ending(Done, AddLinks(named.img, p, 1)) else named
  }

  lemma TakenParts(img: Image, p: int)
    requires CanMake(img, p)
    ensures var n, taken := FirstFree(img.inodeBits, 0) + 1, TakeInode(img);
            && taken.Shape() && taken.blocks == img.blocks && taken.blockBits == img.blockBits && taken.inodeBits[n - 1]
            && n != p && (forall m :: taken.Directory(m) <==> img.Directory(m) || m == n)
            && taken.At(n) == [] && (forall m | m != n :: taken.Node(m) == img.Node(m) && taken.At(m) == img.At(m))
            && CanExtend(taken, n) && Stale(taken, n) == FirstPointer(img) && HasFree(taken) == HasFree(img)
  {
  }

  lemma BirthCanInsert(img: Image, p: int, nameLen: nat)
    requires CanMake(img, p)
    ensures CanInsert(Birth(img, p), p, nameLen)
  {
    TakenParts(img, p);
  }

  /** What a birth leaves alone, and what it owes. */
  ghost predicate Born(img: Image, born: Image, held: set<int>, p: int, n: int) {
    && Owing(born, held, n, 0, 0) && !img.Used(n) && n != p
    && (forall m :: born.Directory(m) <==> img.Directory(m) || m == n)
    && Lines(born, n) == Dots(n, p) && forall m | img.Directory(m) :: Lines(born, m) == Lines(img, m)
  }

  /** The parent gains the one name, the new directory has its two dots, and no other directory
      changes. */
  ghost predicate Made(img: Image, img': Image, held: set<int>, p: int, n: int, name: string) {
    && Consistent(img', held) && !img.Used(n) && (forall m :: img'.Directory(m) <==> img.Directory(m) || m == n)
    && Table(Lines(img', p)) == Table(Lines(img, p))[name := Target(n, EXT2_FT_DIR)]
    && Table(Lines(img', n)) == map["." := Target(n, EXT2_FT_DIR), ".." := Target(p, EXT2_FT_DIR)]
    && forall m | img.Directory(m) && m != p :: Lines(img', m) == Lines(img, m)
  }

  lemma CanMakeIf(img: Image, held: set<int>, p: int)
    requires Consistent(img, held) && img.Directory(p) && FirstFree(img.inodeBits, 0) < INODE_NUM
    ensures CanMake(img, p)
  {
    hide Owned, BlocksOk, Dotted, Unique, Linked, Counted;
    OwnedShape(img, held, p);
  }

  /** The first block is had exactly if one is free or the first pointer is usable. */
  lemma FirstFits(img: Image, held: set<int>, p: int)
    requires CanMake(img, p)
    ensures var n, taken := FirstFree(img.inodeBits, 0) + 1, TakeInode(img);
            Fits(taken, held, n, FirstPointer(img)) <==> HasFree(img) || Usable(img, held, FirstPointer(img))
  {
    hide TakeInode, CanExtend;
    TakenParts(img, p);
  }

  lemma BornOwing(img: Image, held: set<int>, p: int)
    requires Consistent(img, held) && CanMake(img, p) && (HasFree(img) || Usable(img, held, FirstPointer(img)))
    ensures Born(img, Birth(img, p), held, p, FirstFree(img.inodeBits, 0) + 1)
  {
    hide Owned, BlocksOk, Dotted, Unique, Linked, Lines, Extend, TakeInode, Dots, Counted, Fits,
        Usable, CanExtend, FirstPointer;
    var n, taken, first := FirstFree(img.inodeBits, 0) + 1, TakeInode(img), FirstPointer(img);
    TakenParts(img, p);
    TakeInodeOwing(img, held);
    TakesInodeUses(img, taken, n);
    FirstFits(img, held, p);
    DotsOwing(taken, held, n, p, n, first);
  }

  /** The blocks of the parent are as before, and of the others only the new one is not. */
  lemma BirthParts(img: Image, held: set<int>, p: int)
    requires Consistent(img, held) && CanMake(img, p) && (HasFree(img) || Usable(img, held, FirstPointer(img)))
    ensures var born, b := Birth(img, p), if HasFree(img) then FirstFree(img.blockBits, 0) + 1 else FirstPointer(img);
            && born.Shape() && born.At(p) == img.At(p) && Stale(born, p) == Stale(img, p)
            && (forall c | c in img.At(p) :: Content(born.blocks, c) == Content(img.blocks, c))
            && 1 <= b < BLOCK_NUM && (HasFree(img) ==> !img.Marked(b))
            && born.blocks == img.blocks[b := Entries(Dots(FirstFree(img.inodeBits, 0) + 1, p))]
            && born.blockBits == img.blockBits[b - 1 := true]
  {
    hide BlocksOk, Dotted, Unique, Linked, Lines, Extend, TakeInode, Dots, Counted, Fits, Usable, CanExtend,
        FirstPointer, Owned, Vacant, Attaches;
    var n, taken, first := FirstFree(img.inodeBits, 0) + 1, TakeInode(img), FirstPointer(img);
    TakenParts(img, p);
    TakeInodeOwing(img, held);
    FirstFits(img, held, p);
    ExtendAttaches(taken, held, n, Dots(n, p), first);
    var born, b := Birth(img, p), Chosen(taken, n);
    AttachesUses(taken, born, n, b, Dots(n, p));
    AttachesFresh(taken, born, n, b, Dots(n, p), held);
    AttachesBits(taken, born, n, b, Dots(n, p));
  }

  lemma AttachesBits(img: Image, img': Image, n: int, b: int, es: seq<Entry>)
    requires Attaches(img, img', n, b, es)
    ensures img'.Shape() && 1 <= b < BLOCK_NUM && img'.blocks == img.blocks[b := Entries(es)]
            && img'.blockBits == img.blockBits[b - 1 := true]
    ensures forall m | m != n :: img'.Node(m) == img.Node(m)
  {
  }

  /** The parent's next block after the birth, seen from before it. */
  lemma NextFits(img: Image, held: set<int>, p: int, nameLen: nat, junk: int)
    requires Consistent(img, held) && CanMake(img, p) && (HasFree(img) || Usable(img, held, FirstPointer(img)))
    ensures var born := Birth(img, p);
            HasSlack(born, p, nameLen) || Fits(born, held, p, junk) <==> RoomToMake(img, held, p, nameLen, junk)
    ensures HasSlack(Birth(img, p), p, nameLen) == HasSlack(img, p, nameLen)
  {
    hide Consistent, Birth, Image.At, Content, Dots, FirstPointer, Stale;
    BirthParts(img, held, p);
    var born, b := Birth(img, p), if HasFree(img) then FirstFree(img.blockBits, 0) + 1 else FirstPointer(img);
    SlackSame(img.blocks, born.blocks, img.At(p), 0, nameLen);
    BitsAfter(img, held, born, b, Dots(FirstFree(img.inodeBits, 0) + 1, p), Stale(img, p));
  }

  /** What is usable or free once block b is a new directory's. */
  lemma BitsAfter(img: Image, held: set<int>, born: Image, b: int, es: seq<Entry>, s: int)
    requires img.Shape() && born.Shape() && 1 <= b < BLOCK_NUM
    requires born.blocks == img.blocks[b := Entries(es)] && born.blockBits == img.blockBits[b - 1 := true]
    requires HasFree(img) ==> !img.Marked(b)
    ensures HasFree(born) <==> 2 <= Zeros(img.blockBits)
    ensures Usable(born, held, s) <==> Usable(img, held, s) && s != b
  {
    hide Zeros;
    FreeBit(img.blockBits);
    FreeBit(born.blockBits);
    if HasFree(img) {
      ZerosSet(img.blockBits, b - 1);
    } else {
      assert born.blockBits == img.blockBits;
    }
  }

  lemma {:induction false} SlackSame(blocks: seq<Block>, blocks': seq<Block>, at: seq<int>, i: nat, nameLen: nat)
    requires i <= |at| && forall b | b in at :: Content(blocks, b) == Content(blocks', b)
    ensures FirstSlack(blocks, at, i, nameLen) == FirstSlack(blocks', at, i, nameLen)
    decreases |at| - i
  {
    if i < |at| {
      assert at[i] in at;
      SlackSame(blocks, blocks', at, i + 1, nameLen);
    }
  }

  /** Counting links does not touch the room there is. */
  lemma OtherBits(img: Image, n: int, k: int, held: set<int>, p: int, nameLen: nat, junk: int)
    requires img.Shape() && 1 <= n <= INODE_NUM
    ensures var img' := AddLinks(img, n, k);
            && HasSlack(img', p, nameLen) == HasSlack(img, p, nameLen)
               && Fits(img', held, p, junk) == Fits(img, held, p, junk)
            && CanExtend(img', p) == CanExtend(img, p) && Stale(img', p) == Stale(img, p)
               && HasFree(img') == HasFree(img)
  {
    hide FirstSlack, FirstFree, Vacant;
    var img' := AddLinks(img, n, k);
    LinksParts(img, n, k, p);
    assert img'.At(p) == img.At(p);
    forall b ensures img'.Marked(b) == img.Marked(b) && Vacant(img', held, b) == Vacant(img, held, b) {
      VacantSame(img, img', held, b);
    }
  }

  lemma LinksParts(img: Image, n: int, k: int, p: int)
    requires img.Shape() && 1 <= n <= INODE_NUM
    ensures var img' := AddLinks(img, n, k);
            && img'.Shape() && img'.blocks == img.blocks && img'.blockBits == img.blockBits
            && img'.Node(p).block == img.Node(p).block && img'.Node(p).size == img.Node(p).size
  {
  }

  lemma VacantSame(img: Image, img': Image, held: set<int>, b: int)
    requires img'.blocks == img.blocks && img'.blockBits == img.blockBits
    ensures img'.Marked(b) == img.Marked(b) && Vacant(img', held, b) == Vacant(img, held, b)
  {
  }

  /** The link is counted after the entry is made; the other order comes to the same. */
  lemma LinkLater(img: Image, n: int, inode: int, fileType: int, name: string, m: int, k: int, junk: int)
    requires CanInsert(img, n, |name|) && 1 <= m <= INODE_NUM
    ensures CanInsert(AddLinks(img, m, k), n, |name|)
    ensures AddLinks(Insert(img, n, inode, fileType, name, junk), m, k)
            == Insert(AddLinks(img, m, k), n, inode, fileType, name, junk)
  {
    var img' := AddLinks(img, m, k);
    assert img'.At(n) == img.At(n);
  }

  lemma CanInsertIf(img: Image, held: set<int>, n: int, nameLen: nat, junk: int)
    requires img.Shape() && Owned(img, held) && img.Directory(n)
             && (HasSlack(img, n, nameLen) || Fits(img, held, n, junk))
    ensures CanInsert(img, n, nameLen)
  {
    OwnedShape(img, held, n);
  }

  lemma InsertInodes(img: Image, n: int, inode: int, fileType: int, name: string, junk: int)
    requires CanInsert(img, n, |name|)
    ensures |Insert(img, n, inode, fileType, name, junk).inodes| == INODE_NUM
  {
  }

  lemma NameBorn(born: Image, held: set<int>, p: int, n: int, name: string, junk: int)
    requires Owing(born, held, n, 0, 0) && born.Directory(p) && born.Directory(n) && n != p
    requires Nameable(name) && name !in Table(Lines(born, p))
             && (HasSlack(born, p, |name|) || Fits(born, held, p, junk))
    ensures CanInsert(born, p, |name|)
    ensures 1 <= p <= |Insert(born, p, n, EXT2_FT_DIR, name, junk).inodes|
    ensures var img' := AddLinks(Insert(born, p, n, EXT2_FT_DIR, name, junk), p, 1);
            Consistent(img', held) && Inserted(born, img', p, n, EXT2_FT_DIR, name)
  {
    hide Owned, BlocksOk, Dotted, Unique, Linked, Lines, Extend, Insert, AddLinks, Table,
        Counted, CanInsert, Fits, HasSlack;
    AddLinksOwing(born, held, p, 1, n, 0, n, p);
    var linked := AddLinks(born, p, 1);
    AddLinksUses(born, linked, p, 1);
    OtherBits(born, p, 1, held, p, |name|, junk);
    InsertOwing(linked, held, p, n, EXT2_FT_DIR, name, junk);
    CanInsertIf(born, held, p, |name|, junk);
    LinkLater(born, p, n, EXT2_FT_DIR, name, p, 1, junk);
    InsertInodes(born, p, n, EXT2_FT_DIR, name, junk);
  }

  lemma FitsInImage(img: Image, held: set<int>, n: int, junk: int)
    requires Fits(img, held, n, junk) && !HasFree(img)
    ensures junk == Stale(img, n) && Stale(img, n) != NO_BLOCK && InImage(junk)
  {
  }

  lemma ConsistentParts(img: Image, held: set<int>)
    requires Owing(img, held, 0, 0, 0)
    ensures img.Shape() && Owned(img, held) && Unique(img) && Linked(img, 0, 0)
  {
  }

  lemma BornParts(img: Image, born: Image, held: set<int>, p: int, n: int)
    requires Born(img, born, held, p, n) && img.Directory(p)
    ensures Owing(born, held, n, 0, 0) && born.Shape() && Owned(born, held) && born.Directory(p) && born.Directory(n)
            && n != p
    ensures Lines(born, p) == Lines(img, p) && n != EXT2_ROOT_INO
  {
    hide Owned, BlocksOk, Dotted, Unique, Linked, Counted, Lines, Dots;
    BornNotRoot(img, born, held, p, n);
  }

  lemma BornNotRoot(img: Image, born: Image, held: set<int>, p: int, n: int)
    requires Born(img, born, held, p, n) && img.Directory(p)
    ensures n != EXT2_ROOT_INO
  {
  }

  /** With room, and the name new, mkdir keeps the image consistent. */
  lemma MakingGood(img: Image, held: set<int>, p: int, name: string, junk: int)
    requires Consistent(img, held) && CanMake(img, p) && Nameable(name)
    requires name !in Table(Lines(img, p)) && RoomToMake(img, held, p, |name|, junk)
    ensures Making(img, p, name, junk).outcome == Done
    ensures Made(img, Making(img, p, name, junk).img, held, p, FirstFree(img.inodeBits, 0) + 1, name)
  {
    hide Consistent, Owing, Owned, Lines, Table, Birth, Fits, HasSlack, Insert, AddLinks, CanInsert,
        CanExtend, HasFree, Dots, Vacant, Stale;
    var n, born := FirstFree(img.inodeBits, 0) + 1, Birth(img, p);
    BornOwing(img, held, p);
    BornParts(img, born, held, p, n);
    NextFits(img, held, p, |name|, junk);
    NameBorn(born, held, p, n, name, junk);
    if !HasSlack(born, p, |name|) && !HasFree(born) { FitsInImage(born, held, p, junk); }
    DotsTiled(n, p);
  }

  /** A directory that nothing names. */
  lemma Unnamed(born: Image, held: set<int>, n: int)
    requires Owing(born, held, n, 0, 0) && born.Used(n)
    ensures !Consistent(born, held)
  {
    hide Owned, BlocksOk, Dotted, Unique, Counted, Lines, CountAll, Due;
    assert n != 0 && CountAll(born.blocks, NamesOf(n)) + 1 == Due(born, n);
  }

  lemma LinksNotOwned(img: Image, held: set<int>, n: int)
    requires img.Shape() && img.Used(n) && !Owned(img, held)
    ensures !Consistent(AddLinks(img, n, 1), held)
  {
    hide Owned, BlocksOk, Dotted, Unique, Linked, Counted, AddLinks;
    var img' := AddLinks(img, n, 1);
    AddLinksUses(img, img', n, 1);
    assert AddLinks(img', n, -1) == img by { LinksBack(img, n); }
    if Owned(img', held) { AddLinksOwned(img', img, n, -1, held); }
  }

  lemma LinksBack(img: Image, n: int)
    requires 1 <= n <= |img.inodes|
    ensures 1 <= n <= |AddLinks(img, n, 1).inodes| && AddLinks(AddLinks(img, n, 1), n, -1) == img
  {
    var img' := AddLinks(AddLinks(img, n, 1), n, -1);
    assert img'.inodes == img.inodes;
  }

  lemma LinksNotUnique(img: Image, held: set<int>, n: int)
    requires img.Shape() && img.Directory(n) && !UniqueNames(Lines(img, n))
    ensures !Consistent(AddLinks(img, n, 1), held)
  {
    hide Owned, BlocksOk, Dotted, Linked, Counted, AddLinks, Lines, UniqueNames;
    AddLinksUses(img, AddLinks(img, n, 1), n, 1);
  }

  /** Without a first block. */
  lemma MakingFirstless(img: Image, held: set<int>, p: int, name: string, junk: int)
    requires Consistent(img, held) && CanMake(img, p) && !HasFree(img) && !Usable(img, held, FirstPointer(img))
    ensures !Consistent(Making(img, p, name, junk).img, held)
  {
    hide Owned, BlocksOk, Dotted, Unique, Linked, Counted, Lines, Extend, TakeInode, Dots, Fits,
        Usable, CanExtend, FirstPointer,
      Damaged, Insert, Stale, HasSlack, CanInsert, AddLinks;
    var n, taken, born := FirstFree(img.inodeBits, 0) + 1, TakeInode(img), Birth(img, p);
    TakenParts(img, p);
    TakeInodeOwing(img, held);
    FirstFits(img, held, p);
    ExtendDamages(taken, held, n, Dots(n, p));
    ExtendOwns(taken, n, Dots(n, p), Stale(taken, n));
    DamagedNotOwned(born, held);
    BirthCanInsert(img, p, |name|);
    NamedDamaged(born, held, p, n, name, junk);
  }

  lemma NamedDamaged(born: Image, held: set<int>, p: int, n: int, name: string, junk: int)
    requires CanInsert(born, p, |name|) && !HasFree(born) && Damaged(born, held) && born.Directory(p)
    ensures 1 <= p <= |Insert(born, p, n, EXT2_FT_DIR, name, junk).inodes|
    ensures !Consistent(AddLinks(Insert(born, p, n, EXT2_FT_DIR, name, junk), p, 1), held)
  {
    hide Owned, BlocksOk, Dotted, Unique, Linked, Counted, Lines, Damaged, Insert, CanInsert,
        AddLinks, Image.Directory, Image.Owns;
    var named := Insert(born, p, n, EXT2_FT_DIR, name, junk);
    InsertOwns(born, p, n, EXT2_FT_DIR, name, junk);
    InsertInodes(born, p, n, EXT2_FT_DIR, name, junk);
    StaysDamaged(born, named, held);
    DamagedNotOwned(named, held);
    InsertDirectory(born, p, n, EXT2_FT_DIR, name, junk);
    LinksNotOwned(named, held, p);
  }

  lemma InsertDirectory(img: Image, n: int, inode: int, fileType: int, name: string, junk: int)
    requires CanInsert(img, n, |name|) && img.Directory(n)
    ensures Insert(img, n, inode, fileType, name, junk).Shape()
            && Insert(img, n, inode, fileType, name, junk).Directory(n)
    ensures Insert(img, n, inode, fileType, name, junk).Used(n)
  {
    hide Split;
  }

  /** Without room for the name. */
  lemma MakingRoomless(img: Image, held: set<int>, p: int, name: string, junk: int)
    requires Consistent(img, held) && CanMake(img, p) && (HasFree(img) || Usable(img, held, FirstPointer(img)))
    requires !RoomToMake(img, held, p, |name|, junk)
    ensures !Consistent(Making(img, p, name, junk).img, held)
  {
    hide Consistent, Owing, Owned, Lines, Table, Birth, Fits, HasSlack, Extend, AddLinks,
        CanInsert, HasFree, Dots, Usable, Stale,
      RoomToMake, FirstPointer;
    var n, born := FirstFree(img.inodeBits, 0) + 1, Birth(img, p);
    BornOwing(img, held, p);
    BornParts(img, born, held, p, n);
    NextFits(img, held, p, |name|, junk);
    BirthCanInsert(img, p, |name|);
    Unnamed(born, held, n);
    var es := [Entry(n, EXT2_BLOCK_SIZE, EXT2_FT_DIR, name)];
    RoomlessExtends(born, held, p, |name|);
    ExtendNeeds(born, held, p, es, junk);
    InsertDirectory(born, p, n, EXT2_FT_DIR, name, junk);
    LinksNotOwned(Extend(born, p, es, junk), held, p);
  }

  lemma RoomlessExtends(img: Image, held: set<int>, p: int, nameLen: nat)
    requires CanInsert(img, p, nameLen) && !HasSlack(img, p, nameLen)
    ensures CanExtend(img, p)
  {
  }

  /** With the name there already. */
  lemma MakingTwice(img: Image, held: set<int>, p: int, name: string, junk: int)
    requires Consistent(img, held) && CanMake(img, p) && Nameable(name) && name in Table(Lines(img, p))
    requires RoomToMake(img, held, p, |name|, junk)
    ensures !Consistent(Making(img, p, name, junk).img, held)
  {
    hide Consistent, Owing, Owned, Lines, Table, Birth, Fits, HasSlack, Insert, AddLinks,
        CanInsert, HasFree, Dots, Vacant, Stale;
    var n, born := FirstFree(img.inodeBits, 0) + 1, Birth(img, p);
    BornOwing(img, held, p);
    BornParts(img, born, held, p, n);
    NextFits(img, held, p, |name|, junk);
    BirthCanInsert(img, p, |name|);
    if !HasSlack(born, p, |name|) && !HasFree(born) { FitsInImage(born, held, p, junk); }
    InsertNotUnique(born, held, p, n, EXT2_FT_DIR, name, junk);
    InsertDirectory(born, p, n, EXT2_FT_DIR, name, junk);
    LinksNotUnique(Insert(born, p, n, EXT2_FT_DIR, name, junk), held, p);
  }

  /** ext2_mkdir keeps the image consistent exactly if the name is new and there is room; and then
      it makes the directory. */
  lemma MakingExact(img: Image, held: set<int>, p: int, name: string, junk: int)
    requires Consistent(img, held) && CanMake(img, p) && Nameable(name)
    ensures var made := Making(img, p, name, junk);
            && (Consistent(made.img, held) <==> name !in Table(Lines(img, p)) && RoomToMake(img, held, p, |name|, junk))
            && (Consistent(made.img, held) ==>
                  made.outcome == Done && Made(img, made.img, held, p, FirstFree(img.inodeBits, 0) + 1, name))
  {
    hide Consistent, Lines, Table, CanMake, Making, Made, Usable, HasFree, FirstPointer, HasSlack, Stale;
    if !HasFree(img) && !Usable(img, held, FirstPointer(img)) {
      MakingFirstless(img, held, p, name, junk);
    } else if !RoomToMake(img, held, p, |name|, junk) {
      MakingRoomless(img, held, p, name, junk);
    } else if name in Table(Lines(img, p)) {
      MakingTwice(img, held, p, name, junk);
    } else {
      MakingGood(img, held, p, name, junk);
      ConsistentIfMade(img, Making(img, p, name, junk).img, held, p, FirstFree(img.inodeBits, 0) + 1, name);
    }
  }

  lemma ConsistentIfMade(img: Image, img': Image, held: set<int>, p: int, n: int, name: string)
    requires Made(img, img', held, p, n, name)
    ensures Consistent(img', held)
  {
  }

  // ----- ln

  /** ext2_ln for a hard link, from the counting of the link on. Its variable for a block holds what
      the pointer after the last block does. */
  ghost function Linking(img: Image, file: int, p: int, name: string): Ending
    requires img.Shape() && 1 <= file <= INODE_NUM && CanInsert(img, p, |name|)
  {
    var linked, to := AddLinks(img, file, 1), Table(Lines(img, p));
    LinkedCanInsert(img, file, p, |name|);
    if name in to then Ending(if to[name].fileType == EXT2_FT_DIR then EISDIR else EEXIST, linked)
    else Inserting(linked, p, file, EXT2_FT_REG_FILE, name, Stale(linked, p))
  }

  lemma LinkedCanInsert(img: Image, file: int, p: int, nameLen: nat)
    requires img.Shape() && 1 <= file <= INODE_NUM && CanInsert(img, p, nameLen)
    ensures CanInsert(AddLinks(img, file, 1), p, nameLen)
  {
    hide HasSlack, CanExtend, AddLinks, Fits;
    OtherBits(img, file, 1, {}, p, nameLen, 0);
    LinksParts(img, file, 1, p);
  }

  /** A link counted for a file whose entry is not made leaves the image inconsistent. */
  lemma LinkWithoutEntry(img: Image, held: set<int>, file: int)
    requires Consistent(img, held) && img.Used(file) && !img.Directory(file)
    ensures !Consistent(AddLinks(img, file, 1), held)
  {
    hide Owned, BlocksOk, Dotted, Unique, Lines;
    AddLinksUses(img, AddLinks(img, file, 1), file, 1);
    AddLinksParts(img, file, 1);
    assert CountAll(img.blocks, NamesOf(file)) == Due(img, file);
  }

  lemma RoomIsFit(img: Image, held: set<int>, p: int, nameLen: nat)
    ensures RoomToLink(img, held, p, nameLen) <==> HasSlack(img, p, nameLen) || Fits(img, held, p, Stale(img, p))
  {
  }

  lemma CanLink(img: Image, held: set<int>, p: int, nameLen: nat)
    requires Consistent(img, held) && img.Directory(p)
    ensures CanInsert(img, p, nameLen) && img.Shape()
  {
    hide BlocksOk, Dotted, Unique, Linked, Counted, Owned;
    OwnedShape(img, held, p);
  }

  /** What LinkingExact is about: a consistent image, a directory and a file in it. */
  ghost predicate LinkAsked(img: Image, held: set<int>, file: int, p: int, name: string) {
    && Consistent(img, held) && img.Directory(p) && img.Used(file) && !img.Directory(file) && Nameable(name)
    && img.Shape() && 1 <= file <= INODE_NUM && CanInsert(img, p, |name|)
  }

  lemma LinkingGood(img: Image, held: set<int>, file: int, p: int, name: string)
    requires LinkAsked(img, held, file, p, name) && name !in Table(Lines(img, p)) && RoomToLink(img, held, p, |name|)
    ensures var e := Linking(img, file, p, name);
            e.outcome == Done && Consistent(e.img, held) && Inserted(img, e.img, p, file, EXT2_FT_REG_FILE, name)
  {
    hide Owned, BlocksOk, Dotted, Unique, Linked, Lines, Extend, Insert, AddLinks, Table, Counted,
        CanInsert, Fits, HasSlack, HasFree,
      RoomToLink, Stale;
    var linked := AddLinks(img, file, 1);
    AddLinksOwing(img, held, file, 1, 0, 0, file, 0);
    AddLinksUses(img, linked, file, 1);
    RoomIsFit(img, held, p, |name|);
    OtherBits(img, file, 1, held, p, |name|, Stale(img, p));
    InsertOwing(linked, held, p, file, EXT2_FT_REG_FILE, name, Stale(img, p));
    if !HasSlack(linked, p, |name|) && !HasFree(linked) { FitsInImage(linked, held, p, Stale(linked, p)); }
  }

  lemma LinkingBad(img: Image, held: set<int>, file: int, p: int, name: string)
    requires LinkAsked(img, held, file, p, name) && (name in Table(Lines(img, p)) || !RoomToLink(img, held, p, |name|))
    ensures !Consistent(Linking(img, file, p, name).img, held)
  {
    hide Owned, BlocksOk, Dotted, Unique, Linked, Lines, Extend, AddLinks, Table, Counted, Fits,
        HasSlack, HasFree, RoomToLink, Stale,
      CanExtend, Owing;
    var linked := AddLinks(img, file, 1);
    LinkWithoutEntry(img, held, file);
    AddLinksUses(img, linked, file, 1);
    LinkedCanInsert(img, file, p, |name|);
    if name !in Table(Lines(img, p)) {
      RoomIsFit(img, held, p, |name|);
      OtherBits(img, file, 1, held, p, |name|, Stale(img, p));
      ConsistentParts(img, held);
      AddLinksOwned(img, linked, file, 1, held);
      RoomlessExtends(linked, held, p, |name|);
      ExtendNeeds(linked, held, p, [Entry(file, EXT2_BLOCK_SIZE, EXT2_FT_REG_FILE, name)], Stale(linked, p));
      NotOwned(Extend(linked, p, [Entry(file, EXT2_BLOCK_SIZE, EXT2_FT_REG_FILE, name)], Stale(linked, p)), held);
    }
  }

  lemma NotOwned(img: Image, held: set<int>)
    requires img.Shape() && !Owned(img, held)
    ensures !Consistent(img, held)
  {
  }

  /** A hard link keeps the image consistent exactly if the name is new and there is room; and then
      it adds the one name. */
  lemma LinkingExact(img: Image, held: set<int>, file: int, p: int, name: string)
    requires LinkAsked(img, held, file, p, name)
    ensures var e := Linking(img, file, p, name);
            && (Consistent(e.img, held) <==> name !in Table(Lines(img, p)) && RoomToLink(img, held, p, |name|))
            && (Consistent(e.img, held) ==> e.outcome == Done && Inserted(img, e.img, p, file, EXT2_FT_REG_FILE, name))
  {
    hide Consistent, Lines, Table, Linking, CanInsert, RoomToLink, Inserted;
    if name !in Table(Lines(img, p)) && RoomToLink(img, held, p, |name|) {
      LinkingGood(img, held, file, p, name);
    } else {
      LinkingBad(img, held, file, p, name);
    }
  }

  // ----- rm

  /** The j-th entry of block b, the i-th of directory n, is that of a file, and img' is img with it
      cleared and its link taken back. */
  ghost predicate Removes(img: Image, img': Image, n: int, i: int, b: int, was: seq<Entry>, j: int) {
    && img.Directory(n) && 0 <= i < |img.At(n)| && img.At(n)[i] == b && 0 <= b < |img.blocks|
       && img.blocks[b] == Entries(was)
    && 0 <= j < |was| && was[j].Live() && was[j].fileType != EXT2_FT_DIR
    && 1 <= was[j].inode <= |img.inodes| && img' == AddLinks(Erase(img, b, j), was[j].inode, -1)
  }

  ghost predicate Removed(img: Image, img': Image, held: set<int>, n: int, name: string) {
    && Consistent(img', held) && (forall m :: img'.Directory(m) <==> img.Directory(m))
    && name in Table(Lines(img, n)) && Table(Lines(img', n)) == Table(Lines(img, n)) - {name}
    && forall m | img.Directory(m) && m != n :: Lines(img', m) == Lines(img, m)
  }

  /** Clearing a file's entry and taking back the link keeps the image consistent and deletes the
      one name. */
  lemma RemoveConsistent(img: Image, held: set<int>, img': Image, n: int, i: int, b: int, was: seq<Entry>, j: int)
    requires Consistent(img, held) && Removes(img, img', n, i, b, was, j)
    ensures Removed(img, img', held, n, was[j].name)
  {
    hide Owned, BlocksOk, Dotted, Unique, Linked, Lines, AddLinks, Erase, Table, Counted, Tiled, EntryOk;
    BlockOk(img, b, was);
    EntryUsed(img, was[j]);
    EraseOwing(img, held, n, i, b, was, j);
    EraseUsed(img, b, j);
    AddLinksOwing(Erase(img, b, j), held, was[j].inode, -1, was[j].inode, 0, 0, 0);
    AddLinksUses(Erase(img, b, j), img', was[j].inode, -1);
  }

  lemma EraseUsed(img: Image, b: int, j: int)
    requires 0 <= b < |img.blocks| && img.blocks[b].Entries? && 0 <= j < |img.blocks[b].es|
    ensures forall m :: Erase(img, b, j).Used(m) <==> img.Used(m)
  {
  }

  // ----- paths

  /** Every directory, and every name of one, is still there. */
  ghost predicate Keeps(img: Image, img': Image) {
    forall m, name | img.Directory(m) && name in Table(Lines(img, m))
        && Table(Lines(img, m))[name].fileType == EXT2_FT_DIR ::
      name in Table(Lines(img', m)) && Table(Lines(img', m))[name] == Table(Lines(img, m))[name]
  }

  /** A path to a directory still leads there. */
  lemma {:induction false} PathsKept(img: Image, held: set<int>, img': Image, n: int, path: seq<string>)
    requires Consistent(img, held) && img.Directory(n) && Keeps(img, img') && Resolve(img, n, path).Found?
    ensures Resolve(img', n, path) == Resolve(img, n, path)
    decreases |path|
  {
    hide Consistent, Lines, Table, Leads;
    if path != [] {
      TargetOk(img, held, n, path[0]);
      LeadsToDirectory(img, Table(Lines(img, n))[path[0]]);
      PathsKept(img, held, img', Table(Lines(img, n))[path[0]].inode, path[1..]);
    }
  }

  /** After mkdir the new path leads to the new directory, and every path that led to a directory
      before leads to the same one. */
  lemma MadeResolves(img: Image, img': Image, held: set<int>, p: int, n: int, parent: seq<string>, name: string)
    requires Consistent(img, held) && Made(img, img', held, p, n, name) && name !in Table(Lines(img, p))
    ensures Resolve(img, EXT2_ROOT_INO, parent) == Found(p)
            ==> Resolve(img', EXT2_ROOT_INO, parent + [name]) == Found(n)
    ensures forall path | Resolve(img, EXT2_ROOT_INO, path).Found? ::
              Resolve(img', EXT2_ROOT_INO, path) == Resolve(img, EXT2_ROOT_INO, path)
  {
    hide Consistent, Lines, Table, Made, Keeps;
    RootDirectory(img, held);
    MadeKeeps(img, img', held, p, n, name);
    forall path | Resolve(img, EXT2_ROOT_INO, path).Found?
      ensures Resolve(img', EXT2_ROOT_INO, path) == Resolve(img, EXT2_ROOT_INO, path)
    {
      PathsKept(img, held, img', EXT2_ROOT_INO, path);
    }
    if Resolve(img, EXT2_ROOT_INO, parent) == Found(p) {
      ResolveAppend(img', EXT2_ROOT_INO, parent, name);
      NewNameLeads(img, img', held, p, n, name);
    }
  }

  lemma MadeKeeps(img: Image, img': Image, held: set<int>, p: int, n: int, name: string)
    requires Made(img, img', held, p, n, name) && name !in Table(Lines(img, p))
    ensures Keeps(img, img')
  {
    hide Consistent, Lines, Table;
  }

  lemma NewNameLeads(img: Image, img': Image, held: set<int>, p: int, n: int, name: string)
    requires Made(img, img', held, p, n, name)
    ensures Answer(Table(Lines(img', p)), name) == Found(n)
  {
    hide Consistent, Lines, Table;
  }
}

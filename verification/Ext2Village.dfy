/** Two consistent images on which the tools go wrong. */
module Ext2Village {
  import opened DirectoryBlock
  import opened Ext2Image
  import opened Ext2Laws
  import opened Ext2Lookup
  import opened Ext2Tools
  import opened Ext2Release
  import opened Ext2Commands

  // ----- a root directory in two blocks that do not follow each other, a subdirectory and a file

  const SUB := 12
  const FILE := 13
  const EXT2_S_IFREG := 0x8000

  function Head(): seq<Entry> {
    [Entry(EXT2_ROOT_INO, 12, EXT2_FT_DIR, "."), Entry(EXT2_ROOT_INO, 12, EXT2_FT_DIR, ".."),
     Entry(FILE, 1000, EXT2_FT_REG_FILE, "file")]
  }

  function Tail(): seq<Entry> { [Entry(SUB, EXT2_BLOCK_SIZE, EXT2_FT_DIR, "sub")] }

  function Bare(): seq<Block> { seq(BLOCK_NUM, _ => Other) }

  function Village(): (img: Image)
    ensures img.Shape()
  {
    var unused := seq(POINTERS, _ => 0);
    var bits := (seq(INODE_NUM, i => i < FILE), seq(BLOCK_NUM, i => i < 27 || i == BLOCK_NUM - 1));
    Image(seq(INODE_NUM, _ => Inode(0, 0, 0, 0, 0, unused))
            [EXT2_ROOT_INO - 1 := Inode(EXT2_S_IFDIR, 2 * EXT2_BLOCK_SIZE, 3, 4, 0, unused[0 := 24][1 := 26])]
            [SUB - 1 := Inode(EXT2_S_IFDIR, EXT2_BLOCK_SIZE, 2, 2, 0, unused[0 := 25])]
            [FILE - 1 := Inode(EXT2_S_IFREG, 5, 1, 2, 0, unused[0 := 27])],
          Bare()[24 := Entries(Head())][25 := Entries(Dots(SUB, EXT2_ROOT_INO))][26 := Entries(Tail())],
          bits.0, bits.1, Zeros(bits.0), Zeros(bits.0), Zeros(bits.1), Zeros(bits.1))
  }

  function Kept(): set<int> { set b: int | 1 <= b <= 27 && Village().Marked(b) && b !in {24, 25, 26} }

  lemma VillageNodes()
    ensures var img := Village();
            && (forall n :: img.Used(n) <==> 1 <= n <= FILE)
            && (forall n :: img.Directory(n) <==> n == EXT2_ROOT_INO || n == SUB)
            && img.At(EXT2_ROOT_INO) == [24, 26] && img.At(SUB) == [25] && img.FileAt(FILE) == [27]
            && (forall n | img.File(n) && n != FILE :: img.FileAt(n) == [] && img.Node(n).links == 0)
            && img.Node(FILE).links == 1 && img.Node(EXT2_ROOT_INO).links == 3 && img.Node(SUB).links == 2
            && img.Node(EXT2_ROOT_INO).size == 2048 && img.Node(EXT2_ROOT_INO).sectors == 4
            && img.Node(SUB).size == 1024 && img.Node(SUB).sectors == 2
  {
    var img := Village();
    assert img.Node(EXT2_ROOT_INO).block[..2] == [24, 26];
    assert img.Node(SUB).block[..1] == [25] && img.Node(FILE).block[..1] == [27];
  }

  lemma VillageBlocks()
    ensures var img := Village();
            && (forall b :: img.Marked(b) <==> 1 <= b <= 27) && img.blockBits[BLOCK_NUM - 1]
            && img.blocks[24] == Entries(Head()) && img.blocks[25] == Entries(Dots(SUB, EXT2_ROOT_INO))
               && img.blocks[26] == Entries(Tail())
            && (forall b | 0 <= b < BLOCK_NUM && b !in {24, 25, 26} :: img.blocks[b] == Other)
  {
    hide Head, Tail, Dots;
  }

  lemma VillageOwned()
    ensures Owned(Village(), Kept())
  {
    hide Village, Head, Tail, Dots, Image.File, Image.FileAt, Image.At, Image.Directory, Image.Marked, FilesOwned;
    var img := Village();
    VillageNodes();
    VillageBlocks();
    VillageFiles();
    VillageOwns();
    VillageShapes();
  }

  lemma VillageOwns()
    ensures forall n, i, b ::
            Village().Owns(n, i, b) <==> (n, i, b) in {(EXT2_ROOT_INO, 0, 24), (EXT2_ROOT_INO, 1, 26), (SUB, 0, 25)}
  {
    hide Village, Head, Tail, Dots, Image.At, Image.Directory;
    VillageNodes();
  }

  lemma VillageFiles()
    ensures FilesOwned(Village(), Kept())
  {
    hide Village, Image.File, Image.FileAt, Image.Marked;
    VillageNodes();
    VillageBlocks();
  }

  lemma VillageShapes()
    ensures forall n | Village().Directory(n) :: DirShape(Village(), n)
  {
    hide Village, Head, Tail, Dots, Image.At, Image.Directory;
    VillageNodes();
    VillageBlocks();
  }

  lemma HeadTiled()
    ensures Tiled(Head()) && Tiled(Tail()) && UniqueNames(Head() + Tail())
    ensures Table(Head()) == map["." := Target(EXT2_ROOT_INO, EXT2_FT_DIR), ".." := Target(EXT2_ROOT_INO, EXT2_FT_DIR),
                                 "file" := Target(FILE, EXT2_FT_REG_FILE)]
    ensures Table(Head() + Tail()) == Table(Head())["sub" := Target(SUB, EXT2_FT_DIR)]
  {
    hide Table, Length;
    var es := Head();
    var one, two := [es[0]], [es[0], es[1]];
    TableSnoc([], es[0]);
    TableSnoc(one, es[1]);
    TableSnoc(two, es[2]);
    TableSnoc(es, Tail()[0]);
    NoEntries();
    assert [] + [es[0]] == one && one + [es[1]] == two && two + [es[2]] == es && es + [Tail()[0]] == es + Tail();
    AloneTiled(SUB, EXT2_FT_DIR, "sub");
  }

  lemma NoEntries()
    ensures Table([]) == map[] && Length([]) == 0
  {
  }

  lemma VillageLines()
    ensures Lines(Village(), EXT2_ROOT_INO) == Head() + Tail() && Lines(Village(), SUB) == Dots(SUB, EXT2_ROOT_INO)
  {
    hide Village, Head, Tail, Dots, Image.At, Flat;
    var img := Village();
    VillageNodes();
    VillageBlocks();
    EmptyFlat(img.blocks);
    FlatLast(img.blocks, [], 24);
    FlatLast(img.blocks, [24], 26);
    FlatLast(img.blocks, [], 25);
    assert [] + [24] == [24] && [24] + [26] == [24, 26] && [] + [25] == [25];
  }

  lemma VillageRest()
    ensures BlocksOk(Village()) && Dotted(Village(), 0) && Unique(Village())
  {
    hide Village, Image.At, Tiled, UniqueNames, Table, Lines, Flat;
    var img := Village();
    VillageNodes();
    VillageBlocks();
    HeadTiled();
    DotsTiled(SUB, EXT2_ROOT_INO);
    VillageLines();
    assert forall e | e in Head() :: EntryOk(img, e);
    assert forall e | e in Tail() :: EntryOk(img, e);
    DotsOk(img, SUB, EXT2_ROOT_INO);
  }

  lemma VillageCount(k: Kind)
    ensures CountAll(Village().blocks, k)
            == (if k.Holds(Head()[2]) then 1 else 0) + (if k.Holds(Tail()[0]) then 1 else 0)
    ensures Count(Head() + Tail(), k) == CountAll(Village().blocks, k)
  {
    hide Count, CountAll, Content;
    var b0 := Bare();
    var b1 := b0[24 := Entries(Head())];
    var b2 := b1[25 := Entries(Dots(SUB, EXT2_ROOT_INO))];
    BareCount(k);
    CountAllSet(b0, 24, Head(), k);
    CountAllSet(b1, 25, Dots(SUB, EXT2_ROOT_INO), k);
    CountAllSet(b2, 26, Tail(), k);
    EmptyThere(b0, 24, k);
    EmptyThere(b1, 25, k);
    EmptyThere(b2, 26, k);
    DotsCounts(SUB, EXT2_ROOT_INO, k);
    HeadCount(k);
    CountOne(Tail()[0], k);
    CountConcat(Head(), Tail(), k);
  }

  lemma BareCount(k: Kind)
    ensures CountAll(Bare(), k) == 0
  {
    CountAllNone(Bare(), k);
  }

  lemma EmptyThere(blocks: seq<Block>, b: int, k: Kind)
    requires 0 <= b < |blocks| && blocks[b] == Other
    ensures Count(Content(blocks, b), k) == 0
  {
  }

  lemma HeadCount(k: Kind)
    ensures Count(Head(), k) == if k.Holds(Head()[2]) then 1 else 0
  {
    var es := Head();
    var two := [es[0], es[1]];
    CountNone(two, k);
    CountOne(es[2], k);
    CountConcat(two, [es[2]], k);
    assert two + [es[2]] == es;
  }

  lemma VillageLinked()
    ensures Linked(Village(), 0, 0)
  {
    hide Village, Dots, CountAll, Count, Lines, Image.Directory, Image.Used;
    var img := Village();
    VillageNodes();
    VillageLines();
    forall k
      ensures CountAll(img.blocks, k) == (if k.Holds(Head()[2]) then 1 else 0) + (if k.Holds(Tail()[0]) then 1 else 0)
    {
      VillageCount(k);
    }
    VillageCount(Subdirectories);
    DotsCounts(SUB, EXT2_ROOT_INO, Subdirectories);
    forall n | img.Used(n) && !img.Directory(n) && n != FILE ensures img.Node(n).links == 0 { VillageIdle(n); }
  }

  lemma VillageIdle(n: int)
    requires Village().Used(n) && !Village().Directory(n) && n != FILE
    ensures Village().Node(n).links == 0
  {
    VillageNodes();
    assert Village().File(n);
  }

  /** A consistent image with a regular file. */
  lemma VillageConsistent()
    ensures Consistent(Village(), Kept())
  {
    hide Owned, BlocksOk, Dotted, Unique, Linked, Image.Directory;
    VillageNodes();
    VillageOwned();
    VillageRest();
    VillageLinked();
    VillageCounted();
  }

  lemma VillageCounted()
    ensures Counted(Village())
  {
    hide Zeros;
  }

  // ----- what the tools do to it

  /** The lookup of the subdirectory goes from block 24 on to block 25, where the root's next block
      is 26, and does not find it. */
  lemma VillageMisled()
    ensures Consistent(Village(), Kept()) && !Unmistaken(Village(), EXT2_ROOT_INO)
    ensures Resolve(Village(), EXT2_ROOT_INO, ["sub"]) == Found(SUB)
    ensures Lookup(Village(), EXT2_ROOT_INO, ["sub"]) == Missing
  {
    hide Consistent, Village, Table, Lines, Search, Unmistaken, Lookup;
    var img := Village();
    VillageConsistent();
    VillageLines();
    HeadTiled();
    VillageSearch();
    ResolveAppend(img, EXT2_ROOT_INO, [], "sub");
    LookupNone(img);
    LookupAppend(img, EXT2_ROOT_INO, [], "sub");
    assert [] + ["sub"] == ["sub"];
    RootDirectory(img, Kept());
    LookupExact(img, Kept(), EXT2_ROOT_INO);
    assert Nameable("sub") && !Agrees(img, EXT2_ROOT_INO, "sub");
  }

  lemma LookupNone(img: Image)
    ensures Lookup(img, EXT2_ROOT_INO, []) == Resolve(img, EXT2_ROOT_INO, []) == Found(EXT2_ROOT_INO)
  {
  }

  lemma VillageSearch()
    ensures Search(Village().blocks, Run(Village(), EXT2_ROOT_INO), "sub") == Missing
  {
    hide Village, Table, Dots, Head, Image.At;
    VillageNodes();
    VillageBlocks();
    HeadTiled();
    DotsTiled(SUB, EXT2_ROOT_INO);
    var run := Run(Village(), EXT2_ROOT_INO);
    assert run == [24, 25] && run[1..] == [25] && [25][1..] == [];
  }

  /** So mkdir makes the subdirectory a second time, and the image is no longer consistent. */
  lemma VillageMkdir(junk: int)
    ensures MkdirVerdict(Village(), [], "sub") == Done && Consistent(Village(), Kept())
    ensures !Consistent(MkdirEnding(Village(), Kept(), [], "sub", junk).img, Kept())
  {
    hide Consistent, Village, Table, Lines, Lookup, FirstFree, MkdirEnding, Making, CanMake;
    var img := Village();
    VillageMisled();
    LookupNone(img);
    assert [] + ["sub"] == ["sub"];
    VillageFree();
    VillageLines();
    HeadTiled();
    MkdirExact(img, Kept(), [], "sub", junk);
  }

  lemma VillageFree()
    ensures FirstFree(Village().inodeBits, 0) == FILE
  {
    FirstFreeIs(Village().inodeBits, FILE);
  }

  lemma HeadSlack(nameLen: nat)
    requires nameLen <= EXT2_NAME_LEN
    ensures HasSlack(Village(), EXT2_ROOT_INO, nameLen)
  {
    hide Village, Image.At, Tail;
    VillageNodes();
    VillageBlocks();
    assert Slack(Head(), nameLen);
  }

  /** The file can be linked under any new name. */
  lemma VillageLink(name: string)
    requires Nameable(name) && name !in Table(Head() + Tail())
    ensures LnEnds(Village(), [], "file", []) == Ends(EXT2_ROOT_INO, FILE) && Consistent(Village(), Kept())
    ensures var e := LnEnding(Village(), Kept(), [], "file", [], name);
            e.outcome == Done && Consistent(e.img, Kept()) && e.img.Node(FILE).links == 2
  {
    hide Consistent, Village, Table, Lines, Lookup, LinkAsked, Linking, Inserted;
    var img := Village();
    VillageConsistent();
    LookupNone(img);
    VillageLines();
    HeadTiled();
    HeadSlack(|name|);
    LnExact(img, Kept(), [], "file", [], name);
    LnCanLink(img, Kept(), [], "file", [], name);
    VillageLinkCount(name);
  }

  lemma VillageLinkCount(name: string)
    requires LinkAsked(Village(), Kept(), FILE, EXT2_ROOT_INO, name)
    ensures Linking(Village(), FILE, EXT2_ROOT_INO, name).img.Node(FILE).links == 2
  {
    hide Village, Consistent, Table, Lines, CanInsert, HasSlack, HasFree, Stale, Split;
    VillageNodes();
  }

  /** Then its first name can be removed, and the image stays consistent. */
  lemma VillageUnlink(name: string, img': Image, r: Outcome)
    requires Consistent(Village(), Kept()) && Nameable(name) && name !in Table(Head() + Tail())
    requires RmDone(LnEnding(Village(), Kept(), [], "file", [], name).img, img', Kept(), EXT2_ROOT_INO, "file", r)
    ensures RmVerdict(LnEnding(Village(), Kept(), [], "file", [], name).img, [], "file") == Done
    ensures r == Done && Consistent(img', Kept())
  {
    hide Consistent, Village, Table, Lines, Lookup, LnEnding, Removed, Inserted, Release, Rest, Clean;
    VillageLink(name);
    var img := LnEnding(Village(), Kept(), [], "file", [], name).img;
    LookupNone(img);
    VillageNamed(name);
    var mid, i, b, was, j :| Removes(img, mid, EXT2_ROOT_INO, i, b, was, j)
                             && RmLeaves(img, mid, img', Kept(), EXT2_ROOT_INO, was[j], "file", r);
    LinkedShape(img);
    RemovesParts(img, mid, EXT2_ROOT_INO, i, b, was, j);
  }

  lemma LinkedShape(img: Image)
    requires Consistent(img, Kept())
    ensures img.Shape()
  {
  }

  lemma VillageNamed(name: string)
    requires Consistent(Village(), Kept()) && Nameable(name) && name !in Table(Head() + Tail())
    ensures var names := Table(Lines(LnEnding(Village(), Kept(), [], "file", [], name).img, EXT2_ROOT_INO));
            "file" in names && names["file"] == Target(FILE, EXT2_FT_REG_FILE)
  {
    hide Consistent, Village, Table, Lines, Lookup, LnEnding, RoomToLink;
    VillageLink(name);
    LnExact(Village(), Kept(), [], "file", [], name);
    VillageLines();
    HeadTiled();
  }

  /** Removing its only name gives back a word of the inode bitmap that other inodes share, and the
      image is no longer consistent. */
  lemma VillageRemove(img': Image, r: Outcome)
    requires RmDone(Village(), img', Kept(), EXT2_ROOT_INO, "file", r)
    ensures RmVerdict(Village(), [], "file") == Done && Consistent(Village(), Kept())
    ensures r == Done && !Consistent(img', HeldAfter(Village(), Kept(), FILE))
  {
    hide Consistent, Village, Table, Lines, Lookup, Removed, Release, Rest, Clean, HeldAfter;
    var img := Village();
    LookupNone(img);
    VillageLines();
    HeadTiled();
    VillageNodes();
    VillageConsistent();
    var mid, i, b, was, j :| Removes(img, mid, EXT2_ROOT_INO, i, b, was, j)
                             && RmLeaves(img, mid, img', Kept(), EXT2_ROOT_INO, was[j], "file", r);
    RemovesParts(img, mid, EXT2_ROOT_INO, i, b, was, j);
    VillageShared();
  }

  lemma VillageShared()
    ensures !Clean(Village(), FILE) && Village().Node(FILE).sectors == 2
  {
    assert Village().inodeBits[8] && InWord(FILE - 1, 8);
  }

  // ----- a full image

  /** Nothing but a root directory, and not a block free. */
  function Full(): (img: Image)
    ensures img.Shape()
  {
    Formatted().(blockBits := seq(BLOCK_NUM, _ => true), sFreeBlocks := 0, gFreeBlocks := 0)
  }

  function AllButRoot(): set<int> { set b: int | 1 <= b < BLOCK_NUM && Full().Marked(b) && b != FIRST_DATA_BLOCK }

  lemma FullParts()
    ensures var img, img' := Formatted(), Full();
            && img'.inodes == img.inodes && img'.blocks == img.blocks && img'.inodeBits == img.inodeBits
            && img'.sFreeInodes == img.sFreeInodes && img'.gFreeInodes == img.gFreeInodes
            && (forall b :: img'.Marked(b) <==> 1 <= b < BLOCK_NUM) && img'.blockBits[BLOCK_NUM - 1]
            && (forall n :: img'.Node(n) == img.Node(n) && img'.At(n) == img.At(n) && img'.FileAt(n) == img.FileAt(n))
            && (forall n :: (img'.Used(n) <==> img.Used(n)) && (img'.Directory(n) <==> img.Directory(n)))
            && (forall n :: img'.File(n) <==> img.File(n))
  {
  }

  lemma FullOwned()
    ensures Owned(Full(), AllButRoot())
  {
    hide Formatted, Full, Dots, Image.At, Image.File, Image.FileAt, Image.Directory, Image.Marked;
    var img := Full();
    FormattedRoot();
    FullParts();
    assert FilesOwned(img, AllButRoot());
    assert forall n, i, b :: img.Owns(n, i, b) <==> n == EXT2_ROOT_INO && i == 0 && b == FIRST_DATA_BLOCK;
    assert img.Owns(EXT2_ROOT_INO, 0, FIRST_DATA_BLOCK);
    FullShape();
  }

  lemma FullShape()
    ensures Full().Directory(EXT2_ROOT_INO) && DirShape(Full(), EXT2_ROOT_INO)
  {
    hide Formatted, Full, Dots;
    FormattedRoot();
    FullParts();
  }

  lemma {:induction false} NoZeros(bits: seq<bool>)
    requires forall i | 0 <= i < |bits| :: bits[i]
    ensures Zeros(bits) == 0
  {
    if bits != [] { NoZeros(bits[..|bits| - 1]); }
  }

  lemma FullRest()
    ensures BlocksOk(Full()) && Dotted(Full(), 0) && Unique(Full()) && Linked(Full(), 0, 0)
  {
    hide Formatted, Full, Dots, Image.At, Image.Directory, Image.Used, Image.File, Image.FileAt, Image.Marked,
        Tiled, Flat, UniqueNames, CountAll,
      Count, StartsWithDots;
    FullParts();
    FormattedBlocks();
    FormattedLinked();
    assert forall e :: EntryOk(Formatted(), e) ==> EntryOk(Full(), e);
    forall n, es | StartsWithDots(Formatted(), es, n) ensures StartsWithDots(Full(), es, n) { FullDots(es, n); }
  }

  lemma FullDots(es: seq<Entry>, n: int)
    requires StartsWithDots(Formatted(), es, n)
    ensures StartsWithDots(Full(), es, n)
  {
    hide Formatted, Full, Image.Directory, Image.At, Image.File, Image.FileAt;
    FullParts();
  }

  lemma FullConsistent()
    ensures Consistent(Full(), AllButRoot())
  {
    hide Owned, BlocksOk, Dotted, Unique, Linked, Zeros;
    FormattedRoot();
    FullParts();
    FullOwned();
    FullRest();
    NoZeros(Full().blockBits);
  }

  lemma FullPointers()
    ensures !HasFree(Full()) && FirstPointer(Full()) == 0
  {
    FirstFreeIs(Full().inodeBits, RESERVED_INODES);
    FirstFreeIs(Full().blockBits, BLOCK_NUM);
  }

  lemma FullInodes()
    ensures FirstFree(Full().inodeBits, 0) < INODE_NUM
  {
    FirstFreeIs(Full().inodeBits, RESERVED_INODES);
  }

  lemma FullAsked(name: string)
    requires Nameable(name) && name != "." && name != ".."
    ensures MkdirVerdict(Full(), [], name) == Done
  {
    hide Full, Formatted, Table, Dots, Lookup, FirstFree, Image.At;
    var img := Full();
    FullParts();
    FormattedRoot();
    FullInodes();
    LookupNone(img);
    LookupAppend(img, EXT2_ROOT_INO, [], name);
    assert [] + [name] == [name];
    DotsTiled(EXT2_ROOT_INO, EXT2_ROOT_INO);
    var run := Run(img, EXT2_ROOT_INO);
    assert run == [FIRST_DATA_BLOCK] && run[1..] == [];
  }

  /** The first free inode's first pointer is zero: mkdir writes the new directory over block 0, and
      the image is no longer consistent. */
  lemma FullMkdir(name: string, junk: int)
    requires Nameable(name) && name != "." && name != ".."
    ensures MkdirVerdict(Full(), [], name) == Done && Consistent(Full(), AllButRoot())
    ensures !Consistent(MkdirEnding(Full(), AllButRoot(), [], name, junk).img, AllButRoot())
  {
    hide Consistent, Full, Table, Lines, Lookup, MkdirEnding, MkdirDone, MkdirVerdict;
    FullConsistent();
    FullAsked(name);
    FullPointers();
    MkdirExact(Full(), AllButRoot(), [], name, junk);
  }
}

/** The disk image as the ext2 tools see it (File System/ext2.h), what makes it consistent, and
    the changes the tools make to it, as values. */
module Ext2Image {
  import opened DirectoryBlock

  const BLOCK_NUM := 128
  const INODE_NUM := 32
  const EXT2_ROOT_INO := 2
  const EXT2_S_IFDIR := 0x4000
  /** The pointers of an inode, and those of them that lead straight to data. */
  const POINTERS := 15
  const DIRECT := 12
  /** The pointer that the tools take for none: -1 in 32 bits. */
  const NO_BLOCK := 0xFFFF_FFFF

  datatype Inode = Inode(mode: int, size: int, links: int, sectors: nat, dtime: int, block: seq<int>) {
    predicate Directory() { mode / 0x1000 == EXT2_S_IFDIR / 0x1000 }

    function Blocks(): int { size / EXT2_BLOCK_SIZE }
  }

  datatype Block = Entries(es: seq<Entry>) | Other

  /** Inode n is inodes[n - 1]; block b has bit b - 1. */
  datatype Image = Image(inodes: seq<Inode>, blocks: seq<Block>, inodeBits: seq<bool>, blockBits: seq<bool>,
                         sFreeInodes: int, gFreeInodes: int, sFreeBlocks: int, gFreeBlocks: int)
  {
    predicate Shape() {
      && |inodes| == |inodeBits| == INODE_NUM && |blocks| == |blockBits| == BLOCK_NUM
      && forall n | 0 <= n < INODE_NUM :: |inodes[n].block| == POINTERS
    }

    predicate Used(n: int) { 1 <= n <= |inodeBits| && inodeBits[n - 1] }

    function Node(n: int): Inode { if 1 <= n <= |inodes| then inodes[n - 1] else Inode(0, 0, 0, 0, 0, []) }

    predicate Directory(n: int) { Used(n) && Node(n).Directory() }

    predicate Marked(b: int) { 1 <= b < BLOCK_NUM && b <= |blockBits| && blockBits[b - 1] }

    /** The blocks of inode n. */
    function At(n: int): seq<int> {
      var d := Node(n);
      if 0 <= d.Blocks() <= |d.block| then d.block[..d.Blocks()] else []
    }

    predicate Owns(n: int, i: int, b: int) { Directory(n) && 0 <= i < |At(n)| && At(n)[i] == b }

    predicate File(n: int) { Used(n) && !Node(n).Directory() }

    /** The blocks of file n that its own pointers lead to. */
    function FileAt(n: int): seq<int> {
      var d := Node(n);
      var count := if d.sectors / 2 < DIRECT then d.sectors / 2 else DIRECT;
      if count <= |d.block| then d.block[..count] else []
    }

    predicate Stores(n: int, i: int, b: int) { File(n) && 0 <= i < |FileAt(n)| && FileAt(n)[i] == b }
  }

  function Zeros(bits: seq<bool>): nat {
    if bits == [] then 0 else Zeros(bits[..|bits| - 1]) + if bits[|bits| - 1] then 0 else 1
  }

  /** Both free counts, in the superblock and in the group descriptor, are the clear bits. */
  ghost predicate Counted(img: Image) {
    && img.sFreeInodes == img.gFreeInodes == Zeros(img.inodeBits)
    && img.sFreeBlocks == img.gFreeBlocks == Zeros(img.blockBits)
  }

  ghost predicate DirShape(img: Image, n: int)
    requires img.Shape() && img.Directory(n)
  {
    var d := img.Node(n);
    && 0 <= d.Blocks() <= DIRECT && d.size == EXT2_BLOCK_SIZE * d.Blocks() && d.sectors == 2 * d.Blocks()
    && forall i | 0 <= i < |img.At(n)| :: img.Marked(img.At(n)[i]) && img.blocks[img.At(n)[i]].Entries?
  }

  /** Every block of a file is held, and by that file alone. */
  ghost predicate FilesOwned(img: Image, held: set<int>) {
    && (forall n, i, b | img.Stores(n, i, b) :: b in held)
    && (forall n, i, m, j, b | img.Stores(n, i, b) && img.Stores(m, j, b) :: n == m && i == j)
  }

  /** The blocks of directories have one owner each and are not held by anything else. held are
      the blocks of the file system itself and of files. The last bit stands for a block past
      the end of the image. */
  ghost predicate Owned(img: Image, held: set<int>)
    requires img.Shape()
  {
    && FilesOwned(img, held)
    && (forall n | img.Directory(n) :: DirShape(img, n))
    && (forall n, i, m, j, b | img.Owns(n, i, b) && img.Owns(m, j, b) :: n == m && i == j)
    && (forall n, i, b | img.Owns(n, i, b) :: b !in held)
    && (forall b | b in held :: img.Marked(b))
    && (forall b | 0 <= b < BLOCK_NUM && img.blocks[b].Entries? :: exists n, i :: img.Owns(n, i, b))
    && img.blockBits[BLOCK_NUM - 1]
  }

  ghost predicate EntryOk(img: Image, e: Entry) {
    if e.Live() then
      && img.Used(e.inode) && e.fileType in {EXT2_FT_REG_FILE, EXT2_FT_DIR, EXT2_FT_SYMLINK}
      && (e.fileType == EXT2_FT_DIR <==> img.Directory(e.inode))
    else e.inode == 0
  }

  ghost predicate BlocksOk(img: Image)
    requires img.Shape()
  {
    forall b | 0 <= b < BLOCK_NUM && img.blocks[b].Entries? ::
      Tiled(img.blocks[b].es) && forall e | e in img.blocks[b].es :: EntryOk(img, e)
  }

  function Content(blocks: seq<Block>, b: int): seq<Entry> {
    if 0 <= b < |blocks| && blocks[b].Entries? then blocks[b].es else []
  }

  /** The entries of several blocks, one after the other. */
  function Flat(blocks: seq<Block>, at: seq<int>): seq<Entry> {
    if at == [] then [] else Flat(blocks, at[..|at| - 1]) + Content(blocks, at[|at| - 1])
  }

  /** All the entries of directory n. */
  function Lines(img: Image, n: int): seq<Entry> {
    Flat(img.blocks, img.At(n))
  }

  ghost predicate StartsWithDots(img: Image, es: seq<Entry>, n: int) {
    |es| >= 2 && es[0].name == "." && es[0].inode == n && es[1].name == ".." && img.Directory(es[1].inode)
  }

  /** Every directory other than bare starts with its two dots. */
  ghost predicate Dotted(img: Image, bare: int)
    requires img.Shape()
  {
    forall n | img.Directory(n) && n != bare ::
      1 <= |img.At(n)| && StartsWithDots(img, Content(img.blocks, img.At(n)[0]), n)
  }

  ghost predicate Unique(img: Image)
    requires img.Shape()
  {
    forall n | img.Directory(n) :: UniqueNames(Lines(img, n))
  }

  // ----- counting entries

  datatype Kind = NamesOf(n: int) | Subdirectories {
    predicate Holds(e: Entry) {
      match this
      case NamesOf(n) => e.Names(n)
      case Subdirectories => e.Subdirectory()
    }
  }

  function Count(es: seq<Entry>, k: Kind): nat {
    if es == [] then 0 else Count(es[..|es| - 1], k) + if k.Holds(es[|es| - 1]) then 1 else 0
  }

  function CountAll(blocks: seq<Block>, k: Kind): nat {
    if blocks == [] then 0
    else CountAll(blocks[..|blocks| - 1], k) + Count(Content(blocks, |blocks| - 1), k)
  }

  /** How many names an inode has to have: a directory one, save the root; a file its link count. */
  function Due(img: Image, n: int): int {
    if img.Directory(n) then (if n == EXT2_ROOT_INO then 0 else 1) else img.Node(n).links
  }

  /** Names are as due, and a directory's link count is two and one for each subdirectory; apart
      from an entry not yet made for inode entry, and a link already counted for directory link. */
  ghost predicate Linked(img: Image, entry: int, link: int)
    requires img.Shape()
  {
    && (forall n | img.Used(n) :: CountAll(img.blocks, NamesOf(n)) + (if n == entry then 1 else 0) == Due(img, n))
    && (forall n | img.Directory(n) ::
          img.Node(n).links == 2 + Count(Lines(img, n), Subdirectories) + (if n == link then 1 else 0))
  }

  /** The image is consistent, except for what is still owed. */
  ghost predicate Owing(img: Image, held: set<int>, entry: int, link: int, bare: int) {
    && img.Shape() && Counted(img) && Owned(img, held) && BlocksOk(img) && Dotted(img, bare) && Unique(img)
    && Linked(img, entry, link) && img.Directory(EXT2_ROOT_INO)
  }

  ghost predicate Consistent(img: Image, held: set<int>) { Owing(img, held, 0, 0, 0) }

  // ----- the changes

  /** The least clear bit from i on, or the number of bits. */
  function FirstFree(bits: seq<bool>, i: nat): (k: nat)
    requires i <= |bits|
    ensures i <= k <= |bits| && (k < |bits| ==> !bits[k]) && forall j | i <= j < k :: bits[j]
    decreases |bits| - i
  {
    if i < |bits| && bits[i] then FirstFree(bits, i + 1) else i
  }

  /** A new directory's inode, before it has a block. */
  function TakeInode(img: Image): Image
    requires |img.inodes| == |img.inodeBits| && FirstFree(img.inodeBits, 0) < |img.inodeBits|
  {
    var i := FirstFree(img.inodeBits, 0);
    img.(inodeBits := img.inodeBits[i := true], sFreeInodes := img.sFreeInodes - 1, gFreeInodes := img.gFreeInodes - 1,
         inodes := img.inodes[i := Inode(EXT2_S_IFDIR, 0, 2, 0, 0, img.inodes[i].block)])
  }

  ghost predicate CanExtend(img: Image, n: int) {
    img.Shape() && 1 <= n <= INODE_NUM && 0 <= img.Node(n).Blocks() < POINTERS
  }

  predicate HasFree(img: Image) { FirstFree(img.blockBits, 0) < |img.blockBits| }

  /** The first free block is marked; with none free nothing happens. */
  function TakeBlock(img: Image): Image {
    if HasFree(img) then
      img.(blockBits := img.blockBits[FirstFree(img.blockBits, 0) := true],
           sFreeBlocks := img.sFreeBlocks - 1, gFreeBlocks := img.gFreeBlocks - 1)
    else img
  }

  /** What the next pointer of inode n holds before anything is stored there. */
  function Stale(img: Image, n: int): int {
    var d := img.Node(n);
    if 0 <= d.Blocks() < |d.block| then d.block[d.Blocks()] else NO_BLOCK
  }

  /** The block that the next pointer of inode n leads to once the first free block, if there is
      one, is stored there. */
  function Chosen(img: Image, n: int): int { if HasFree(img) then FirstFree(img.blockBits, 0) + 1 else Stale(img, n) }

  /** A write past the image is none. */
  function Put(blocks: seq<Block>, b: int, es: seq<Entry>): seq<Block> {
    if 0 <= b < |blocks| then blocks[b := Entries(es)] else blocks
  }

  /** The next block of inode n, for the given entries. With no block free its pointer stays what it
      was, and the entries go to block junk. */
  function Extend(img: Image, n: int, es: seq<Entry>, junk: int): Image
    requires CanExtend(img, n)
  {
    var d := img.Node(n);
    TakeBlock(img).(blocks := Put(img.blocks, if HasFree(img) then Chosen(img, n) else junk, es),
                    inodes := img.inodes[n - 1 := d.(block := d.block[d.Blocks() := Chosen(img, n)],
                                                     size := d.size + EXT2_BLOCK_SIZE, sectors := d.sectors + 2)])
  }

  /** The first of the given blocks, from the i-th on, with room behind its last entry. */
  function FirstSlack(blocks: seq<Block>, at: seq<int>, i: nat, nameLen: nat): (k: nat)
    requires i <= |at|
    ensures i <= k <= |at| && (k < |at| ==> Slack(Content(blocks, at[k]), nameLen))
    ensures forall j | i <= j < k :: !Slack(Content(blocks, at[j]), nameLen)
    decreases |at| - i
  {
    if i < |at| && !Slack(Content(blocks, at[i]), nameLen) then FirstSlack(blocks, at, i + 1, nameLen) else i
  }

  ghost predicate HasSlack(img: Image, n: int, nameLen: nat) {
    FirstSlack(img.blocks, img.At(n), 0, nameLen) < |img.At(n)|
  }

  ghost predicate CanInsert(img: Image, n: int, nameLen: nat) {
    img.Shape() && 1 <= n <= INODE_NUM && (HasSlack(img, n, nameLen) || CanExtend(img, n))
  }

  /** A new entry in directory n: behind the last entry of a block with room, or alone in a new
      block. */
  ghost function Insert(img: Image, n: int, inode: int, fileType: int, name: string, junk: int): Image
    requires CanInsert(img, n, |name|)
  {
    if HasSlack(img, n, |name|) then
      var b := img.At(n)[FirstSlack(img.blocks, img.At(n), 0, |name|)];
      img.(blocks := img.blocks[b := Entries(Split(img.blocks[b].es, inode, fileType, name))])
    else Extend(img, n, [Entry(inode, EXT2_BLOCK_SIZE, fileType, name)], junk)
  }

  function AddLinks(img: Image, n: int, k: int): Image
    requires 1 <= n <= |img.inodes|
  {
    img.(inodes := img.inodes[n - 1 := img.Node(n).(links := img.Node(n).links + k)])
  }

  /** Clear entry j of block b. */
  function Erase(img: Image, b: int, j: int): Image
    requires 0 <= b < |img.blocks| && img.blocks[b].Entries? && 0 <= j < |img.blocks[b].es|
  {
    var es := img.blocks[b].es;
    img.(blocks := img.blocks[b := Entries(es[j := Erased(es[j])])])
  }

  // ----- giving back

  /** The cells of the 32-bit word that starts with the byte of cell k. */
  predicate InWord(k: int, i: int) { k / 8 * 8 <= i < k / 8 * 8 + 32 }

  function ClearWord(bits: seq<bool>, k: int): seq<bool> {
    seq(|bits|, i requires 0 <= i < |bits| => bits[i] && !InWord(k, i))
  }

  function ClearWords(bits: seq<bool>, at: seq<int>): seq<bool> {
    if at == [] then bits else ClearWord(ClearWords(bits, at[..|at| - 1]), at[|at| - 1] - 1)
  }

  /** The inode of a file and the blocks its own pointers lead to are given back. */
  function Release(img: Image, file: int): Image {
    var count := |img.FileAt(file)|;
    img.(inodeBits := ClearWord(img.inodeBits, file - 1), blockBits := ClearWords(img.blockBits, img.FileAt(file)),
         sFreeInodes := img.sFreeInodes + 1, gFreeInodes := img.gFreeInodes + 1,
         sFreeBlocks := img.sFreeBlocks + count, gFreeBlocks := img.gFreeBlocks + count)
  }
}

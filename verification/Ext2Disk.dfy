/** The ext2 tools at work on a mapped image (File System/ext2_mkdir.c, ext2_ln.c, ext2_rm.c):
    loops over bitmap bytes and directory entries, and writes in place. */
module Ext2Disk {
  import opened DirectoryBlock
  import opened Ext2Image
  import opened Ext2Laws
  import opened Ext2Lookup
  import opened Ext2Tools
  import opened Ext2Release
  import opened Ext2Commands
  import opened Ext2Answers
  import SwapBitmap

  // ----- bitmaps

  /** The first n bits of a bitmap's bytes, lowest first. */
  ghost function Bits(bytes: seq<nat>, n: nat): (bits: seq<bool>)
    requires n <= 8 * |bytes|
  {
    seq(n, i requires 0 <= i < n => SwapBitmap.Bit(bytes[i / 8], i % 8))
  }

  /** get_inode_bitmap, get_block_bitmap: one cell per bit. */
  method GetBitmap(bytes: array<nat>, n: nat) returns (bitmap: array<bool>)
    requires n <= 8 * bytes.Length
    ensures fresh(bitmap) && bitmap[..] == Bits(bytes[..], n)
  {
    bitmap := new bool[n];
    for i := 0 to n
      invariant forall j | 0 <= j < i :: bitmap[j] == Bits(bytes[..], n)[j]
    {
      bitmap[i] := SwapBitmap.Bit(bytes[i / 8], i % 8);
    }
  }

  /** set_inode_bitmap, set_block_bitmap. */
  method SetBitmap(bytes: array<nat>, k: nat, ghost n: nat)
    requires k < n <= 8 * bytes.Length
    modifies bytes
    ensures Bits(bytes[..], n) == Bits(old(bytes[..]), n)[k := true]
  {
    ghost var was := bytes[..];
    bytes[k / 8] := SwapBitmap.Or(bytes[k / 8], k % 8);
    forall i | 0 <= i < n ensures Bits(bytes[..], n)[i] == Bits(was, n)[k := true][i] {
      SwapBitmap.OrBit(was[k / 8], k % 8, i % 8);
    }
  }

  /** set_inode_bitmap_back, set_block_bitmap_back: the 32-bit word at the bit's byte, and zero
      shifted by the bit, is zero. */
  method ClearBitmap(bytes: array<nat>, k: nat, ghost n: nat)
    requires k / 8 + 3 < bytes.Length && n <= 8 * bytes.Length
    modifies bytes
    ensures Bits(bytes[..], n) == ClearWord(Bits(old(bytes[..]), n), k)
    ensures forall i | 0 <= i < n ::
              Bits(bytes[..], n)[i] <==> Bits(old(bytes[..]), n)[i] && !(k / 8 * 8 <= i < k / 8 * 8 + 32)
  {
    ghost var was := bytes[..];
    bytes[k / 8], bytes[k / 8 + 1], bytes[k / 8 + 2], bytes[k / 8 + 3] := 0, 0, 0, 0;
    forall i | 0 <= i < n ensures Bits(bytes[..], n)[i] == ClearWord(Bits(was, n), k)[i] {
      SwapBitmap.ZeroBit(i % 8);
      assert InWord(k, i) <==> k / 8 <= i / 8 <= k / 8 + 3;
    }
  }

  // ----- walking a directory

  /** The entries before the j-th one of block d of the given blocks; at the end, all of them. */
  ghost function Seen(blocks: seq<Block>, at: seq<int>, d: nat, j: nat): seq<Entry> {
    if d < |at| && j <= |Content(blocks, at[d])| then Flat(blocks, at[..d]) + Content(blocks, at[d])[..j]
        else Flat(blocks, at)
  }

  /** Where a walk is: in front of an entry of block d, or at the end of all blocks. */
  ghost predicate Walking(blocks: seq<Block>, at: seq<int>, d: nat, j: nat, size: int) {
    && d <= |at|
    && if d < |at| then j < |Content(blocks, at[d])|
       && size == EXT2_BLOCK_SIZE * d + Length(Content(blocks, at[d])[..j])
       else j == 0 && size == EXT2_BLOCK_SIZE * d
  }

  ghost predicate AllTiled(blocks: seq<Block>, at: seq<int>) {
    forall i | 0 <= i < |at| :: Tiled(Content(blocks, at[i]))
  }

  /** A walk ends with the last block, not before and not after. */
  lemma WalkBounds(blocks: seq<Block>, at: seq<int>, d: nat, j: nat, size: int)
    requires AllTiled(blocks, at) && Walking(blocks, at, d, j, size)
    ensures size < EXT2_BLOCK_SIZE * |at| <==> d < |at|
  {
    if d < |at| { Walk(Content(blocks, at[d]), j); }
  }

  /** Adding the length of the entry in front shows whether it is its block's last. */
  lemma WalkStep(blocks: seq<Block>, at: seq<int>, d: nat, j: nat, size: int) returns (d': nat, j': nat)
    requires AllTiled(blocks, at) && Walking(blocks, at, d, j, size) && d < |at|
    ensures var es := Content(blocks, at[d]);
            var size' := size + es[j].recLen;
            && (size' % EXT2_BLOCK_SIZE == 0 <==> j + 1 == |es|)
            && (d', j') == (if j + 1 == |es| then (d + 1, 0) else (d, j + 1))
            && Walking(blocks, at, d', j', size') && Seen(blocks, at, d', j') == Seen(blocks, at, d, j) + [es[j]]
  {
    hide Tiled, Content, Length, Seen;
    var es := Content(blocks, at[d]);
    assert Tiled(es);
    TiledWalk(es, j);
    EndOfBlock(d, Length(es[..j + 1]));
    SeenStep(blocks, at, d, j);
    d', j' := if j + 1 == |es| then d + 1 else d, if j + 1 == |es| then 0 else j + 1;
    if j + 1 == |es| && d + 1 < |at| {
      TiledSome(Content(blocks, at[d + 1]));
    }
  }

  lemma EndOfBlock(d: nat, length: int)
    requires 0 < length <= EXT2_BLOCK_SIZE
    ensures (EXT2_BLOCK_SIZE * d + length) % EXT2_BLOCK_SIZE == 0 <==> length == EXT2_BLOCK_SIZE
  {
  }

  lemma SeenStep(blocks: seq<Block>, at: seq<int>, d: nat, j: nat)
    requires d < |at| && j < |Content(blocks, at[d])|
    ensures var es := Content(blocks, at[d]);
            (if j + 1 == |es| then Seen(blocks, at, d + 1, 0) else Seen(blocks, at, d, j + 1))
            == Seen(blocks, at, d, j) + [es[j]]
  {
    hide Content, Flat;
    var es := Content(blocks, at[d]);
    assert es[..j + 1] == es[..j] + [es[j]];
    if j + 1 == |es| {
      FlatLast(blocks, at[..d], at[d]);
      assert at[..d + 1] == at[..d] + [at[d]] && es[..j + 1] == es;
      SeenStart(blocks, at, d + 1);
    }
  }

  lemma SeenStart(blocks: seq<Block>, at: seq<int>, d: nat)
    requires d <= |at|
    ensures Seen(blocks, at, d, 0) == Flat(blocks, at[..d])
  {
    assert at[..|at|] == at;
  }

  lemma TiledSome(es: seq<Entry>)
    requires Tiled(es)
    ensures 0 < |es| && Length(es[..0]) == 0
  {
  }

  lemma TiledWalk(es: seq<Entry>, j: nat)
    requires Tiled(es) && j < |es|
    ensures Length(es[..j + 1]) == Length(es[..j]) + es[j].recLen && es[j].Fits()
    ensures 0 <= Length(es[..j]) < Length(es[..j + 1]) <= EXT2_BLOCK_SIZE
    ensures Length(es[..j + 1]) == EXT2_BLOCK_SIZE <==> j + 1 == |es|
  {
    Walk(es, j);
    if j + 1 == |es| { assert es[..j + 1] == es; }
  }

  /** The entry in front of a walk, and all behind it. */
  lemma SeenRest(blocks: seq<Block>, at: seq<int>, d: nat, j: nat)
    requires d < |at| && j < |Content(blocks, at[d])|
    ensures Seen(blocks, at, d, j) + [Content(blocks, at[d])[j]] <= Flat(blocks, at)
  {
    hide Content, Flat;
    assert at == at[..d] + [at[d]] + at[d + 1..];
    FlatSplit(blocks, at[..d], at[d], at[d + 1..]);
    PartOf(Flat(blocks, at[..d]), Content(blocks, at[d]), Flat(blocks, at[d + 1..]), j);
  }

  lemma PartOf(xs: seq<Entry>, es: seq<Entry>, ys: seq<Entry>, j: nat)
    requires j < |es|
    ensures xs + es[..j] + [es[j]] <= xs + es + ys
  {
    var part, whole := xs + es[..j] + [es[j]], xs + es + ys;
    forall k | 0 <= k < |part| ensures part[k] == whole[k] {
      if |xs| <= k { assert whole[k] == es[k - |xs|]; }
    }
  }

  lemma SeenAll(blocks: seq<Block>, at: seq<int>)
    ensures Seen(blocks, at, |at|, 0) == Flat(blocks, at)
  {
    assert at[..|at|] == at;
  }

  /** What a search that stops at entry j of block d has found. */
  lemma FoundHere(blocks: seq<Block>, at: seq<int>, d: nat, j: nat, name: string)
    requires d < |at| && j < |Content(blocks, at[d])| && name != "" && Content(blocks, at[d])[j].name == name
    requires forall e | e in Seen(blocks, at, d, j) :: e.name != name
    ensures var e := Content(blocks, at[d])[j];
            name in Table(Flat(blocks, at)) && Table(Flat(blocks, at))[name] == Target(e.inode, e.fileType)
  {
    SeenRest(blocks, at, d, j);
    var seen, all := Seen(blocks, at, d, j), Flat(blocks, at);
    assert all[|seen|] == (seen + [Content(blocks, at[d])[j]])[|seen|];
    forall k | 0 <= k < |seen| ensures all[k].name != name { assert all[k] == seen[k]; }
    FirstInTable(all, |seen|);
  }

  /** What a search that comes to the end has found. */
  lemma FoundNowhere(blocks: seq<Block>, at: seq<int>, name: string)
    requires name != "" && forall e | e in Seen(blocks, at, |at|, 0) :: e.name != name
    ensures name !in Table(Flat(blocks, at))
  {
    SeenAll(blocks, at);
    InTable(Flat(blocks, at), name);
  }

  // ----- what a walk relies on

  /** Directory n can be walked: its size is that of its blocks, and they hold entries. */
  ghost predicate Walkable(img: Image, n: int) {
    && img.Shape() && img.blockBits[BLOCK_NUM - 1] && 1 <= n <= INODE_NUM
    && 0 <= img.Node(n).Blocks() <= DIRECT && img.Node(n).size == EXT2_BLOCK_SIZE * img.Node(n).Blocks()
    && AllTiled(img.blocks, img.At(n))
  }

  lemma WalkableIf(img: Image, held: set<int>, n: int)
    requires Consistent(img, held) && img.Directory(n)
    ensures Walkable(img, n) && img.At(n) != []
  {
    hide Unique, Linked, Counted, Tiled, FilesOwned;
    OwnedShape(img, held, n);
    TiledBlocks(img, n);
  }

  lemma TiledBlocks(img: Image, n: int)
    requires img.Shape() && img.Directory(n) && BlocksOk(img) && DirShape(img, n)
    ensures AllTiled(img.blocks, img.At(n))
  {
    hide Tiled;
  }

  lemma WalkableParts(img: Image, n: int)
    requires Walkable(img, n)
    ensures |img.At(n)| == img.Node(n).Blocks() && img.At(n) == img.Node(n).block[..|img.At(n)|]
    ensures |img.inodes| == INODE_NUM && |img.blocks| == BLOCK_NUM && |img.Node(n).block| == POINTERS
    ensures img.Node(n).size == EXT2_BLOCK_SIZE * |img.At(n)| && img.Node(n) == img.inodes[n - 1]
    ensures CanExtend(img, n) && (forall nameLen :: CanInsert(img, n, nameLen)) && AllTiled(img.blocks, img.At(n))
    ensures forall i | 0 <= i < |img.At(n)| :: Readable(img.blocks, img.At(n)[i])
  {
    hide Length;
  }

  /** Counting a link changes nothing for a walk. */
  lemma WalkableLinked(img: Image, n: int, m: int, k: int)
    requires Walkable(img, n) && 1 <= m <= INODE_NUM
    ensures Walkable(AddLinks(img, m, k), n) && Lines(AddLinks(img, m, k), n) == Lines(img, n)
    ensures AddLinks(img, m, k).At(n) == img.At(n)
  {
  }

  /** The parent can be walked once the new directory has its block, even if that was the wrong one. */
  lemma WalkableBorn(img: Image, held: set<int>, p: int)
    requires Consistent(img, held) && CanMake(img, p)
    ensures Walkable(Birth(img, p), p)
  {
    hide Owned, BlocksOk, Dotted, Unique, Linked, Counted, Tiled, Dots, TakeInode, CanExtend, FirstPointer;
    var n, taken := FirstFree(img.inodeBits, 0) + 1, TakeInode(img);
    WalkableIf(img, held, p);
    TakenParts(img, p);
    DotsTiled(n, p);
    ExtendParts(taken, n, Dots(n, p), FirstPointer(img), p);
    StillTiled(img.blocks, Birth(img, p).blocks, img.At(p), Dots(n, p));
  }

  lemma ExtendParts(img: Image, n: int, es: seq<Entry>, junk: int, m: int)
    requires CanExtend(img, n) && m != n
    ensures var img' := Extend(img, n, es, junk);
            && img'.Shape() && img'.Node(m) == img.Node(m) && img'.At(m) == img.At(m)
            && (exists b :: img'.blocks == Put(img.blocks, b, es))
            && (img.blockBits[BLOCK_NUM - 1] ==> img'.blockBits[BLOCK_NUM - 1])
  {
  }

  lemma StillTiled(blocks: seq<Block>, blocks': seq<Block>, at: seq<int>, es: seq<Entry>)
    requires AllTiled(blocks, at) && Tiled(es) && exists b :: blocks' == Put(blocks, b, es)
    ensures AllTiled(blocks', at)
  {
    hide Tiled;
  }

  // ----- the search of one directory on a path

  /** Where the search is: in front of an entry of the d-th block of the run, or of that block. */
  ghost predicate Searching(blocks: seq<Block>, run: seq<int>, name: string, d: nat, j: nat, size: int) {
    && d <= |run| && Search(blocks, run, name) == Search(blocks, run[d..], name)
    && if j == 0 then size == EXT2_BLOCK_SIZE * d
       else
         && d < |run| && Readable(blocks, run[d]) && j < |blocks[run[d]].es|
         && size == EXT2_BLOCK_SIZE * d + Length(blocks[run[d]].es[..j])
         && forall i | 0 <= i < j :: blocks[run[d]].es[i].name != name
  }

  lemma SearchBounds(blocks: seq<Block>, run: seq<int>, name: string, d: nat, j: nat, size: int)
    requires EntriesTiled(blocks) && Searching(blocks, run, name, d, j, size)
    ensures size < EXT2_BLOCK_SIZE * |run| <==> d < |run|
    ensures d < |run| && Readable(blocks, run[d]) ==> j < |blocks[run[d]].es|
  {
    hide Search;
    if d < |run| && Readable(blocks, run[d]) {
      TiledWalk(blocks[run[d]].es, if j == 0 then 0 else j);
    }
  }

  lemma SearchStops(blocks: seq<Block>, run: seq<int>, name: string, d: nat, j: nat, size: int)
    requires EntriesTiled(blocks) && Searching(blocks, run, name, d, j, size) && name != "" && d < |run|
    ensures !Readable(blocks, run[d]) ==> Search(blocks, run, name) == Astray
    ensures Readable(blocks, run[d]) && j < |blocks[run[d]].es| && blocks[run[d]].es[j].name == name ==>
              var e := blocks[run[d]].es[j]; Search(blocks, run, name) == Leads(Target(e.inode, e.fileType))
  {
    assert run[d..][0] == run[d];
    if Readable(blocks, run[d]) && j < |blocks[run[d]].es| && blocks[run[d]].es[j].name == name {
      FirstInTable(blocks[run[d]].es, j);
    }
  }

  lemma SearchStep(blocks: seq<Block>, run: seq<int>, name: string, d: nat, j: nat, size: int)
    requires EntriesTiled(blocks) && Searching(blocks, run, name, d, j, size) && name != "" && d < |run|
    requires Readable(blocks, run[d]) && j < |blocks[run[d]].es| && blocks[run[d]].es[j].name != name
    ensures var es := blocks[run[d]].es;
            var size' := size + es[j].recLen;
            && (size' % EXT2_BLOCK_SIZE == 0 <==> j + 1 == |es|)
            && Searching(blocks, run, name, if j + 1 == |es| then d + 1 else d, if j + 1 == |es| then 0 else j + 1,
                         size')
            && size < size'
  {
    hide Table, Leads;
    var es := blocks[run[d]].es;
    assert Tiled(es);
    TiledWalk(es, j);
    TiledSome(es);
    EndOfBlock(d, Length(es[..j + 1]));
    if j + 1 == |es| {
      InTable(es, name);
      assert run[d..][0] == run[d] && run[d..][1..] == run[d + 1..];
    }
  }

  lemma SearchEnds(blocks: seq<Block>, run: seq<int>, name: string, d: nat, j: nat, size: int)
    requires Searching(blocks, run, name, d, j, size) && d >= |run|
    ensures Search(blocks, run, name) == Missing
  {
  }

  lemma TiledIfConsistent(img: Image, held: set<int>)
    requires Consistent(img, held)
    ensures EntriesTiled(img.blocks) && img.Shape()
  {
    hide Tiled;
  }

  lemma LookupStep(img: Image, n: int, path: seq<string>)
    requires path != []
    ensures Lookup(img, n, path) == match Search(img.blocks, Run(img, n), path[0])
                                    case Found(m) => Lookup(img, m, path[1..])
                                    case other => other
  {
  }

  /** The first free block is taken and pointer k of inode n leads to it; with no block free nothing
      happens. */
  ghost function Pointed(img: Image, n: int, k: int): Image
    requires img.Shape() && 1 <= n <= INODE_NUM && 0 <= k < POINTERS
  {
    if HasFree(img) then
      var d := img.inodes[n - 1];
      TakeBlock(img).(inodes := img.inodes[n - 1 := d.(block := d.block[k := FirstFree(img.blockBits, 0) + 1])])
    else img
  }

  /** Then the entries are written and the inode grows. */
  lemma PointedExtends(img: Image, n: int, es: seq<Entry>, junk: int)
    requires CanExtend(img, n)
    ensures var mid := Pointed(img, n, img.Node(n).Blocks());
            var d := mid.inodes[n - 1];
            mid.(blocks := Put(mid.blocks, if HasFree(img) then Chosen(img, n) else junk, es),
                 inodes := mid.inodes[n - 1 := d.(size := d.size + EXT2_BLOCK_SIZE, sectors := d.sectors + 2)])
            == Extend(img, n, es, junk)
  {
    hide FirstFree;
    var d := img.Node(n);
    assert d.block[d.Blocks() := d.block[d.Blocks()]] == d.block;
  }

  /** A new directory's inode as ext2_mkdir sets it up, one block long before it has one. */
  ghost function Started(img: Image): Image
    requires img.Shape() && FirstFree(img.inodeBits, 0) < INODE_NUM
  {
    var i, taken := FirstFree(img.inodeBits, 0), TakeInode(img);
    taken.(inodes := taken.inodes[i := taken.inodes[i].(size := EXT2_BLOCK_SIZE, sectors := 2)])
  }

  lemma StartedBirth(img: Image, p: int)
    requires CanMake(img, p)
    ensures var n := FirstFree(img.inodeBits, 0) + 1;
            && Started(img).Shape() && HasFree(Started(img)) == HasFree(img)
            && var mid := Pointed(Started(img), n, 0);
               && mid.Shape() && (HasFree(img) ==> mid.inodes[n - 1].block[0] == FirstFree(img.blockBits, 0) + 1)
               && (!HasFree(img) ==> mid.inodes[n - 1].block[0] == FirstPointer(img))
               && mid.(blocks := Put(mid.blocks, mid.inodes[n - 1].block[0], Dots(n, p))) == Birth(img, p)
  {
    hide FirstFree, Dots;
    var n, taken := FirstFree(img.inodeBits, 0) + 1, TakeInode(img);
    TakenParts(img, p);
    PointedExtends(taken, n, Dots(n, p), FirstPointer(img));
    var mid, mid' := Pointed(Started(img), n, 0), Pointed(taken, n, 0);
    assert mid.inodes == mid'.inodes[n - 1 := mid'.inodes[n - 1].(size := EXT2_BLOCK_SIZE, sectors := 2)];
  }

  class Disk {
    const inodes: array<Inode>
    const blocks: array<Block>
    const inodeBitmap: array<nat>
    const blockBitmap: array<nat>
    var sFreeInodes: int
    var gFreeInodes: int
    var sFreeBlocks: int
    var gFreeBlocks: int

    /** Either bitmap has a block to itself. */
    ghost predicate Sizes() {
      && inodes.Length == INODE_NUM && blocks.Length == BLOCK_NUM
      && inodeBitmap.Length == blockBitmap.Length == EXT2_BLOCK_SIZE && inodeBitmap != blockBitmap
    }

    ghost function Snapshot(): Image
      requires Sizes()
      reads this, inodes, blocks, inodeBitmap, blockBitmap
    {
      Image(inodes[..], blocks[..], Bits(inodeBitmap[..], INODE_NUM), Bits(blockBitmap[..], BLOCK_NUM),
            sFreeInodes, gFreeInodes, sFreeBlocks, gFreeBlocks)
    }

    /** The search of a directory by its own block pointers, as in ext2_ln and ext2_rm. */
    method FindEntry(n: int, name: string) returns (found: bool, d: nat, j: nat)
      requires Sizes() && Walkable(Snapshot(), n) && name != ""
      ensures found <==> name in Table(Lines(Snapshot(), n))
      ensures found ==>
        && d < |Snapshot().At(n)| && Readable(blocks[..], Snapshot().At(n)[d]) && j < |blocks[Snapshot().At(n)[d]].es|
        && var e := blocks[Snapshot().At(n)[d]].es[j];
           e.name == name && Table(Lines(Snapshot(), n))[name] == Target(e.inode, e.fileType)
    {
      hide Walking, AllTiled, Table, Seen, Flat, Walkable;
      ghost var at := Snapshot().At(n);
      WalkableParts(Snapshot(), n);
      var node := inodes[n - 1];
      var size, totalSize := 0, node.size;
      d, j := 0, 0;
      WalkStart(blocks[..], at);
      while size < totalSize
        invariant Walking(blocks[..], at, d, j, size)
        invariant forall e | e in Seen(blocks[..], at, d, j) :: e.name != name
        decreases totalSize - size
      {
        WalkBounds(blocks[..], at, d, j, size);
        InFront(blocks[..], at, d, j, size);
        var entry := blocks[node.block[d]].es[j];
        if entry.name == name {
          FoundHere(blocks[..], at, d, j, name);
          return true, d, j;
        }
        ghost var d', j' := WalkStep(blocks[..], at, d, j, size);
        size := size + entry.recLen;
        if size % EXT2_BLOCK_SIZE == 0 {
          d, j := d + 1, 0;
        } else {
          j := j + 1;
        }
      }
      WalkBounds(blocks[..], at, d, j, size);
      AtEnd(blocks[..], at, d, j, size);
      FoundNowhere(blocks[..], at, name);
      found := false;
    }

    /** The search of one directory on a path, block after block of the disk. */
    method FindDirEntry(n: int, name: string) returns (r: Place)
      requires Sizes() && Walkable(Snapshot(), n) && Snapshot().At(n) != [] && EntriesTiled(blocks[..]) && name != ""
      ensures r == Search(blocks[..], Run(Snapshot(), n), name)
    {
      hide EntriesTiled, Search, Searching, Walkable, Table, Length;
      ghost var run := Run(Snapshot(), n);
      WalkableParts(Snapshot(), n);
      var node := inodes[n - 1];
      var blockNum, size, totalSize := node.block[0], 0, node.size;
      var j := 0;
      ghost var d := 0;
      SearchStart(blocks[..], run, name);
      while size < totalSize
        invariant Searching(blocks[..], run, name, d, j, size) && blockNum == Snapshot().At(n)[0] + d
        decreases totalSize - size
      {
        SearchBounds(blocks[..], run, name, d, j, size);
        SearchStops(blocks[..], run, name, d, j, size);
        assert blockNum == run[d];
        if !(0 <= blockNum < BLOCK_NUM && blocks[blockNum].Entries?) { return Astray; }
        var entry := blocks[blockNum].es[j];
        if entry.name == name {
          if entry.fileType == EXT2_FT_REG_FILE || entry.fileType == EXT2_FT_SYMLINK { return NotDirectory; }
          return Found(entry.inode);
        }
        SearchStep(blocks[..], run, name, d, j, size);
        size := size + entry.recLen;
        if size % EXT2_BLOCK_SIZE == 0 {
          blockNum, j := blockNum + 1, 0;
          d := d + 1;
        } else {
          j := j + 1;
        }
      }
      SearchBounds(blocks[..], run, name, d, j, size);
      SearchEnds(blocks[..], run, name, d, j, size);
      r := Missing;
    }

    /** find_dir_inode. */
    method FindDirInode(path: seq<string>, ghost held: set<int>) returns (r: Place)
      requires Sizes() && Consistent(Snapshot(), held) && "" !in path
      ensures r == Lookup(Snapshot(), EXT2_ROOT_INO, path) && (r.Found? ==> Snapshot().Directory(r.inode))
    {
      hide Consistent, Owing, Search, Run, Lookup, Walkable, EntriesTiled, Image.Directory;
      ghost var img := Snapshot();
      var inodeNum, rest := EXT2_ROOT_INO, path;
      RootDirectory(img, held);
      TiledIfConsistent(img, held);
      while rest != []
        invariant img.Directory(inodeNum) && "" !in rest
                  && Lookup(img, inodeNum, rest) == Lookup(img, EXT2_ROOT_INO, path)
        decreases |rest|
      {
        var name := rest[0];
        assert name in rest;
        WalkableIf(img, held, inodeNum);
        var next := FindDirEntry(inodeNum, name);
        LookupStep(img, inodeNum, rest);
        if !next.Found? { return next; }
        NextDirectory(img, held, Run(img, inodeNum), name);
        inodeNum, rest := next.inode, rest[1..];
      }
      LookupNothing(img, inodeNum);
      r := Found(inodeNum);
    }

    // ----- allocation

    /** The search for a free block. */
    method AllocateBlock() returns (b: int)
      requires Sizes()
      modifies this, blockBitmap
      ensures Snapshot() == TakeBlock(old(Snapshot()))
      ensures b == if HasFree(old(Snapshot())) then FirstFree(old(Snapshot()).blockBits, 0) + 1 else -1
    {
      ghost var bits := Bits(blockBitmap[..], BLOCK_NUM);
      var bitmap := GetBitmap(blockBitmap, BLOCK_NUM);
      for i := 0 to BLOCK_NUM
        invariant bitmap[..] == bits && Snapshot() == old(Snapshot())
        invariant forall k | 0 <= k < i :: bits[k]
      {
        assert bitmap[..][i] == bits[i];
        if !bitmap[i] {
          FirstFreeIs(bits, i);
          SetBitmap(blockBitmap, i, BLOCK_NUM);
          sFreeBlocks := sFreeBlocks - 1;
          gFreeBlocks := gFreeBlocks - 1;
          return i + 1;
        }
      }
      FirstFreeIs(bits, BLOCK_NUM);
      b := -1;
    }

    /** The search for a free inode. */
    method AllocateInode() returns (n: int)
      requires Sizes()
      modifies this, inodeBitmap
      ensures var img, k := old(Snapshot()), FirstFree(old(Snapshot()).inodeBits, 0);
              if k < INODE_NUM then
                && n == k + 1
                && Snapshot() == img.(inodeBits := img.inodeBits[k := true],
                                      sFreeInodes := img.sFreeInodes - 1, gFreeInodes := img.gFreeInodes - 1)
              else n == -1 && Snapshot() == img
    {
      ghost var bits := Bits(inodeBitmap[..], INODE_NUM);
      var bitmap := GetBitmap(inodeBitmap, INODE_NUM);
      for i := 0 to INODE_NUM
        invariant bitmap[..] == bits && Snapshot() == old(Snapshot())
        invariant forall k | 0 <= k < i :: bits[k]
      {
        assert bitmap[..][i] == bits[i];
        if !bitmap[i] {
          FirstFreeIs(bits, i);
          sFreeInodes := sFreeInodes - 1;
          gFreeInodes := gFreeInodes - 1;
          SetBitmap(inodeBitmap, i, INODE_NUM);
          return i + 1;
        }
      }
      FirstFreeIs(bits, INODE_NUM);
      n := -1;
    }

    // ----- insertion

    /** Whether the last entry of a block leaves room: the walk of the block. */
    method LastHasSlack(b: int, nameLen: nat) returns (slack: bool, j: nat)
      requires Sizes() && 0 <= b < BLOCK_NUM && blocks[b].Entries? && Tiled(blocks[b].es)
      ensures slack == Slack(blocks[b].es, nameLen) && (slack ==> j == |blocks[b].es| - 1)
    {
      hide Tiled;
      ghost var es := blocks[b].es;
      var size := 0;
      j := 0;
      TiledSome(es);
      while size < EXT2_BLOCK_SIZE
        invariant 0 <= j <= |es| && size == Length(es[..j]) && (size < EXT2_BLOCK_SIZE <==> j < |es|)
        invariant j == |es| ==> !Slack(es, nameLen)
        decreases EXT2_BLOCK_SIZE - size
      {
        TiledWalk(es, j);
        var entry := blocks[b].es[j];
        size := size + entry.recLen;
        if size % EXT2_BLOCK_SIZE == 0 && RecLen(nameLen) + RecLen(|entry.name|) <= entry.recLen {
          return true, j;
        }
        j := j + 1;
      }
      slack := false;
    }

    /** The first block of directory n whose last entry leaves room, and that entry. */
    method FindSlack(n: int, nameLen: nat) returns (found: bool, i: nat, j: nat)
      requires Sizes() && Walkable(Snapshot(), n)
      ensures found == HasSlack(Snapshot(), n, nameLen)
      ensures found ==>
        && i == FirstSlack(blocks[..], Snapshot().At(n), 0, nameLen) && 0 <= Snapshot().At(n)[i] < BLOCK_NUM
        && blocks[Snapshot().At(n)[i]].Entries? && j == |blocks[Snapshot().At(n)[i]].es| - 1
    {
      hide Tiled, Walkable;
      ghost var at := Snapshot().At(n);
      WalkableParts(Snapshot(), n);
      var node := inodes[n - 1];
      var count := node.size / EXT2_BLOCK_SIZE;
      found, j := false, 0;
      for k := 0 to count
        invariant !found && FirstSlack(blocks[..], at, 0, nameLen) == FirstSlack(blocks[..], at, k, nameLen)
      {
        assert node.block[k] == at[k] && Tiled(Content(blocks[..], at[k]));
        found, j := LastHasSlack(node.block[k], nameLen);
        if found { return true, k, j; }
      }
      i := count;
    }

    /** The last entry of block b is cut to its need, and what is left becomes a new entry. */
    method SplitLast(b: int, j: nat, inode: int, fileType: int, name: string)
      requires Sizes() && 0 <= b < BLOCK_NUM && blocks[b].Entries? && j == |blocks[b].es| - 1
      modifies blocks
      ensures var img := old(Snapshot());
              Snapshot() == img.(blocks := img.blocks[b := Entries(Split(img.blocks[b].es, inode, fileType, name))])
    {
      ghost var was := blocks[b].es;
      var last := blocks[b].es[j];
      var need := RecLen(|last.name|);
      blocks[b] := Entries(blocks[b].es[j := last.(recLen := need)]);
      blocks[b] := Entries(blocks[b].es + [Entry(inode, last.recLen - need, fileType, name)]);
      assert blocks[b].es == Split(was, inode, fileType, name);
    }

    /** A free block, if there is one, is stored in pointer k of inode n. */
    method StorePointer(n: int, k: nat) returns (b: int)
      requires Sizes() && Snapshot().Shape() && 1 <= n <= INODE_NUM && k < POINTERS
      modifies this, inodes, blockBitmap
      ensures Snapshot() == Pointed(old(Snapshot()), n, k)
      ensures b == if HasFree(old(Snapshot())) then FirstFree(old(Snapshot()).blockBits, 0) + 1 else -1
    {
      hide FirstFree, Bits;
      ghost var img := Snapshot();
      b := AllocateBlock();
      if b != -1 {
        inodes[n - 1] := inodes[n - 1].(block := inodes[n - 1].block[k := b]);
        assert inodes[..] == img.inodes[n - 1 := inodes[n - 1]];
      }
    }

    /** A new block for directory n, with one entry. With no block free the pointer is what it was,
        and the entry goes to block junk. */
    method AppendBlock(n: int, inode: int, fileType: int, name: string, junk: int) returns (r: Outcome)
      requires Sizes() && Walkable(Snapshot(), n) && !HasSlack(Snapshot(), n, |name|)
      modifies this, inodes, blocks, blockBitmap
      ensures CanInsert(old(Snapshot()), n, |name|)
      ensures Ending(r, Snapshot()) == Inserting(old(Snapshot()), n, inode, fileType, name, junk)
    {
      hide Walkable, HasSlack, FirstFree;
      ghost var img := Snapshot();
      WalkableParts(img, n);
      NoFreeLast(img, n);
      PointedExtends(img, n, [Entry(inode, EXT2_BLOCK_SIZE, fileType, name)], junk);
      var count := inodes[n - 1].size / EXT2_BLOCK_SIZE;
      var b := StorePointer(n, count);
      var blockNum := if b != -1 then b else junk;
      if inodes[n - 1].block[count] == NO_BLOCK {
        return NoBlock;
      }
      if !(0 <= blockNum < BLOCK_NUM) {
        return Fault;
      }
      blocks[blockNum] := Entries([Entry(inode, EXT2_BLOCK_SIZE, fileType, name)]);
      inodes[n - 1] := inodes[n - 1].(sectors := inodes[n - 1].sectors + 2);
      inodes[n - 1] := inodes[n - 1].(size := inodes[n - 1].size + EXT2_BLOCK_SIZE);
      r := Done;
    }

    /** A new entry in directory n, as ext2_mkdir and ext2_ln make it. */
    method InsertEntry(n: int, inode: int, fileType: int, name: string, junk: int) returns (r: Outcome)
      requires Sizes() && Walkable(Snapshot(), n)
      modifies this, inodes, blocks, blockBitmap
      ensures CanInsert(old(Snapshot()), n, |name|)
      ensures Ending(r, Snapshot()) == Inserting(old(Snapshot()), n, inode, fileType, name, junk)
      ensures InsertAnswers(old(Snapshot()), Snapshot(), n, inode, fileType, name, junk, r)
    {
      hide Walkable, Extend, Split, InsertAnswers;
      ghost var img := Snapshot();
      WalkableParts(img, n);
      WalkableLast(img, n);
      FreeInImage(img);
      InsertAnswered(img, n, inode, fileType, name, junk);
      var found, i, j := FindSlack(n, |name|);
      if found {
        var b := inodes[n - 1].block[i];
        assert b == img.At(n)[i];
        SplitLast(b, j, inode, fileType, name);
        r := Done;
      } else {
        r := AppendBlock(n, inode, fileType, name, junk);
      }
    }

    // ----- ext2_mkdir

    /** The inode of a new directory. */
    method StartInode() returns (n: int)
      requires Sizes() && Snapshot().Shape()
      modifies this, inodes, inodeBitmap
      ensures n == -1 <==> FirstFree(old(Snapshot()).inodeBits, 0) == INODE_NUM
      ensures n == -1 ==> Snapshot() == old(Snapshot())
      ensures n != -1 ==> n == FirstFree(old(Snapshot()).inodeBits, 0) + 1 && Snapshot() == Started(old(Snapshot()))
    {
      hide Bits, FirstFree;
      ghost var img := Snapshot();
      n := AllocateInode();
      if n == -1 { return; }
      inodes[n - 1] := inodes[n - 1].(mode := EXT2_S_IFDIR, size := EXT2_BLOCK_SIZE, links := 2,
                                              sectors := 2, dtime := 0);
      assert inodes[..] == Started(img).inodes;
    }

    /** Its first block. */
    method WriteDots(b: int, n: int, p: int)
      requires Sizes() && 0 <= b < BLOCK_NUM
      modifies blocks
      ensures Snapshot() == old(Snapshot()).(blocks := Put(old(Snapshot()).blocks, b, Dots(n, p)))
    {
      var dot := Entry(n, RecLen(|"."|), EXT2_FT_DIR, ".");
      var dotDot := Entry(p, EXT2_BLOCK_SIZE - RecLen(|".."|), EXT2_FT_DIR, "..");
      blocks[b] := Entries([dot, dotDot]);
    }

    /** A new directory, not yet named anywhere. With no block free its first pointer is what it was. */
    method NewDirectory(p: int) returns (n: int, r: Outcome)
      requires Sizes() && Snapshot().Shape() && Snapshot().blockBits[BLOCK_NUM - 1]
      requires FirstFree(Snapshot().inodeBits, 0) < INODE_NUM ==> CanMake(Snapshot(), p)
      modifies this, inodes, blocks, inodeBitmap, blockBitmap
      ensures r == NoInode <==> FirstFree(old(Snapshot()).inodeBits, 0) == INODE_NUM
      ensures r == NoInode ==> Snapshot() == old(Snapshot())
      ensures r != NoInode ==>
              n == FirstFree(old(Snapshot()).inodeBits, 0) + 1 && Snapshot() == Birth(old(Snapshot()), p)
      ensures r != NoInode ==>
                r == if HasFree(old(Snapshot())) || InImage(FirstPointer(old(Snapshot()))) then Done else Fault
    {
      hide Bits, FirstFree, Birth, CanExtend, Started, Pointed, Dots, FirstPointer;
      ghost var img := Snapshot();
      n := StartInode();
      if n == -1 { return n, NoInode; }
      StartedBirth(img, p);
      FreeInImage(img);
      var b := StorePointer(n, 0);
      var first := inodes[n - 1].block[0];
      if !(0 <= first < BLOCK_NUM) { return n, Fault; }
      WriteDots(first, n, p);
      r := Done;
    }

    /** The new directory n gets its name in its parent, and that a link. */
    method NameDirectory(p: int, n: int, name: string, junk: int) returns (r: Outcome)
      requires Sizes() && Walkable(Snapshot(), p)
      modifies this, inodes, blocks, blockBitmap
      ensures CanInsert(old(Snapshot()), p, |name|) && 1 <= p <= INODE_NUM
      ensures var named := Inserting(old(Snapshot()), p, n, EXT2_FT_DIR, name, junk);
              && r == named.outcome && |named.img.inodes| == INODE_NUM
              && Snapshot() == if r == Done then AddLinks(named.img, p, 1) else named.img
    {
      hide Walkable, CanInsert, Inserting, AddLinks;
      WalkableLast(Snapshot(), p);
      r := InsertEntry(p, n, EXT2_FT_DIR, name, junk);
      if r == Done { CountLink(p, 1); }
    }

    /** ext2_mkdir from the allocation of the inode on. junk is what its variable for the parent's
        block, which nothing has set, happens to hold. */
    method MakeDirectory(p: int, name: string, junk: int, ghost held: set<int>) returns (r: Outcome)
      requires Sizes() && Consistent(Snapshot(), held) && Snapshot().Directory(p)
      modifies this, inodes, blocks, inodeBitmap, blockBitmap
      ensures r == NoInode <==> FirstFree(old(Snapshot()).inodeBits, 0) == INODE_NUM
      ensures r == NoInode ==> Snapshot() == old(Snapshot())
      ensures r != NoInode ==>
              CanMake(old(Snapshot()), p) && Ending(r, Snapshot()) == Making(old(Snapshot()), p, name, junk)
    {
      hide Consistent, CanInsert, CanMake, Birth, AddLinks, Inserting, FirstFree, FirstPointer, Walkable, InImage;
      ghost var img := Snapshot();
      MakeReady(img, held, p, |name|);
      var n, born := NewDirectory(p);
      if born != Done { return born; }
      r := NameDirectory(p, n, name, junk);
      InsertingNotFull(Birth(img, p), p, n, EXT2_FT_DIR, name, junk);
    }

    /** The directory a path leads to; the root is not looked up. */
    method FindParent(path: seq<string>, ghost held: set<int>) returns (r: Place)
      requires Sizes() && Consistent(Snapshot(), held) && "" !in path
      ensures r == Lookup(Snapshot(), EXT2_ROOT_INO, path) && (r.Found? ==> Snapshot().Directory(r.inode))
    {
      hide Consistent, Lookup;
      RootDirectory(Snapshot(), held);
      LookupNothing(Snapshot(), EXT2_ROOT_INO);
      if path == [] { return Found(EXT2_ROOT_INO); }
      r := FindDirInode(path, held);
    }

    /** ext2_mkdir, given the parent's path and the new name. */
    method Mkdir(parent: seq<string>, name: string, junk: int, ghost held: set<int>) returns (r: Outcome)
      requires Sizes() && Consistent(Snapshot(), held) && "" !in parent && Nameable(name)
      modifies this, inodes, blocks, inodeBitmap, blockBitmap
      ensures Ending(r, Snapshot()) == MkdirEnding(old(Snapshot()), held, parent, name, junk)
      ensures MkdirVerdict(old(Snapshot()), parent, name) != Done ==> Snapshot() == old(Snapshot())
      ensures MkdirVerdict(old(Snapshot()), parent, name) == Done ==>
                MkdirEffect(old(Snapshot()), Snapshot(), held, parent, name, junk, r)
      ensures MkdirAnswers(old(Snapshot()), Snapshot(), parent, name, r)
    {
      hide Consistent, Lookup, Making, CanMake, FirstFree, MkdirEffect, MkdirAnswers;
      ghost var img := Snapshot();
      MkdirAnswered(img, held, parent, name, junk);
      var parentDir := FindParent(parent, held);
      if parentDir == Missing { return ENOENT; }
      if parentDir == NotDirectory { return NotADirectory; }
      if parentDir == Astray { return Strayed; }
      assert "" !in parent + [name];
      var there := FindDirInode(parent + [name], held);
      if there == NotDirectory { return NotADirectory; }
      if there == Astray { return Strayed; }
      if there != Missing { return EEXIST; }
      r := MakeDirectory(parentDir.inode, name, junk, held);
      if r != NoInode { MkdirEffectNow(img, Snapshot(), held, parent, name, junk, r); }
    }

    // ----- ext2_ln and ext2_rm

    /** One more link, or one less. */
    method CountLink(file: int, k: int)
      requires Sizes() && 1 <= file <= INODE_NUM
      modifies inodes
      ensures Snapshot() == AddLinks(old(Snapshot()), file, k)
    {
      ghost var img := Snapshot();
      inodes[file - 1] := inodes[file - 1].(links := inodes[file - 1].links + k);
      assert Snapshot() == AddLinks(img, file, k);
    }

    /** ext2_ln from the counting of the link on. */
    method LinkFile(file: int, p: int, name: string) returns (r: Outcome)
      requires Sizes() && Walkable(Snapshot(), p) && 1 <= file <= INODE_NUM && name != ""
      modifies this, inodes, blocks, blockBitmap
      ensures CanInsert(old(Snapshot()), p, |name|)
      ensures Ending(r, Snapshot()) == Linking(old(Snapshot()), file, p, name)
    {
      hide Walkable, CanInsert, Table, Lines, AddLinks, Inserting;
      ghost var img := Snapshot();
      WalkableParts(img, p);
      WalkableLinked(img, p, file, 1);
      CountLink(file, 1);
      WalkableParts(Snapshot(), p);
      var found, d, j := FindEntry(p, name);
      if found {
        if blocks[inodes[p - 1].block[d]].es[j].fileType == EXT2_FT_DIR { return EISDIR; }
        return EEXIST;
      }
      var junk := inodes[p - 1].block[inodes[p - 1].size / EXT2_BLOCK_SIZE];  // where the search left its variable
      r := InsertEntry(p, file, EXT2_FT_REG_FILE, name, junk);
    }

    /** ext2_ln for a hard link. */
    method Ln(srcParent: seq<string>, srcName: string, parent: seq<string>, name: string, ghost held: set<int>)
        returns (r: Outcome)
      requires Sizes() && Consistent(Snapshot(), held)
      requires "" !in parent && "" !in srcParent && srcName != "" && Nameable(name)
      modifies this, inodes, blocks, blockBitmap
      ensures Ending(r, Snapshot()) == LnEnding(old(Snapshot()), held, srcParent, srcName, parent, name)
      ensures LnEffect(old(Snapshot()), Snapshot(), held, srcParent, srcName, parent, name, r)
      ensures LnAnswers(old(Snapshot()), Snapshot(), srcParent, srcName, parent, name, r)
    {
      hide Consistent, Lookup, Table, Lines, Linking, LinkAsked, LnEffect, LnAnswers, Walkable, CanInsert;
      ghost var img := Snapshot();
      LnAnswered(img, held, srcParent, srcName, parent, name);
      LnEffectNow(img, held, srcParent, srcName, parent, name);
      var parentDir := FindParent(parent, held);
      if parentDir == Missing { return ENOENT; }
      if parentDir == NotDirectory { return NotADirectory; }
      if parentDir == Astray { return Strayed; }
      var srcDir := FindParent(srcParent, held);
      if srcDir == Missing { return ENOENT; }
      if srcDir == NotDirectory { return NotADirectory; }
      if srcDir == Astray { return Strayed; }
      WalkableIf(img, held, srcDir.inode);
      WalkableParts(img, srcDir.inode);
      var found, d, j := FindEntry(srcDir.inode, srcName);
      if !found { return ENOENT; }
      var b := inodes[srcDir.inode - 1].block[d];
      assert b == img.At(srcDir.inode)[d];
      if blocks[b].es[j].fileType == EXT2_FT_DIR { return EISDIR; }
      LnCanLink(img, held, srcParent, srcName, parent, name);
      WalkableIf(img, held, parentDir.inode);
      FileInRange(img, held, blocks[b].es[j].inode, parentDir.inode, name);
      r := LinkFile(blocks[b].es[j].inode, parentDir.inode, name);
    }

    /** The removal of a file's entry. */
    method EraseEntry(b: int, j: nat)
      requires Sizes() && 0 <= b < BLOCK_NUM && blocks[b].Entries? && j < |blocks[b].es|
      modifies blocks
      ensures Snapshot() == Erase(old(Snapshot()), b, j)
      ensures blocks[..] == old(blocks[..])[b := blocks[b]] && blocks[b].Entries?
              && blocks[b].es == old(blocks[b].es)[j := Entry(0, old(blocks[b].es[j]).recLen, 0, "")]
    {
      ghost var img := Snapshot();
      var entry := blocks[b].es[j];
      blocks[b] := Entries(blocks[b].es[j := entry.(inode := 0)]);
      blocks[b] := Entries(blocks[b].es[j := blocks[b].es[j].(fileType := 0, name := "")]);
      assert blocks[b].es == img.blocks[b].es[j := Erased(entry)];
      assert Snapshot() == Erase(img, b, j);
    }

    /** The file's inode and blocks are given back, the blocks as far as its own pointers lead to
        them. */
    method ReleaseFile(file: int) returns (r: Outcome)
      requires Sizes() && Snapshot().Shape() && Snapshot().File(file)
      requires forall b | b in Snapshot().FileAt(file) :: 1 <= b < BLOCK_NUM
      modifies this, inodeBitmap, blockBitmap
      ensures Snapshot() == Release(old(Snapshot()), file)
      ensures Returned(old(Snapshot()), Snapshot(), file)
      ensures r == if DIRECT < old(Snapshot()).Node(file).sectors / 2 then Indirect else Done
    {
      hide Bits, ClearWord;
      ghost var img := Snapshot();
      ghost var at := img.FileAt(file);
      ClearBitmap(inodeBitmap, file - 1, INODE_NUM);
      sFreeInodes := sFreeInodes + 1;
      gFreeInodes := gFreeInodes + 1;
      var count := inodes[file - 1].sectors / 2;
      var nsize := if count > DIRECT then DIRECT else count;
      for i := 0 to nsize
        invariant inodes[..] == img.inodes && blocks[..] == img.blocks
        invariant Bits(inodeBitmap[..], INODE_NUM) == ClearWord(img.inodeBits, file - 1)
        invariant Bits(blockBitmap[..], BLOCK_NUM) == ClearWords(img.blockBits, at[..i])
        invariant sFreeInodes == img.sFreeInodes + 1 && gFreeInodes == img.gFreeInodes + 1
        invariant sFreeBlocks == img.sFreeBlocks + i && gFreeBlocks == img.gFreeBlocks + i
      {
        assert inodes[file - 1].block[i] == at[i] && at[i] in at && at[..i + 1][..i] == at[..i];
        ClearBitmap(blockBitmap, inodes[file - 1].block[i] - 1, BLOCK_NUM);
        sFreeBlocks := sFreeBlocks + 1;
        gFreeBlocks := gFreeBlocks + 1;
      }
      assert at[..nsize] == at;
      ReleaseReturns(img, file);
      r := if count > DIRECT then Indirect else Done;
    }

    /** ext2_rm from the clearing of entry j of block b on. */
    method RemoveEntry(b: int, j: nat, ghost mid: Image) returns (r: Outcome)
      requires Sizes() && 0 <= b < BLOCK_NUM && blocks[b].Entries? && j < |blocks[b].es|
               && 1 <= blocks[b].es[j].inode <= INODE_NUM
      requires mid == AddLinks(Erase(Snapshot(), b, j), blocks[b].es[j].inode, -1) && mid.Shape()
               && mid.File(blocks[b].es[j].inode)
      requires forall c | c in mid.FileAt(blocks[b].es[j].inode) :: 1 <= c < BLOCK_NUM
      modifies this, inodes, blocks, inodeBitmap, blockBitmap
      ensures Ending(r, Snapshot()) == Unlinking(mid, old(blocks[b].es[j].inode))
    {
      hide Erase, AddLinks, Release, Image.FileAt, Image.File;
      var file := blocks[b].es[j].inode;
      EraseInodes(Snapshot(), b, j);
      EraseEntry(b, j);
      CountLink(file, -1);
      r := Done;
      if inodes[file - 1].links == 0 {
        r := ReleaseFile(file);
      }
    }

    /** ext2_rm. */
    method Rm(parent: seq<string>, name: string, ghost held: set<int>) returns (r: Outcome)
      requires Sizes() && Consistent(Snapshot(), held) && "" !in parent && name != ""
      modifies this, inodes, blocks, inodeBitmap, blockBitmap
      ensures RmVerdict(old(Snapshot()), parent, name) != Done ==>
                r == RmVerdict(old(Snapshot()), parent, name) && Snapshot() == old(Snapshot())
      ensures RmVerdict(old(Snapshot()), parent, name) == Done ==>
                var p := Lookup(old(Snapshot()), EXT2_ROOT_INO, parent);
                p.Found? && RmDone(old(Snapshot()), Snapshot(), held, p.inode, name, r)
      ensures RmAnswers(old(Snapshot()), Snapshot(), parent, name, r)
    {
      hide Consistent, Lookup, Table, Lines, Walkable, Removed, Erase, AddLinks, Unlinking, RmDone, Unlinked;
      ghost var img := Snapshot();
      var dir := FindParent(parent, held);
      if dir == Missing { return ENOENT; }
      if dir == NotDirectory { return NotADirectory; }
      if dir == Astray { return Strayed; }
      var n := dir.inode;
      WalkableIf(img, held, n);
      WalkableParts(img, n);
      var found, d, j := FindEntry(n, name);
      if !found { return ENOENT; }
      var b := inodes[n - 1].block[d];
      assert b == img.At(n)[d];
      if blocks[b].es[j].fileType == EXT2_FT_DIR { return EISDIR; }
      ghost var was := blocks[b].es;
      TargetOk(img, held, n, name);
      EraseInodes(img, b, j);
      ghost var mid := AddLinks(Erase(img, b, j), was[j].inode, -1);
      assert Removes(img, mid, n, d, b, was, j);
      RemovedFile(img, held, mid, n, d, b, was, j);
      RemoveConsistent(img, held, mid, n, d, b, was, j);
      FileBlocksIn(img, mid, held, n, name, was[j].inode);
      r := RemoveEntry(b, j, mid);
      RmExact(img, held, mid, n, d, b, was, j);
      RmUnlinks(img, held, mid, n, d, b, was, j);
    }
  }

  lemma WalkStart(blocks: seq<Block>, at: seq<int>)
    requires AllTiled(blocks, at)
    ensures Walking(blocks, at, 0, 0, 0) && Seen(blocks, at, 0, 0) == []
  {
    if at != [] { TiledSome(Content(blocks, at[0])); }
  }

  lemma InFront(blocks: seq<Block>, at: seq<int>, d: nat, j: nat, size: int)
    requires AllTiled(blocks, at) && Walking(blocks, at, d, j, size) && d < |at|
    ensures j < |Content(blocks, at[d])| && 0 < Content(blocks, at[d])[j].recLen
  {
    TiledWalk(Content(blocks, at[d]), j);
  }

  lemma AtEnd(blocks: seq<Block>, at: seq<int>, d: nat, j: nat, size: int)
    requires Walking(blocks, at, d, j, size) && d >= |at|
    ensures d == |at| && j == 0
  {
  }

  lemma SearchStart(blocks: seq<Block>, run: seq<int>, name: string)
    ensures Searching(blocks, run, name, 0, 0, 0)
  {
    assert run[0..] == run;
  }

  lemma NextDirectory(img: Image, held: set<int>, run: seq<int>, name: string)
    requires Consistent(img, held) && Search(img.blocks, run, name).Found?
    ensures img.Directory(Search(img.blocks, run, name).inode)
  {
    hide Owned, BlocksOk, Dotted, Unique, Linked, Counted;
    SearchDirectory(img, run, name);
  }

  lemma LookupNothing(img: Image, n: int)
    ensures Lookup(img, n, []) == Found(n)
  {
  }

  /** The last bit is set, so that a free block is one of the image. */
  lemma FreeInImage(img: Image)
    requires img.Shape() && img.blockBits[BLOCK_NUM - 1]
    ensures HasFree(img) ==> InImage(FirstFree(img.blockBits, 0) + 1)
  {
  }

  lemma NoFreeLast(img: Image, n: int)
    requires Walkable(img, n)
    ensures HasFree(img) ==> FirstFree(img.blockBits, 0) < BLOCK_NUM - 1
  {
  }

  lemma WalkableLast(img: Image, n: int)
    requires Walkable(img, n)
    ensures img.Shape() && img.blockBits[BLOCK_NUM - 1] && 1 <= n <= INODE_NUM
  {
  }

  lemma MakeReady(img: Image, held: set<int>, p: int, nameLen: nat)
    requires Consistent(img, held) && img.Directory(p)
    ensures img.Shape() && img.blockBits[BLOCK_NUM - 1] && 1 <= p <= INODE_NUM
    ensures FirstFree(img.inodeBits, 0) < INODE_NUM ==>
              CanMake(img, p) && CanInsert(Birth(img, p), p, nameLen) && Walkable(Birth(img, p), p)
  {
    hide Consistent, CanInsert, CanMake, Birth, FirstFree, Walkable;
    WalkableIf(img, held, p);
    WalkableLast(img, p);
    if FirstFree(img.inodeBits, 0) < INODE_NUM {
      CanMakeIf(img, held, p);
      BirthCanInsert(img, p, nameLen);
      WalkableBorn(img, held, p);
    }
  }

  lemma InsertingNotFull(img: Image, n: int, inode: int, fileType: int, name: string, junk: int)
    requires CanInsert(img, n, |name|)
    ensures Inserting(img, n, inode, fileType, name, junk).outcome != NoInode
  {
  }

  lemma EraseInodes(img: Image, b: int, j: int)
    requires 0 <= b < |img.blocks| && img.blocks[b].Entries? && 0 <= j < |img.blocks[b].es|
    ensures Erase(img, b, j).inodes == img.inodes
  {
  }

  lemma FileBlocksIn(img: Image, mid: Image, held: set<int>, n: int, name: string, file: int)
    requires Removed(img, mid, held, n, name) && mid.File(file)
    ensures mid.Shape() && forall b | b in mid.FileAt(file) :: 1 <= b < BLOCK_NUM
  {
    hide BlocksOk, Dotted, Unique, Linked, Counted, Lines, Owned, Image.FileAt, Image.File;
    FileBlocks(mid, held, file);
  }

  // ----- what the commands leave

  ghost predicate MkdirEffect(img: Image, img': Image, held: set<int>, parent: seq<string>, name: string, junk: int,
                              r: Outcome)
  {
    var p := Lookup(img, EXT2_ROOT_INO, parent);
    && p.Found?
    && (Consistent(img', held) <==> name !in Table(Lines(img, p.inode)) && RoomToMake(img, held, p.inode, |name|, junk))
    && (Consistent(img', held) ==> r == Done && MkdirDone(img, img', held, parent, name))
  }

  lemma MkdirEffectNow(img: Image, img': Image, held: set<int>, parent: seq<string>, name: string, junk: int,
                       r: Outcome)
    requires Consistent(img, held) && Nameable(name) && MkdirVerdict(img, parent, name) == Done
    requires Ending(r, img') == MkdirEnding(img, held, parent, name, junk)
    ensures MkdirEffect(img, img', held, parent, name, junk, r)
  {
    hide Consistent, Lookup, MkdirEnding, MkdirVerdict, MkdirDone, RoomToMake, Table, Lines;
    MkdirExact(img, held, parent, name, junk);
  }

  ghost predicate LnEffect(img: Image, img': Image, held: set<int>, srcParent: seq<string>, srcName: string,
                           parent: seq<string>, name: string, r: Outcome)
  {
    var ends := LnEnds(img, srcParent, srcName, parent);
    && (ends.Fails? ==> r == ends.outcome && img' == img)
    && (Consistent(img', held) <==>
        ends.Fails? || (name !in Table(Lines(img, ends.to)) && RoomToLink(img, held, ends.to, |name|)))
    && (ends.Ends? && Consistent(img', held) ==>
          r == Done && Inserted(img, img', ends.to, ends.file, EXT2_FT_REG_FILE, name))
  }

  lemma LnEffectNow(img: Image, held: set<int>, srcParent: seq<string>, srcName: string, parent: seq<string>,
                    name: string)
    requires Consistent(img, held) && Nameable(name)
    ensures var e := LnEnding(img, held, srcParent, srcName, parent, name);
            LnEffect(img, e.img, held, srcParent, srcName, parent, name, e.outcome)
  {
    hide Consistent, LnEnds, RoomToLink, Table, Lines, Inserted, Linking, LinkAsked;
    LnExact(img, held, srcParent, srcName, parent, name);
  }

  lemma FileInRange(img: Image, held: set<int>, file: int, p: int, name: string)
    requires LinkAsked(img, held, file, p, name)
    ensures 1 <= file <= INODE_NUM && img.Directory(p)
  {
  }
}

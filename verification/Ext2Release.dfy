/** What ext2_rm does after the last link of a file is gone: it gives the inode and the blocks back,
    a word of the bitmap at a time (ext2_rm.c:139-153, 250-268). */
module Ext2Release {
  import opened DirectoryBlock
  import opened Ext2Image
  import opened Ext2Laws
  import opened Sets

  // ----- counting the bits that go

  ghost function Dropped(bits: seq<bool>, bits': seq<bool>): set<int>
    requires |bits'| == |bits|
  {
    set i | 0 <= i < |bits| && bits[i] && !bits'[i]
  }

  lemma DroppedSize(bits: seq<bool>, bits': seq<bool>)
    requires |bits'| == |bits| && bits != []
    ensures var last := |bits| - 1;
            |Dropped(bits, bits')| == |Dropped(bits[..last], bits'[..last])|
                                       + if bits[last] && !bits'[last] then 1 else 0
  {
    var last := |bits| - 1;
    var front := Dropped(bits[..last], bits'[..last]);
    assert Dropped(bits, bits') == if bits[last] && !bits'[last] then front + {last} else front;
  }

  lemma {:induction false} ZerosDropped(bits: seq<bool>, bits': seq<bool>)
    requires |bits'| == |bits| && forall i | 0 <= i < |bits| && bits'[i] :: bits[i]
    ensures Zeros(bits') == Zeros(bits) + |Dropped(bits, bits')|
  {
    if bits == [] {
      assert Dropped(bits, bits') == {};
    } else {
      ZerosDropped(bits[..|bits| - 1], bits'[..|bits| - 1]);
      DroppedSize(bits, bits');
    }
  }

  lemma {:induction false} Cleared(bits: seq<bool>, at: seq<int>)
    ensures |ClearWords(bits, at)| == |bits|
    ensures forall i | 0 <= i < |bits| ::
              ClearWords(bits, at)[i] <==> bits[i] && forall j | 0 <= j < |at| :: !InWord(at[j] - 1, i)
  {
    hide InWord;
    if at != [] {
      var front, b := at[..|at| - 1], at[|at| - 1];
      Cleared(bits, front);
      forall i | 0 <= i < |bits|
        ensures ClearWords(bits, at)[i] <==> bits[i] && forall j | 0 <= j < |at| :: !InWord(at[j] - 1, i)
      {
        assert forall j | 0 <= j < |front| :: front[j] == at[j];
      }
    }
  }

  /** Bit i is that of one of the blocks. */
  predicate Covers(at: seq<int>, i: int) { i + 1 in at }

  /** The bits of the given blocks. */
  ghost function Cells(at: seq<int>): set<int> {
    if at == [] then {} else Cells(at[..|at| - 1]) + {at[|at| - 1] - 1}
  }

  lemma {:induction false} CellsOf(at: seq<int>)
    ensures forall i :: i in Cells(at) <==> Covers(at, i)
    ensures (forall i, j | 0 <= i < j < |at| :: at[i] != at[j]) ==> |Cells(at)| == |at|
  {
    if at != [] {
      var front, b := at[..|at| - 1], at[|at| - 1];
      CellsOf(front);
      assert at == front + [b];
      if forall i, j | 0 <= i < j < |at| :: at[i] != at[j] {
        assert b !in front;
      }
    }
  }

  // ----- when the counts come out right

  ghost predicate AllSet(bits: seq<bool>, at: seq<int>) { forall b | b in at :: 1 <= b <= |bits| && bits[b - 1] }

  /** Bit i is in the word of one of the blocks. */
  ghost predicate Reached(at: seq<int>, i: int) { exists b :: b in at && InWord(b - 1, i) }

  /** The words of the given blocks hold the bits of those blocks alone. */
  ghost predicate Apart(bits: seq<bool>, at: seq<int>) {
    forall i | 0 <= i < |bits| && bits[i] && Reached(at, i) :: Covers(at, i)
  }

  /** The words cleared hold no other bit that is set. */
  ghost predicate Clean(img: Image, file: int) {
    && (forall i | 0 <= i < |img.inodeBits| && img.inodeBits[i] && InWord(file - 1, i) :: i == file - 1)
    && Apart(img.blockBits, img.FileAt(file))
  }

  lemma FileBlocks(img: Image, held: set<int>, file: int)
    requires img.Shape() && Owned(img, held) && img.File(file)
    ensures forall b | b in img.FileAt(file) :: img.Marked(b) && b in held
    ensures forall i, j | 0 <= i < j < |img.FileAt(file)| :: img.FileAt(file)[i] != img.FileAt(file)[j]
  {
    forall b | b in img.FileAt(file) ensures b in held && img.Marked(b) {
      var i :| 0 <= i < |img.FileAt(file)| && img.FileAt(file)[i] == b;
      assert img.Stores(file, i, b);
    }
    forall i, j | 0 <= i < j < |img.FileAt(file)| ensures img.FileAt(file)[i] != img.FileAt(file)[j] {
      assert img.Stores(file, i, img.FileAt(file)[i]) && img.Stores(file, j, img.FileAt(file)[j]);
    }
  }

  lemma OwnWord(k: int)
    ensures InWord(k, k)
  {
  }

  /** As many bits went as were to go, exactly if no other went. */
  lemma CountMeans(bits: seq<bool>, bits': seq<bool>, cells: set<int>)
    requires |bits'| == |bits| && forall i | 0 <= i < |bits| && bits'[i] :: bits[i]
    requires cells <= Dropped(bits, bits')
    ensures Zeros(bits') == Zeros(bits) + |cells| <==> forall i | i in Dropped(bits, bits') :: i in cells
  {
    ZerosDropped(bits, bits');
    if |Dropped(bits, bits')| == |cells| { SubsetEqual(cells, Dropped(bits, bits')); }
    if forall i | i in Dropped(bits, bits') :: i in cells { assert Dropped(bits, bits') == cells; }
  }

  lemma InodeCount(img: Image, file: int)
    requires img.Shape() && img.File(file)
    ensures var bits' := ClearWord(img.inodeBits, file - 1);
            && (Zeros(bits') == Zeros(img.inodeBits) + 1 <==>
                forall i | 0 <= i < |img.inodeBits| && img.inodeBits[i] && InWord(file - 1, i) :: i == file - 1)
  {
    hide Zeros, InWord;
    var bits, bits' := img.inodeBits, ClearWord(img.inodeBits, file - 1);
    OwnWord(file - 1);
    CountMeans(bits, bits', {file - 1});
    assert forall i :: i in Dropped(bits, bits') <==> 0 <= i < |bits| && bits[i] && InWord(file - 1, i);
  }

  lemma BlocksDropped(bits: seq<bool>, at: seq<int>)
    requires AllSet(bits, at)
    ensures var bits' := ClearWords(bits, at);
            && |bits'| == |bits| && (forall i | 0 <= i < |bits| && bits'[i] :: bits[i])
               && Cells(at) <= Dropped(bits, bits')
            && forall i :: i in Dropped(bits, bits') <==>
               0 <= i < |bits| && bits[i] && Reached(at, i)
  {
    hide InWord, ClearWords, Cells;
    var bits' := ClearWords(bits, at);
    Cleared(bits, at);
    CellsOf(at);
    forall i | 0 <= i < |bits| && bits[i]
      ensures !bits'[i] <==> Reached(at, i)
    {
      if j :| 0 <= j < |at| && InWord(at[j] - 1, i) { assert at[j] in at; }
    }
    forall i | i in Cells(at) ensures i in Dropped(bits, bits') {
      OwnWord(i);
      assert i + 1 in at && InWord(i + 1 - 1, i);
    }
  }

  lemma ApartMeans(bits: seq<bool>, at: seq<int>)
    requires AllSet(bits, at)
    ensures |ClearWords(bits, at)| == |bits|
    ensures Apart(bits, at) <==> forall i | i in Dropped(bits, ClearWords(bits, at)) :: i in Cells(at)
  {
    hide ClearWords, Cells, Dropped, Covers, Reached, AllSet;
    BlocksDropped(bits, at);
    CellsOf(at);
  }

  lemma BlockCount(img: Image, held: set<int>, file: int)
    requires img.Shape() && Owned(img, held) && img.File(file)
    ensures Zeros(ClearWords(img.blockBits, img.FileAt(file))) == Zeros(img.blockBits) + |img.FileAt(file)|
            <==> Apart(img.blockBits, img.FileAt(file))
  {
    hide Owned, Apart, Image.FileAt, Image.File, ClearWords, Zeros, Cells, Dropped;
    var bits, at := img.blockBits, img.FileAt(file);
    FileBlocks(img, held, file);
    BlocksDropped(bits, at);
    CellsOf(at);
    ApartMeans(bits, at);
    CountMeans(bits, ClearWords(bits, at), Cells(at));
  }

  lemma CountedExact(img: Image, held: set<int>, file: int)
    requires img.Shape() && Counted(img) && Owned(img, held) && img.File(file)
    ensures Counted(Release(img, file)) <==> Clean(img, file)
  {
    hide Owned, InWord, Apart, Image.FileAt, Image.File, ClearWords, ClearWord, Zeros;
    InodeCount(img, file);
    BlockCount(img, held, file);
  }

  // ----- the rest

  /** What giving a file's inode and blocks back comes to if nothing else goes. */
  ghost predicate Releases(img: Image, img': Image, file: int) {
    && img.Shape() && img'.Shape() && img.File(file) && img'.blocks == img.blocks && img'.inodes == img.inodes
    && (forall n :: img'.Used(n) <==> img.Used(n) && n != file)
    && (forall b :: img'.Marked(b) <==> img.Marked(b) && b !in img.FileAt(file))
    && img'.blockBits[BLOCK_NUM - 1] == img.blockBits[BLOCK_NUM - 1]
  }

  lemma Unmarked(img: Image, img': Image, at: seq<int>)
    requires img.Shape() && |img'.blockBits| == BLOCK_NUM && BLOCK_NUM !in at
    requires forall i | 0 <= i < BLOCK_NUM :: img'.blockBits[i] <==> img.blockBits[i] && !Covers(at, i)
    ensures forall b :: img'.Marked(b) <==> img.Marked(b) && b !in at
    ensures img'.blockBits[BLOCK_NUM - 1] == img.blockBits[BLOCK_NUM - 1]
  {
    forall b ensures img'.Marked(b) <==> img.Marked(b) && b !in at {
      if 1 <= b < BLOCK_NUM { assert img'.blockBits[b - 1] <==> img.blockBits[b - 1] && !Covers(at, b - 1); }
    }
  }

  /** Then only their bits go. */
  lemma ApartKeeps(bits: seq<bool>, at: seq<int>)
    requires AllSet(bits, at) && Apart(bits, at)
    ensures var bits' := ClearWords(bits, at);
            |bits'| == |bits| && forall i | 0 <= i < |bits| :: bits'[i] <==> bits[i] && !Covers(at, i)
  {
    hide ClearWords, Cells, Covers, Reached, AllSet, Apart;
    var bits' := ClearWords(bits, at);
    ApartMeans(bits, at);
    BlocksDropped(bits, at);
    CellsOf(at);
    forall i | 0 <= i < |bits| ensures bits'[i] <==> bits[i] && !Covers(at, i) {
      assert i in Dropped(bits, bits') <==> i in Cells(at);
    }
  }

  lemma CleanBlocks(img: Image, held: set<int>, file: int)
    requires img.Shape() && Owned(img, held) && img.File(file) && Clean(img, file)
    ensures var bits' := ClearWords(img.blockBits, img.FileAt(file));
            |bits'| == BLOCK_NUM && forall i | 0 <= i < BLOCK_NUM ::
              bits'[i] <==> img.blockBits[i] && !Covers(img.FileAt(file), i)
  {
    hide Owned, Apart, Image.FileAt, Image.File, ClearWords, Covers, InWord;
    FileBlocks(img, held, file);
    ApartKeeps(img.blockBits, img.FileAt(file));
  }

  lemma CleanInodes(img: Image, img': Image, file: int)
    requires img.Shape() && img.File(file) && Clean(img, file) && img'.inodeBits == ClearWord(img.inodeBits, file - 1)
    ensures forall n :: img'.Used(n) <==> img.Used(n) && n != file
  {
    hide InWord, Image.FileAt;
    OwnWord(file - 1);
  }

  lemma CleanReleases(img: Image, held: set<int>, file: int)
    requires img.Shape() && Owned(img, held) && img.File(file) && Clean(img, file)
    ensures Releases(img, Release(img, file), file)
  {
    hide Owned, Clean, Image.FileAt, Image.File, Image.Used, Image.Marked, ClearWords;
    FileBlocks(img, held, file);
    CleanBlocks(img, held, file);
    CleanInodes(img, Release(img, file), file);
    NotPast(img, img.FileAt(file));
    Unmarked(img, Release(img, file), img.FileAt(file));
  }

  lemma NotPast(img: Image, at: seq<int>)
    requires forall b | b in at :: img.Marked(b)
    ensures BLOCK_NUM !in at
  {
  }

  lemma ReleasesUses(img: Image, img': Image, file: int)
    requires Releases(img, img', file)
    ensures forall n :: img'.Node(n) == img.Node(n) && img'.At(n) == img.At(n) && img'.FileAt(n) == img.FileAt(n)
    ensures forall n :: (img'.Directory(n) <==> img.Directory(n)) && (img'.File(n) <==> img.File(n) && n != file)
    ensures forall n, i, b :: img'.Owns(n, i, b) <==> img.Owns(n, i, b)
    ensures forall n :: Lines(img', n) == Lines(img, n)
  {
  }

  lemma ReleasesShape(img: Image, img': Image, held: set<int>, file: int, n: int)
    requires Releases(img, img', file) && Owned(img, held) && img.Directory(n)
    ensures img'.Directory(n) && DirShape(img', n)
  {
    hide FilesOwned, Image.FileAt;
    FileBlocks(img, held, file);
    OwnedShape(img, held, n);
    ReleasesUses(img, img', file);
    forall i | 0 <= i < |img.At(n)| ensures img'.Marked(img.At(n)[i]) {
      assert img.Owns(n, i, img.At(n)[i]);
    }
  }

  /** What is held once the given blocks are not. */
  ghost function Rest(held: set<int>, at: seq<int>): set<int> { set b | b in held && b !in at }

  lemma ReleasesFiles(img: Image, img': Image, held: set<int>, file: int)
    requires Releases(img, img', file) && FilesOwned(img, held)
    ensures FilesOwned(img', Rest(held, img.FileAt(file)))
  {
    hide Image.FileAt, Image.File, Releases;
    ReleasesUses(img, img', file);
    IsFile(img, img', file);
    forall n, i, b | img'.Stores(n, i, b) ensures b in Rest(held, img.FileAt(file)) && img.Stores(n, i, b) {
      assert img.Stores(n, i, b);
      forall j | 0 <= j < |img.FileAt(file)| ensures img.FileAt(file)[j] != b {
        assert img.Stores(file, j, img.FileAt(file)[j]);
      }
    }
  }

  lemma IsFile(img: Image, img': Image, file: int)
    requires Releases(img, img', file)
    ensures img.File(file) && img.Shape() && img'.Shape()
  {
  }

  lemma ReleasesOwned(img: Image, img': Image, held: set<int>, file: int)
    requires Releases(img, img', file) && Owned(img, held)
    ensures Owned(img', Rest(held, img.FileAt(file)))
  {
    hide Image.FileAt, Image.File, Image.Owns, Image.Directory, FilesOwned, DirShape;
    ReleasesUses(img, img', file);
    ReleasesFiles(img, img', held, file);
    forall n | img'.Directory(n) ensures DirShape(img', n) { ReleasesShape(img, img', held, file, n); }
  }

  lemma {:induction false} CountSome(es: seq<Entry>, e: Entry, k: Kind)
    requires e in es && k.Holds(e)
    ensures 0 < Count(es, k)
  {
    if e in es[..|es| - 1] { CountSome(es[..|es| - 1], e, k); }
  }

  lemma {:induction false} CountAllSome(blocks: seq<Block>, b: int, e: Entry, k: Kind)
    requires 0 <= b < |blocks| && e in Content(blocks, b) && k.Holds(e)
    ensures 0 < CountAll(blocks, k)
  {
    if b == |blocks| - 1 {
      CountSome(Content(blocks, b), e, k);
    } else {
      CountAllSome(blocks[..|blocks| - 1], b, e, k);
    }
  }

  /** No entry leads to a file without links. */
  lemma NobodyNames(img: Image, held: set<int>, file: int, b: int, e: Entry)
    requires Consistent(img, held) && img.File(file) && img.Node(file).links == 0
    requires 0 <= b < BLOCK_NUM && e in Content(img.blocks, b) && e.Live()
    ensures e.inode != file
  {
    hide DirShape, FilesOwned, Counted, Linked, Lines, Unique, Dotted, Tiled, CountAll;
    if e.inode == file {
      var n, i :| img.Owns(n, i, b);
      OwnLines(img, n, i);
      var j :| 0 <= j < |Content(img.blocks, b)| && Content(img.blocks, b)[j] == e;
      assert EntryOk(img, e);
      UniqueAt(img, n);
      FileNotDot(img, n, Flat(img.blocks, img.At(n)[..i]), Content(img.blocks, b),
                 Flat(img.blocks, img.At(n)[i + 1..]), j);
      CountAllSome(img.blocks, b, e, NamesOf(file));
      NoNames(img, file);
    }
  }

  lemma NoNames(img: Image, file: int)
    requires img.Shape() && Linked(img, 0, 0) && img.File(file) && img.Node(file).links == 0
    ensures CountAll(img.blocks, NamesOf(file)) == 0
  {
    assert img.Used(file) && file != 0;
  }

  lemma OwnLines(img: Image, n: int, i: nat)
    requires i < |img.At(n)|
    ensures Lines(img, n) == Flat(img.blocks, img.At(n)[..i]) + Content(img.blocks, img.At(n)[i])
            + Flat(img.blocks, img.At(n)[i + 1..])
  {
    var at := img.At(n);
    assert at == at[..i] + [at[i]] + at[i + 1..];
    FlatSplit(img.blocks, at[..i], at[i], at[i + 1..]);
  }

  lemma ReleasesBlocks(img: Image, img': Image, held: set<int>, file: int)
    requires Releases(img, img', file) && Consistent(img, held) && img.Node(file).links == 0
    ensures BlocksOk(img')
  {
    hide Owned, Counted, Linked, Lines, Unique, Dotted, Tiled, Image.FileAt;
    ReleasesUses(img, img', file);
    forall b, e | 0 <= b < BLOCK_NUM && img'.blocks[b].Entries? && e in img'.blocks[b].es ensures EntryOk(img', e) {
      assert EntryOk(img, e);
      if e.Live() { NobodyNames(img, held, file, b, e); }
    }
  }

  lemma ReleasesRest(img: Image, img': Image, file: int)
    requires Releases(img, img', file) && Dotted(img, 0) && Unique(img) && Linked(img, 0, 0)
    ensures Dotted(img', 0) && Unique(img') && Linked(img', 0, 0)
  {
    hide Lines, Image.FileAt, Image.At, CountAll;
    ReleasesUses(img, img', file);
    assert forall n, es :: StartsWithDots(img, es, n) ==> StartsWithDots(img', es, n);
  }

  /** Giving back a file without links keeps the image consistent exactly if the words cleared hold
      nothing else; its blocks are then held no longer. */
  lemma ReleaseExact(img: Image, held: set<int>, file: int)
    requires Consistent(img, held) && img.File(file) && img.Node(file).links == 0
    ensures Consistent(Release(img, file), Rest(held, img.FileAt(file))) <==> Clean(img, file)
  {
    hide Owned, BlocksOk, Counted, Linked, Unique, Dotted, Image.FileAt, Releases, Clean, Release, Rest;
    var img' := Release(img, file);
    CountedExact(img, held, file);
    if Clean(img, file) {
      CleanReleases(img, held, file);
      IsFile(img, img', file);
      ReleasesUses(img, img', file);
      ReleasesOwned(img, img', held, file);
      ReleasesBlocks(img, img', held, file);
      ReleasesRest(img, img', file);
    }
  }

  // ----- what is given back, a bit at a time

  /** The inode's bit and those of the blocks that its first pointers lead to, as many as it has and
      at most twelve, are clear; a bit not near any of them is as it was; and the counts have gone up
      by one for each. */
  ghost predicate Returned(img: Image, img': Image, file: int) {
    var d := img.Node(file);
    var count := if d.sectors / 2 < 12 then d.sectors / 2 else 12;
    && img.Shape() && img'.Shape() && count <= |d.block|
    && (forall i | 0 <= i < INODE_NUM ::
          img'.inodeBits[i] <==> img.inodeBits[i] && !((file - 1) / 8 * 8 <= i < (file - 1) / 8 * 8 + 32))
    && (forall i | 0 <= i < BLOCK_NUM ::
          img'.blockBits[i] <==> img.blockBits[i] && forall j | 0 <= j < count :: !NearBlock(d.block[j], i))
    && img'.sFreeInodes == img.sFreeInodes + 1 && img'.gFreeInodes == img.gFreeInodes + 1
    && img'.sFreeBlocks == img.sFreeBlocks + count && img'.gFreeBlocks == img.gFreeBlocks + count
  }

  predicate NearBlock(b: int, i: int) { (b - 1) / 8 * 8 <= i < (b - 1) / 8 * 8 + 32 }

  lemma ReleaseReturns(img: Image, file: int)
    requires img.Shape() && img.File(file)
    ensures Returned(img, Release(img, file), file)
  {
    hide ClearWords;
    Cleared(img.blockBits, img.FileAt(file));
  }
}

/** What each change does to a consistent image. */
module Ext2Laws {
  import opened DirectoryBlock
  import opened Ext2Image

  // ----- counting

  lemma {:induction false} ZerosSet(bits: seq<bool>, i: nat)
    requires i < |bits| && !bits[i]
    ensures Zeros(bits[i := true]) == Zeros(bits) - 1
  {
    var rest := bits[..|bits| - 1];
    if i < |bits| - 1 {
      ZerosSet(rest, i);
      assert bits[i := true][..|bits| - 1] == rest[i := true];
    } else {
      assert bits[i := true][..|bits| - 1] == rest;
    }
  }

  lemma {:induction false} CountConcat(xs: seq<Entry>, ys: seq<Entry>, k: Kind)
    ensures Count(xs + ys, k) == Count(xs, k) + Count(ys, k)
  {
    if ys == [] {
      assert xs + ys == xs;
    } else {
      CountConcat(xs, ys[..|ys| - 1], k);
      assert (xs + ys)[..|xs + ys| - 1] == xs + ys[..|ys| - 1];
    }
  }

  lemma CountOne(e: Entry, k: Kind)
    ensures Count([e], k) == if k.Holds(e) then 1 else 0
  {
    assert [e][..0] == [];
  }

  lemma CountReplace(xs: seq<Entry>, e: Entry, e': Entry, ys: seq<Entry>, k: Kind)
    ensures Count(xs + [e'] + ys, k) ==
            Count(xs + [e] + ys, k) - (if k.Holds(e) then 1 else 0) + (if k.Holds(e') then 1 else 0)
  {
    CountOne(e, k);
    CountOne(e', k);
    CountConcat(xs, [e], k);
    CountConcat(xs, [e'], k);
    CountConcat(xs + [e], ys, k);
    CountConcat(xs + [e'], ys, k);
  }

  lemma {:induction false} CountNone(es: seq<Entry>, k: Kind)
    requires forall e | e in es :: !k.Holds(e)
    ensures Count(es, k) == 0
  {
    if es != [] { CountNone(es[..|es| - 1], k); }
  }

  lemma {:induction false} CountAllSet(blocks: seq<Block>, b: nat, es: seq<Entry>, k: Kind)
    requires b < |blocks|
    ensures CountAll(blocks[b := Entries(es)], k) == CountAll(blocks, k) - Count(Content(blocks, b), k) + Count(es, k)
  {
    var front, blocks' := blocks[..|blocks| - 1], blocks[b := Entries(es)];
    if b < |blocks| - 1 {
      CountAllSet(front, b, es, k);
      assert blocks'[..|blocks| - 1] == front[b := Entries(es)];
    } else {
      assert blocks'[..|blocks| - 1] == front;
    }
  }

  lemma {:induction false} CountAllNone(blocks: seq<Block>, k: Kind)
    requires forall b, e | 0 <= b < |blocks| && e in Content(blocks, b) :: !k.Holds(e)
    ensures CountAll(blocks, k) == 0
  {
    if blocks != [] {
      var front := blocks[..|blocks| - 1];
      forall b, e | 0 <= b < |front| && e in Content(front, b) ensures !k.Holds(e) {
        assert e in Content(blocks, b);
      }
      CountAllNone(front, k);
      CountNone(Content(blocks, |blocks| - 1), k);
    }
  }

  // ----- the entries of several blocks

  lemma FlatLast(blocks: seq<Block>, at: seq<int>, b: int)
    ensures Flat(blocks, at + [b]) == Flat(blocks, at) + Content(blocks, b)
  {
    assert (at + [b])[..|at + [b]| - 1] == at;
  }

  lemma {:induction false} FlatConcat(blocks: seq<Block>, xs: seq<int>, ys: seq<int>)
    ensures Flat(blocks, xs + ys) == Flat(blocks, xs) + Flat(blocks, ys)
  {
    hide Content;
    if ys == [] {
      assert xs + ys == xs;
    } else {
      var zs, y := ys[..|ys| - 1], ys[|ys| - 1];
      FlatConcat(blocks, xs, zs);
      FlatLast(blocks, xs + zs, y);
      FlatLast(blocks, zs, y);
      assert xs + ys == (xs + zs) + [y] && ys == zs + [y];
    }
  }

  lemma {:induction false} FlatOther(blocks: seq<Block>, b: int, es: seq<Entry>, at: seq<int>)
    requires 0 <= b < |blocks| && b !in at
    ensures Flat(blocks[b := Entries(es)], at) == Flat(blocks, at)
  {
    if at != [] { FlatOther(blocks, b, es, at[..|at| - 1]); }
  }

  lemma FlatSplit(blocks: seq<Block>, xs: seq<int>, b: int, ys: seq<int>)
    ensures Flat(blocks, xs + [b] + ys) == Flat(blocks, xs) + Content(blocks, b) + Flat(blocks, ys)
  {
    FlatConcat(blocks, xs, [b]);
    FlatConcat(blocks, xs + [b], ys);
    assert [b][..0] == [];
  }

  /** Setting one of the blocks, the others being different ones. */
  lemma FlatSet(blocks: seq<Block>, xs: seq<int>, b: int, ys: seq<int>, es: seq<Entry>)
    requires 0 <= b < |blocks| && b !in xs && b !in ys
    ensures Flat(blocks[b := Entries(es)], xs + [b] + ys) == Flat(blocks, xs) + es + Flat(blocks, ys)
  {
    FlatSplit(blocks[b := Entries(es)], xs, b, ys);
    FlatOther(blocks, b, es, xs);
    FlatOther(blocks, b, es, ys);
  }

  // ----- the blocks of files

  lemma FilesKept(img: Image, img': Image, held: set<int>)
    requires FilesOwned(img, held) && forall n | img'.File(n) :: img.File(n) && img'.FileAt(n) == img.FileAt(n)
    ensures FilesOwned(img', held)
  {
    hide Image.File, Image.FileAt;
    assert forall n, i, b :: img'.Stores(n, i, b) ==> img.Stores(n, i, b);
  }

  // ----- a new inode

  /** What taking inode n for a directory changes. */
  ghost predicate TakesInode(img: Image, img': Image, n: int) {
    && img.Shape() && img'.Shape() && 1 <= n <= INODE_NUM && !img.Used(n)
    && img'.blocks == img.blocks && img'.blockBits == img.blockBits
    && img'.inodeBits == img.inodeBits[n - 1 := true]
    && (forall m | m != n :: img'.Node(m) == img.Node(m))
    && img'.Directory(n) && img'.Node(n).size == 0 && img'.Node(n).sectors == 0 && img'.Node(n).links == 2
  }

  lemma TakesInodeUses(img: Image, img': Image, n: int)
    requires TakesInode(img, img', n)
    ensures forall m :: img'.Used(m) <==> img.Used(m) || m == n
    ensures forall m :: img'.Directory(m) <==> img.Directory(m) || m == n
    ensures forall m | img.Directory(m) :: img'.At(m) == img.At(m) && Lines(img', m) == Lines(img, m)
    ensures img'.At(n) == [] && Lines(img', n) == []
    ensures forall m | img'.File(m) :: img.File(m) && img'.FileAt(m) == img.FileAt(m)
  {
  }

  lemma TakesInodeOwned(img: Image, img': Image, n: int, held: set<int>)
    requires TakesInode(img, img', n) && Owned(img, held)
    ensures Owned(img', held)
  {
    hide Lines, Flat, Image.File, Image.FileAt, FilesOwned;
    TakesInodeUses(img, img', n);
    FilesKept(img, img', held);
    assert forall m, j, b :: img'.Owns(m, j, b) <==> img.Owns(m, j, b);
    forall m | img'.Directory(m) ensures DirShape(img', m) {
      if m != n { assert DirShape(img, m); }
    }
  }

  lemma TakesInodeLinked(img: Image, img': Image, n: int)
    requires TakesInode(img, img', n) && BlocksOk(img) && Linked(img, 0, 0) && img.Directory(EXT2_ROOT_INO)
    ensures Linked(img', n, 0)
  {
    hide Lines, Flat, Tiled;
    TakesInodeUses(img, img', n);
    forall b, e | 0 <= b < |img.blocks| && e in Content(img.blocks, b) ensures !NamesOf(n).Holds(e) {
      assert EntryOk(img, e);
    }
    CountAllNone(img.blocks, NamesOf(n));
  }

  lemma TakesInodeRest(img: Image, img': Image, n: int)
    requires TakesInode(img, img', n) && BlocksOk(img) && Dotted(img, 0) && Unique(img)
    ensures BlocksOk(img') && Dotted(img', n) && Unique(img')
  {
    hide Lines, Flat, Tiled;
    TakesInodeUses(img, img', n);
    assert forall e :: EntryOk(img, e) ==> EntryOk(img', e);
  }

  lemma TakeInodeOwing(img: Image, held: set<int>)
    requires Consistent(img, held) && FirstFree(img.inodeBits, 0) < INODE_NUM
    ensures var n := FirstFree(img.inodeBits, 0) + 1;
            TakesInode(img, TakeInode(img), n) && Owing(TakeInode(img), held, n, 0, n)
  {
    hide Owned, BlocksOk, Dotted, Unique, Linked, Lines;
    var n, img' := FirstFree(img.inodeBits, 0) + 1, TakeInode(img);
    ZerosSet(img.inodeBits, n - 1);
    assert TakesInode(img, img', n);
    TakesInodeOwned(img, img', n, held);
    TakesInodeLinked(img, img', n);
    TakesInodeRest(img, img', n);
  }

  // ----- a new block

  /** What giving directory n the new block b, with entries es, changes. */
  ghost predicate Attaches(img: Image, img': Image, n: int, b: int, es: seq<Entry>) {
    && img.Shape() && img'.Shape() && img.Directory(n) && 1 <= b < BLOCK_NUM
    && img'.inodeBits == img.inodeBits && img'.blockBits == img.blockBits[b - 1 := true]
    && img'.blocks == img.blocks[b := Entries(es)]
    && (forall m | m != n :: img'.Node(m) == img.Node(m))
    && var d := img.Node(n);
       0 <= d.Blocks() < DIRECT
       && img'.Node(n) == d.(block := d.block[d.Blocks() := b], size := d.size + EXT2_BLOCK_SIZE,
                                 sectors := d.sectors + 2)
  }

  /** A block of no directory and of no file. */
  ghost predicate Vacant(img: Image, held: set<int>, b: int) {
    1 <= b < BLOCK_NUM && b < |img.blocks| && !img.blocks[b].Entries? && b !in held
  }

  lemma AttachesUses(img: Image, img': Image, n: int, b: int, es: seq<Entry>)
    requires Attaches(img, img', n, b, es)
    ensures forall m :: img'.Used(m) <==> img.Used(m)
    ensures forall m :: img'.Directory(m) <==> img.Directory(m)
    ensures forall c :: img'.Marked(c) <==> img.Marked(c) || c == b
    ensures img'.At(n) == img.At(n) + [b]
    ensures forall m | m != n :: img'.At(m) == img.At(m)
    ensures forall m | img'.File(m) :: img.File(m) && img'.FileAt(m) == img.FileAt(m)
  {
    var d, d' := img.Node(n), img'.Node(n);
    assert d'.block[..d'.Blocks()] == d.block[..d.Blocks()] + [b];
  }

  /** The new block was nobody's. */
  lemma AttachesFresh(img: Image, img': Image, n: int, b: int, es: seq<Entry>, held: set<int>)
    requires Attaches(img, img', n, b, es) && Owned(img, held) && Vacant(img, held, b)
    ensures Content(img.blocks, b) == [] && b !in held
    ensures forall m | img.Directory(m) :: b !in img.At(m)
  {
    forall m | img.Directory(m) ensures b !in img.At(m) {
      assert DirShape(img, m);
    }
    forall m, i ensures !img.Owns(m, i, b) { }
  }

  lemma OwnedShape(img: Image, held: set<int>, n: int)
    requires img.Shape() && Owned(img, held) && img.Directory(n)
    ensures DirShape(img, n) && img.blockBits[BLOCK_NUM - 1]
  {
  }

  lemma AttachesShapes(img: Image, img': Image, n: int, b: int, es: seq<Entry>, m: int)
    requires Attaches(img, img', n, b, es) && img.Directory(m) && DirShape(img, m)
    ensures img'.Directory(m) && DirShape(img', m)
  {
    AttachesUses(img, img', n, b, es);
  }

  lemma AttachesOwns(img: Image, img': Image, n: int, b: int, es: seq<Entry>)
    requires Attaches(img, img', n, b, es)
    ensures forall m, j, c :: img'.Owns(m, j, c) <==> img.Owns(m, j, c) || (m == n && j == |img.At(n)| && c == b)
  {
    AttachesUses(img, img', n, b, es);
  }

  lemma AttachesOwned(img: Image, img': Image, n: int, b: int, es: seq<Entry>, held: set<int>)
    requires Attaches(img, img', n, b, es) && Owned(img, held) && Vacant(img, held, b)
    ensures Owned(img', held)
  {
    hide DirShape, Attaches, Image.Owns, Image.At, Image.Directory, Image.File, Image.FileAt, FilesOwned, Vacant;
    AttachesShape(img, img', n, b, es);
    AttachesUses(img, img', n, b, es);
    AttachesOwns(img, img', n, b, es);
    NeverOwned(img, img', n, b, es, held);
    FilesKept(img, img', held);
    forall m | img'.Directory(m) ensures DirShape(img', m) {
      AttachesShapes(img, img', n, b, es, m);
    }
    forall c | 0 <= c < BLOCK_NUM && img'.blocks[c].Entries? ensures exists m, j :: img'.Owns(m, j, c) {
      if c == b {
        assert img'.Owns(n, |img.At(n)|, b);
      } else {
        var m, j :| img.Owns(m, j, c);
        assert img'.Owns(m, j, c);
      }
    }
  }

  lemma NeverOwned(img: Image, img': Image, n: int, b: int, es: seq<Entry>, held: set<int>)
    requires Attaches(img, img', n, b, es) && Owned(img, held) && Vacant(img, held, b)
    ensures b !in held && forall m, j :: !img.Owns(m, j, b)
    ensures img'.blockBits[BLOCK_NUM - 1] && forall c | 0 <= c < BLOCK_NUM && c != b :: img'.blocks[c] == img.blocks[c]
  {
    AttachesFresh(img, img', n, b, es, held);
  }

  lemma AttachesLines(img: Image, img': Image, n: int, b: int, es: seq<Entry>, held: set<int>)
    requires Attaches(img, img', n, b, es) && Owned(img, held) && Vacant(img, held, b)
    ensures Lines(img', n) == Lines(img, n) + es
    ensures forall m | img.Directory(m) && m != n :: Lines(img', m) == Lines(img, m)
  {
    AttachesUses(img, img', n, b, es);
    AttachesFresh(img, img', n, b, es, held);
    FlatSet(img.blocks, img.At(n), b, [], es);
    assert img.At(n) + [b] + [] == img'.At(n);
    forall m | img.Directory(m) && m != n ensures Lines(img', m) == Lines(img, m) {
      FlatOther(img.blocks, b, es, img.At(m));
    }
  }

  lemma AttachesBlocks(img: Image, img': Image, n: int, b: int, es: seq<Entry>)
    requires Attaches(img, img', n, b, es) && BlocksOk(img)
    requires Tiled(es) && forall e | e in es :: EntryOk(img, e)
    ensures BlocksOk(img')
  {
    AttachesUses(img, img', n, b, es);
    assert forall e :: EntryOk(img, e) ==> EntryOk(img', e);
  }

  lemma FirstDots(img: Image, img': Image, n: int, b: int, es: seq<Entry>)
    requires Attaches(img, img', n, b, es) && img.At(n) == [] && exists p :: img.Directory(p) && es == Dots(n, p)
    ensures 1 <= |img'.At(n)| && StartsWithDots(img', Content(img'.blocks, img'.At(n)[0]), n)
  {
    AttachesUses(img, img', n, b, es);
  }

  lemma DotsStay(img: Image, img': Image, n: int, b: int, es: seq<Entry>, m: int)
    requires Attaches(img, img', n, b, es) && img.Directory(m) && b !in img.At(m)
    requires 1 <= |img.At(m)| && StartsWithDots(img, Content(img.blocks, img.At(m)[0]), m)
    ensures 1 <= |img'.At(m)| && StartsWithDots(img', Content(img'.blocks, img'.At(m)[0]), m)
  {
    AttachesUses(img, img', n, b, es);
    assert img'.At(m)[0] == img.At(m)[0] && img.At(m)[0] in img.At(m);
  }

  /** The first block of a new directory, or a further block of one that has its dots. */
  lemma AttachesDotted(img: Image, img': Image, n: int, b: int, es: seq<Entry>, held: set<int>, bare: int)
    requires Attaches(img, img', n, b, es) && Owned(img, held) && Vacant(img, held, b) && Dotted(img, bare)
    requires n == bare ==> img.At(n) == [] && exists p :: img.Directory(p) && es == Dots(n, p)
    ensures Dotted(img', if n == bare then 0 else bare)
  {
    hide Tiled, Flat, Lines, DirShape, Owned, StartsWithDots, Attaches, Dots;
    AttachesUses(img, img', n, b, es);
    AttachesFresh(img, img', n, b, es, held);
    AttachesShape(img, img', n, b, es);
    forall m | img'.Directory(m) && (m != bare || m == n)
      ensures 1 <= |img'.At(m)| && StartsWithDots(img', Content(img'.blocks, img'.At(m)[0]), m)
    {
      if m == bare {
        FirstDots(img, img', n, b, es);
      } else {
        DotsStay(img, img', n, b, es, m);
      }
    }
  }

  lemma AttachesLinks(img: Image, img': Image, n: int, b: int, es: seq<Entry>)
    requires Attaches(img, img', n, b, es)
    ensures 1 <= b < |img.blocks| && img'.blocks == img.blocks[b := Entries(es)] && img.Directory(n)
    ensures forall m :: img'.Node(m).links == img.Node(m).links
  {
  }

  lemma AttachesDue(img: Image, img': Image, n: int, b: int, es: seq<Entry>, m: int)
    requires Attaches(img, img', n, b, es) && Content(img.blocks, b) == []
    ensures Due(img', m) == Due(img, m)
    ensures CountAll(img'.blocks, NamesOf(m)) == CountAll(img.blocks, NamesOf(m)) + Count(es, NamesOf(m))
  {
    hide Attaches, Image.Directory, Image.Used;
    AttachesShape(img, img', n, b, es);
    AttachesUses(img, img', n, b, es);
    AttachesLinks(img, img', n, b, es);
    CountAllSet(img.blocks, b, es, NamesOf(m));
  }

  lemma AttachesLinked(img: Image, img': Image, n: int, b: int, es: seq<Entry>, held: set<int>,
                       entry: int, link: int, entry': int, link': int)
    requires Attaches(img, img', n, b, es) && Owned(img, held) && Vacant(img, held, b) && Linked(img, entry, link)
    requires forall m | img.Used(m) ::
             Count(es, NamesOf(m)) == (if m == entry then 1 else 0) - (if m == entry' then 1 else 0)
    requires Count(es, Subdirectories) == (if n == link then 1 else 0) - (if n == link' then 1 else 0)
    requires forall m | m != n && img.Directory(m) :: m == link <==> m == link'
    ensures Linked(img', entry', link')
  {
    hide Lines, Attaches, Owned, Image.Directory, Image.Used, Image.At, CountAll, Due, Content;
    AttachesShape(img, img', n, b, es);
    AttachesLinks(img, img', n, b, es);
    AttachesUses(img, img', n, b, es);
    AttachesFresh(img, img', n, b, es, held);
    AttachesLines(img, img', n, b, es, held);
    forall m | img'.Used(m)
      ensures CountAll(img'.blocks, NamesOf(m)) + (if m == entry' then 1 else 0) == Due(img', m)
    {
      AttachesDue(img, img', n, b, es, m);
    }
    CountConcat(Lines(img, n), es, Subdirectories);
  }

  // ----- a changed block

  /** The i-th block of directory n, which is b, gets entries es instead of was. */
  ghost predicate Rewrites(img: Image, img': Image, n: int, i: int, b: int, was: seq<Entry>, es: seq<Entry>) {
    && img.Shape() && img.Directory(n) && 0 <= i < |img.At(n)| && img.At(n)[i] == b
    && 0 <= b < BLOCK_NUM && img.blocks[b] == Entries(was)
    && img' == img.(blocks := img.blocks[b := Entries(es)])
  }

  /** Block b is in no other place of any directory. */
  ghost predicate Sole(img: Image, n: int, i: int, b: int) {
    forall m, j | img.Directory(m) && 0 <= j < |img.At(m)| && img.At(m)[j] == b :: m == n && j == i
  }

  lemma RewritesUses(img: Image, img': Image, n: int, i: int, b: int, was: seq<Entry>, es: seq<Entry>)
    requires Rewrites(img, img', n, i, b, was, es)
    ensures img'.Shape()
    ensures forall m ::
            (img'.Used(m) <==> img.Used(m)) && (img'.Directory(m) <==> img.Directory(m)) && img'.Node(m) == img.Node(m)
    ensures forall m :: img'.At(m) == img.At(m) && (img'.Marked(m) <==> img.Marked(m))
    ensures forall m, j, c :: img'.Owns(m, j, c) <==> img.Owns(m, j, c)
    ensures forall m | img'.File(m) :: img.File(m) && img'.FileAt(m) == img.FileAt(m)
  {
  }

  lemma RewritesShapes(img: Image, img': Image, n: int, i: int, b: int, was: seq<Entry>, es: seq<Entry>, m: int)
    requires Rewrites(img, img', n, i, b, was, es) && img.Directory(m) && DirShape(img, m)
    ensures img'.Shape() && img'.Directory(m) && DirShape(img', m)
  {
    RewritesUses(img, img', n, i, b, was, es);
  }

  lemma RewritesOwned(img: Image, img': Image, n: int, i: int, b: int, was: seq<Entry>, es: seq<Entry>, held: set<int>)
    requires Rewrites(img, img', n, i, b, was, es) && Owned(img, held)
    ensures Owned(img', held) && Sole(img, n, i, b)
  {
    hide FilesOwned, Image.File, Image.FileAt, DirShape;
    RewritesUses(img, img', n, i, b, was, es);
    FilesKept(img, img', held);
    forall m | img'.Directory(m) ensures DirShape(img', m) {
      RewritesShapes(img, img', n, i, b, was, es, m);
    }
    forall m, j | img.Directory(m) && 0 <= j < |img.At(m)| && img.At(m)[j] == b ensures m == n && j == i {
      assert img.Owns(m, j, b) && img.Owns(n, i, b);
    }
  }

  lemma RewritesLines(img: Image, img': Image, n: int, i: int, b: int, was: seq<Entry>, es: seq<Entry>)
      returns (xs: seq<Entry>, ys: seq<Entry>)
    requires Rewrites(img, img', n, i, b, was, es) && Sole(img, n, i, b)
    ensures Lines(img, n) == xs + was + ys && Lines(img', n) == xs + es + ys
    ensures forall m | img.Directory(m) && m != n :: Lines(img', m) == Lines(img, m)
  {
    RewritesUses(img, img', n, i, b, was, es);
    var before, after := img.At(n)[..i], img.At(n)[i + 1..];
    assert img.At(n) == before + [b] + after;
    xs, ys := Flat(img.blocks, before), Flat(img.blocks, after);
    FlatSplit(img.blocks, before, b, after);
    FlatSet(img.blocks, before, b, after, es);
    forall m | img.Directory(m) && m != n ensures Lines(img', m) == Lines(img, m) {
      FlatOther(img.blocks, b, es, img.At(m));
    }
  }

  lemma RewritesBlocks(img: Image, img': Image, n: int, i: int, b: int, was: seq<Entry>, es: seq<Entry>)
    requires Rewrites(img, img', n, i, b, was, es) && BlocksOk(img)
    requires Tiled(es) && forall e | e in es :: EntryOk(img, e)
    ensures BlocksOk(img')
  {
    hide Tiled;
    RewritesUses(img, img', n, i, b, was, es);
    assert forall e :: EntryOk(img, e) ==> EntryOk(img', e);
  }

  /** The first two entries, if there, keep their names and targets. */
  ghost predicate KeepsHead(was: seq<Entry>, es: seq<Entry>) {
    |was| <= |es| && forall j | 0 <= j < 2 && j < |was| :: es[j].name == was[j].name && es[j].inode == was[j].inode
  }

  lemma RewritesDotted(img: Image, img': Image, n: int, i: int, b: int, was: seq<Entry>, es: seq<Entry>)
    requires Rewrites(img, img', n, i, b, was, es) && Sole(img, n, i, b) && Dotted(img, 0)
    requires i == 0 ==> KeepsHead(was, es)
    ensures Dotted(img', 0)
  {
    hide StartsWithDots;
    RewritesUses(img, img', n, i, b, was, es);
    forall m | img'.Directory(m)
      ensures 1 <= |img'.At(m)| && StartsWithDots(img', Content(img'.blocks, img'.At(m)[0]), m)
    {
      HeadKept(img, img', n, i, b, was, es, m);
    }
  }

  lemma HeadKept(img: Image, img': Image, n: int, i: int, b: int, was: seq<Entry>, es: seq<Entry>, m: int)
    requires Rewrites(img, img', n, i, b, was, es) && Sole(img, n, i, b) && img.Directory(m)
    requires 1 <= |img.At(m)| && StartsWithDots(img, Content(img.blocks, img.At(m)[0]), m)
    requires i == 0 ==> KeepsHead(was, es)
    ensures 1 <= |img'.At(m)| && StartsWithDots(img', Content(img'.blocks, img'.At(m)[0]), m)
  {
    var b' := img.At(m)[0];
    assert img'.At(m) == img.At(m);
    if b' == b {
      assert m == n && i == 0;
      assert img'.Directory(es[1].inode);
    } else {
      assert Content(img'.blocks, b') == Content(img.blocks, b');
    }
  }

  lemma RewritesLinked(img: Image, img': Image, n: int, i: int, b: int, was: seq<Entry>, es: seq<Entry>,
                       entry: int, link: int, entry': int, link': int)
    requires Rewrites(img, img', n, i, b, was, es) && Sole(img, n, i, b) && Linked(img, entry, link)
    requires forall m | img.Used(m) ::
               Count(es, NamesOf(m)) - Count(was, NamesOf(m))
               == (if m == entry then 1 else 0) - (if m == entry' then 1 else 0)
    requires Count(es, Subdirectories) - Count(was, Subdirectories)
             == (if n == link then 1 else 0) - (if n == link' then 1 else 0)
    requires forall m | m != n && img.Directory(m) :: m == link <==> m == link'
    ensures Linked(img', entry', link')
  {
    hide Lines;
    RewritesUses(img, img', n, i, b, was, es);
    var xs, ys := RewritesLines(img, img', n, i, b, was, es);
    forall m | img'.Used(m)
      ensures CountAll(img'.blocks, NamesOf(m)) + (if m == entry' then 1 else 0) == Due(img', m)
    {
      CountAllSet(img.blocks, b, es, NamesOf(m));
    }
    CountConcat(xs, es, Subdirectories);
    CountConcat(xs + es, ys, Subdirectories);
    CountConcat(xs, was, Subdirectories);
    CountConcat(xs + was, ys, Subdirectories);
  }

  // ----- names in a directory

  lemma HeadInTable(es: seq<Entry>, ys: seq<Entry>, i: nat)
    requires i < |es| && es[i].Live()
    ensures es[i].name in Table(es + ys)
  {
    InTable(es + ys, es[i].name);
    assert (es + ys)[i] == es[i];
  }

  lemma FlatHead(blocks: seq<Block>, at: seq<int>)
    requires at != []
    ensures Flat(blocks, at) == Content(blocks, at[0]) + Flat(blocks, at[1..])
  {
    hide Content;
    assert Flat(blocks, []) == [];
    FlatConcat(blocks, [at[0]], at[1..]);
    FlatLast(blocks, [], at[0]);
    assert [at[0]] + at[1..] == at && [] + [at[0]] == [at[0]];
  }

  /** A directory always has its two dots in its table. */
  lemma DotsInTable(img: Image, n: int)
    requires img.Shape() && Dotted(img, 0) && img.Directory(n)
    ensures "." in Table(Lines(img, n)) && ".." in Table(Lines(img, n))
  {
    hide Table, Content, Flat;
    var at := img.At(n);
    var es := Content(img.blocks, at[0]);
    assert StartsWithDots(img, es, n);
    FlatHead(img.blocks, at);
    HeadInTable(es, Flat(img.blocks, at[1..]), 0);
    HeadInTable(es, Flat(img.blocks, at[1..]), 1);
  }

  /** A new name keeps the names of a directory apart. */
  lemma UniqueInsert(xs: seq<Entry>, e: Entry, ys: seq<Entry>)
    requires UniqueNames(xs + ys) && e.Live() && e.name !in Table(xs + ys)
    ensures UniqueNames(xs + [e] + ys)
  {
    var es, all := xs + ys, xs + [e] + ys;
    InTable(es, e.name);
    forall i, j | 0 <= i < j < |all| && all[i].Live() ensures all[i].name != all[j].name {
      var i', j' := if i < |xs| then i else i - 1, if j < |xs| then j else j - 1;
      assert i != |xs| ==> es[i'] == all[i];
      assert j != |xs| ==> es[j'] == all[j];
    }
  }

  /** Only names and whether they are there matter to being unique. */
  lemma UniqueSame(es: seq<Entry>, es': seq<Entry>)
    requires UniqueNames(es) && |es| == |es'|
    requires forall i | 0 <= i < |es| :: es'[i].name == es[i].name || es'[i].name == ""
    ensures UniqueNames(es')
  {
    forall i, j | 0 <= i < j < |es'| && es'[i].Live() ensures es'[i].name != es'[j].name {
      assert es[i].name == es'[i].name && es[i].name != es[j].name;
    }
  }

  // ----- link counts

  lemma AddLinksUses(img: Image, img': Image, n: int, k: int)
    requires img.Shape() && img.Used(n) && img' == AddLinks(img, n, k)
    ensures img'.Shape() && forall m ::
              img'.Node(m) == if m == n then img.Node(n).(links := img.Node(n).links + k) else img.Node(m)
    ensures forall m :: (img'.Used(m) <==> img.Used(m)) && (img'.Directory(m) <==> img.Directory(m))
    ensures forall m ::
            img'.At(m) == img.At(m) && (img'.Marked(m) <==> img.Marked(m)) && Lines(img', m) == Lines(img, m)
    ensures forall m, j, c :: img'.Owns(m, j, c) <==> img.Owns(m, j, c)
    ensures forall m | img'.File(m) :: img.File(m) && img'.FileAt(m) == img.FileAt(m)
  {
  }

  lemma AddLinksOwned(img: Image, img': Image, n: int, k: int, held: set<int>)
    requires img.Shape() && img.Used(n) && img' == AddLinks(img, n, k) && Owned(img, held)
    ensures Owned(img', held)
  {
    hide AddLinks, Lines, FilesOwned, Image.File, Image.FileAt;
    AddLinksUses(img, img', n, k);
    AddLinksParts(img, n, k);
    FilesKept(img, img', held);
    forall m | img'.Directory(m) ensures DirShape(img', m) {
      assert DirShape(img, m);
    }
  }

  lemma AddLinksRest(img: Image, img': Image, n: int, k: int)
    requires img.Shape() && img.Used(n) && img' == AddLinks(img, n, k) && BlocksOk(img) && Dotted(img, 0) && Unique(img)
    ensures BlocksOk(img') && Dotted(img', 0) && Unique(img')
  {
    hide AddLinks, Lines, Flat, Tiled;
    assert img'.blocks == img.blocks by { AddLinksParts(img, n, k); }
    AddLinksUses(img, img', n, k);
    assert forall e :: EntryOk(img, e) ==> EntryOk(img', e);
    assert forall m, es :: StartsWithDots(img, es, m) ==> StartsWithDots(img', es, m);
  }

  lemma AddLinksParts(img: Image, n: int, k: int)
    requires 1 <= n <= |img.inodes|
    ensures AddLinks(img, n, k).blocks == img.blocks && AddLinks(img, n, k).blockBits == img.blockBits
  {
  }

  lemma AddLinksLinked(img: Image, img': Image, n: int, k: int, entry: int, link: int, entry': int, link': int)
    requires img.Shape() && img.Used(n) && img' == AddLinks(img, n, k) && Linked(img, entry, link)
    requires forall m | img.Used(m) && !img.Directory(m) ::
               (if m == n then k else 0) == (if m == entry' then 1 else 0) - (if m == entry then 1 else 0)
    requires forall m | img.Directory(m) ::
               (m == entry <==> m == entry')
               && (if m == n then k else 0) == (if m == link' then 1 else 0) - (if m == link then 1 else 0)
    ensures Linked(img', entry', link')
  {
    hide AddLinks, Lines, CountAll;
    assert img'.blocks == img.blocks by { AddLinksParts(img, n, k); }
    AddLinksUses(img, img', n, k);
  }

  /** One more link, or one less, changes what is owed and nothing else. */
  lemma AddLinksOwing(img: Image, held: set<int>, n: int, k: int, entry: int, link: int, entry': int, link': int)
    requires Owing(img, held, entry, link, 0) && img.Used(n)
    requires forall m | img.Used(m) && !img.Directory(m) ::
               (if m == n then k else 0) == (if m == entry' then 1 else 0) - (if m == entry then 1 else 0)
    requires forall m | img.Directory(m) ::
               (m == entry <==> m == entry')
               && (if m == n then k else 0) == (if m == link' then 1 else 0) - (if m == link then 1 else 0)
    ensures Owing(AddLinks(img, n, k), held, entry', link', 0)
  {
    hide Owned, BlocksOk, Dotted, Unique, Linked, Lines;
    var img' := AddLinks(img, n, k);
    AddLinksUses(img, img', n, k);
    AddLinksOwned(img, img', n, k, held);
    AddLinksRest(img, img', n, k);
    AddLinksLinked(img, img', n, k, entry, link, entry', link');
  }

  // ----- insertion

  /** What a new entry in directory n is to be, in an image that owes it. */
  ghost predicate Insertable(img: Image, held: set<int>, n: int, inode: int, fileType: int, name: string) {
    && Owing(img, held, inode, if fileType == EXT2_FT_DIR then n else 0, 0)
    && img.Directory(n) && img.Used(inode) && 1 <= |name| <= EXT2_NAME_LEN && name !in Table(Lines(img, n))
    && fileType in {EXT2_FT_REG_FILE, EXT2_FT_DIR, EXT2_FT_SYMLINK}
    && (fileType == EXT2_FT_DIR <==> img.Directory(inode))
  }

  lemma NewCounts(img: Image, held: set<int>, n: int, e: Entry)
    requires Insertable(img, held, n, e.inode, e.fileType, e.name)
    ensures EntryOk(img, e)
    ensures forall m :: NamesOf(m).Holds(e) <==> m == e.inode
    ensures Subdirectories.Holds(e) <==> e.fileType == EXT2_FT_DIR
  {
    hide Owned, BlocksOk, Counted, Linked, Unique, Lines, Table, Dotted;
    DotsInTable(img, n);
  }

  lemma SplitCounts(was: seq<Entry>, inode: int, fileType: int, name: string, k: Kind)
    requires was != []
    ensures var es := Split(was, inode, fileType, name);
            Count(es, k) == Count(was, k) + if k.Holds(es[|es| - 1]) then 1 else 0
  {
    var es, last := Split(was, inode, fileType, name), was[|was| - 1];
    var xs := was[..|was| - 1];
    assert es[..|es| - 1] == xs + [es[|was| - 1]] && (xs + [es[|was| - 1]])[..|xs|] == xs;
    assert k.Holds(es[|was| - 1]) <==> k.Holds(last);
  }

  /** The split itself changes no name and no target. */
  lemma SplitFront(xs: seq<Entry>, was: seq<Entry>, ys: seq<Entry>, inode: int, fileType: int, name: string)
    requires was != []
    ensures var before, after := xs + was + ys, xs + Split(was, inode, fileType, name)[..|was|] + ys;
            && Table(after) == Table(before) && |after| == |before|
            && forall i | 0 <= i < |before| :: after[i].name == before[i].name
  {
    var front := Split(was, inode, fileType, name)[..|was|];
    var before, after := xs + was + ys, xs + front + ys;
    forall i | 0 <= i < |before|
      ensures after[i].name == before[i].name && after[i].inode == before[i].inode
              && after[i].fileType == before[i].fileType
    {
      if |xs| <= i < |xs| + |was| { assert before[i] == was[i - |xs|] && after[i] == front[i - |xs|]; }
    }
    TableSame(before, after);
  }

  /** The lines of a directory whose block is split: one new entry, somewhere. */
  lemma SplitLines(xs: seq<Entry>, was: seq<Entry>, ys: seq<Entry>, inode: int, fileType: int, name: string)
    requires was != [] && name != "" && name !in Table(xs + was + ys) && UniqueNames(xs + was + ys)
    ensures var all := xs + Split(was, inode, fileType, name) + ys;
            Table(all) == Table(xs + was + ys)[name := Target(inode, fileType)] && UniqueNames(all)
  {
    hide Table, UniqueNames;
    var es := Split(was, inode, fileType, name);
    var e, front := es[|es| - 1], es[..|es| - 1];
    SplitFront(xs, was, ys, inode, fileType, name);
    UniqueSame(xs + was + ys, xs + front + ys);
    assert xs + front + ys == (xs + front) + ys && xs + es + ys == (xs + front) + [e] + ys;
    TableInsert(xs + front, e, ys);
    UniqueInsert(xs + front, e, ys);
  }

  /** What a new entry does to a directory: one name more here, nothing anywhere else. */
  ghost predicate Inserted(img: Image, img': Image, n: int, inode: int, fileType: int, name: string) {
    && img'.Shape() && (forall m :: img'.Directory(m) <==> img.Directory(m))
    && Table(Lines(img', n)) == Table(Lines(img, n))[name := Target(inode, fileType)]
    && forall m | img.Directory(m) && m != n :: Lines(img', m) == Lines(img, m)
  }

  lemma SplitOwing(img: Image, held: set<int>, n: int, i: int, b: int, was: seq<Entry>, inode: int, fileType: int,
                   name: string)
    requires Insertable(img, held, n, inode, fileType, name)
    requires 0 <= i < |img.At(n)| && img.At(n)[i] == b && 0 <= b < BLOCK_NUM
             && img.blocks[b] == Entries(was) && Slack(was, |name|)
    ensures var img' := img.(blocks := img.blocks[b := Entries(Split(was, inode, fileType, name))]);
            Consistent(img', held) && Inserted(img, img', n, inode, fileType, name)
  {
    hide Owned, BlocksOk, Dotted, Unique, Linked, Lines, Table, Tiled, EntryOk, Count, Sole;
    var es := Split(was, inode, fileType, name);
    var img' := img.(blocks := img.blocks[b := Entries(es)]);
    var e := es[|es| - 1];
    var link := if fileType == EXT2_FT_DIR then n else 0;
    assert Rewrites(img, img', n, i, b, was, es);
    RewritesUses(img, img', n, i, b, was, es);
    RewritesOwned(img, img', n, i, b, was, es, held);
    BlockOk(img, b, was);
    SplitTiled(was, inode, fileType, name);
    NewCounts(img, held, n, e);
    SplitEntriesOk(img, was, inode, fileType, name);
    RewritesBlocks(img, img', n, i, b, was, es);
    RewritesDotted(img, img', n, i, b, was, es);
    forall m | img.Used(m) ensures Count(es, NamesOf(m)) - Count(was, NamesOf(m)) == if m == inode then 1 else 0 {
      SplitCounts(was, inode, fileType, name, NamesOf(m));
    }
    SplitCounts(was, inode, fileType, name, Subdirectories);
    RewritesLinked(img, img', n, i, b, was, es, inode, link, 0, 0);
    var xs, ys := RewritesLines(img, img', n, i, b, was, es);
    UniqueAt(img, n);
    SplitLines(xs, was, ys, inode, fileType, name);
    UniqueChanged(img, img', n);
  }

  lemma BlockOk(img: Image, b: int, es: seq<Entry>)
    requires img.Shape() && BlocksOk(img) && 0 <= b < BLOCK_NUM && img.blocks[b] == Entries(es)
    ensures Tiled(es) && forall e | e in es :: EntryOk(img, e)
  {
    assert img.blocks[b].Entries?;
  }

  lemma SplitEntriesOk(img: Image, was: seq<Entry>, inode: int, fileType: int, name: string)
    requires was != [] && (forall e | e in was :: EntryOk(img, e))
    requires EntryOk(img, Split(was, inode, fileType, name)[|was|])
    ensures forall e | e in Split(was, inode, fileType, name) :: EntryOk(img, e)
  {
    var es := Split(was, inode, fileType, name);
    forall e | e in es ensures EntryOk(img, e) {
      var k :| 0 <= k < |es| && es[k] == e;
      if k < |was| {
        assert EntryOk(img, was[k]);
      }
    }
  }

  lemma UniqueAt(img: Image, n: int)
    requires img.Shape() && Unique(img) && img.Directory(n)
    ensures UniqueNames(Lines(img, n))
  {
  }

  lemma UniqueChanged(img: Image, img': Image, n: int)
    requires img.Shape() && img'.Shape() && Unique(img) && UniqueNames(Lines(img', n))
    requires forall m :: img'.Directory(m) <==> img.Directory(m)
    requires forall m | img.Directory(m) && m != n :: Lines(img', m) == Lines(img, m)
    ensures Unique(img')
  {
  }

  /** The next block of directory n can be had: a free one, or what its pointer holds is in use by
      nothing, and it is there that the entries go. */
  ghost predicate Fits(img: Image, held: set<int>, n: int, junk: int) {
    && |img.At(n)| < DIRECT
    && (HasFree(img) || (junk == Stale(img, n) && img.Marked(junk) && Vacant(img, held, junk)))
  }

  lemma ExtendCounted(img: Image, n: int, es: seq<Entry>, junk: int)
    requires CanExtend(img, n) && Counted(img)
    ensures Counted(Extend(img, n, es, junk))
  {
    if HasFree(img) { ZerosSet(img.blockBits, FirstFree(img.blockBits, 0)); }
  }

  /** A block marked free is of no directory and of no file. */
  lemma FreeVacant(img: Image, held: set<int>, b: int)
    requires img.Shape() && Owned(img, held) && 1 <= b < BLOCK_NUM && !img.Marked(b)
    ensures Vacant(img, held, b)
  {
    forall m, i | img.Directory(m) && 0 <= i < |img.At(m)| ensures img.Marked(img.At(m)[i]) {
      OwnedShape(img, held, m);
    }
    assert forall m, i :: !img.Owns(m, i, b);
  }

  lemma ExtendAttaches(img: Image, held: set<int>, n: int, es: seq<Entry>, junk: int)
    requires img.Shape() && Owned(img, held) && img.Directory(n) && Fits(img, held, n, junk)
    ensures CanExtend(img, n) && Attaches(img, Extend(img, n, es, junk), n, Chosen(img, n), es)
            && Vacant(img, held, Chosen(img, n))
  {
    hide Owned, Vacant;
    OwnedShape(img, held, n);
    var k := FirstFree(img.blockBits, 0);
    if HasFree(img) {
      FreeVacant(img, held, k + 1);
    } else {
      assert img.blockBits[junk - 1 := true] == img.blockBits;
      assert Vacant(img, held, junk);
    }
  }

  lemma AloneOwing(img: Image, held: set<int>, n: int, inode: int, fileType: int, name: string, junk: int)
    requires Insertable(img, held, n, inode, fileType, name) && Fits(img, held, n, junk)
    ensures CanExtend(img, n)
    ensures var img' := Extend(img, n, [Entry(inode, EXT2_BLOCK_SIZE, fileType, name)], junk);
            Consistent(img', held) && Inserted(img, img', n, inode, fileType, name)
  {
    hide Owned, BlocksOk, Dotted, Unique, Linked, Lines, Table, Tiled, EntryOk, Count, Extend, Attaches,
        CanExtend, Fits, Vacant, Chosen;
    var e := Entry(inode, EXT2_BLOCK_SIZE, fileType, name);
    ExtendAttaches(img, held, n, [e], junk);
    var b, img' := Chosen(img, n), Extend(img, n, [e], junk);
    var link := if fileType == EXT2_FT_DIR then n else 0;
    ExtendCounted(img, n, [e], junk);
    AttachesShape(img, img', n, b, [e]);
    AttachesUses(img, img', n, b, [e]);
    AttachesOwned(img, img', n, b, [e], held);
    AloneTiled(inode, fileType, name);
    NewCounts(img, held, n, e);
    AttachesBlocks(img, img', n, b, [e]);
    NotZero(img, n);
    AttachesDotted(img, img', n, b, [e], held, 0);
    forall m | img.Used(m) ensures Count([e], NamesOf(m)) == if m == inode then 1 else 0 {
      CountOne(e, NamesOf(m));
    }
    CountOne(e, Subdirectories);
    AttachesLinked(img, img', n, b, [e], held, inode, link, 0, 0);
    AttachesLines(img, img', n, b, [e], held);
    UniqueAt(img, n);
    AloneLines(Lines(img, n), e);
    UniqueChanged(img, img', n);
  }

  lemma AttachesShape(img: Image, img': Image, n: int, b: int, es: seq<Entry>)
    requires Attaches(img, img', n, b, es)
    ensures img.Shape() && img'.Shape()
  {
  }

  lemma NotZero(img: Image, n: int)
    requires img.Directory(n)
    ensures n != 0
  {
  }

  lemma AloneLines(es: seq<Entry>, e: Entry)
    requires UniqueNames(es) && e.Live() && e.name !in Table(es)
    ensures UniqueNames(es + [e]) && Table(es + [e]) == Table(es)[e.name := Target(e.inode, e.fileType)]
  {
    assert es + [] == es && es + [e] + [] == es + [e];
    UniqueInsert(es, e, []);
    TableInsert(es, e, []);
  }

  /** The entry owed, put where the tools put it, makes the image consistent. */
  lemma InsertOwing(img: Image, held: set<int>, n: int, inode: int, fileType: int, name: string, junk: int)
    requires Insertable(img, held, n, inode, fileType, name) && (HasSlack(img, n, |name|) || Fits(img, held, n, junk))
    ensures CanInsert(img, n, |name|)
    ensures Consistent(Insert(img, n, inode, fileType, name, junk), held)
    ensures Inserted(img, Insert(img, n, inode, fileType, name, junk), n, inode, fileType, name)
  {
    hide Consistent, Inserted, Insertable, Extend, Owing, Fits, CanExtend;
    var at := img.At(n);
    var i := FirstSlack(img.blocks, at, 0, |name|);
    InsertableIn(img, held, n, inode, fileType, name);
    if i < |at| {
      SplitOwing(img, held, n, i, at[i], img.blocks[at[i]].es, inode, fileType, name);
    } else {
      AloneOwing(img, held, n, inode, fileType, name, junk);
    }
  }

  lemma InsertableIn(img: Image, held: set<int>, n: int, inode: int, fileType: int, name: string)
    requires Insertable(img, held, n, inode, fileType, name)
    ensures img.Shape() && 1 <= n <= INODE_NUM
  {
  }

  // ----- a new directory

  lemma DotsCounts(n: int, p: int, k: Kind)
    ensures Count(Dots(n, p), k) == 0
  {
    CountNone(Dots(n, p), k);
  }

  /** The first block of a new directory. */
  lemma DotsOwing(img: Image, held: set<int>, n: int, p: int, entry: int, junk: int)
    requires Owing(img, held, entry, 0, n) && img.Directory(n) && img.Directory(p)
             && img.At(n) == [] && Fits(img, held, n, junk)
    ensures CanExtend(img, n)
    ensures var img' := Extend(img, n, Dots(n, p), junk);
            && Owing(img', held, entry, 0, 0) && (forall m :: img'.Directory(m) <==> img.Directory(m))
            && Lines(img', n) == Dots(n, p) && forall m | img.Directory(m) && m != n :: Lines(img', m) == Lines(img, m)
  {
    hide Owned, BlocksOk, Dotted, Unique, Linked, Tiled, Table, Count, Extend, Attaches,
        CanExtend, Dots, Fits, Vacant, Chosen;
    var es := Dots(n, p);
    ExtendAttaches(img, held, n, es, junk);
    var b, img' := Chosen(img, n), Extend(img, n, es, junk);
    ExtendCounted(img, n, es, junk);
    AttachesShape(img, img', n, b, es);
    AttachesUses(img, img', n, b, es);
    AttachesOwned(img, img', n, b, es, held);
    DotsTiled(n, p);
    DotsOk(img, n, p);
    AttachesBlocks(img, img', n, b, es);
    AttachesDotted(img, img', n, b, es, held, n);
    forall k ensures Count(es, k) == 0 { DotsCounts(n, p, k); }
    AttachesLinked(img, img', n, b, es, held, entry, 0, entry, 0);
    AttachesLines(img, img', n, b, es, held);
    UniqueChanged(img, img', n);
  }

  lemma DotsOk(img: Image, n: int, p: int)
    requires img.Directory(n) && img.Directory(p)
    ensures forall e | e in Dots(n, p) :: EntryOk(img, e)
  {
  }

  // ----- removal

  /** Clearing one entry of a file. */
  lemma EraseOwing(img: Image, held: set<int>, n: int, i: int, b: int, was: seq<Entry>, j: int)
    requires Consistent(img, held) && img.Directory(n)
    requires 0 <= i < |img.At(n)| && img.At(n)[i] == b && 0 <= b < BLOCK_NUM && img.blocks[b] == Entries(was)
    requires 0 <= j < |was| && was[j].Live() && was[j].fileType != EXT2_FT_DIR
    ensures var img' := Erase(img, b, j);
            && Owing(img', held, was[j].inode, 0, 0) && (forall m :: img'.Directory(m) <==> img.Directory(m))
            && was[j].name in Table(Lines(img, n)) && Table(Lines(img', n)) == Table(Lines(img, n)) - {was[j].name}
            && forall m | img.Directory(m) && m != n :: Lines(img', m) == Lines(img, m)
  {
    hide Owned, BlocksOk, Dotted, Unique, Linked, Lines, Table, Tiled, EntryOk, Count, Sole;
    var e, es := was[j], was[j := Erased(was[j])];
    var img' := Erase(img, b, j);
    assert Rewrites(img, img', n, i, b, was, es);
    RewritesUses(img, img', n, i, b, was, es);
    RewritesOwned(img, img', n, i, b, was, es, held);
    BlockOk(img, b, was);
    EraseTiled(was, j);
    EraseEntriesOk(img, was, j);
    RewritesBlocks(img, img', n, i, b, was, es);
    HeadUntouched(img, n, i, b, was, j);
    RewritesDotted(img, img', n, i, b, was, es);
    var xs, ys := RewritesLines(img, img', n, i, b, was, es);
    UniqueAt(img, n);
    FileNotDot(img, n, xs, was, ys, j);
    forall m | img.Used(m) ensures Count(es, NamesOf(m)) - Count(was, NamesOf(m)) == if m == e.inode then -1 else 0 {
      EraseCounts(was, j, NamesOf(m));
    }
    EraseCounts(was, j, Subdirectories);
    EntryUsed(img, e);
    RewritesLinked(img, img', n, i, b, was, es, 0, 0, e.inode, 0);
    EraseLines(xs, was, ys, j);
    UniqueChanged(img, img', n);
  }

  lemma EntryUsed(img: Image, e: Entry)
    requires EntryOk(img, e) && e.Live() && e.fileType != EXT2_FT_DIR
    ensures img.Used(e.inode) && e.inode != 0 && !img.Directory(e.inode)
  {
  }

  lemma EraseEntriesOk(img: Image, was: seq<Entry>, j: nat)
    requires j < |was| && forall e | e in was :: EntryOk(img, e)
    ensures forall e | e in was[j := Erased(was[j])] :: EntryOk(img, e)
  {
    var es := was[j := Erased(was[j])];
    forall e | e in es ensures EntryOk(img, e) {
      var k :| 0 <= k < |es| && es[k] == e;
      assert k != j ==> was[k] == e;
    }
  }

  lemma DotsAreDirectories(img: Image, was: seq<Entry>, n: int)
    requires StartsWithDots(img, was, n) && img.Directory(n) && forall e | e in was :: EntryOk(img, e)
    ensures |was| >= 2 && was[0].fileType == was[1].fileType == EXT2_FT_DIR
  {
    hide Image.Directory;
    assert EntryOk(img, was[0]) && EntryOk(img, was[1]);
  }

  lemma FirstBlockDots(img: Image, n: int, b: int, was: seq<Entry>)
    requires img.Shape() && Dotted(img, 0) && img.Directory(n) && 0 < |img.At(n)| && img.At(n)[0] == b
    requires 0 <= b < BLOCK_NUM && img.blocks[b] == Entries(was)
    ensures StartsWithDots(img, was, n)
  {
    assert StartsWithDots(img, Content(img.blocks, img.At(n)[0]), n);
  }

  /** The dots are entries of directories. */
  lemma HeadUntouched(img: Image, n: int, i: int, b: int, was: seq<Entry>, j: nat)
    requires img.Shape() && Dotted(img, 0) && img.Directory(n)
    requires 0 <= i < |img.At(n)| && img.At(n)[i] == b && 0 <= b < BLOCK_NUM && img.blocks[b] == Entries(was)
    requires j < |was| && (forall e | e in was :: EntryOk(img, e)) && was[j].fileType != EXT2_FT_DIR && was[j].Live()
    ensures i == 0 ==> KeepsHead(was, was[j := Erased(was[j])])
    ensures i == 0 ==> 2 <= j
  {
    hide Dotted, EntryOk, StartsWithDots, Image.At, Image.Directory;
    if i == 0 {
      FirstBlockDots(img, n, b, was);
      DotsAreDirectories(img, was, n);
    }
  }

  lemma LinesHead(img: Image, n: int)
    requires img.Shape() && Dotted(img, 0) && BlocksOk(img) && img.Directory(n)
    ensures var ls := Lines(img, n);
            |ls| >= 2 && ls[0].name == "." && ls[1].name == ".." && ls[0].fileType == ls[1].fileType == EXT2_FT_DIR
  {
    hide Flat, Tiled;
    var at := img.At(n);
    var es := Content(img.blocks, at[0]);
    assert StartsWithDots(img, es, n);
    FlatHead(img.blocks, at);
    assert es[0] in es && es[1] in es;
    assert EntryOk(img, es[0]) && EntryOk(img, es[1]);
  }

  lemma FileNotDot(img: Image, n: int, xs: seq<Entry>, was: seq<Entry>, ys: seq<Entry>, j: nat)
    requires img.Shape() && Dotted(img, 0) && BlocksOk(img) && img.Directory(n) && UniqueNames(Lines(img, n))
    requires Lines(img, n) == xs + was + ys && j < |was| && was[j].Live() && was[j].fileType != EXT2_FT_DIR
    ensures was[j].name != "." && was[j].name != ".."
  {
    hide Dotted, BlocksOk, Lines;
    LinesHead(img, n);
    var ls := Lines(img, n);
    assert ls[|xs| + j] == was[j];
    assert ls[0].Live() && ls[1].Live();
  }

  lemma EraseCounts(was: seq<Entry>, j: nat, k: Kind)
    requires j < |was|
    ensures Count(was[j := Erased(was[j])], k) == Count(was, k) - if k.Holds(was[j]) then 1 else 0
  {
    assert was == was[..j] + [was[j]] + was[j + 1..];
    assert was[j := Erased(was[j])] == was[..j] + [Erased(was[j])] + was[j + 1..];
    CountReplace(was[..j], was[j], Erased(was[j]), was[j + 1..], k);
  }

  lemma EraseLines(xs: seq<Entry>, was: seq<Entry>, ys: seq<Entry>, j: nat)
    requires j < |was| && was[j].Live() && UniqueNames(xs + was + ys)
    ensures var all := xs + was[j := Erased(was[j])] + ys;
            UniqueNames(all) && was[j].name in Table(xs + was + ys)
                && Table(all) == Table(xs + was + ys) - {was[j].name}
  {
    hide Table;
    var e, e' := was[j], Erased(was[j]);
    var before, after := xs + was[..j], was[j + 1..] + ys;
    var all, all' := xs + was + ys, xs + was[j := e'] + ys;
    assert all == before + [e] + after;
    assert all' == before + [e'] + after;
    TableErase(before, e, e', after);
    UniqueSame(all, all');
    InTable(all, e.name);
    assert all[|xs| + j] == e;
  }

  // ----- an image to start from

  const FIRST_DATA_BLOCK := 24
  const RESERVED_INODES := 11

  /** An image with nothing but a root directory. */
  function Formatted(): (img: Image)
    ensures img.Shape()
  {
    var unused := seq(POINTERS, _ => 0);
    var bits := (seq(INODE_NUM, i => i < RESERVED_INODES),
                 seq(BLOCK_NUM, i => i < FIRST_DATA_BLOCK || i == BLOCK_NUM - 1));
    Image(seq(INODE_NUM, _ => Inode(0, 0, 0, 0, 0, unused))
            [EXT2_ROOT_INO - 1 := Inode(EXT2_S_IFDIR, EXT2_BLOCK_SIZE, 2, 2, 0, unused[0 := FIRST_DATA_BLOCK])],
          seq(BLOCK_NUM, _ => Other)[FIRST_DATA_BLOCK := Entries(Dots(EXT2_ROOT_INO, EXT2_ROOT_INO))],
          bits.0, bits.1, Zeros(bits.0), Zeros(bits.0), Zeros(bits.1), Zeros(bits.1))
  }

  /** The blocks of the file system itself in that image. */
  function Reserved(): set<int> { set b: int | 1 <= b < FIRST_DATA_BLOCK && Formatted().Marked(b) }

  lemma FormattedRoot()
    ensures var img := Formatted();
            && (forall n :: img.Directory(n) <==> n == EXT2_ROOT_INO) && img.At(EXT2_ROOT_INO) == [FIRST_DATA_BLOCK]
            && (forall b :: img.Marked(b) <==> 1 <= b <= FIRST_DATA_BLOCK)
            && (forall b :: Content(img.blocks, b) == if b == FIRST_DATA_BLOCK
               then Dots(EXT2_ROOT_INO, EXT2_ROOT_INO) else [])
            && (forall b | 0 <= b < BLOCK_NUM :: img.blocks[b].Entries? <==> b == FIRST_DATA_BLOCK)
            && img.blocks[FIRST_DATA_BLOCK] == Entries(Dots(EXT2_ROOT_INO, EXT2_ROOT_INO))
               && img.blockBits[BLOCK_NUM - 1]
            && (forall n | img.Used(n) && n != EXT2_ROOT_INO :: img.Node(n).links == 0)
            && (forall n | img.File(n) :: img.FileAt(n) == [])
            && var root := img.Node(EXT2_ROOT_INO); root.size == EXT2_BLOCK_SIZE && root.sectors == 2 && root.links == 2
  {
  }

  lemma FormattedCount(k: Kind)
    ensures CountAll(Formatted().blocks, k) == 0
  {
    var others := seq(BLOCK_NUM, _ => Other);
    CountAllNone(others, k);
    CountAllSet(others, FIRST_DATA_BLOCK, Dots(EXT2_ROOT_INO, EXT2_ROOT_INO), k);
    DotsCounts(EXT2_ROOT_INO, EXT2_ROOT_INO, k);
  }

  lemma FormattedOwned()
    ensures Owned(Formatted(), Reserved())
  {
    hide Formatted, Dots, Lines, Flat, Image.File, Image.FileAt;
    var img := Formatted();
    FormattedRoot();
    assert FilesOwned(img, Reserved());
    assert forall n, i, b :: img.Owns(n, i, b) <==> n == EXT2_ROOT_INO && i == 0 && b == FIRST_DATA_BLOCK;
    assert img.Owns(EXT2_ROOT_INO, 0, FIRST_DATA_BLOCK);
    assert DirShape(img, EXT2_ROOT_INO);
  }

  lemma FormattedBlocks()
    ensures BlocksOk(Formatted()) && Dotted(Formatted(), 0)
  {
    hide Formatted, Dots, Tiled, Image.At, StartsWithDots;
    FormattedRoot();
    DotsTiled(EXT2_ROOT_INO, EXT2_ROOT_INO);
    DotsOk(Formatted(), EXT2_ROOT_INO, EXT2_ROOT_INO);
    RootDots(Formatted());
  }

  lemma FormattedLines()
    ensures Lines(Formatted(), EXT2_ROOT_INO) == Dots(EXT2_ROOT_INO, EXT2_ROOT_INO)
  {
    hide Formatted, Dots, Flat, Image.At;
    var img := Formatted();
    FormattedRoot();
    FlatLast(img.blocks, [], FIRST_DATA_BLOCK);
    EmptyFlat(img.blocks);
    assert [] + [FIRST_DATA_BLOCK] == [FIRST_DATA_BLOCK];
  }

  lemma FormattedLinked()
    ensures Unique(Formatted()) && Linked(Formatted(), 0, 0)
  {
    hide Formatted, Dots, CountAll, Count, Lines, UniqueNames, Image.Directory, Content;
    var img := Formatted();
    FormattedRoot();
    FormattedLines();
    DotsTiled(EXT2_ROOT_INO, EXT2_ROOT_INO);
    DotsCounts(EXT2_ROOT_INO, EXT2_ROOT_INO, Subdirectories);
    forall n ensures CountAll(img.blocks, NamesOf(n)) == 0 { FormattedCount(NamesOf(n)); }
  }

  lemma EmptyFlat(blocks: seq<Block>)
    ensures Flat(blocks, []) == []
  {
  }

  /** There are consistent images: this is one. */
  lemma FormattedConsistent()
    ensures Consistent(Formatted(), Reserved())
  {
    hide Owned, BlocksOk, Dotted, Unique, Linked;
    FormattedRoot();
    FormattedOwned();
    FormattedBlocks();
    FormattedLinked();
  }

  lemma RootDots(img: Image)
    requires img.Directory(EXT2_ROOT_INO)
    ensures StartsWithDots(img, Dots(EXT2_ROOT_INO, EXT2_ROOT_INO), EXT2_ROOT_INO)
  {
  }
}

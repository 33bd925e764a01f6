/** The entries of a directory block (File System/ext2.h, ext2_mkdir.c, ext2_ln.c, ext2_rm.c). */
module DirectoryBlock {

  const EXT2_BLOCK_SIZE := 1024
  const EXT2_NAME_LEN := 255
  const EXT2_FT_REG_FILE := 1
  const EXT2_FT_DIR := 2
  const EXT2_FT_SYMLINK := 7

  /** EXT2_DIR_REC_LEN: an eight-byte header and the name, up to the next multiple of four. */
  function RecLen(nameLen: nat): nat { (nameLen + 8 + 3) / 4 * 4 }

  /** The name's length is the source's name_len; an entry that names nothing has none. */
  datatype Entry = Entry(inode: int, recLen: int, fileType: int, name: string) {
    predicate Live() { name != "" }

    predicate Fits() { |name| <= EXT2_NAME_LEN && recLen % 4 == 0 && RecLen(|name|) <= recLen }

    /** An entry that gives inode n a name, other than the two every directory starts with. */
    predicate Names(n: int) { Live() && name != "." && name != ".." && inode == n }

    predicate Subdirectory() { Live() && name != "." && name != ".." && fileType == EXT2_FT_DIR }
  }

  function Length(es: seq<Entry>): int {
    if es == [] then 0 else Length(es[..|es| - 1]) + es[|es| - 1].recLen
  }

  /** The entries fill the block exactly, each with room for its name. */
  ghost predicate Tiled(es: seq<Entry>) {
    es != [] && Length(es) == EXT2_BLOCK_SIZE && forall e | e in es :: e.Fits()
  }

  // ----- a block as a table of names

  datatype Target = Target(inode: int, fileType: int)

  /** What a search from the front finds under each name. */
  function Table(es: seq<Entry>): map<string, Target> {
    if es == [] then map[]
    else
      var e := es[|es| - 1];
      var rest := Table(es[..|es| - 1]);
      if e.Live() && e.name !in rest then rest[e.name := Target(e.inode, e.fileType)] else rest
  }

  ghost predicate UniqueNames(es: seq<Entry>) {
    forall i, j | 0 <= i < j < |es| && es[i].Live() :: es[i].name != es[j].name
  }

  lemma {:induction false} InTable(es: seq<Entry>, name: string)
    ensures name in Table(es) <==> exists i :: 0 <= i < |es| && es[i].Live() && es[i].name == name
  {
    if es != [] {
      var rest := es[..|es| - 1];
      InTable(rest, name);
      if i :| 0 <= i < |es| && es[i].Live() && es[i].name == name {
        if i < |es| - 1 { assert rest[i].name == name; }
      }
    }
  }

  /** The first entry of a name is the one the table holds. */
  lemma {:induction false} FirstInTable(es: seq<Entry>, i: nat)
    requires i < |es| && es[i].Live() && forall j | 0 <= j < i :: es[j].name != es[i].name
    ensures es[i].name in Table(es) && Table(es)[es[i].name] == Target(es[i].inode, es[i].fileType)
  {
    InTable(es, es[i].name);
    var rest := es[..|es| - 1];
    if i < |es| - 1 {
      FirstInTable(rest, i);
    } else {
      InTable(rest, es[i].name);
    }
  }

  /** An entry with a new name, put in anywhere, adds that name alone. */
  lemma {:induction false} TableInsert(xs: seq<Entry>, e: Entry, ys: seq<Entry>)
    requires e.Live() && e.name !in Table(xs + ys)
    ensures Table(xs + [e] + ys) == Table(xs + ys)[e.name := Target(e.inode, e.fileType)]
  {
    if ys == [] {
      assert xs + ys == xs && xs + [e] + ys == xs + [e] && (xs + [e])[..|xs|] == xs;
    } else {
      var y, rest := ys[|ys| - 1], ys[..|ys| - 1];
      assert (xs + ys)[..|xs + ys| - 1] == xs + rest;
      assert (xs + [e] + ys)[..|xs + [e] + ys| - 1] == xs + [e] + rest;
      TableInsert(xs, e, rest);
    }
  }

  lemma TableSnoc(es: seq<Entry>, e: Entry)
    ensures Table(es + [e]) ==
            if e.Live() && e.name !in Table(es) then Table(es)[e.name := Target(e.inode, e.fileType)] else Table(es)
    ensures Length(es + [e]) == Length(es) + e.recLen
  {
    assert (es + [e])[..|es + [e]| - 1] == es;
  }

  lemma UniqueFront(es: seq<Entry>, e: Entry)
    requires UniqueNames(es + [e])
    ensures UniqueNames(es) && forall i | 0 <= i < |es| && es[i].Live() :: es[i].name != e.name
  {
    var all := es + [e];
    assert forall i | 0 <= i < |es| :: all[i] == es[i];
    assert all[|es|] == e;
  }

  /** Clearing an entry deletes its name alone. */
  lemma {:induction false} TableErase(xs: seq<Entry>, e: Entry, e': Entry, ys: seq<Entry>)
    requires e.Live() && !e'.Live() && UniqueNames(xs + [e] + ys)
    ensures Table(xs + [e'] + ys) == Table(xs + [e] + ys) - {e.name}
  {
    hide Table, UniqueNames;
    if ys == [] {
      assert xs + [e'] + ys == xs + [e'] && xs + [e] + ys == xs + [e];
      TableSnoc(xs, e);
      TableSnoc(xs, e');
      UniqueFront(xs, e);
      InTable(xs, e.name);
    } else {
      var y, rest := ys[|ys| - 1], ys[..|ys| - 1];
      assert xs + [e] + ys == (xs + [e] + rest) + [y] && xs + [e'] + ys == (xs + [e'] + rest) + [y];
      TableSnoc(xs + [e] + rest, y);
      TableSnoc(xs + [e'] + rest, y);
      UniqueFront(xs + [e] + rest, y);
      assert (xs + [e] + rest)[|xs|] == e;
      TableErase(xs, e, e', rest);
    }
  }

  /** The lengths of entries do not matter to the table. */
  lemma {:induction false} TableSame(es: seq<Entry>, es': seq<Entry>)
    requires |es| == |es'|
    requires forall i | 0 <= i < |es| ::
             es[i].name == es'[i].name && es[i].inode == es'[i].inode && es[i].fileType == es'[i].fileType
    ensures Table(es) == Table(es')
  {
    if es != [] { TableSame(es[..|es| - 1], es'[..|es| - 1]); }
  }

  // ----- insertion by splitting the last entry

  /** Room for a name of this length behind the last entry. */
  predicate Slack(es: seq<Entry>, nameLen: nat) {
    es != [] && RecLen(nameLen) + RecLen(|es[|es| - 1].name|) <= es[|es| - 1].recLen
  }

  /** The last entry is cut to its need and the new one takes what is left. */
  function Split(es: seq<Entry>, inode: int, fileType: int, name: string): seq<Entry>
    requires es != []
  {
    var last := es[|es| - 1];
    var need := RecLen(|last.name|);
    es[..|es| - 1] + [last.(recLen := need), Entry(inode, last.recLen - need, fileType, name)]
  }

  lemma LengthSplit(es: seq<Entry>, es': seq<Entry>)
    requires es != [] && |es'| == 2
    ensures Length(es[..|es| - 1] + es') == Length(es) - es[|es| - 1].recLen + es'[0].recLen + es'[1].recLen
  {
    var xs := es[..|es| - 1];
    assert (xs + es')[..|xs| + 1] == xs + [es'[0]];
    assert (xs + [es'[0]])[..|xs|] == xs;
  }

  /** The least multiple of four that holds the eight bytes and the name. */
  lemma RecLenPadded(nameLen: nat)
    ensures RecLen(nameLen) % 4 == 0 && nameLen + 8 <= RecLen(nameLen) < nameLen + 8 + 4
  {
  }

  /** There is room behind the last entry exactly if its length can be divided, in multiples of four,
      into enough for itself and enough for the name. */
  lemma SlackExact(es: seq<Entry>, nameLen: nat)
    requires Tiled(es)
    ensures var last := es[|es| - 1];
            Slack(es, nameLen) <==>
            exists need, left :: Divides(last.recLen, need, left) && |last.name| + 8 <= need && nameLen + 8 <= left
  {
    hide RecLen, Length;
    var last := es[|es| - 1];
    assert last in es;
    RecLenPadded(|last.name|);
    RecLenPadded(nameLen);
    if Slack(es, nameLen) {
      assert Divides(last.recLen, RecLen(|last.name|), last.recLen - RecLen(|last.name|));
    }
  }

  predicate Divides(whole: int, need: int, left: int) { need + left == whole && need % 4 == 0 && left % 4 == 0 }

  lemma SplitTiled(es: seq<Entry>, inode: int, fileType: int, name: string)
    requires Tiled(es) && Slack(es, |name|) && |name| <= EXT2_NAME_LEN
    ensures Tiled(Split(es, inode, fileType, name))
    ensures var es', last := Split(es, inode, fileType, name), es[|es| - 1];
            && |es'| == |es| + 1 && es'[..|es| - 1] == es[..|es| - 1]
            && es'[|es| - 1] == last.(recLen := RecLen(|last.name|))
            && es'[|es|] == Entry(inode, last.recLen - RecLen(|last.name|), fileType, name)
  {
    hide Length, RecLen;
    var last, xs := es[|es| - 1], es[..|es| - 1];
    var es' := Split(es, inode, fileType, name);
    var two := es'[|es| - 1..];
    RecLenPadded(|last.name|);
    assert last in es;
    LengthSplit(es, two);
    assert es' == xs + two;
    forall e | e in es' ensures e.Fits() {
      if e !in xs { assert e == two[0] || e == two[1]; }
    }
  }

  /** The whole of a new block for one entry. */
  lemma AloneTiled(inode: int, fileType: int, name: string)
    requires |name| <= EXT2_NAME_LEN
    ensures Tiled([Entry(inode, EXT2_BLOCK_SIZE, fileType, name)])
  {
    var e := Entry(inode, EXT2_BLOCK_SIZE, fileType, name);
    assert [e][..0] == [];
  }

  /** The first block of a new directory. */
  function Dots(inode: int, parent: int): seq<Entry> {
    [Entry(inode, RecLen(1), EXT2_FT_DIR, "."), Entry(parent, EXT2_BLOCK_SIZE - RecLen(2), EXT2_FT_DIR, "..")]
  }

  lemma DotsTiled(inode: int, parent: int)
    ensures Tiled(Dots(inode, parent)) && UniqueNames(Dots(inode, parent))
    ensures |Dots(inode, parent)| == 2 && Dots(inode, parent)[0].recLen == 12 && Dots(inode, parent)[1].recLen == 1012
    ensures Table(Dots(inode, parent)) == map["." := Target(inode, EXT2_FT_DIR), ".." := Target(parent, EXT2_FT_DIR)]
  {
    var es := Dots(inode, parent);
    var one := [es[0]];
    TableSnoc([], es[0]);
    TableSnoc(one, es[1]);
    assert [] + [es[0]] == one && one + [es[1]] == es;
  }

  // ----- removal

  function Erased(e: Entry): Entry { e.(inode := 0, fileType := 0, name := "") }

  lemma {:induction false} LengthSame(es: seq<Entry>, es': seq<Entry>)
    requires |es| == |es'| && forall i | 0 <= i < |es| :: es[i].recLen == es'[i].recLen
    ensures Length(es) == Length(es')
  {
    if es != [] { LengthSame(es[..|es| - 1], es'[..|es| - 1]); }
  }

  lemma EraseTiled(es: seq<Entry>, j: nat)
    requires Tiled(es) && j < |es|
    ensures Tiled(es[j := Erased(es[j])])
  {
    var es' := es[j := Erased(es[j])];
    LengthSame(es, es');
    assert es[j].Fits();
    forall e | e in es' ensures e.Fits() {
      var i :| 0 <= i < |es'| && es'[i] == e;
      assert es[i].Fits();
    }
  }

  /** How far into the block entry j begins; the walk ends exactly at the block's end. */
  lemma {:induction false} Walk(es: seq<Entry>, j: nat)
    requires j < |es| && forall e | e in es :: e.Fits()
    ensures Length(es[..j + 1]) == Length(es[..j]) + es[j].recLen
    ensures 0 <= Length(es[..j]) < Length(es[..j + 1]) <= Length(es)
    ensures j + 1 < |es| ==> Length(es[..j + 1]) < Length(es)
    decreases |es|
  {
    assert es[..j + 1][..j] == es[..j];
    assert es[j] in es;
    if j > 0 { Walk(es[..j], j - 1); assert es[..j][..j - 1 + 1] == es[..j]; }
    if j + 1 < |es| {
      var front := es[..|es| - 1];
      assert es[|es| - 1] in es;
      assert front[..j + 1] == es[..j + 1] && front[..j] == es[..j];
      Walk(front, j);
    } else {
      assert es[..j + 1] == es;
    }
  }
}

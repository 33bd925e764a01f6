/** Looking up paths (find_dir_inode in ext2_mkdir.c, ext2_ln.c and ext2_rm.c), and when what it
    answers is where the path leads. */
module Ext2Lookup {
  import opened DirectoryBlock
  import opened Ext2Image
  import opened Ext2Laws
  import opened Sets

  // ----- where a path leads

  /** Astray: the lookup has come to bytes that are no directory entries, and what it makes of them
      is not part of this model. */
  datatype Place = Found(inode: int) | Missing | NotDirectory | Astray

  function Leads(t: Target): Place {
    if t.fileType == EXT2_FT_REG_FILE || t.fileType == EXT2_FT_SYMLINK then NotDirectory else Found(t.inode)
  }

  function Answer(names: map<string, Target>, name: string): Place {
    if name in names then Leads(names[name]) else Missing
  }

  /** Where a path leads from directory n. */
  function Resolve(img: Image, n: int, path: seq<string>): Place
    decreases |path|
  {
    if path == [] then Found(n)
    else
      match Answer(Table(Lines(img, n)), path[0])
      case Found(m) => Resolve(img, m, path[1..])
      case other => other
  }

  // ----- what the lookup does

  /** The blocks the lookup goes through: where it means the next block of the directory it steps
      to the next block of the disk. */
  function Run(img: Image, n: int): seq<int> {
    var at := img.At(n);
    seq(|at|, i requires 0 <= i < |at| => at[0] + i)
  }

  predicate Readable(blocks: seq<Block>, b: int) { 0 <= b < |blocks| && blocks[b].Entries? }

  function Search(blocks: seq<Block>, run: seq<int>, name: string): Place
    decreases |run|
  {
    if run == [] then Missing
    else if !Readable(blocks, run[0]) then Astray
    else if name in Table(blocks[run[0]].es) then Leads(Table(blocks[run[0]].es)[name])
    else Search(blocks, run[1..], name)
  }

  function Lookup(img: Image, n: int, path: seq<string>): Place
    decreases |path|
  {
    if path == [] then Found(n)
    else
      match Search(img.blocks, Run(img, n), path[0])
      case Found(m) => Lookup(img, m, path[1..])
      case other => other
  }

  // ----- when the two agree

  function NamesIn(blocks: seq<Block>, b: int): map<string, Target> { Table(Content(blocks, b)) }

  /** The first of the run's blocks that carries the name, or the length of the run. */
  function FirstWith(blocks: seq<Block>, run: seq<int>, name: string): (k: nat)
    ensures k <= |run| && (k < |run| ==> name in NamesIn(blocks, run[k]))
    ensures forall i | 0 <= i < k :: name !in NamesIn(blocks, run[i])
    decreases |run|
  {
    if run == [] || name in NamesIn(blocks, run[0]) then 0 else 1 + FirstWith(blocks, run[1..], name)
  }

  /** The run stays among directory blocks; a name in a block of the directory that the run leaves
      out is in some block of the run; and what a block of another directory is first to name in
      the run, the directory itself names alike. */
  ghost predicate Unmistaken(img: Image, n: int) {
    var at, run := img.At(n), Run(img, n);
    && (forall i | 0 <= i < |run| :: Readable(img.blocks, run[i]))
    && (forall i, name | 0 <= i < |at| && at[i] !in run && name in NamesIn(img.blocks, at[i]) ::
          FirstWith(img.blocks, run, name) < |run|)
    && (forall i, name | 0 <= i < |run| && run[i] !in at && name in NamesIn(img.blocks, run[i])
                         && FirstWith(img.blocks, run, name) == i ::
          Answer(Table(Lines(img, n)), name) == Leads(NamesIn(img.blocks, run[i])[name]))
  }

  /** A name that a path can have. */
  predicate Nameable(name: string) { 1 <= |name| <= EXT2_NAME_LEN }

  ghost predicate Agrees(img: Image, n: int, name: string) {
    Search(img.blocks, Run(img, n), name) == Answer(Table(Lines(img, n)), name)
  }

  lemma {:induction false} SearchFirst(blocks: seq<Block>, run: seq<int>, name: string)
    requires forall i | 0 <= i < |run| :: Readable(blocks, run[i])
    ensures var k := FirstWith(blocks, run, name);
            Search(blocks, run, name) == if k < |run| then Leads(NamesIn(blocks, run[k])[name]) else Missing
    decreases |run|
  {
    if run != [] {
      forall i | 0 <= i < |run[1..]| ensures Readable(blocks, run[1..][i]) { assert run[1..][i] == run[i + 1]; }
      SearchFirst(blocks, run[1..], name);
    }
  }

  /** A directory names what its blocks name, and nothing else. */
  lemma {:induction false} FlatNames(blocks: seq<Block>, at: seq<int>, name: string)
    ensures name in Table(Flat(blocks, at)) <==> exists i :: 0 <= i < |at| && name in NamesIn(blocks, at[i])
  {
    hide Table, Content;
    if at != [] {
      var front, b := at[..|at| - 1], at[|at| - 1];
      FlatNames(blocks, front, name);
      ConcatNames(Flat(blocks, front), Content(blocks, b), name);
      assert forall i | 0 <= i < |front| :: front[i] == at[i];
    } else {
      InTable([], name);
    }
  }

  lemma ConcatNames(xs: seq<Entry>, ys: seq<Entry>, name: string)
    ensures name in Table(xs + ys) <==> name in Table(xs) || name in Table(ys)
  {
    hide Table;
    var all := xs + ys;
    InTable(xs, name);
    InTable(ys, name);
    InTable(all, name);
    if i :| 0 <= i < |xs| && xs[i].Live() && xs[i].name == name { assert all[i] == xs[i]; }
    if i :| 0 <= i < |ys| && ys[i].Live() && ys[i].name == name { assert all[|xs| + i] == ys[i]; }
    if i :| 0 <= i < |all| && all[i].Live() && all[i].name == name {
      assert if i < |xs| then xs[i] == all[i] else ys[i - |xs|] == all[i];
    }
  }

  lemma {:induction false} TableEntry(es: seq<Entry>, name: string) returns (k: nat)
    requires name in Table(es)
    ensures k < |es| && es[k].Live() && es[k].name == name && Table(es)[name] == Target(es[k].inode, es[k].fileType)
  {
    var front := es[..|es| - 1];
    if name in Table(front) {
      k := TableEntry(front, name);
    } else {
      k := |es| - 1;
    }
  }

  /** With every name there once, a part names what the whole names. */
  lemma PartNames(xs: seq<Entry>, es: seq<Entry>, ys: seq<Entry>, name: string)
    requires UniqueNames(xs + es + ys) && name in Table(es)
    ensures name in Table(xs + es + ys) && Table(xs + es + ys)[name] == Table(es)[name]
  {
    hide Table;
    var k := TableEntry(es, name);
    var all := xs + es + ys;
    assert all[|xs| + k] == es[k];
    FirstInTable(all, |xs| + k);
  }

  lemma OwnNames(img: Image, n: int, i: nat, name: string)
    requires img.Shape() && Unique(img) && img.Directory(n) && i < |img.At(n)|
             && name in NamesIn(img.blocks, img.At(n)[i])
    ensures name in Table(Lines(img, n)) && Table(Lines(img, n))[name] == NamesIn(img.blocks, img.At(n)[i])[name]
  {
    hide Table, Content, UniqueNames;
    var at := img.At(n);
    assert at == at[..i] + [at[i]] + at[i + 1..];
    FlatSplit(img.blocks, at[..i], at[i], at[i + 1..]);
    PartNames(Flat(img.blocks, at[..i]), Content(img.blocks, at[i]), Flat(img.blocks, at[i + 1..]), name);
  }

  lemma AgreesIfUnmistaken(img: Image, n: int, name: string)
    requires img.Shape() && Unique(img) && img.Directory(n) && Unmistaken(img, n)
    ensures Agrees(img, n, name)
  {
    hide Table, Search, Content, Flat, Unique, Answer, Leads, Run, NamesIn;
    var at, run, blocks := img.At(n), Run(img, n), img.blocks;
    SearchFirst(blocks, run, name);
    var k := FirstWith(blocks, run, name);
    AnswerIs(Table(Lines(img, n)), name);
    if k < |run| {
      if run[k] in at {
        var i :| 0 <= i < |at| && at[i] == run[k];
        OwnNames(img, n, i, name);
      }
    } else {
      FlatNames(blocks, at, name);
      forall i | 0 <= i < |at| ensures name !in NamesIn(blocks, at[i]) {
        if at[i] in run { var j :| 0 <= j < |run| && run[j] == at[i]; }
      }
    }
  }

  lemma AnswerIs(names: map<string, Target>, name: string)
    ensures Answer(names, name) == if name in names then Leads(names[name]) else Missing
    ensures name in names ==> !Answer(names, name).Missing? && !Answer(names, name).Astray?
  {
  }

  // ----- a name that nothing has

  function TwoLetters(k: nat): string
    requires k < 40000
  {
    [(48 + k / 200) as char, (48 + k % 200) as char]
  }

  lemma TwoLettersDiffer(j: nat, k: nat)
    requires j < k < 40000
    ensures TwoLetters(j) != TwoLetters(k)
  {
    var at := if j / 200 == k / 200 then 1 else 0;
    assert TwoLetters(j)[at] != TwoLetters(k)[at];
  }

  /** Fewer than m names leave out one of the first m two-letter names. */
  lemma {:induction false} LeftOut(names: set<string>, m: nat) returns (k: nat)
    requires |names| < m <= 40000
    ensures k < m && TwoLetters(k) !in names
    decreases m
  {
    var last := TwoLetters(m - 1);
    if last !in names {
      k := m - 1;
    } else {
      assert |names - {last}| == |names| - 1;
      k := LeftOut(names - {last}, m - 1);
      TwoLettersDiffer(k, m - 1);
    }
  }

  lemma {:induction false} FewEntries(es: seq<Entry>)
    requires forall e | e in es :: e.Fits()
    ensures 8 * |es| <= Length(es) && |Table(es).Keys| <= |es|
  {
    if es != [] {
      var front, e := es[..|es| - 1], es[|es| - 1];
      FewEntries(front);
      assert e in es;
      RecLenPadded(|e.name|);
      assert Table(es).Keys <= Table(front).Keys + {e.name};
      SubsetSize(Table(es).Keys, Table(front).Keys + {e.name});
    }
  }

  function AllNames(blocks: seq<Block>, run: seq<int>): set<string> {
    if run == [] then {} else AllNames(blocks, run[..|run| - 1]) + NamesIn(blocks, run[|run| - 1]).Keys
  }

  ghost predicate EntriesTiled(blocks: seq<Block>) {
    forall b | 0 <= b < |blocks| && blocks[b].Entries? :: Tiled(blocks[b].es)
  }

  lemma {:induction false} FewNames(blocks: seq<Block>, run: seq<int>)
    requires EntriesTiled(blocks)
    ensures |AllNames(blocks, run)| <= 128 * |run|
  {
    hide NamesIn, EntriesTiled;
    if run != [] {
      FewNames(blocks, run[..|run| - 1]);
      FewInBlock(blocks, run[|run| - 1]);
      UnionSize(AllNames(blocks, run[..|run| - 1]), NamesIn(blocks, run[|run| - 1]).Keys);
    }
  }

  lemma {:induction false} AllNamesIn(blocks: seq<Block>, run: seq<int>, i: nat)
    requires i < |run|
    ensures NamesIn(blocks, run[i]).Keys <= AllNames(blocks, run)
  {
    hide NamesIn;
    if i < |run| - 1 { AllNamesIn(blocks, run[..|run| - 1], i); }
  }

  lemma FewInBlock(blocks: seq<Block>, b: int)
    requires EntriesTiled(blocks)
    ensures |NamesIn(blocks, b).Keys| <= 128
  {
    hide Table;
    if Readable(blocks, b) {
      FewEntries(blocks[b].es);
    } else {
      FewEntries([]);
    }
  }

  /** A name that no block of two runs has. */
  lemma FreshName(blocks: seq<Block>, run: seq<int>, at: seq<int>) returns (name: string)
    requires EntriesTiled(blocks) && |run| <= DIRECT && |at| <= DIRECT
    ensures Nameable(name) && (forall i | 0 <= i < |run| :: name !in NamesIn(blocks, run[i]))
    ensures forall i | 0 <= i < |at| :: name !in NamesIn(blocks, at[i])
  {
    hide NamesIn, EntriesTiled;
    FewNames(blocks, run);
    FewNames(blocks, at);
    var s, t := AllNames(blocks, run), AllNames(blocks, at);
    UnionSize(s, t);
    forall i | 0 <= i < |run| ensures NamesIn(blocks, run[i]).Keys <= s { AllNamesIn(blocks, run, i); }
    forall i | 0 <= i < |at| ensures NamesIn(blocks, at[i]).Keys <= t { AllNamesIn(blocks, at, i); }
    var k := LeftOut(s + t, 40000);
    name := TwoLetters(k);
  }

  lemma {:induction false} SearchAstray(blocks: seq<Block>, run: seq<int>, i: nat, name: string)
    requires i < |run| && !Readable(blocks, run[i]) && forall j | 0 <= j < |run| :: name !in NamesIn(blocks, run[j])
    ensures Search(blocks, run, name) == Astray
    decreases |run|
  {
    if Readable(blocks, run[0]) {
      var rest := run[1..];
      assert name !in NamesIn(blocks, run[0]);
      assert rest[i - 1] == run[i];
      forall j | 0 <= j < |rest| ensures name !in NamesIn(blocks, rest[j]) { assert rest[j] == run[j + 1]; }
      SearchAstray(blocks, rest, i - 1, name);
    }
  }

  lemma ReadableIfAgreeing(img: Image, held: set<int>, n: int)
    requires Consistent(img, held) && img.Directory(n) && forall name | Nameable(name) :: Agrees(img, n, name)
    ensures forall i | 0 <= i < |Run(img, n)| :: Readable(img.blocks, Run(img, n)[i])
  {
    hide Table, Search, Content, Flat, Dotted, Unique, Linked, Counted, Tiled, NamesIn, Answer;
    var at, run := img.At(n), Run(img, n);
    OwnedShape(img, held, n);
    if i :| 0 <= i < |run| && !Readable(img.blocks, run[i]) {
      var name := FreshName(img.blocks, run, at);
      SearchAstray(img.blocks, run, i, name);
      FlatNames(img.blocks, at, name);
      AnswerIs(Table(Lines(img, n)), name);
      assert false;
    }
  }

  lemma NamesFit(img: Image, b: int, name: string)
    requires img.Shape() && BlocksOk(img) && name in NamesIn(img.blocks, b)
    ensures Nameable(name)
  {
    hide Table;
    var es := Content(img.blocks, b);
    InTable(es, name);
    var k :| 0 <= k < |es| && es[k].Live() && es[k].name == name;
    if !Readable(img.blocks, b) { InTable([], name); }
    assert es[k] in es && es[k].Fits();
  }

  lemma UnmistakenIfAgreeing(img: Image, held: set<int>, n: int)
    requires Consistent(img, held) && img.Directory(n) && forall name | Nameable(name) :: Agrees(img, n, name)
    ensures Unmistaken(img, n)
  {
    hide Table, Search, Content, Flat, Owned, Dotted, Unique, Linked, Counted, BlocksOk, Run,
        NamesIn, Answer, Leads, Nameable;
    var at, run, blocks := img.At(n), Run(img, n), img.blocks;
    ReadableIfAgreeing(img, held, n);
    forall i, name | 0 <= i < |at| && at[i] !in run && name in NamesIn(blocks, at[i])
      ensures FirstWith(blocks, run, name) < |run|
    {
      NamesFit(img, at[i], name);
      SearchFirst(blocks, run, name);
      FlatNames(blocks, at, name);
      AnswerIs(Table(Lines(img, n)), name);
      assert Agrees(img, n, name);
    }
    forall i, name | 0 <= i < |run| && run[i] !in at && name in NamesIn(blocks, run[i])
        && FirstWith(blocks, run, name) == i
      ensures Answer(Table(Lines(img, n)), name) == Leads(NamesIn(blocks, run[i])[name])
    {
      NamesFit(img, run[i], name);
      SearchFirst(blocks, run, name);
      assert Agrees(img, n, name);
    }
  }

  /** Looking up names in a directory goes right exactly if its blocks and the run's are so. */
  lemma LookupExact(img: Image, held: set<int>, n: int)
    requires Consistent(img, held) && img.Directory(n)
    ensures (forall name | Nameable(name) :: Agrees(img, n, name)) <==> Unmistaken(img, n)
  {
    hide Owned, Dotted, Unique, Linked, Counted, BlocksOk, Unmistaken, Agrees, Nameable;
    if forall name | Nameable(name) :: Agrees(img, n, name) {
      UnmistakenIfAgreeing(img, held, n);
    }
    if Unmistaken(img, n) {
      forall name ensures Agrees(img, n, name) { AgreesIfUnmistaken(img, n, name); }
    }
  }

  lemma RunStraight(img: Image, n: int)
    requires forall i | 0 <= i < |img.At(n)| :: img.At(n)[i] == img.At(n)[0] + i
    ensures Run(img, n) == img.At(n)
  {
  }

  lemma OwnReadable(img: Image, held: set<int>, n: int)
    requires img.Shape() && Owned(img, held) && img.Directory(n)
    ensures forall i | 0 <= i < |img.At(n)| :: Readable(img.blocks, img.At(n)[i])
  {
    OwnedShape(img, held, n);
  }

  /** It is so for blocks that follow each other on the disk. */
  lemma ContiguousUnmistaken(img: Image, held: set<int>, n: int)
    requires Consistent(img, held) && img.Directory(n) && forall i | 0 <= i < |img.At(n)| ::
             img.At(n)[i] == img.At(n)[0] + i
    ensures Unmistaken(img, n)
  {
    hide Owned, Dotted, Unique, Linked, Counted, BlocksOk, NamesIn, FirstWith, Lines, Table, Run,
        Image.At, Readable, Answer, Leads;
    RunStraight(img, n);
    OwnReadable(img, held, n);
  }

  // ----- whole paths

  /** What a block names is in use, and a directory exactly if it says so. */
  lemma BlockTarget(img: Image, b: int, name: string)
    requires img.Shape() && BlocksOk(img) && name in NamesIn(img.blocks, b)
    ensures var t := NamesIn(img.blocks, b)[name];
            && img.Used(t.inode) && t.fileType in {EXT2_FT_REG_FILE, EXT2_FT_DIR, EXT2_FT_SYMLINK}
            && (t.fileType == EXT2_FT_DIR <==> img.Directory(t.inode))
  {
    hide Table, Tiled, Image.Used, Image.Directory;
    var es := Content(img.blocks, b);
    var k := TableEntry(es, name);
    assert es[k] in es;
    assert EntryOk(img, es[k]);
  }

  /** Whatever a directory names is in use, and a directory exactly if it says so. */
  lemma TargetOk(img: Image, held: set<int>, n: int, name: string)
    requires Consistent(img, held) && img.Directory(n) && name in Table(Lines(img, n))
    ensures var t := Table(Lines(img, n))[name];
            && img.Used(t.inode) && t.fileType in {EXT2_FT_REG_FILE, EXT2_FT_DIR, EXT2_FT_SYMLINK}
            && (t.fileType == EXT2_FT_DIR <==> img.Directory(t.inode))
  {
    hide Owned, Dotted, Unique, Linked, Counted, BlocksOk, Table, Flat, NamesIn;
    FlatNames(img.blocks, img.At(n), name);
    var i :| 0 <= i < |img.At(n)| && name in NamesIn(img.blocks, img.At(n)[i]);
    OwnNames(img, n, i, name);
    BlockTarget(img, img.At(n)[i], name);
  }

  lemma LeadsToDirectory(img: Image, t: Target)
    requires t.fileType in {EXT2_FT_REG_FILE, EXT2_FT_DIR, EXT2_FT_SYMLINK}
             && (t.fileType == EXT2_FT_DIR <==> img.Directory(t.inode))
    ensures Leads(t) == if t.fileType == EXT2_FT_DIR then Found(t.inode) else NotDirectory
    ensures Leads(t).Found? ==> img.Directory(Leads(t).inode)
  {
  }

  lemma AnswerDirectory(img: Image, held: set<int>, n: int, name: string)
    requires Consistent(img, held) && img.Directory(n) && Answer(Table(Lines(img, n)), name).Found?
    ensures img.Directory(Answer(Table(Lines(img, n)), name).inode)
  {
    hide Consistent, Lines, Table;
    TargetOk(img, held, n, name);
    LeadsToDirectory(img, Table(Lines(img, n))[name]);
  }

  lemma {:induction false} SearchDirectory(img: Image, run: seq<int>, name: string)
    requires img.Shape() && BlocksOk(img) && Search(img.blocks, run, name).Found?
    ensures img.Directory(Search(img.blocks, run, name).inode)
    decreases |run|
  {
    hide BlocksOk, Table, Image.Directory, Leads;
    if name in Table(img.blocks[run[0]].es) {
      BlockTarget(img, run[0], name);
      LeadsToDirectory(img, NamesIn(img.blocks, run[0])[name]);
    } else {
      SearchDirectory(img, run[1..], name);
    }
  }

  lemma {:induction false} LookupDirectory(img: Image, n: int, path: seq<string>)
    requires img.Shape() && BlocksOk(img) && img.Directory(n) && Lookup(img, n, path).Found?
    ensures img.Directory(Lookup(img, n, path).inode)
    decreases |path|
  {
    hide BlocksOk, Search, Run;
    if path != [] {
      SearchDirectory(img, Run(img, n), path[0]);
      LookupDirectory(img, Search(img.blocks, Run(img, n), path[0]).inode, path[1..]);
    }
  }

  lemma {:induction false} ResolveDirectory(img: Image, held: set<int>, n: int, path: seq<string>)
    requires Consistent(img, held) && img.Directory(n) && Resolve(img, n, path).Found?
    ensures img.Directory(Resolve(img, n, path).inode)
    decreases |path|
  {
    hide Consistent, Lines, Table, Answer;
    if path != [] {
      AnswerDirectory(img, held, n, path[0]);
      ResolveDirectory(img, held, Answer(Table(Lines(img, n)), path[0]).inode, path[1..]);
    }
  }

  lemma {:induction false} ResolveAppend(img: Image, n: int, path: seq<string>, name: string)
    requires Resolve(img, n, path).Found?
    ensures Resolve(img, n, path + [name]) == Answer(Table(Lines(img, Resolve(img, n, path).inode)), name)
    decreases |path|
  {
    hide Table, Lines;
    if path == [] {
      assert path + [name] == [name] && [name][1..] == [];
    } else {
      assert (path + [name])[1..] == path[1..] + [name];
      ResolveAppend(img, Answer(Table(Lines(img, n)), path[0]).inode, path[1..], name);
    }
  }

  // ----- where a path leads, seen as a chain of directories

  ghost predicate NamesDirectory(img: Image, n: int, name: string, m: int) {
    name in Table(Lines(img, n)) && Table(Lines(img, n))[name] == Target(m, EXT2_FT_DIR)
  }

  /** Directory dirs[i] names directory dirs[i + 1] with the i-th name of the path. */
  ghost predicate Chain(img: Image, dirs: seq<int>, path: seq<string>) {
    |dirs| == |path| + 1 && forall i | 0 <= i < |path| :: NamesDirectory(img, dirs[i], path[i], dirs[i + 1])
  }

  lemma AnswerNames(img: Image, held: set<int>, n: int, name: string)
    requires Consistent(img, held) && img.Directory(n)
    ensures forall m :: NamesDirectory(img, n, name, m) <==> Answer(Table(Lines(img, n)), name) == Found(m)
    ensures Answer(Table(Lines(img, n)), name).Found? ==> img.Directory(Answer(Table(Lines(img, n)), name).inode)
  {
    hide Consistent, Lines, Table, Image.Directory;
    if name in Table(Lines(img, n)) { TargetOk(img, held, n, name); }
  }

  lemma LongerChain(img: Image, n: int, rest: seq<int>, path: seq<string>)
    requires path != [] && Chain(img, rest, path[1..]) && NamesDirectory(img, n, path[0], rest[0])
    ensures Chain(img, [n] + rest, path)
  {
    hide NamesDirectory;
    var dirs := [n] + rest;
    forall i | 0 <= i < |path| ensures NamesDirectory(img, dirs[i], path[i], dirs[i + 1]) {
      if i > 0 { assert NamesDirectory(img, rest[i - 1], path[1..][i - 1], rest[i - 1 + 1]); }
    }
  }

  lemma ShorterChain(img: Image, dirs: seq<int>, path: seq<string>)
    requires path != [] && Chain(img, dirs, path)
    ensures NamesDirectory(img, dirs[0], path[0], dirs[1]) && Chain(img, dirs[1..], path[1..])
  {
    hide NamesDirectory;
    assert NamesDirectory(img, dirs[0], path[0], dirs[0 + 1]);
    forall i | 0 <= i < |path| - 1 ensures NamesDirectory(img, dirs[1..][i], path[1..][i], dirs[1..][i + 1]) {
      assert NamesDirectory(img, dirs[i + 1], path[i + 1], dirs[i + 1 + 1]);
    }
  }

  /** A path leads to m exactly along a chain of directories each of which names the next one. */
  lemma {:induction false} ResolveChain(img: Image, held: set<int>, n: int, path: seq<string>, m: int)
    requires Consistent(img, held) && img.Directory(n)
    ensures Resolve(img, n, path) == Found(m)
            <==> exists dirs :: Chain(img, dirs, path) && dirs[0] == n && dirs[|path|] == m
    decreases |path|
  {
    hide Consistent, Lines, Table, Answer, NamesDirectory, Image.Directory;
    if path == [] {
      assert Chain(img, [n], path);
    } else {
      AnswerNames(img, held, n, path[0]);
      var next := Answer(Table(Lines(img, n)), path[0]);
      if next.Found? { ResolveChain(img, held, next.inode, path[1..], m); }
      if Resolve(img, n, path) == Found(m) {
        var rest :| Chain(img, rest, path[1..]) && rest[0] == next.inode && rest[|path| - 1] == m;
        LongerChain(img, n, rest, path);
        assert ([n] + rest)[|path|] == m;
      }
      if dirs :| Chain(img, dirs, path) && dirs[0] == n && dirs[|path|] == m {
        ShorterChain(img, dirs, path);
        assert dirs[1..][0] == next.inode && dirs[1..][|path| - 1] == m;
      }
    }
  }

  /** The first k names of the path lead to a directory that does not have the next one, or, if named,
      has it for something else than a directory. */
  ghost predicate StopsAt(img: Image, n: int, path: seq<string>, k: int, named: bool) {
    && 0 <= k < |path| && Resolve(img, n, path[..k]).Found?
    && var names := Table(Lines(img, Resolve(img, n, path[..k]).inode));
       if named then path[k] in names && names[path[k]].fileType != EXT2_FT_DIR else path[k] !in names
  }

  lemma StopsHere(img: Image, held: set<int>, n: int, path: seq<string>)
    requires Consistent(img, held) && img.Directory(n) && path != []
    ensures StopsAt(img, n, path, 0, false) <==> Answer(Table(Lines(img, n)), path[0]) == Missing
    ensures StopsAt(img, n, path, 0, true) <==> Answer(Table(Lines(img, n)), path[0]) == NotDirectory
    ensures Answer(Table(Lines(img, n)), path[0]) != Astray
  {
    hide Consistent, Lines, Table, Image.Directory;
    assert path[..0] == [];
    if path[0] in Table(Lines(img, n)) { TargetOk(img, held, n, path[0]); }
  }

  lemma StopsLater(img: Image, n: int, path: seq<string>, k: nat, named: bool)
    requires path != []
    ensures StopsAt(img, n, path, k + 1, named) <==>
            Answer(Table(Lines(img, n)), path[0]).Found?
            && StopsAt(img, Answer(Table(Lines(img, n)), path[0]).inode, path[1..], k, named)
  {
    hide Lines, Table, Answer;
    if k + 1 < |path| {
      assert path[..k + 1][0] == path[0] && path[..k + 1][1..] == path[1..][..k] && path[k + 1] == path[1..][k];
    }
  }

  lemma {:induction false} Stops(img: Image, held: set<int>, n: int, path: seq<string>, named: bool)
    requires Consistent(img, held) && img.Directory(n)
    ensures Resolve(img, n, path) == (if named then NotDirectory else Missing)
            <==> exists k :: StopsAt(img, n, path, k, named)
    decreases |path|
  {
    hide Consistent, Lines, Table, Answer, StopsAt, Image.Directory;
    if path == [] {
      forall k ensures !StopsAt(img, n, path, k, named) { NeverStops(img, n, k, named); }
    } else {
      StopsHere(img, held, n, path);
      var next := Answer(Table(Lines(img, n)), path[0]);
      if next.Found? {
        AnswerDirectory(img, held, n, path[0]);
        Stops(img, held, next.inode, path[1..], named);
        if k :| StopsAt(img, next.inode, path[1..], k, named) {
          StopsRange(img, next.inode, path[1..], k, named);
          StopsLater(img, n, path, k, named);
        }
      }
      if k :| StopsAt(img, n, path, k, named) && k != 0 {
        StopsRange(img, n, path, k, named);
        StopsLater(img, n, path, k - 1, named);
      }
    }
  }

  lemma NeverStops(img: Image, n: int, k: int, named: bool)
    ensures !StopsAt(img, n, [], k, named)
  {
  }

  lemma StopsRange(img: Image, n: int, path: seq<string>, k: int, named: bool)
    requires StopsAt(img, n, path, k, named)
    ensures 0 <= k < |path|
  {
  }

  /** A path leads nowhere exactly if a directory on it does not have the next name; and it is not one
      of directories exactly if a directory on it has the next name for something else. */
  lemma ResolveFails(img: Image, held: set<int>, path: seq<string>)
    requires Consistent(img, held)
    ensures Resolve(img, EXT2_ROOT_INO, path) == Missing <==> exists k :: StopsAt(img, EXT2_ROOT_INO, path, k, false)
    ensures Resolve(img, EXT2_ROOT_INO, path) == NotDirectory
            <==> exists k :: StopsAt(img, EXT2_ROOT_INO, path, k, true)
  {
    hide Consistent, StopsAt, Resolve;
    RootDirectory(img, held);
    Stops(img, held, EXT2_ROOT_INO, path, false);
    Stops(img, held, EXT2_ROOT_INO, path, true);
  }


  lemma {:induction false} LookupAppend(img: Image, n: int, path: seq<string>, name: string)
    requires Lookup(img, n, path).Found?
    ensures Lookup(img, n, path + [name]) == Search(img.blocks, Run(img, Lookup(img, n, path).inode), name)
    decreases |path|
  {
    hide Search, Run;
    if path == [] {
      assert path + [name] == [name] && [name][1..] == [];
    } else {
      assert (path + [name])[1..] == path[1..] + [name];
      LookupAppend(img, Search(img.blocks, Run(img, n), path[0]).inode, path[1..], name);
    }
  }

  predicate Proper(path: seq<string>) { forall name | name in path :: Nameable(name) }

  /** Every directory that the first names of the path lead to can be searched. */
  ghost predicate UnmistakenAlong(img: Image, n: int, path: seq<string>) {
    forall k | 0 <= k < |path| && Resolve(img, n, path[..k]).Found? :: Unmistaken(img, Resolve(img, n, path[..k]).inode)
  }

  lemma AlongRest(img: Image, n: int, path: seq<string>, m: int)
    requires path != [] && UnmistakenAlong(img, n, path)
    ensures Unmistaken(img, n)
    ensures Answer(Table(Lines(img, n)), path[0]) == Found(m) ==> UnmistakenAlong(img, m, path[1..])
  {
    hide Unmistaken, Answer, Table, Lines;
    assert path[..0] == [] && Resolve(img, n, []) == Found(n);
    if Answer(Table(Lines(img, n)), path[0]) == Found(m) {
      forall k | 0 <= k < |path| - 1 && Resolve(img, m, path[1..][..k]).Found?
        ensures Unmistaken(img, Resolve(img, m, path[1..][..k]).inode)
      {
        assert path[..k + 1][0] == path[0] && path[..k + 1][1..] == path[1..][..k];
        assert Resolve(img, n, path[..k + 1]) == Resolve(img, m, path[1..][..k]);
      }
    }
  }

  /** Then the lookup of the path goes right. */
  lemma {:induction false} LookupIfUnmistaken(img: Image, held: set<int>, n: int, path: seq<string>)
    requires Consistent(img, held) && img.Directory(n) && UnmistakenAlong(img, n, path)
    ensures Lookup(img, n, path) == Resolve(img, n, path)
    decreases |path|
  {
    hide Consistent, Unmistaken, UnmistakenAlong, Answer, Table, Lines, Search, Run;
    if path != [] {
      var next := Answer(Table(Lines(img, n)), path[0]);
      AlongRest(img, n, path, if next.Found? then next.inode else 0);
      AgreesHere(img, held, n, path[0]);
      if next.Found? {
        AnswerDirectory(img, held, n, path[0]);
        LookupIfUnmistaken(img, held, next.inode, path[1..]);
      }
    }
  }

  lemma AgreesHere(img: Image, held: set<int>, n: int, name: string)
    requires Consistent(img, held) && img.Directory(n) && Unmistaken(img, n)
    ensures Search(img.blocks, Run(img, n), name) == Answer(Table(Lines(img, n)), name)
  {
    hide Owned, Dotted, Unique, Linked, Counted, BlocksOk, Unmistaken, Answer, Table, Lines, Search, Run;
    AgreesIfUnmistaken(img, n, name);
  }

  /** Every path is looked up right exactly if every directory that a path leads to can be searched. */
  lemma PathsExact(img: Image, held: set<int>)
    requires Consistent(img, held)
    ensures (forall path | Proper(path) :: Lookup(img, EXT2_ROOT_INO, path) == Resolve(img, EXT2_ROOT_INO, path))
            <==> (forall path | Proper(path) && Resolve(img, EXT2_ROOT_INO, path).Found? ::
                    Unmistaken(img, Resolve(img, EXT2_ROOT_INO, path).inode))
  {
    hide Consistent, Unmistaken, Lookup, Resolve, Nameable;
    RootDirectory(img, held);
    if forall path | Proper(path) :: Lookup(img, EXT2_ROOT_INO, path) == Resolve(img, EXT2_ROOT_INO, path) {
      forall path | Proper(path) && Resolve(img, EXT2_ROOT_INO, path).Found?
        ensures Unmistaken(img, Resolve(img, EXT2_ROOT_INO, path).inode)
      {
        SearchedRight(img, held, path);
      }
    }
    if forall path | Proper(path) && Resolve(img, EXT2_ROOT_INO, path).Found? ::
        Unmistaken(img, Resolve(img, EXT2_ROOT_INO, path).inode) {
      forall path | Proper(path) ensures Lookup(img, EXT2_ROOT_INO, path) == Resolve(img, EXT2_ROOT_INO, path) {
        assert forall k | 0 <= k < |path| :: Proper(path[..k]);
        LookupIfUnmistaken(img, held, EXT2_ROOT_INO, path);
      }
    }
  }

  lemma SearchedRight(img: Image, held: set<int>, path: seq<string>)
    requires Consistent(img, held) && Proper(path) && Resolve(img, EXT2_ROOT_INO, path).Found?
    requires forall q | Proper(q) :: Lookup(img, EXT2_ROOT_INO, q) == Resolve(img, EXT2_ROOT_INO, q)
    ensures Unmistaken(img, Resolve(img, EXT2_ROOT_INO, path).inode)
  {
    hide Consistent, Unmistaken, Lookup, Resolve, Nameable, Search, Answer, Table, Lines, Run;
    var n := Resolve(img, EXT2_ROOT_INO, path).inode;
    RootDirectory(img, held);
    ResolveDirectory(img, held, EXT2_ROOT_INO, path);
    forall name | Nameable(name) ensures Agrees(img, n, name) {
      ResolveAppend(img, EXT2_ROOT_INO, path, name);
      LookupAppend(img, EXT2_ROOT_INO, path, name);
      assert Proper(path + [name]);
    }
    LookupExact(img, held, n);
  }

  lemma RootDirectory(img: Image, held: set<int>)
    requires Consistent(img, held)
    ensures img.Directory(EXT2_ROOT_INO)
  {
  }
}

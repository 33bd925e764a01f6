/** Blocked and plain matrix multiplication (traceprogs/blocked.c, traceprogs/matmul.c) over
    uninterpreted addition and multiplication: both add the same products in the same order,
    so nothing about rounding or associativity is needed. */
module BlockedMatrix {

  // ----- index arithmetic

  /** Two digits in a mixed-radix number: hi above lo, with lo counted below d. */
  function Pair(hi: nat, d: nat, lo: nat): nat { hi * d + lo }

  lemma Times(a: nat, c: nat, d: nat)
    requires a < c
    ensures a * d + d <= c * d
  {
    assert (a + 1) * d <= c * d;
  }

  lemma PairBound(hi: nat, d: nat, lo: nat, e: nat)
    requires hi < e && lo < d
    ensures Pair(hi, d, lo) < e * d
  {
    Times(hi, e, d);
  }

  lemma PairUnique(hi: nat, d: nat, lo: nat, hi': nat, lo': nat)
    requires lo < d && lo' < d && Pair(hi, d, lo) == Pair(hi', d, lo')
    ensures hi == hi' && lo == lo'
  {
    if hi < hi' { Times(hi, hi', d); }
    if hi' < hi { Times(hi', hi, d); }
  }

  lemma PairSplit(x: nat, d: nat, e: nat)
    requires x < e * d
    ensures 0 < d && x / d < e && x % d < d && Pair(x / d, d, x % d) == x
  {
    var hi := x / d;
    if e < hi { Times(e, hi, d); }
  }

  lemma Digits(x: nat, d: nat, e: nat) returns (hi: nat, lo: nat)
    requires x < e * d
    ensures hi < e && lo < d && Pair(hi, d, lo) == x
  {
    PairSplit(x, d, e);
    hi, lo := x / d, x % d;
  }

  lemma DivMod(hi: nat, d: nat, lo: nat)
    requires lo < d
    ensures Pair(hi, d, lo) / d == hi && Pair(hi, d, lo) % d == lo
  {
    var x := Pair(hi, d, lo);
    assert x / d * d + x % d == x;
    PairUnique(hi, d, lo, x / d, x % d);
  }

  // ----- the two layouts

  /** How the n*n cells are laid out in an array. */
  datatype Layout = RowMajor | Blocked

  /** The order of the matrices is n = nBar*b: the usage message asks that b divide n. */
  datatype Shape = Shape(nBar: nat, b: nat) {
    function N(): nat { nBar * b }

    function BSqr(): nat { b * b }

    /** The place of cell (i, j) of block (iBar, jBar). */
    function Place(l: Layout, iBar: nat, jBar: nat, i: nat, j: nat): nat {
      match l
      case RowMajor => Pair(Pair(iBar, b, i), N(), Pair(jBar, b, j))
      case Blocked => Pair(Pair(iBar, nBar, jBar), BSqr(), Pair(i, b, j))
    }

    predicate Cell(iBar: nat, jBar: nat, i: nat, j: nat) {
      iBar < nBar && jBar < nBar && i < b && j < b
    }

    lemma Sizes()
      ensures nBar * nBar * BSqr() == N() * N()
    {
    }

    lemma PlaceInRange(l: Layout, iBar: nat, jBar: nat, i: nat, j: nat)
      requires Cell(iBar, jBar, i, j)
      ensures Place(l, iBar, jBar, i, j) < N() * N()
    {
      hide Pair;
      Sizes();
      match l
      case RowMajor =>
        PairBound(iBar, b, i, nBar);
        PairBound(jBar, b, j, nBar);
        PairBound(Pair(iBar, b, i), N(), Pair(jBar, b, j), N());
      case Blocked =>
        PairBound(i, b, j, b);
        PairBound(iBar, nBar, jBar, nBar);
        PairBound(Pair(iBar, nBar, jBar), BSqr(), Pair(i, b, j), nBar * nBar);
    }

    /** No two cells share a place. */
    lemma PlaceInjective(l: Layout, iBar: nat, jBar: nat, i: nat, j: nat, iBar': nat, jBar': nat, i': nat, j': nat)
      requires Cell(iBar, jBar, i, j) && Cell(iBar', jBar', i', j')
      requires Place(l, iBar, jBar, i, j) == Place(l, iBar', jBar', i', j')
      ensures iBar == iBar' && jBar == jBar' && i == i' && j == j'
    {
      hide Pair;
      match l
      case RowMajor =>
        PairBound(jBar, b, j, nBar);
        PairBound(jBar', b, j', nBar);
        PairUnique(Pair(iBar, b, i), N(), Pair(jBar, b, j), Pair(iBar', b, i'), Pair(jBar', b, j'));
        PairUnique(iBar, b, i, iBar', i');
        PairUnique(jBar, b, j, jBar', j');
      case Blocked =>
        PairBound(i, b, j, b);
        PairBound(i', b, j', b);
        PairUnique(Pair(iBar, nBar, jBar), BSqr(), Pair(i, b, j), Pair(iBar', nBar, jBar'), Pair(i', b, j'));
        PairUnique(iBar, nBar, jBar, iBar', jBar');
        PairUnique(i, b, j, i', j');
    }

    /** Every place is some cell's. */
    lemma PlaceOnto(l: Layout, t: nat) returns (iBar: nat, jBar: nat, i: nat, j: nat)
      requires t < N() * N()
      ensures Cell(iBar, jBar, i, j) && Place(l, iBar, jBar, i, j) == t
    {
      hide Pair;
      Sizes();
      var hi, lo;
      match l {
        case RowMajor =>
          hi, lo := Digits(t, N(), N());
          iBar, i := Digits(hi, b, nBar);
          jBar, j := Digits(lo, b, nBar);
        case Blocked =>
          hi, lo := Digits(t, BSqr(), nBar * nBar);
          iBar, jBar := Digits(hi, nBar, nBar);
          i, j := Digits(lo, b, b);
      }
    }
  }

  /** y holds in one layout what x holds in another. */
  ghost predicate Rearranged<T>(s: Shape, x: seq<T>, from: Layout, y: seq<T>, to: Layout) {
    && |x| == |y| == s.N() * s.N()
    && forall iBar, jBar, i, j | s.Cell(iBar, jBar, i, j) ::
         s.PlaceInRange(from, iBar, jBar, i, j); s.PlaceInRange(to, iBar, jBar, i, j);
         y[s.Place(to, iBar, jBar, i, j)] == x[s.Place(from, iBar, jBar, i, j)]
  }

  /** The rearrangement of an array is unique, and going there and back changes nothing. */
  lemma RearrangedUnique<T>(s: Shape, x: seq<T>, from: Layout, y: seq<T>, z: seq<T>, to: Layout)
    requires Rearranged(s, x, from, y, to) && Rearranged(s, x, from, z, to)
    ensures y == z
  {
    forall t | 0 <= t < |y| ensures y[t] == z[t] {
      var iBar, jBar, i, j := s.PlaceOnto(to, t);
    }
  }

  lemma RoundTrip<T>(s: Shape, x: seq<T>, l: Layout, y: seq<T>, l': Layout, z: seq<T>)
    requires Rearranged(s, x, l, y, l') && Rearranged(s, y, l', z, l)
    ensures z == x
  {
    assert Rearranged(s, y, l', x, l);
    RearrangedUnique(s, y, l', z, x, l);
  }

  // ----- moving pointers

  lemma Carry(hi: nat, d: nat, lo: nat, x: nat)
    ensures Pair(hi, d, lo) + x == Pair(hi, d, lo + x)
    ensures Pair(hi, d, lo + d) == Pair(hi + 1, d, lo)
  {
  }

  /** How the places of a row, a block and a block row join up. */
  lemma RowJoins(s: Shape, iBar: nat, jBar: nat, i: nat)
    requires 0 < s.nBar
    ensures s.Place(Blocked, iBar, jBar, i, s.b) == s.Place(Blocked, iBar, jBar, i + 1, 0)
    ensures s.b <= s.N() && s.Place(RowMajor, iBar, jBar, i, s.b) + (s.N() - s.b)
            == s.Place(RowMajor, iBar, jBar, i + 1, 0)
  {
    assert s.b <= s.N() by { Times(0, s.nBar, s.b); }
    hide Pair;
    var b, n := s.b, s.N();
    Carry(i, b, 0, b);
    Carry(iBar, b, i, 1);
    Carry(jBar, b, 0, b);
    Carry(Pair(iBar, b, i), n, Pair(jBar, b, b), n - b);
    Carry(Pair(iBar, b, i), n, Pair(jBar, b, 0), n);
  }

  lemma BlockJoins(s: Shape, iBar: nat, jBar: nat)
    ensures s.Place(Blocked, iBar, jBar, s.b, 0) == s.Place(Blocked, iBar, jBar + 1, 0, 0)
    ensures s.Place(Blocked, iBar, s.nBar, 0, 0) == s.Place(Blocked, iBar + 1, 0, 0, 0)
  {
    assert Pair(s.b, s.b, 0) == s.BSqr() && Pair(0, s.b, 0) == 0;
    hide Pair;
    Carry(Pair(iBar, s.nBar, jBar), s.BSqr(), 0, s.BSqr());
    Carry(iBar, s.nBar, jBar, 1);
    Carry(iBar, s.nBar, 0, s.nBar);
  }

  /** Where a block starts. */
  lemma BlockStart(s: Shape, iBar: nat, jBar: nat)
    ensures s.Place(RowMajor, iBar, jBar, 0, 0) == iBar * s.b * s.N() + jBar * s.b
    ensures s.Place(Blocked, iBar, jBar, 0, 0) == (iBar * s.nBar + jBar) * s.BSqr()
  {
  }

  lemma NextCell(s: Shape, l: Layout, iBar: nat, jBar: nat, i: nat, j: nat)
    ensures s.Place(l, iBar, jBar, i, j) + 1 == s.Place(l, iBar, jBar, i, j + 1)
  {
  }

  // ----- conversion

  /** Every cell whose blocked place is below p has been carried over between x and y. */
  ghost predicate Carried<T>(s: Shape, x: seq<T>, from: Layout, y: seq<T>, to: Layout, p: nat) {
    && |x| == |y| == s.N() * s.N()
    && forall iBar, jBar, i, j | s.Cell(iBar, jBar, i, j) && s.Place(Blocked, iBar, jBar, i, j) < p ::
         s.PlaceInRange(from, iBar, jBar, i, j); s.PlaceInRange(to, iBar, jBar, i, j);
         y[s.Place(to, iBar, jBar, i, j)] == x[s.Place(from, iBar, jBar, i, j)]
  }

  /** Carrying over the cell at blocked place p. */
  lemma CarryOne<T>(s: Shape, x: seq<T>, from: Layout, y: seq<T>, to: Layout, iBar: nat, jBar: nat, i: nat, j: nat)
    requires s.Cell(iBar, jBar, i, j) && Carried(s, x, from, y, to, s.Place(Blocked, iBar, jBar, i, j))
    ensures s.Place(from, iBar, jBar, i, j) < |x| && s.Place(to, iBar, jBar, i, j) < |y|
    ensures Carried(s, x, from, y[s.Place(to, iBar, jBar, i, j) := x[s.Place(from, iBar, jBar, i, j)]], to,
                    s.Place(Blocked, iBar, jBar, i, j) + 1)
  {
    s.PlaceInRange(from, iBar, jBar, i, j);
    s.PlaceInRange(to, iBar, jBar, i, j);
    hide Pair;
    var p, u := s.Place(Blocked, iBar, jBar, i, j), s.Place(to, iBar, jBar, i, j);
    var y' := y[u := x[s.Place(from, iBar, jBar, i, j)]];
    forall iBar', jBar', i', j' | s.Cell(iBar', jBar', i', j') && s.Place(Blocked, iBar', jBar', i', j') < p + 1
      ensures s.Place(to, iBar', jBar', i', j') < |y| && s.Place(from, iBar', jBar', i', j') < |x|
      ensures y'[s.Place(to, iBar', jBar', i', j')] == x[s.Place(from, iBar', jBar', i', j')]
    {
      s.PlaceInRange(from, iBar', jBar', i', j');
      s.PlaceInRange(to, iBar', jBar', i', j');
      if s.Place(Blocked, iBar', jBar', i', j') == p {
        s.PlaceInjective(Blocked, iBar, jBar, i, j, iBar', jBar', i', j');
      } else if s.Place(to, iBar', jBar', i', j') == u {
        s.PlaceInjective(to, iBar, jBar, i, j, iBar', jBar', i', j');
      }
    }
  }

  lemma AllCarried<T>(s: Shape, x: seq<T>, from: Layout, y: seq<T>, to: Layout)
    requires Carried(s, x, from, y, to, s.Place(Blocked, s.nBar, 0, 0, 0))
    ensures Rearranged(s, x, from, y, to)
  {
    assert s.Place(Blocked, s.nBar, 0, 0, 0) == s.N() * s.N() by { s.Sizes(); }
    forall iBar, jBar, i, j | s.Cell(iBar, jBar, i, j)
      ensures s.Place(Blocked, iBar, jBar, i, j) < s.Place(Blocked, s.nBar, 0, 0, 0)
    {
      s.PlaceInRange(Blocked, iBar, jBar, i, j);
    }
  }

  /** Copy one block of a to consecutive places of t, from tp on. */
  method CopyBlock<T>(s: Shape, a: array<T>, t: array<T>, iBar: nat, jBar: nat, tp: nat) returns (tp': nat)
    requires a.Length == t.Length == s.N() * s.N() && a != t && iBar < s.nBar && jBar < s.nBar
    requires tp == s.Place(Blocked, iBar, jBar, 0, 0)
    requires Carried(s, a[..], RowMajor, t[..], Blocked, tp)
    modifies t
    ensures tp' == s.Place(Blocked, iBar, jBar + 1, 0, 0)
    ensures Carried(s, a[..], RowMajor, t[..], Blocked, tp')
  {
    hide Carried, Pair, s.Place, s.N;
    var n, b := s.N(), s.b;
    tp' := tp;
    BlockStart(s, iBar, jBar);
    var ap := iBar * b * n + jBar * b;
    for i := 0 to b
      invariant tp' == s.Place(Blocked, iBar, jBar, i, 0) && ap == s.Place(RowMajor, iBar, jBar, i, 0)
      invariant Carried(s, a[..], RowMajor, t[..], Blocked, tp')
    {
      for j := 0 to b
        invariant tp' == s.Place(Blocked, iBar, jBar, i, j) && ap == s.Place(RowMajor, iBar, jBar, i, j)
        invariant Carried(s, a[..], RowMajor, t[..], Blocked, tp')
      {
        CarryOne(s, a[..], RowMajor, t[..], Blocked, iBar, jBar, i, j);
        NextCell(s, Blocked, iBar, jBar, i, j);
        NextCell(s, RowMajor, iBar, jBar, i, j);
        t[tp'] := a[ap];
        tp', ap := tp' + 1, ap + 1;
      }
      RowJoins(s, iBar, jBar, i);
      ap := ap + (n - b);
    }
    BlockJoins(s, iBar, jBar);
  }

  /** To_blocked: from row-major to blocked storage, through a temporary. */
  method ToBlocked<T(0)>(s: Shape, a: array<T>)
    requires a.Length == s.N() * s.N()
    modifies a
    ensures Rearranged(s, old(a[..]), RowMajor, a[..], Blocked)
  {
    hide Pair;
    var n := s.N();
    var t := new T[n * n];
    var tp := 0;
    assert s.Place(Blocked, 0, 0, 0, 0) == 0 by { BlockStart(s, 0, 0); }
    assert Carried(s, a[..], RowMajor, t[..], Blocked, 0);
    for iBar := 0 to s.nBar
      invariant tp == s.Place(Blocked, iBar, 0, 0, 0)
      invariant a[..] == old(a[..]) && Carried(s, a[..], RowMajor, t[..], Blocked, tp)
    {
      for jBar := 0 to s.nBar
        invariant tp == s.Place(Blocked, iBar, jBar, 0, 0)
        invariant a[..] == old(a[..]) && Carried(s, a[..], RowMajor, t[..], Blocked, tp)
      {
        tp := CopyBlock(s, a, t, iBar, jBar, tp);
      }
      BlockJoins(s, iBar, 0);
    }
    AllCarried(s, a[..], RowMajor, t[..], Blocked);
    CopyArray(t, a);
  }

  /** memcpy of a whole array. */
  method CopyArray<T>(from: array<T>, to: array<T>)
    requires from.Length == to.Length && from != to
    modifies to
    ensures to[..] == from[..]
  {
    forall i | 0 <= i < to.Length {
      to[i] := from[i];
    }
    assert forall i :: 0 <= i < to.Length ==> to[..][i] == from[..][i];
  }

  /** Copy consecutive places of c, from cp on, to one block of t. */
  method SpreadBlock<T>(s: Shape, c: array<T>, t: array<T>, iBar: nat, jBar: nat, cp: nat) returns (cp': nat)
    requires c.Length == t.Length == s.N() * s.N() && c != t && iBar < s.nBar && jBar < s.nBar
    requires cp == s.Place(Blocked, iBar, jBar, 0, 0)
    requires Carried(s, c[..], Blocked, t[..], RowMajor, cp)
    modifies t
    ensures cp' == s.Place(Blocked, iBar, jBar + 1, 0, 0)
    ensures Carried(s, c[..], Blocked, t[..], RowMajor, cp')
  {
    hide Carried, Pair, s.Place, s.N;
    var n, b := s.N(), s.b;
    cp' := cp;
    BlockStart(s, iBar, jBar);
    var tp := iBar * b * n + jBar * b;
    for i := 0 to b
      invariant cp' == s.Place(Blocked, iBar, jBar, i, 0) && tp == s.Place(RowMajor, iBar, jBar, i, 0)
      invariant Carried(s, c[..], Blocked, t[..], RowMajor, cp')
    {
      for j := 0 to b
        invariant cp' == s.Place(Blocked, iBar, jBar, i, j) && tp == s.Place(RowMajor, iBar, jBar, i, j)
        invariant Carried(s, c[..], Blocked, t[..], RowMajor, cp')
      {
        CarryOne(s, c[..], Blocked, t[..], RowMajor, iBar, jBar, i, j);
        NextCell(s, Blocked, iBar, jBar, i, j);
        NextCell(s, RowMajor, iBar, jBar, i, j);
        ghost var before := t[..];
        t[tp] := c[cp'];
        assert t[..] == before[tp := c[..][cp']];
        tp, cp' := tp + 1, cp' + 1;
      }
      RowJoins(s, iBar, jBar, i);
      tp := tp + (n - b);
    }
    BlockJoins(s, iBar, jBar);
  }

  /** From_blocked: from blocked to row-major storage, through a temporary. */
  method FromBlocked<T(0)>(s: Shape, c: array<T>)
    requires c.Length == s.N() * s.N()
    modifies c
    ensures Rearranged(s, old(c[..]), Blocked, c[..], RowMajor)
  {
    hide Pair;
    var n := s.N();
    var t := new T[n * n];
    var cp := 0;
    assert s.Place(Blocked, 0, 0, 0, 0) == 0 by { BlockStart(s, 0, 0); }
    assert Carried(s, c[..], Blocked, t[..], RowMajor, 0);
    for iBar := 0 to s.nBar
      invariant cp == s.Place(Blocked, iBar, 0, 0, 0)
      invariant c[..] == old(c[..]) && Carried(s, c[..], Blocked, t[..], RowMajor, cp)
    {
      for jBar := 0 to s.nBar
        invariant cp == s.Place(Blocked, iBar, jBar, 0, 0)
        invariant c[..] == old(c[..]) && Carried(s, c[..], Blocked, t[..], RowMajor, cp)
      {
        cp := SpreadBlock(s, c, t, iBar, jBar, cp);
      }
      BlockJoins(s, iBar, 0);
    }
    AllCarried(s, c[..], Blocked, t[..], RowMajor);
    CopyArray(t, c);
  }

  // ----- multiplication

  /** The arithmetic of the cells. */
  datatype Field<!T> = Field(zero: T, add: (T, T) -> T, mul: (T, T) -> T)

  /** The sum of the first m products of row and col, added in order from zero. */
  ghost function Sum<T>(f: Field<T>, s: Shape, l: Layout, x: seq<T>, y: seq<T>, row: nat, col: nat, m: nat): T
    requires |x| == |y| == s.N() * s.N() && row < s.N() && col < s.N() && m <= s.N()
  {
    if m == 0 then f.zero
    else f.add(Sum(f, s, l, x, y, row, col, m - 1), f.mul(Entry(s, l, x, row, m - 1), Entry(s, l, y, m - 1, col)))
  }

  ghost function Entry<T>(s: Shape, l: Layout, x: seq<T>, row: nat, col: nat): T
    requires |x| == s.N() * s.N() && row < s.N() && col < s.N()
  {
    var (iBar, i) := Split(s, row);
    var (jBar, j) := Split(s, col);
    s.PlaceInRange(l, iBar, jBar, i, j);
    x[s.Place(l, iBar, jBar, i, j)]
  }

  /** The block a row or column lies in, and its place there. */
  ghost function Split(s: Shape, row: nat): (r: (nat, nat))
    requires row < s.N()
    ensures r.0 < s.nBar && r.1 < s.b && Pair(r.0, s.b, r.1) == row
  {
    PairSplit(row, s.b, s.nBar);
    (row / s.b, row % s.b)
  }

  /** z is the product of x and y, all three in layout l. */
  ghost predicate IsProduct<T>(f: Field<T>, s: Shape, l: Layout, x: seq<T>, y: seq<T>, z: seq<T>) {
    && |x| == |y| == |z| == s.N() * s.N()
    && forall row, col | 0 <= row < s.N() && 0 <= col < s.N() ::
         Entry(s, l, z, row, col) == Sum(f, s, l, x, y, row, col, s.N())
  }

  lemma EntryAt<T>(s: Shape, l: Layout, x: seq<T>, iBar: nat, jBar: nat, i: nat, j: nat)
    requires s.Cell(iBar, jBar, i, j) && |x| == s.N() * s.N()
    ensures Pair(iBar, s.b, i) < s.N() && Pair(jBar, s.b, j) < s.N()
    ensures s.Place(l, iBar, jBar, i, j) < |x|
    ensures Entry(s, l, x, Pair(iBar, s.b, i), Pair(jBar, s.b, j)) == x[s.Place(l, iBar, jBar, i, j)]
  {
    hide Pair;
    PairBound(iBar, s.b, i, s.nBar);
    PairBound(jBar, s.b, j, s.nBar);
    DivMod(iBar, s.b, i);
    DivMod(jBar, s.b, j);
    s.PlaceInRange(l, iBar, jBar, i, j);
  }

  lemma RowMajorEntry<T>(s: Shape, x: seq<T>, row: nat, col: nat)
    requires |x| == s.N() * s.N() && row < s.N() && col < s.N()
    ensures Pair(row, s.N(), col) < |x| && Entry(s, RowMajor, x, row, col) == x[Pair(row, s.N(), col)]
  {
    var (iBar, i) := Split(s, row);
    var (jBar, j) := Split(s, col);
    s.PlaceInRange(RowMajor, iBar, jBar, i, j);
  }

  /** Rearranging both factors rearranges every sum, and so the product. */
  lemma {:induction false} SumRearranged<T>(f: Field<T>, s: Shape, x: seq<T>, y: seq<T>, l: Layout, x': seq<T>,
                                            y': seq<T>, l': Layout,
                                            row: nat, col: nat, m: nat)
    requires Rearranged(s, x, l, x', l') && Rearranged(s, y, l, y', l') && row < s.N() && col < s.N() && m <= s.N()
    ensures Sum(f, s, l', x', y', row, col, m) == Sum(f, s, l, x, y, row, col, m)
  {
    if m > 0 {
      SumRearranged(f, s, x, y, l, x', y', l', row, col, m - 1);
      EntryRearranged(s, x, l, x', l', row, m - 1);
      EntryRearranged(s, y, l, y', l', m - 1, col);
    }
  }

  lemma EntryRearranged<T>(s: Shape, x: seq<T>, l: Layout, x': seq<T>, l': Layout, row: nat, col: nat)
    requires Rearranged(s, x, l, x', l') && row < s.N() && col < s.N()
    ensures Entry(s, l', x', row, col) == Entry(s, l, x, row, col)
  {
    var (iBar, i) := Split(s, row);
    var (jBar, j) := Split(s, col);
    assert s.Cell(iBar, jBar, i, j);
  }

  /** The product in a layout is unique. */
  lemma ProductUnique<T>(f: Field<T>, s: Shape, l: Layout, x: seq<T>, y: seq<T>, z: seq<T>, z': seq<T>)
    requires IsProduct(f, s, l, x, y, z) && IsProduct(f, s, l, x, y, z')
    ensures z == z'
  {
    forall t | 0 <= t < |z| ensures z[t] == z'[t] {
      var iBar, jBar, i, j := s.PlaceOnto(l, t);
      EntryAt(s, l, z, iBar, jBar, i, j);
      EntryAt(s, l, z', iBar, jBar, i, j);
    }
  }

  /** What the two programs compute agrees cell for cell: to blocked storage, the blocked
      product there, and back, is the plain product. */
  lemma BlockedIsPlain<T>(f: Field<T>, s: Shape, x: seq<T>, y: seq<T>, xb: seq<T>, yb: seq<T>, zb: seq<T>,
                          back: seq<T>, z: seq<T>)
    requires Rearranged(s, x, RowMajor, xb, Blocked) && Rearranged(s, y, RowMajor, yb, Blocked)
    requires IsProduct(f, s, Blocked, xb, yb, zb) && Rearranged(s, zb, Blocked, back, RowMajor)
    requires IsProduct(f, s, RowMajor, x, y, z)
    ensures back == z
  {
    forall row, col | 0 <= row < s.N() && 0 <= col < s.N()
      ensures Entry(s, RowMajor, back, row, col) == Sum(f, s, RowMajor, x, y, row, col, s.N())
    {
      EntryRearranged(s, zb, Blocked, back, RowMajor, row, col);
      SumRearranged(f, s, x, y, RowMajor, xb, yb, Blocked, row, col, s.N());
    }
    ProductUnique(f, s, RowMajor, x, y, back, z);
  }

  /** Mat_mult. */
  method MatMult<T>(f: Field<T>, s: Shape, a: array<T>, b: array<T>, c: array<T>)
    requires a.Length == b.Length == c.Length == s.N() * s.N() && c != a && c != b
    modifies c
    ensures IsProduct(f, s, RowMajor, a[..], b[..], c[..])
  {
    hide Entry, Sum;
    var n := s.N();
    for i := 0 to n
      invariant forall row, col | 0 <= row < i && 0 <= col < n ::
                  Entry(s, RowMajor, c[..], row, col) == Sum(f, s, RowMajor, a[..], b[..], row, col, n)
    {
      for j := 0 to n
        invariant forall row, col | 0 <= row < n && 0 <= col < n && (row < i || (row == i && col < j)) ::
                    Entry(s, RowMajor, c[..], row, col) == Sum(f, s, RowMajor, a[..], b[..], row, col, n)
      {
        MultCell(f, s, a, b, c, i, j);
      }
    }
  }

  /** The index of a cell in row-major storage. */
  function RowIndex(n: nat, row: nat, col: nat): (p: nat)
    ensures p == Pair(row, n, col)
  {
    row * n + col
  }

  lemma SumNext<T>(f: Field<T>, s: Shape, l: Layout, x: seq<T>, y: seq<T>, row: nat, col: nat, m: nat)
    requires |x| == |y| == s.N() * s.N() && row < s.N() && col < s.N() && m < s.N()
    ensures Sum(f, s, l, x, y, row, col, 0) == f.zero
    ensures Sum(f, s, l, x, y, row, col, m + 1) ==
            f.add(Sum(f, s, l, x, y, row, col, m), f.mul(Entry(s, l, x, row, m), Entry(s, l, y, m, col)))
  {
  }

  /** Written out for matrices of order two. */
  lemma TwoByTwo<T>(f: Field<T>, x: seq<T>, y: seq<T>, z: seq<T>)
    requires IsProduct(f, Shape(1, 2), RowMajor, x, y, z)
    ensures |x| == |y| == |z| == 4
    ensures z[0] == f.add(f.add(f.zero, f.mul(x[0], y[0])), f.mul(x[1], y[2]))
    ensures z[1] == f.add(f.add(f.zero, f.mul(x[0], y[1])), f.mul(x[1], y[3]))
    ensures z[2] == f.add(f.add(f.zero, f.mul(x[2], y[0])), f.mul(x[3], y[2]))
    ensures z[3] == f.add(f.add(f.zero, f.mul(x[2], y[1])), f.mul(x[3], y[3]))
  {
    hide IsProduct;
    TwoByTwoCell(f, x, y, z, 0, 0);
    TwoByTwoCell(f, x, y, z, 0, 1);
    TwoByTwoCell(f, x, y, z, 1, 0);
    TwoByTwoCell(f, x, y, z, 1, 1);
  }

  lemma TwoByTwoCell<T>(f: Field<T>, x: seq<T>, y: seq<T>, z: seq<T>, row: nat, col: nat)
    requires IsProduct(f, Shape(1, 2), RowMajor, x, y, z) && row < 2 && col < 2
    ensures |x| == |y| == |z| == 4
    ensures z[2 * row + col] == f.add(f.add(f.zero, f.mul(x[2 * row], y[col])), f.mul(x[2 * row + 1], y[2 + col]))
  {
    hide Entry, Sum;
    var s := Shape(1, 2);
    assert s.N() == 2;
    SumNext(f, s, RowMajor, x, y, row, col, 0);
    SumNext(f, s, RowMajor, x, y, row, col, 1);
    RowMajorEntry(s, z, row, col);
    RowMajorEntry(s, x, row, 0);
    RowMajorEntry(s, x, row, 1);
    RowMajorEntry(s, y, 0, col);
    RowMajorEntry(s, y, 1, col);
  }

  /** The inner loop of Mat_mult for one cell. */
  method MultCell<T>(f: Field<T>, s: Shape, a: array<T>, b: array<T>, c: array<T>, i: nat, j: nat)
    requires a.Length == b.Length == c.Length == s.N() * s.N() && c != a && c != b && i < s.N() && j < s.N()
    modifies c
    ensures Entry(s, RowMajor, c[..], i, j) == Sum(f, s, RowMajor, a[..], b[..], i, j, s.N())
    ensures forall row, col | 0 <= row < s.N() && 0 <= col < s.N() && (row != i || col != j) ::
              Entry(s, RowMajor, c[..], row, col) == old(Entry(s, RowMajor, c[..], row, col))
  {
    hide Entry, Sum, Pair, RowIndex, s.N;
    var n := s.N();
    RowMajorEntry(s, c[..], i, j);
    SumNext(f, s, RowMajor, a[..], b[..], i, j, 0);
    var ij := RowIndex(n, i, j);
    c[ij] := f.zero;
    for k := 0 to n
      invariant c[ij] == Sum(f, s, RowMajor, a[..], b[..], i, j, k)
      invariant forall t | 0 <= t < c.Length && t != ij :: c[t] == old(c[t])
    {
      RowMajorEntry(s, a[..], i, k);
      RowMajorEntry(s, b[..], k, j);
      SumNext(f, s, RowMajor, a[..], b[..], i, j, k);
      c[ij] := f.add(c[ij], f.mul(a[RowIndex(n, i, k)], b[RowIndex(n, k, j)]));
    }
    RowMajorEntry(s, c[..], i, j);
    forall row, col | 0 <= row < n && 0 <= col < n && (row != i || col != j)
      ensures Entry(s, RowMajor, c[..], row, col) == old(Entry(s, RowMajor, c[..], row, col))
    {
      RowMajorEntry(s, c[..], row, col);
      RowMajorEntry(s, old(c[..]), row, col);
      if Pair(row, n, col) == ij { PairUnique(row, n, col, i, j); }
    }
  }

  // ----- blocked multiplication

  /** Every cell stored at a place from lo up to hi holds the sum of its first m products. */
  ghost predicate Summed<T>(f: Field<T>, s: Shape, x: seq<T>, y: seq<T>, z: seq<T>, lo: nat, hi: nat, m: nat) {
    && |x| == |y| == |z| == s.N() * s.N() && m <= s.N()
    && forall iBar, jBar, i, j | s.Cell(iBar, jBar, i, j) && lo <= s.Place(Blocked, iBar, jBar, i, j) < hi ::
         EntryAt(s, Blocked, z, iBar, jBar, i, j);
         z[s.Place(Blocked, iBar, jBar, i, j)] == Sum(f, s, Blocked, x, y, Pair(iBar, s.b, i), Pair(jBar, s.b, j), m)
  }

  lemma SummedSame<T>(f: Field<T>, s: Shape, x: seq<T>, y: seq<T>, z: seq<T>, z': seq<T>, lo: nat, hi: nat, m: nat)
    requires Summed(f, s, x, y, z, lo, hi, m) && |z'| == |z|
    requires forall p | lo <= p < hi && p < |z| :: z'[p] == z[p]
    ensures Summed(f, s, x, y, z', lo, hi, m)
  {
    hide Pair, s.Place, Sum;
    forall iBar, jBar, i, j | s.Cell(iBar, jBar, i, j) && lo <= s.Place(Blocked, iBar, jBar, i, j) < hi
      ensures s.Place(Blocked, iBar, jBar, i, j) < |z|
      ensures z'[s.Place(Blocked, iBar, jBar, i, j)] == z[s.Place(Blocked, iBar, jBar, i, j)]
    {
      EntryAt(s, Blocked, z, iBar, jBar, i, j);
    }
  }

  lemma SummedJoin<T>(f: Field<T>, s: Shape, x: seq<T>, y: seq<T>, z: seq<T>, lo: nat, mid: nat, hi: nat, m: nat)
    requires Summed(f, s, x, y, z, lo, mid, m) && Summed(f, s, x, y, z, mid, hi, m)
    ensures Summed(f, s, x, y, z, lo, hi, m)
  {
    hide Pair, s.Place, Sum;
  }

  lemma SummedOne<T>(f: Field<T>, s: Shape, x: seq<T>, y: seq<T>, z: seq<T>, iBar: nat, jBar: nat, i: nat, j: nat,
                     m: nat)
    requires s.Cell(iBar, jBar, i, j) && |x| == |y| == |z| == s.N() * s.N() && m <= s.N()
    requires Pair(iBar, s.b, i) < s.N() && Pair(jBar, s.b, j) < s.N() && s.Place(Blocked, iBar, jBar, i, j) < |z|
    requires z[s.Place(Blocked, iBar, jBar, i, j)]
             == Sum(f, s, Blocked, x, y, Pair(iBar, s.b, i), Pair(jBar, s.b, j), m)
    ensures Summed(f, s, x, y, z, s.Place(Blocked, iBar, jBar, i, j), s.Place(Blocked, iBar, jBar, i, j) + 1, m)
  {
    hide Pair, s.Place, Sum;
    var p := s.Place(Blocked, iBar, jBar, i, j);
    forall iBar', jBar', i', j' | s.Cell(iBar', jBar', i', j') && p <= s.Place(Blocked, iBar', jBar', i', j') < p + 1
      ensures iBar == iBar' && jBar == jBar' && i == i' && j == j'
    {
      s.PlaceInjective(Blocked, iBar, jBar, i, j, iBar', jBar', i', j');
    }
  }

  lemma SummedAt<T>(f: Field<T>, s: Shape, x: seq<T>, y: seq<T>, z: seq<T>, iBar: nat, jBar: nat, i: nat, j: nat,
                    m: nat)
    requires s.Cell(iBar, jBar, i, j)
    requires Summed(f, s, x, y, z, s.Place(Blocked, iBar, jBar, i, j), s.Place(Blocked, iBar, jBar, i, j) + 1, m)
    ensures |x| == |y| == |z| == s.N() * s.N() && m <= s.N() && s.Place(Blocked, iBar, jBar, i, j) < |z|
    ensures Pair(iBar, s.b, i) < s.N() && Pair(jBar, s.b, j) < s.N()
    ensures z[s.Place(Blocked, iBar, jBar, i, j)] == Sum(f, s, Blocked, x, y, Pair(iBar, s.b, i), Pair(jBar, s.b, j), m)
  {
    hide Pair, Sum, s.Place;
    EntryAt(s, Blocked, z, iBar, jBar, i, j);
  }

  /** Every place summed over all N products: the product. */
  lemma SummedIsProduct<T>(f: Field<T>, s: Shape, x: seq<T>, y: seq<T>, z: seq<T>)
    requires Summed(f, s, x, y, z, 0, s.Place(Blocked, s.nBar, 0, 0, 0), s.N())
    ensures IsProduct(f, s, Blocked, x, y, z)
  {
    assert s.Place(Blocked, s.nBar, 0, 0, 0) == s.N() * s.N() by { s.Sizes(); }
    forall row, col | 0 <= row < s.N() && 0 <= col < s.N()
      ensures Entry(s, Blocked, z, row, col) == Sum(f, s, Blocked, x, y, row, col, s.N())
    {
      var (iBar, i) := Split(s, row);
      var (jBar, j) := Split(s, col);
      EntryAt(s, Blocked, z, iBar, jBar, i, j);
      assert s.Cell(iBar, jBar, i, j) && 0 <= s.Place(Blocked, iBar, jBar, i, j) < |z|;
    }
  }

  /** Zero_C: clear the places of one block of c. */
  method ZeroC<T>(f: Field<T>, s: Shape, c: array<T>, ghost x: seq<T>, ghost y: seq<T>, iBar: nat, jBar: nat)
    requires |x| == |y| == c.Length == s.N() * s.N() && iBar < s.nBar && jBar < s.nBar
    modifies c
    ensures Summed(f, s, x, y, c[..], s.Place(Blocked, iBar, jBar, 0, 0), s.Place(Blocked, iBar, jBar + 1, 0, 0), 0)
    ensures forall p | 0 <= p < c.Length && p < s.Place(Blocked, iBar, jBar, 0, 0) :: c[p] == old(c[p])
  {
    hide Pair, s.Place, Sum, Summed;
    BlockInRange(s, iBar, jBar);
    var cp := (iBar * s.nBar + jBar) * s.BSqr();
    forall p | cp <= p < cp + s.BSqr() {
      c[p] := f.zero;
    }
    ghost var hi := s.Place(Blocked, iBar, jBar + 1, 0, 0);
    ZeroSummed(f, s, x, y, c[..], cp, hi);
  }

  lemma BlockInRange(s: Shape, iBar: nat, jBar: nat)
    requires iBar < s.nBar && jBar < s.nBar
    ensures s.Place(Blocked, iBar, jBar, 0, 0) == (iBar * s.nBar + jBar) * s.BSqr()
    ensures s.Place(Blocked, iBar, jBar + 1, 0, 0) == s.Place(Blocked, iBar, jBar, 0, 0) + s.BSqr() <= s.N() * s.N()
  {
    hide Pair;
    var h := Pair(iBar, s.nBar, jBar);
    BlockStart(s, iBar, jBar);
    Ends(s, 0);
    s.Sizes();
    PairBound(iBar, s.nBar, jBar, s.nBar);
    Carry(iBar, s.nBar, jBar, 1);
    Carry(h, s.BSqr(), 0, s.BSqr());
    Below(h, s.BSqr(), s.nBar * s.nBar);
  }

  lemma Below(hi: nat, d: nat, e: nat)
    requires hi < e
    ensures Pair(hi, d, d) <= e * d
  {
    Times(hi, e, d);
  }

  lemma ZeroSummed<T>(f: Field<T>, s: Shape, x: seq<T>, y: seq<T>, z: seq<T>, lo: nat, hi: nat)
    requires |x| == |y| == |z| == s.N() * s.N() && hi <= |z|
    requires forall p | lo <= p < hi :: z[p] == f.zero
    ensures Summed(f, s, x, y, z, lo, hi, 0)
  {
    hide Pair, s.Place;
    forall iBar, jBar, i, j | s.Cell(iBar, jBar, i, j) && lo <= s.Place(Blocked, iBar, jBar, i, j) < hi
      ensures Pair(iBar, s.b, i) < s.N() && Pair(jBar, s.b, j) < s.N()
      ensures z[s.Place(Blocked, iBar, jBar, i, j)]
              == Sum(f, s, Blocked, x, y, Pair(iBar, s.b, i), Pair(jBar, s.b, j), 0)
    {
      EntryAt(s, Blocked, z, iBar, jBar, i, j);
    }
  }

  /** The inner loop of Mult_add: one cell of block (iBar, jBar) takes up the products of block
      column kBar, continuing the sum where the previous block column left it. */
  method AddCell<T>(f: Field<T>, s: Shape, a: array<T>, b: array<T>, c: array<T>,
                    iBar: nat, jBar: nat, kBar: nat, i: nat, j: nat)
    requires a.Length == b.Length == c.Length == s.N() * s.N() && c != a && c != b
    requires s.Cell(iBar, jBar, i, j) && kBar < s.nBar
    requires Summed(f, s, a[..], b[..], c[..],
                    s.Place(Blocked, iBar, jBar, i, j), s.Place(Blocked, iBar, jBar, i, j) + 1, Pair(kBar, s.b, 0))
    modifies c
    ensures Summed(f, s, a[..], b[..], c[..],
                    s.Place(Blocked, iBar, jBar, i, j), s.Place(Blocked, iBar, jBar, i, j) + 1, Pair(kBar + 1, s.b, 0))
    ensures forall p | 0 <= p < c.Length && p != s.Place(Blocked, iBar, jBar, i, j) :: c[p] == old(c[p])
  {
    hide Pair, Entry, Sum, CellIndex, s.Place, s.N, Summed;
    ghost var row, col := Pair(iBar, s.b, i), Pair(jBar, s.b, j);
    EntryAt(s, Blocked, c[..], iBar, jBar, i, j);
    SummedAt(f, s, a[..], b[..], c[..], iBar, jBar, i, j, Pair(kBar, s.b, 0));
    var cp := CellIndex(s, iBar, jBar, i, j);
    for k := 0 to s.b
      invariant Pair(kBar, s.b, k) <= s.N()
      invariant c[cp] == Sum(f, s, Blocked, a[..], b[..], row, col, Pair(kBar, s.b, k))
      invariant forall p | 0 <= p < c.Length && p != cp :: c[p] == old(c[p])
    {
      EntryAt(s, Blocked, a[..], iBar, kBar, i, k);
      EntryAt(s, Blocked, b[..], kBar, jBar, k, j);
      SumNext(f, s, Blocked, a[..], b[..], row, col, Pair(kBar, s.b, k));
      Carry(kBar, s.b, k, 1);
      var ap := CellIndex(s, iBar, kBar, i, k);
      var bp := CellIndex(s, kBar, jBar, k, j);
      c[cp] := f.add(c[cp], f.mul(a[ap], b[bp]));
    }
    Carry(kBar, s.b, 0, s.b);
    SummedOne(f, s, a[..], b[..], c[..], iBar, jBar, i, j, Pair(kBar + 1, s.b, 0));
  }

  /** The pointer arithmetic that finds a cell of a block in blocked storage. */
  function CellIndex(s: Shape, iBar: nat, jBar: nat, i: nat, j: nat): (p: nat)
    ensures p == s.Place(Blocked, iBar, jBar, i, j)
  {
    (iBar * s.nBar + jBar) * s.BSqr() + i * s.b + j
  }

  lemma Ends(s: Shape, kBar: nat)
    ensures s.Place(Blocked, 0, 0, 0, 0) == 0 && Pair(0, s.b, 0) == 0 && Pair(s.nBar, s.b, 0) == s.N()
    ensures kBar < s.nBar ==> Pair(kBar + 1, s.b, 0) <= s.N()
  {
    if kBar < s.nBar { Times(kBar, s.nBar, s.b); }
  }

  /** Mult_add: every cell of block (iBar, jBar) takes up the products of block column kBar. */
  method MultAdd<T>(f: Field<T>, s: Shape, a: array<T>, b: array<T>, c: array<T>, iBar: nat, jBar: nat, kBar: nat)
    requires a.Length == b.Length == c.Length == s.N() * s.N() && c != a && c != b
    requires iBar < s.nBar && jBar < s.nBar && kBar < s.nBar
    requires Summed(f, s, a[..], b[..], c[..],
                    s.Place(Blocked, iBar, jBar, 0, 0), s.Place(Blocked, iBar, jBar + 1, 0, 0), Pair(kBar, s.b, 0))
    modifies c
    ensures Summed(f, s, a[..], b[..], c[..],
                    s.Place(Blocked, iBar, jBar, 0, 0), s.Place(Blocked, iBar, jBar + 1, 0, 0), Pair(kBar + 1, s.b, 0))
    ensures forall p | 0 <= p < c.Length && p < s.Place(Blocked, iBar, jBar, 0, 0) :: c[p] == old(c[p])
  {
    hide Pair, s.Place, Sum;
    ghost var lo, hi := s.Place(Blocked, iBar, jBar, 0, 0), s.Place(Blocked, iBar, jBar + 1, 0, 0);
    ghost var m, m' := Pair(kBar, s.b, 0), Pair(kBar + 1, s.b, 0);
    Ends(s, kBar);
    for i := 0 to s.b
      invariant lo <= s.Place(Blocked, iBar, jBar, i, 0)
      invariant Summed(f, s, a[..], b[..], c[..], lo, s.Place(Blocked, iBar, jBar, i, 0), m')
      invariant Summed(f, s, a[..], b[..], c[..], s.Place(Blocked, iBar, jBar, i, 0), hi, m)
      invariant forall p | 0 <= p < c.Length && p < lo :: c[p] == old(c[p])
    {
      for j := 0 to s.b
        invariant lo <= s.Place(Blocked, iBar, jBar, i, j)
        invariant Summed(f, s, a[..], b[..], c[..], lo, s.Place(Blocked, iBar, jBar, i, j), m')
        invariant Summed(f, s, a[..], b[..], c[..], s.Place(Blocked, iBar, jBar, i, j), hi, m)
        invariant forall p | 0 <= p < c.Length && p < lo :: c[p] == old(c[p])
      {
        ghost var p, before := s.Place(Blocked, iBar, jBar, i, j), c[..];
        BlockOrder(s, iBar, jBar, i, j);
        AddCell(f, s, a, b, c, iBar, jBar, kBar, i, j);
        SummedSame(f, s, a[..], b[..], before, c[..], lo, p, m');
        SummedSame(f, s, a[..], b[..], before, c[..], p + 1, hi, m);
        SummedJoin(f, s, a[..], b[..], c[..], lo, p, p + 1, m');
        NextCell(s, Blocked, iBar, jBar, i, j);
      }
      RowJoins(s, iBar, jBar, i);
    }
    BlockJoins(s, iBar, jBar);
  }

  lemma BlockOrder(s: Shape, iBar: nat, jBar: nat, i: nat, j: nat)
    requires s.Cell(iBar, jBar, i, j)
    ensures s.Place(Blocked, iBar, jBar, i, j) < s.Place(Blocked, iBar, jBar + 1, 0, 0)
  {
    hide Pair;
    PairBound(i, s.b, j, s.b);
    Ends(s, 0);
    Carry(iBar, s.nBar, jBar, 1);
    Carry(Pair(iBar, s.nBar, jBar), s.BSqr(), 0, s.BSqr());
    Carry(Pair(iBar, s.nBar, jBar), s.BSqr(), Pair(i, s.b, j), s.BSqr() - Pair(i, s.b, j));
  }

  lemma NothingSummed<T>(f: Field<T>, s: Shape, x: seq<T>, y: seq<T>, z: seq<T>)
    requires |x| == |y| == |z| == s.N() * s.N()
    ensures Summed(f, s, x, y, z, 0, 0, s.N())
  {
  }

  /** Blocked_mat_mult. */
  method BlockedMatMult<T>(f: Field<T>, s: Shape, a: array<T>, b: array<T>, c: array<T>)
    requires a.Length == b.Length == c.Length == s.N() * s.N() && c != a && c != b
    modifies c
    ensures IsProduct(f, s, Blocked, a[..], b[..], c[..])
  {
    hide Pair, s.Place, s.N, Sum, IsProduct, Summed;
    Ends(s, 0);
    NothingSummed(f, s, a[..], b[..], c[..]);
    for iBar := 0 to s.nBar
      invariant Summed(f, s, a[..], b[..], c[..], 0, s.Place(Blocked, iBar, 0, 0, 0), s.N())
    {
      for jBar := 0 to s.nBar
        invariant Summed(f, s, a[..], b[..], c[..], 0, s.Place(Blocked, iBar, jBar, 0, 0), s.N())
      {
        ghost var lo, hi := s.Place(Blocked, iBar, jBar, 0, 0), s.Place(Blocked, iBar, jBar + 1, 0, 0);
        ghost var before := c[..];
        ZeroC(f, s, c, a[..], b[..], iBar, jBar);
        for kBar := 0 to s.nBar
          invariant Summed(f, s, a[..], b[..], c[..], lo, hi, Pair(kBar, s.b, 0))
          invariant forall p | 0 <= p < c.Length && p < lo :: c[p] == before[p]
        {
          MultAdd(f, s, a, b, c, iBar, jBar, kBar);
        }
        SummedSame(f, s, a[..], b[..], before, c[..], 0, lo, s.N());
        SummedJoin(f, s, a[..], b[..], c[..], 0, lo, hi, s.N());
      }
      BlockJoins(s, iBar, 0);
    }
    SummedIsProduct(f, s, a[..], b[..], c[..]);
  }

  /** The two programs on the same factors: blocked.c with its conversions leaves in c exactly
      what matmul.c leaves in d. */
  method BothPrograms<T(0)>(f: Field<T>, s: Shape, a: array<T>, b: array<T>, c: array<T>, d: array<T>)
    requires a.Length == b.Length == c.Length == d.Length == s.N() * s.N()
    requires a != b && a != c && a != d && b != c && b != d && c != d
    modifies a, b, c, d
    ensures c[..] == d[..]
    ensures IsProduct(f, s, RowMajor, old(a[..]), old(b[..]), c[..])
  {
    hide Rearranged, IsProduct;
    MatMult(f, s, a, b, d);
    ghost var x, y := a[..], b[..];
    ToBlocked(s, a);
    ToBlocked(s, b);
    BlockedMatMult(f, s, a, b, c);
    ghost var zb := c[..];
    FromBlocked(s, c);
    BlockedIsPlain(f, s, x, y, a[..], b[..], zb, c[..], d[..]);
  }
}

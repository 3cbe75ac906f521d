/** An array with members missing reads exactly what the complete array reads. */
module DegradedRead {
  import opened Arithmetic
  import opened Bits
  import opened Field256
  import opened Galois
  import opened Layout
  import opened RaidArrays
  import opened Reconstruction

  // ----- the hypotheses

  /** All members are there. */
  ghost predicate Complete(h: RaidArray) {
    h.Valid() && forall i | 0 <= i < |h.members| :: h.members[i].Some?
  }

  /** The data blocks of a row, whole members at a time. */
  ghost function DataBlocks(h: RaidArray, row: nat): (blocks: seq<seq<byte>>)
    requires h.geometry.Valid()
    ensures |blocks| == h.geometry.DataDisks() && h.DataColumns(row) == Enumerate(blocks)
  {
    seq(h.geometry.DataDisks(), (c: nat) => h.MemberBytes(h.geometry.DataMember(row, c)))
  }

  /** The P (and Q) members of a row hold the parity of its data at byte `o`. */
  ghost predicate RowParity(h: RaidArray, row: nat, o: nat)
    requires h.geometry.Valid()
  {
    && (!h.geometry.level.Raid0? ==>
          IsParity(false, DataBlocks(h, row), h.MemberBytes(h.geometry.ParityP(row)), o))
    && (h.geometry.level.Raid6? ==>
          IsParity(true, DataBlocks(h, row), h.MemberBytes(h.geometry.ParityQ(row)), o))
  }

  /** Is `o` the position of a byte of stripe row `row` on its members? */
  ghost predicate InRow(g: RaidGeometry, row: nat, o: nat)
    requires g.Valid()
  {
    var first := (g.dataOffsetSectors + row * g.ChunkSectors()) * g.sectorSize;
    row < g.StripeRows() && first <= o < first + g.chunkSizeBytes
  }

  ghost predicate Consistent(h: RaidArray) {
    && Complete(h)
    && forall row, o | InRow(h.geometry, row, o) :: RowParity(h, row, o)
  }

  /** `d` is `h` with some members taken away, no more than the level tolerates. */
  ghost predicate Degrades(d: RaidArray, h: RaidArray) {
    && d.Valid() && d.geometry == h.geometry
    && forall i | 0 <= i < |d.members| :: i < |h.members| && (d.members[i].None? || d.members[i] == h.members[i])
  }

  // ----- exclusive or does not depend on the order of the members

  ghost function SetXor(vals: seq<byte>, s: set<nat>): byte
    requires forall i | i in s :: i < |vals|
    decreases |s|
  {
    if s == {} then 0
    else
      var i :| i in s;
      BXor(vals[i], SetXor(vals, s - {i}))
  }

  lemma SetXorUnfold(vals: seq<byte>, s: set<nat>) returns (i: nat)
    requires s != {} && forall i | i in s :: i < |vals|
    ensures i in s && SetXor(vals, s) == BXor(vals[i], SetXor(vals, s - {i}))
  {
    i :| i in s && SetXor(vals, s) == BXor(vals[i], SetXor(vals, s - {i}));
  }

  lemma {:induction false} SetXorPick(vals: seq<byte>, s: set<nat>, x: nat)
    requires x in s && forall i | i in s :: i < |vals|
    ensures SetXor(vals, s) == BXor(vals[x], SetXor(vals, s - {x}))
    decreases |s|
  {
    hide BXor, SetXor;
    var i := SetXorUnfold(vals, s);
    if i != x {
      var rest := SetXor(vals, s - {i, x});
      SetXorPick(vals, s - {i}, x);
      SetXorPick(vals, s - {x}, i);
      assert s - {i} - {x} == s - {i, x} && s - {x} - {i} == s - {i, x};
      XorAssoc(vals[i], vals[x], rest);
      XorComm(vals[i], vals[x]);
      XorAssoc(vals[x], vals[i], rest);
    }
  }

  lemma SetXorAdd(vals: seq<byte>, s: set<nat>, x: nat)
    requires x !in s && x < |vals| && forall i | i in s :: i < |vals|
    ensures SetXor(vals, s + {x}) == BXor(vals[x], SetXor(vals, s))
  {
    SetXorPick(vals, s + {x}, x);
    assert s + {x} - {x} == s;
  }

  /** Byte `o` of every member. */
  ghost function ValuesAt(h: RaidArray, o: nat): (vals: seq<byte>)
    ensures |vals| == |h.members| && forall i | 0 <= i < |vals| :: vals[i] == At(h.MemberBytes(i), o)
  {
    seq(|h.members|, (i: nat) => At(h.MemberBytes(i), o))
  }

  ghost function Below(n: nat): (s: set<nat>)
    ensures forall i: nat :: i in s <==> i < n
  {
    if n == 0 then {} else Below(n - 1) + {n - 1}
  }

  lemma SumPrefix(cols: seq<Column>, n: nat, o: nat)
    requires 0 < n <= |cols|
    ensures ColumnSum(false, cols[..n], o) == BXor(At(cols[n - 1].block, o), ColumnSum(false, cols[..n - 1], o))
  {
    assert cols[..n][..n - 1] == cols[..n - 1];
    TimesOne(At(cols[n - 1].block, o));
    XorComm(ColumnSum(false, cols[..n - 1], o), At(cols[n - 1].block, o));
  }

  lemma {:induction false} MemberSum(h: RaidArray, o: nat, n: nat)
    requires n <= |h.members|
    ensures ColumnSum(false, h.MemberColumns()[..n], o) == SetXor(ValuesAt(h, o), Below(n))
  {
    if n != 0 {
      MemberSum(h, o, n - 1);
      SumPrefix(h.MemberColumns(), n, o);
      SetXorAdd(ValuesAt(h, o), Below(n - 1), n - 1);
    }
  }

  /** The members that hold the first `n` data columns of a row. */
  ghost function Holders(g: RaidGeometry, row: nat, n: nat): (s: set<nat>)
    requires g.Valid() && n <= g.DataDisks()
    ensures forall i :: i in s <==> exists c | 0 <= c < n :: i == g.DataMember(row, c)
  {
    if n == 0 then {} else Holders(g, row, n - 1) + {g.DataMember(row, n - 1)}
  }

  lemma HoldersSound(g: RaidGeometry, row: nat, n: nat)
    requires g.Valid() && n <= g.DataDisks()
    ensures forall i | i in Holders(g, row, n) :: i < g.numMembers && i !in g.ParityMembers(row)
    ensures forall c | n <= c < g.DataDisks() :: g.DataMember(row, c) !in Holders(g, row, n)
  {
    hide RaidGeometry.DataMember, RaidGeometry.ParityMembers;
    forall i | i in Holders(g, row, n)
      ensures i < g.numMembers && i !in g.ParityMembers(row)
    {
      var c :| 0 <= c < n && i == g.DataMember(row, c);
      DataMemberSound(g, row, c);
    }
    forall c | n <= c < g.DataDisks()
      ensures g.DataMember(row, c) !in Holders(g, row, n)
    {
      if g.DataMember(row, c) in Holders(g, row, n) {
        var c' :| 0 <= c' < n && g.DataMember(row, c') == g.DataMember(row, c);
        DataMemberSound(g, row, c);
        DataMemberSound(g, row, c');
      }
    }
  }

  lemma DataColumnBlock(h: RaidArray, row: nat, c: nat)
    requires h.geometry.Valid() && c < h.geometry.DataDisks()
    ensures |h.DataColumns(row)| == h.geometry.DataDisks()
    ensures h.DataColumns(row)[c].block == h.MemberBytes(h.geometry.DataMember(row, c))
  {}

  lemma EmptySums(h: RaidArray, cols: seq<Column>, row: nat, o: nat)
    requires h.geometry.Valid()
    ensures ColumnSum(false, cols[..0], o) == 0
    ensures Holders(h.geometry, row, 0) == {} && SetXor(ValuesAt(h, o), {}) == 0
  {}

  lemma HoldersStep(g: RaidGeometry, row: nat, n: nat)
    requires g.Valid() && 0 < n <= g.DataDisks()
    ensures Holders(g, row, n) == Holders(g, row, n - 1) + {g.DataMember(row, n - 1)}
  {}

  lemma {:induction false} DataSum(h: RaidArray, row: nat, o: nat, n: nat)
    requires h.Valid() && h.geometry.Valid()
    requires n <= h.geometry.DataDisks() && |h.DataColumns(row)| == h.geometry.DataDisks()
    requires forall i | i in Holders(h.geometry, row, n) :: i < |h.members|
    ensures ColumnSum(false, h.DataColumns(row)[..n], o) == SetXor(ValuesAt(h, o), Holders(h.geometry, row, n))
  {
    hide *;
    if n == 0 {
      EmptySums(h, h.DataColumns(row), row, o);
    } else {
      var m := h.geometry.DataMember(row, n - 1);
      HoldersStep(h.geometry, row, n);
      HoldersSound(h.geometry, row, n - 1);
      DataSum(h, row, o, n - 1);
      SumPrefix(h.DataColumns(row), n, o);
      DataColumnBlock(h, row, n - 1);
      SetXorAdd(ValuesAt(h, o), Holders(h.geometry, row, n - 1), m);
    }
  }

  lemma RowMembers(g: RaidGeometry, row: nat)
    requires g.Valid()
    ensures Below(g.numMembers) == Holders(g, row, g.DataDisks()) + g.ParityMembers(row)
    ensures Holders(g, row, g.DataDisks()) !! g.ParityMembers(row)
    ensures forall i | i in g.ParityMembers(row) :: i < g.numMembers
  {
    HoldersSound(g, row, g.DataDisks());
    hide RaidGeometry.DataMember;
    forall i | i in Below(g.numMembers) && i !in g.ParityMembers(row)
      ensures i in Holders(g, row, g.DataDisks())
    {
      DataMemberComplete(g, row, i);
    }
  }

  /** All members of a row together xor to zero, or with a Q member present, to that member. */
  lemma RowTotal(h: RaidArray, row: nat, o: nat)
    requires h.Valid() && RowParity(h, row, o) && !h.geometry.level.Raid0?
    ensures ColumnSum(false, h.MemberColumns(), o)
         == if h.geometry.level.Raid6? then At(h.MemberBytes(h.geometry.ParityQ(row)), o) else 0
  {
    hide RaidGeometry.DataMember, RaidGeometry.ParityP, RaidArray.DataColumns, ColumnSum, SetXor, BXor;
    var g, n := h.geometry, h.geometry.numMembers;
    var vals, holders := ValuesAt(h, o), Holders(g, row, g.DataDisks());
    var p, q := g.ParityP(row), g.ParityQ(row);
    RowMembers(g, row);
    ParityDistinct(g, row);
    MemberSum(h, o, n);
    assert h.MemberColumns()[..n] == h.MemberColumns();
    assert h.DataColumns(row) == Enumerate(DataBlocks(h, row));
    assert h.DataColumns(row)[..g.DataDisks()] == h.DataColumns(row);
    DataSum(h, row, o, g.DataDisks());
    SetXorAdd(vals, holders, p);
    XorSelf(vals[p]);
    if g.level.Raid6? {
      SetXorAdd(vals, holders + {p}, q);
      assert Below(n) == holders + {p} + {q};
      XorId(vals[q]);
    }
  }

  // ----- every byte of the degraded array is the byte of the complete one

  lemma {:induction false} SelectAgrees(a: seq<Column>, b: seq<Column>, idxs: set<nat>)
    requires |a| == |b|
    requires forall k | 0 <= k < |a| :: a[k].idx == b[k].idx && (a[k].idx in idxs || a[k] == b[k])
    ensures Select(a, idxs, false) == Select(b, idxs, false)
  {
    if |a| != 0 {
      SelectAgrees(a[..|a| - 1], b[..|b| - 1], idxs);
    }
  }

  /** Leaving out the lost members, both arrays list the same columns. */
  lemma SameMembers(d: RaidArray, h: RaidArray, idxs: set<nat>)
    requires Complete(h) && Degrades(d, h) && d.Missing() <= idxs
    ensures Select(d.MemberColumns(), idxs, false) == Select(h.MemberColumns(), idxs, false)
  {
    hide Select;
    forall i | 0 <= i < |d.members| && i !in idxs
      ensures d.members[i] == h.members[i]
    {
      assert i !in d.Missing();
    }
    SelectAgrees(d.MemberColumns(), h.MemberColumns(), idxs);
  }

  lemma SurvivorBytes(d: RaidArray, h: RaidArray, i: nat)
    requires Complete(h) && Degrades(d, h) && i !in d.Missing()
    ensures d.MemberBytes(i) == h.MemberBytes(i)
  {}

  lemma SameIntact(d: RaidArray, h: RaidArray, row: nat)
    requires Complete(h) && Degrades(d, h)
    ensures d.IntactColumns(row) == Select(Enumerate(DataBlocks(h, row)), d.LostSet(row), false)
  {
    hide Select, RaidGeometry.DataMember;
    var a, b := d.DataColumns(row), Enumerate(DataBlocks(h, row));
    forall c | 0 <= c < |a| && c !in d.LostSet(row)
      ensures a[c] == b[c]
    {
      assert !d.ColumnLost(row, c);
      SurvivorBytes(d, h, d.geometry.DataMember(row, c));
    }
    SelectAgrees(a, b, d.LostSet(row));
  }

  lemma ColumnBlock(h: RaidArray, row: nat, c: nat)
    requires h.geometry.Valid() && c < h.geometry.DataDisks()
    ensures DataBlocks(h, row)[c] == h.MemberBytes(h.geometry.DataMember(row, c))
  {}

  lemma {:induction false} SelectMember(h: RaidArray, m: nat, o: nat)
    requires m < |h.members|
    ensures ColumnSum(false, Select(h.MemberColumns(), {m}, true), o) == At(h.MemberBytes(m), o)
  {
    var blocks := seq(|h.members|, (i: nat) => h.MemberBytes(i));
    SelectOne(blocks, {m}, m, |blocks|);
    assert Enumerate(blocks)[..|blocks|] == Enumerate(blocks);
    SumOne(false, Column(m, blocks[m]), o);
    TimesOne(At(blocks[m], o));
  }

  lemma SelectMembers(h: RaidArray, x: nat, y: nat, o: nat)
    requires x < y < |h.members|
    ensures ColumnSum(false, Select(h.MemberColumns(), {x, y}, true), o)
         == BXor(At(h.MemberBytes(x), o), At(h.MemberBytes(y), o))
  {
    var blocks := seq(|h.members|, (i: nat) => h.MemberBytes(i));
    var cx, cy := Column(x, blocks[x]), Column(y, blocks[y]);
    SelectTwo(blocks, x, y, |blocks|);
    assert Enumerate(blocks)[..|blocks|] == Enumerate(blocks);
    SumOne(false, cx, o);
    SumAppend(false, [cx], cy, o);
    assert [cx] + [cy] == [cx, cy];
    TimesOne(At(blocks[x], o));
    TimesOne(At(blocks[y], o));
  }

  /** RAID 5: the exclusive or of all other members is the lost member. */
  lemma Raid5Byte(h: RaidArray, row: nat, m: nat, o: nat)
    requires h.Valid() && h.geometry.level.Raid5? && RowParity(h, row, o) && m < |h.members|
    ensures ColumnSum(false, Select(h.MemberColumns(), {m}, false), o) == At(h.MemberBytes(m), o)
  {
    hide RaidGeometry.DataMember, ColumnSum, Select;
    RowTotal(h, row, o);
    SumSplits(false, h.MemberColumns(), {m}, o);
    SelectMember(h, m, o);
    XorZero(ColumnSum(false, Select(h.MemberColumns(), {m}, false), o), At(h.MemberBytes(m), o));
  }

  /** RAID 6 with one member lost: the exclusive or of all other members except Q is the lost member. */
  lemma Raid6SingleByte(h: RaidArray, row: nat, m: nat, o: nat)
    requires h.Valid() && h.geometry.level.Raid6? && RowParity(h, row, o) && m < |h.members|
    requires m != h.geometry.ParityQ(row)
    ensures ColumnSum(false, Select(h.MemberColumns(), {m, h.geometry.ParityQ(row)}, false), o)
         == At(h.MemberBytes(m), o)
  {
    hide RaidGeometry.DataMember, RaidGeometry.ParityP, ColumnSum, Select, BXor;
    var q := h.geometry.ParityQ(row);
    var vm, vq := At(h.MemberBytes(m), o), At(h.MemberBytes(q), o);
    var rest := ColumnSum(false, Select(h.MemberColumns(), {m, q}, false), o);
    RowTotal(h, row, o);
    SumSplits(false, h.MemberColumns(), {m, q}, o);
    assert {q, m} == {m, q};
    if m < q {
      SelectMembers(h, m, q, o);
    } else {
      SelectMembers(h, q, m, o);
      XorComm(vq, vm);
    }
    // rest ^ (vm ^ vq) == vq
    XorAssoc(rest, vm, vq);
    XorCancel(BXor(rest, vm), vq);
    XorSelf(vq);
    XorZero(rest, vm);
  }

  /** Two data columns lost from one RAID 6 row have different coefficients. */
  predicate PairsDistinct(d: RaidArray, row: nat)
    requires d.geometry.Valid()
  {
    var lost := d.LostColumns(row, d.geometry.DataDisks());
    d.geometry.level.Raid6? && |lost| == 2 ==> lost[0] % 255 != lost[1] % 255
  }

  /** So in every stripe row. */
  ghost predicate AllPairsDistinct(d: RaidArray)
    requires d.geometry.Valid()
  {
    forall row | 0 <= row < d.geometry.StripeRows() :: PairsDistinct(d, row)
  }

  /** RAID 6 with a second member lost, or with P lost: the row's equations give the lost byte back. */
  lemma Raid6PairByte(d: RaidArray, h: RaidArray, row: nat, col: nat, o: nat)
    requires Complete(h) && Degrades(d, h) && h.geometry.level.Raid6? && RowParity(h, row, o)
    requires col < h.geometry.DataDisks() && d.ColumnLost(row, col)
    requires d.Missing() != {d.geometry.DataMember(row, col)} && PairsDistinct(d, row)
    ensures d.ByteAt(row, col, o) == At(h.MemberBytes(h.geometry.DataMember(row, col)), o)
  {
    hide RaidGeometry.DataMember, RaidGeometry.ParityP, ColumnSum, Select, BXor, MissingPair, MissingFromP,
      MissingFromQ;
    var g, blocks := h.geometry, DataBlocks(h, row);
    var p, q := g.ParityP(row), g.ParityQ(row);
    var lost := d.LostColumns(row, g.DataDisks());
    LostDataMember(d, row, col);
    SameIntact(d, h, row);
    ColumnBlock(h, row, col);
    if p in d.Missing() {
      assert d.LostSet(row) == {col};
      SurvivorBytes(d, h, q);
      ReconstructWithQInverts(d.galois, blocks, h.MemberBytes(q), col, o);
    } else if q in d.Missing() {
      assert d.LostSet(row) == {col};
      SurvivorBytes(d, h, p);
      ReconstructWithPInverts(blocks, h.MemberBytes(p), col, o);
    } else {
      assert d.LostSet(row) == {lost[0], lost[1]};
      SurvivorBytes(d, h, p);
      SurvivorBytes(d, h, q);
      Reconstruct2DataInverts(d.galois, blocks, h.MemberBytes(p), h.MemberBytes(q), lost[0], lost[1], o);
    }
  }

  /** Every data byte of a consistent row is read or rebuilt correctly. */
  lemma DegradedByte(d: RaidArray, h: RaidArray, row: nat, col: nat, o: nat)
    requires Complete(h) && Degrades(d, h) && RowParity(h, row, o)
    requires col < h.geometry.DataDisks() && PairsDistinct(d, row)
    ensures d.ByteAt(row, col, o) == h.ByteAt(row, col, o)
  {
    hide RaidGeometry.DataMember, RaidGeometry.ParityP, ColumnSum, Select, BXor, MissingPair, MissingFromP,
      MissingFromQ;
    var g := h.geometry;
    var m := g.DataMember(row, col);
    DataMemberSound(g, row, col);
    assert m !in h.Missing();
    if m !in d.Missing() {
      SurvivorBytes(d, h, m);
    } else {
      match g.level
      case Raid0 =>
        Raid0Complete(d, m);
      case Raid5 =>
        SubsetFull({m}, d.Missing());
        SameMembers(d, h, {m});
        Raid5Byte(h, row, m, o);
      case Raid6 =>
        if d.Missing() == {m} {
          SameMembers(d, h, {m, g.ParityQ(row)});
          Raid6SingleByte(h, row, m, o);
        } else {
          Raid6PairByte(d, h, row, col, o);
        }
    }
  }

  lemma CompleteByte(h: RaidArray, row: nat, col: nat, o: nat)
    requires Complete(h) && col < h.geometry.DataDisks()
    ensures h.ByteAt(row, col, o) == At(DataBlocks(h, row)[col], o)
  {
    hide RaidGeometry.DataMember;
    DataMemberSound(h.geometry, row, col);
    ColumnBlock(h, row, col);
    assert h.geometry.DataMember(row, col) !in h.Missing();
  }

  /** With coinciding coefficients the two lost columns x < y come back as D_x ^ D_y and zero. */
  lemma AliasedPairByte(d: RaidArray, h: RaidArray, row: nat, x: nat, y: nat, o: nat)
    requires Complete(h) && Degrades(d, h) && h.geometry.level.Raid6? && RowParity(h, row, o)
    requires d.LostColumns(row, d.geometry.DataDisks()) == [x, y] && x < y < h.geometry.DataDisks()
    requires x % 255 == y % 255
    ensures d.ByteAt(row, x, o) == BXor(h.ByteAt(row, x, o), h.ByteAt(row, y, o))
    ensures d.ByteAt(row, y, o) == 0
  {
    hide RaidGeometry.DataMember, RaidGeometry.ParityP, ColumnSum, Select, BXor, MissingPair, MissingFromP,
      MissingFromQ;
    var g, blocks := h.geometry, DataBlocks(h, row);
    var p, q := g.ParityP(row), g.ParityQ(row);
    assert x in [x, y] && y in [x, y];
    LostDataMember(d, row, x);
    LostDataMember(d, row, y);
    DataMemberSound(g, row, x);
    DataMemberSound(g, row, y);
    SameIntact(d, h, row);
    assert d.LostSet(row) == {x, y};
    SurvivorBytes(d, h, p);
    SurvivorBytes(d, h, q);
    SameCoefficient(x, y);
    PairByte(d.galois, blocks, h.MemberBytes(p), h.MemberBytes(q), x, y, o);
    CompleteByte(h, row, x, o);
    CompleteByte(h, row, y, o);
  }

  /** For such a pair the degraded bytes are right if and only if column y holds zero there. */
  lemma AliasedPairReadable(d: RaidArray, h: RaidArray, row: nat, x: nat, y: nat, o: nat)
    requires Complete(h) && Degrades(d, h) && h.geometry.level.Raid6? && RowParity(h, row, o)
    requires d.LostColumns(row, d.geometry.DataDisks()) == [x, y] && x < y < h.geometry.DataDisks()
    requires x % 255 == y % 255
    ensures d.ByteAt(row, x, o) == h.ByteAt(row, x, o) && d.ByteAt(row, y, o) == h.ByteAt(row, y, o)
      <==> h.ByteAt(row, y, o) == 0
  {
    hide RaidArray.ByteAt, BXor, RaidArray.LostColumns;
    AliasedPairByte(d, h, row, x, y, o);
    XorId(h.ByteAt(row, x, o));
  }

  /** Up to 257 members no two data columns share a coefficient. */
  lemma SmallArraysDistinct(d: RaidArray, row: nat)
    requires d.Valid() && (d.geometry.level.Raid6? ==> d.geometry.numMembers <= 257)
    ensures PairsDistinct(d, row)
  {
    hide RaidArray.ColumnLost;
    var lost := d.LostColumns(row, d.geometry.DataDisks());
    LostColumnsSorted(d, row, d.geometry.DataDisks());
    if |lost| == 2 {
      assert lost[0] in lost && lost[1] in lost;
    }
  }

  // ----- reads

  /** The bytes of an in-bounds array sector lie in its stripe row. */
  lemma LbaInRow(a: RaidArray, lba: nat, b: nat)
    requires a.Valid() && lba < a.totalLogicalBlocks && b < a.geometry.sectorSize
    ensures var loc := a.geometry.MapLba(lba);
      loc.dataCol < a.geometry.DataDisks()
        && InRow(a.geometry, loc.stripeRow, loc.memberLba * a.geometry.sectorSize + b)
  {
    hide RaidGeometry.TotalLogicalSectors, RaidGeometry.DataMember, RaidGeometry.StripeRows;
    var g := a.geometry;
    var loc := g.MapLba(lba);
    MapLbaBounds(g, lba);
    ChunkBytes(g);
    RowWindow(g.dataOffsetSectors + loc.stripeRow * g.ChunkSectors(), loc.offsetInChunk, g.ChunkSectors(),
              g.sectorSize, b);
  }

  lemma RowWindow(first: nat, offset: nat, chunk: nat, size: nat, b: nat)
    requires offset < chunk && b < size
    ensures first * size <= (first + offset) * size + b < first * size + chunk * size
  {
    MulBelow(offset, size, b, chunk);
    assert (first + offset) * size == first * size + offset * size;
  }

  lemma SameLogicalByte(d: RaidArray, h: RaidArray, lba: nat, b: nat)
    requires Consistent(h) && Degrades(d, h) && lba < h.totalLogicalBlocks && b < h.geometry.sectorSize
    requires AllPairsDistinct(d)
    ensures d.LogicalByte(lba, b) == h.LogicalByte(lba, b)
  {
    LbaInRow(h, lba, b);
    hide RaidArray.ByteAt, RaidGeometry.MapLba, RaidGeometry.TotalLogicalSectors, RaidGeometry.ChunkSectors,
      InRow, PairsDistinct, RowParity;
    var loc := h.geometry.MapLba(lba);
    DegradedByte(d, h, loc.stripeRow, loc.dataCol, loc.memberLba * h.geometry.sectorSize + b);
  }

  lemma SameContentByte(d: RaidArray, h: RaidArray, start: nat, count: nat, k: nat)
    requires Consistent(h) && Degrades(d, h) && start + count <= h.totalLogicalBlocks
    requires k < count * h.geometry.sectorSize
    requires AllPairsDistinct(d)
    ensures d.LogicalBytes(start, count)[k] == h.LogicalBytes(start, count)[k]
  {
    var size := h.geometry.sectorSize;
    DivBelow(k, size, count);
    SameLogicalByte(d, h, start + k / size, k % size);
  }

  /** The degraded array has the same logical content as the complete one. */
  lemma SameContent(d: RaidArray, h: RaidArray, start: nat, count: nat)
    requires Consistent(h) && Degrades(d, h) && start + count <= h.totalLogicalBlocks
    requires AllPairsDistinct(d)
    ensures d.LogicalBytes(start, count) == h.LogicalBytes(start, count)
  {
    hide RaidArray.LogicalBytes, PairsDistinct, RowParity, RaidGeometry.TotalLogicalSectors;
    forall k | 0 <= k < count * h.geometry.sectorSize
      ensures d.LogicalBytes(start, count)[k] == h.LogicalBytes(start, count)[k]
    {
      SameContentByte(d, h, start, count, k);
    }
  }

  /** No member has bad sectors or is shorter than the geometry says. */
  ghost predicate FullyReadable(h: RaidArray) {
    forall i, sector | 0 <= i < |h.members| && h.members[i].Some? && 0 <= sector < h.geometry.memberCapacitySectors ::
      h.members[i].value.SectorOk(h.geometry.sectorSize, sector)
  }

  lemma AllReadable(a: RaidArray, lba: nat)
    requires a.Valid() && FullyReadable(a) && lba < a.totalLogicalBlocks
    ensures a.LbaReadable(lba)
  {
    hide RaidGeometry.DataMember;
    MapLbaSound(a.geometry, lba);
    var loc := a.geometry.MapLba(lba);
    forall i | i in a.Needed(loc.stripeRow, loc.dataCol)
      ensures a.MemberSectorOk(i, loc.memberLba)
    {}
  }

  /** A degraded array whose lost pairs are distinct reads what the complete array reads. */
  lemma DistinctReadsComplete(d: RaidArray, h: RaidArray, start: nat, count: nat)
    requires Consistent(h) && Degrades(d, h) && AllPairsDistinct(d)
    ensures d.ReadResult(start, count).Ok? ==> d.ReadResult(start, count).value == h.LogicalBytes(start, count)
    ensures FullyReadable(h) ==> d.ReadResult(start, count) == h.ReadResult(start, count)
  {
    hide RaidArray.ByteAt, RaidArray.LbaReadable, RaidGeometry.MapLba, RaidGeometry.TotalLogicalSectors,
      RaidArray.LogicalBytes, AllPairsDistinct;
    if start + count <= h.totalLogicalBlocks {
      SameContent(d, h, start, count);
      if FullyReadable(h) {
        assert FullyReadable(d);
        forall lba | start <= lba < start + count
          ensures d.LbaReadable(lba) && h.LbaReadable(lba)
        {
          AllReadable(d, lba);
          AllReadable(h, lba);
        }
      }
    }
  }

  /**
   * A RAID 5 or RAID 6 array with any tolerated set of members missing reads what the complete array reads:
   * a read that succeeds returns the complete array's bytes, and on members without read errors the two
   * reads are equal, errors included.
   */
  lemma DegradedReadsComplete(d: RaidArray, h: RaidArray, start: nat, count: nat)
    requires Consistent(h) && Degrades(d, h)
    requires h.geometry.level.Raid6? ==> h.geometry.numMembers <= 257
    ensures d.ReadResult(start, count).Ok? ==> d.ReadResult(start, count).value == h.LogicalBytes(start, count)
    ensures FullyReadable(h) ==> d.ReadResult(start, count) == h.ReadResult(start, count)
  {
    hide PairsDistinct, RaidArray.ReadResult, RaidArray.LogicalBytes, FullyReadable, Consistent;
    forall row | 0 <= row < d.geometry.StripeRows()
      ensures PairsDistinct(d, row)
    {
      SmallArraysDistinct(d, row);
    }
    DistinctReadsComplete(d, h, start, count);
  }

  /** A read is the concatenation of any two shorter reads it is cut into, degraded or not. */
  lemma ReadConcatenates(a: RaidArray, start: nat, m: nat, k: nat)
    requires a.Valid()
    ensures var whole, head, tail := a.ReadResult(start, m + k), a.ReadResult(start, m), a.ReadResult(start + m, k);
      && (whole.Ok? <==> head.Ok? && tail.Ok?)
      && (whole.Ok? ==> whole.value == head.value + tail.value)
  {
    hide RaidArray.LbaReadable, RaidArray.LogicalByte, RaidGeometry.TotalLogicalSectors;
    AppendBytes(a, start, m, k, a.LogicalBytes(start + m, k));
  }
}

/** Long file names on FAT volumes, put together from directory entries of 13 characters each. */
module LongNames {
  import opened Bits
  import opened Wrappers

  /** A UTF-16 code unit; strings are sequences of them. */
  type unit = x: int | 0 <= x < 0x1_0000

  // ----- text

  predicate IsHigh(u: unit) { 0xD800 <= u < 0xDC00 }

  predicate IsLow(u: unit) { 0xDC00 <= u < 0xE000 }

  /** The library's lossy decoding: unpaired surrogates are replaced. */
  function Lossy(s: seq<unit>): (r: seq<unit>)
    ensures |r| == |s|
  {
    if |s| == 0 then []
    else if |s| > 1 && IsHigh(s[0]) && IsLow(s[1]) then s[..2] + Lossy(s[2..])
    else (if IsHigh(s[0]) || IsLow(s[0]) then [0xFFFD] else [s[0]]) + Lossy(s[1..])
  }

  predicate WellFormed(s: seq<unit>) {
    if |s| == 0 then true
    else if |s| > 1 && IsHigh(s[0]) && IsLow(s[1]) then WellFormed(s[2..])
    else !IsHigh(s[0]) && !IsLow(s[0]) && WellFormed(s[1..])
  }

  lemma {:induction false} LossyKeepsIff(s: seq<unit>)
    ensures Lossy(s) == s <==> WellFormed(s)
  {
    if |s| == 0 {
    } else if |s| > 1 && IsHigh(s[0]) && IsLow(s[1]) {
      LossyKeepsIff(s[2..]);
      assert s == s[..2] + s[2..];
      assert Lossy(s)[2..] == Lossy(s[2..]);
    } else {
      LossyKeepsIff(s[1..]);
      assert s == [s[0]] + s[1..];
      assert Lossy(s)[1..] == Lossy(s[1..]);
    }
  }

  /** A high surrogate without a low one behind it, or a low one without a high one before it. */
  predicate Unpaired(s: seq<unit>, i: nat)
    requires i < |s|
  {
    || (0xD800 <= s[i] <= 0xDBFF && !(i + 1 < |s| && 0xDC00 <= s[i + 1] <= 0xDFFF))
    || (0xDC00 <= s[i] <= 0xDFFF && !(i > 0 && 0xD800 <= s[i - 1] <= 0xDBFF))
  }

  /** Unpaired surrogates become U+FFFD, and nothing else changes. */
  lemma {:induction false} LossyIs(s: seq<unit>, i: nat)
    requires i < |s|
    ensures Lossy(s)[i] == if Unpaired(s, i) then 0xFFFD else s[i]
  {
    if |s| > 1 && IsHigh(s[0]) && IsLow(s[1]) {
      if i >= 2 {
        LossyIs(s[2..], i - 2);
      }
    } else if i >= 1 {
      LossyIs(s[1..], i - 1);
    }
  }

  /** The White_Space characters of Unicode, all in the basic plane. */
  predicate IsWhite(u: unit) {
    || 9 <= u <= 13 || u == 0x20 || u == 0x85 || u == 0xA0 || u == 0x1680 || 0x2000 <= u <= 0x200A
    || u == 0x2028 || u == 0x2029 || u == 0x202F || u == 0x205F || u == 0x3000
  }

  lemma WhiteIs(u: unit)
    ensures IsWhite(u) <==>
      u in {0x09, 0x0A, 0x0B, 0x0C, 0x0D, 0x20, 0x85, 0xA0, 0x1680, 0x2000, 0x2001, 0x2002, 0x2003, 0x2004, 0x2005,
            0x2006, 0x2007, 0x2008, 0x2009, 0x200A, 0x2028, 0x2029, 0x202F, 0x205F, 0x3000}
  {}

  predicate IsNul(u: unit) { u == 0 }

  function TrimBy(s: seq<unit>, drop: unit -> bool): (r: seq<unit>)
    ensures |r| <= |s|
  {
    if |s| == 0 then []
    else if drop(s[0]) then TrimBy(s[1..], drop)
    else if drop(s[|s| - 1]) then TrimBy(s[..|s| - 1], drop)
    else s
  }

  function Tidy(s: seq<unit>): Option<seq<unit>> {
    var trimmed := TrimBy(TrimBy(s, IsNul), IsWhite);
    if |trimmed| == 0 then None else Some(trimmed)
  }

  predicate All(s: seq<unit>, drop: unit -> bool) {
    forall i | 0 <= i < |s| :: drop(s[i])
  }

  predicate EndsKept(s: seq<unit>, drop: unit -> bool) {
    |s| != 0 ==> !drop(s[0]) && !drop(s[|s| - 1])
  }

  lemma {:induction false} TrimByIs(a: seq<unit>, m: seq<unit>, b: seq<unit>, drop: unit -> bool)
    requires All(a, drop) && All(b, drop) && EndsKept(m, drop)
    ensures TrimBy(a + m + b, drop) == m
    decreases |a| + |b|
  {
    var s := a + m + b;
    if |a| != 0 {
      assert s[1..] == a[1..] + m + b;
      TrimByIs(a[1..], m, b, drop);
    } else if |b| != 0 {
      assert s[..|s| - 1] == a + m + b[..|b| - 1] && s[|s| - 1] == b[|b| - 1];
      TrimByIs(a, m, b[..|b| - 1], drop);
      if m == [] {
        assert s == b && s[1..] == b[1..];
        TrimByIs([], [], b[1..], drop);
        assert [] + [] + b[1..] == b[1..];
      }
    } else {
      assert s == m;
    }
  }

  /** First NUL characters go from both ends, then white space; NUL characters behind white space stay. */
  lemma TidyIs(a: seq<unit>, w: seq<unit>, r: seq<unit>, v: seq<unit>, b: seq<unit>)
    requires (forall i | 0 <= i < |a| :: a[i] == 0) && (forall i | 0 <= i < |b| :: b[i] == 0)
    requires var m := w + r + v; m != [] ==> m[0] != 0 && m[|m| - 1] != 0
    requires All(w, IsWhite) && All(v, IsWhite) && EndsKept(r, IsWhite)
    ensures Tidy(a + (w + r + v) + b) == if r == [] then None else Some(r)
  {
    TrimByIs(a, w + r + v, b, IsNul);
    TrimByIs(w, r, v, IsWhite);
  }

  /** Nothing to trim at either end. */
  predicate CleanEnds(s: seq<unit>) {
    |s| != 0 ==> !IsNul(s[0]) && !IsWhite(s[0]) && !IsNul(s[|s| - 1]) && !IsWhite(s[|s| - 1])
  }

  lemma TidyKeepsIff(s: seq<unit>, name: seq<unit>)
    requires |s| <= |name|
    ensures Tidy(s) == Some(name) <==> s == name && |name| != 0 && CleanEnds(name)
  {}

  // ----- one directory entry

  /** Character `j` of an entry: five, six and two of them, in three places. */
  function UnitAt(entry: seq<byte>, j: nat): unit
    requires |entry| >= 32 && j < 13
  {
    var at := if j < 5 then 1 + j * 2 else if j < 11 then 14 + (j - 5) * 2 else 28 + (j - 11) * 2;
    entry[at] as int + 256 * entry[at + 1] as int
  }

  predicate IsEnd(u: unit) { u == 0 || u == 0xFFFF }

  /** The characters from `j` up to the end mark. */
  function UnitsFrom(entry: seq<byte>, j: nat): seq<unit>
    requires |entry| >= 32 && j <= 13
    decreases 13 - j
  {
    if j == 13 || IsEnd(UnitAt(entry, j)) then [] else [UnitAt(entry, j)] + UnitsFrom(entry, j + 1)
  }

  predicate IsLfnEntry(entry: seq<byte>) {
    |entry| >= 32 && entry[11] == 0x0F
  }

  /** The sequence number, without the flag of the last entry. */
  function NumberOf(entry: seq<byte>): nat {
    if |entry| == 0 then 0 else entry[0] as nat % 32
  }

  function ChunkOf(entry: seq<byte>): (nat, seq<unit>)
    requires |entry| >= 32
  {
    (NumberOf(entry), Lossy(UnitsFrom(entry, 0)))
  }

  // ----- sorting by sequence number

  function InsertByKey<T>(s: seq<(nat, T)>, x: (nat, T)): (r: seq<(nat, T)>)
    ensures |r| == |s| + 1
  {
    if |s| == 0 || s[|s| - 1].0 <= x.0 then s + [x]
    else InsertByKey(s[..|s| - 1], x) + [s[|s| - 1]]
  }

  /** A stable sort. */
  function SortByKey<T>(s: seq<(nat, T)>): (r: seq<(nat, T)>)
    ensures |r| == |s|
  {
    if |s| == 0 then [] else InsertByKey(SortByKey(s[..|s| - 1]), s[|s| - 1])
  }

  predicate SortedByKey<T>(s: seq<(nat, T)>) {
    forall i, j | 0 <= i < j < |s| :: s[i].0 <= s[j].0
  }

  lemma {:induction false} InsertKeepsAll<T>(s: seq<(nat, T)>, x: (nat, T))
    ensures multiset(InsertByKey(s, x)) == multiset(s) + multiset{x}
  {
    if |s| != 0 && s[|s| - 1].0 > x.0 {
      InsertKeepsAll(s[..|s| - 1], x);
      assert s == s[..|s| - 1] + [s[|s| - 1]];
    }
  }

  lemma {:induction false} InsertSorts<T>(s: seq<(nat, T)>, x: (nat, T))
    requires SortedByKey(s)
    ensures SortedByKey(InsertByKey(s, x))
  {
    if |s| != 0 && s[|s| - 1].0 > x.0 {
      var front, last := s[..|s| - 1], s[|s| - 1];
      InsertSorts(front, x);
      InsertBelow(front, x, last.0);
    }
  }

  lemma {:induction false} InsertBelow<T>(s: seq<(nat, T)>, x: (nat, T), bound: nat)
    requires x.0 <= bound && forall i | 0 <= i < |s| :: s[i].0 <= bound
    ensures forall i | 0 <= i < |InsertByKey(s, x)| :: InsertByKey(s, x)[i].0 <= bound
  {
    if |s| != 0 && s[|s| - 1].0 > x.0 {
      InsertBelow(s[..|s| - 1], x, bound);
    }
  }

  lemma {:induction false} SortSorts<T>(s: seq<(nat, T)>)
    ensures SortedByKey(SortByKey(s)) && multiset(SortByKey(s)) == multiset(s)
  {
    if |s| != 0 {
      SortSorts(s[..|s| - 1]);
      InsertSorts(SortByKey(s[..|s| - 1]), s[|s| - 1]);
      InsertKeepsAll(SortByKey(s[..|s| - 1]), s[|s| - 1]);
      assert s == s[..|s| - 1] + [s[|s| - 1]];
    }
  }

  /** The elements with this key, in order. */
  function WithKey<T>(s: seq<(nat, T)>, key: nat): seq<(nat, T)> {
    if |s| == 0 then []
    else WithKey(s[..|s| - 1], key) + if s[|s| - 1].0 == key then [s[|s| - 1]] else []
  }

  lemma WithKeyMore<T>(s: seq<(nat, T)>, x: (nat, T), key: nat)
    ensures WithKey(s + [x], key) == WithKey(s, key) + if x.0 == key then [x] else []
  {
    assert (s + [x])[..|s|] == s;
  }

  lemma {:induction false} InsertIsStable<T>(s: seq<(nat, T)>, x: (nat, T), key: nat)
    ensures WithKey(InsertByKey(s, x), key) == WithKey(s, key) + if x.0 == key then [x] else []
  {
    if |s| == 0 || s[|s| - 1].0 <= x.0 {
      WithKeyMore(s, x, key);
    } else {
      InsertIsStable(s[..|s| - 1], x, key);
      WithKeyMore(InsertByKey(s[..|s| - 1], x), s[|s| - 1], key);
    }
  }

  /** Elements with equal keys keep their order. */
  lemma {:induction false} SortIsStable<T>(s: seq<(nat, T)>, key: nat)
    ensures WithKey(SortByKey(s), key) == WithKey(s, key)
  {
    if |s| != 0 {
      SortIsStable(s[..|s| - 1], key);
      InsertIsStable(SortByKey(s[..|s| - 1]), s[|s| - 1], key);
    }
  }

  // ----- the accumulator

  function Concat(chunks: seq<(nat, seq<unit>)>): seq<unit> {
    if |chunks| == 0 then [] else Concat(chunks[..|chunks| - 1]) + chunks[|chunks| - 1].1
  }

  function Reversed<T>(s: seq<T>): (r: seq<T>)
    ensures |r| == |s| && forall i | 0 <= i < |s| :: r[i] == s[|s| - 1 - i]
  {
    seq(|s|, i requires 0 <= i < |s| => s[|s| - 1 - i])
  }

  datatype Collected = Collected(chunks: seq<(nat, seq<unit>)>, isDeleted: bool)
  {
    function Feed(entry: seq<byte>): Collected {
      if !IsLfnEntry(entry) then this
      else Collected(chunks + [ChunkOf(entry)], isDeleted || entry[0] == 0xE5)
    }

    function FeedAll(entries: seq<seq<byte>>): Collected {
      if |entries| == 0 then this
      else FeedAll(entries[..|entries| - 1]).Feed(entries[|entries| - 1])
    }

    function Name(): Option<seq<unit>> {
      if |chunks| == 0 then None
      else Tidy(Concat(if isDeleted then Reversed(chunks) else SortByKey(chunks)))
    }
  }

  const NOTHING := Collected([], false)

  class LfnAccumulator {
    var chunks: seq<(nat, seq<unit>)>
    var isDeleted: bool

    function View(): Collected
      reads this
    {
      Collected(chunks, isDeleted)
    }

    /** Only collected entries can have marked the name as deleted. */
    predicate Valid()
      reads this
    {
      isDeleted ==> chunks != []
    }

    constructor ()
      ensures Valid() && View() == NOTHING
    {
      chunks, isDeleted := [], false;
    }

    method Feed(entry: seq<byte>)
      requires Valid()
      modifies this
      ensures Valid() && View() == old(View()).Feed(entry)
    {
      hide Lossy, UnitsFrom;
      if |entry| < 32 || entry[11] != 0x0F {
        return;
      }
      if entry[0] == 0xE5 {
        isDeleted := true;
      }
      var units := ReadUnits(entry);
      var seqNum := entry[0] as nat % 32;
      chunks := chunks + [(seqNum, Lossy(units))];
    }

    /** Reads up to five, six and two characters, going on only where the part before was full. */
    static method ReadUnits(entry: seq<byte>) returns (units: seq<unit>)
      requires |entry| >= 32
      ensures units == UnitsFrom(entry, 0)
    {
      hide UnitAt;
      units := ReadPart(entry, [], 5);
      if |units| == 5 {
        units := ReadPart(entry, units, 11);
      }
      if |units| == 11 {
        units := ReadPart(entry, units, 13);
      }
      assert UnitsFrom(entry, |units|) == [];
      assert [] + UnitsFrom(entry, 0) == UnitsFrom(entry, 0) && units + [] == units;
    }

    static method ReadPart(entry: seq<byte>, before: seq<unit>, limit: nat) returns (units: seq<unit>)
      requires |entry| >= 32 && |before| <= limit <= 13
      ensures |before| <= |units| <= limit && (|units| < limit ==> UnitsFrom(entry, |units|) == [])
      ensures before + UnitsFrom(entry, |before|) == units + UnitsFrom(entry, |units|)
    {
      hide UnitAt;
      units := before;
      for i := |before| to limit
        invariant |units| == i && before + UnitsFrom(entry, |before|) == units + UnitsFrom(entry, i)
      {
        var ch := UnitAt(entry, i);
        if ch == 0x0000 || ch == 0xFFFF {
          break;
        }
        units := units + [ch];
      }
    }

    /** Returns the name collected so far and starts anew. */
    method Finalize() returns (name: Option<seq<unit>>)
      requires Valid()
      modifies this
      ensures Valid() && name == old(View()).Name() && View() == NOTHING
    {
      if chunks == [] {
        return None;
      }
      var ordered := if isDeleted then Reversed(chunks) else SortByKey(chunks);
      var fullName: seq<unit> := [];
      for k := 0 to |ordered|
        invariant fullName == Concat(ordered[..k])
      {
        assert ordered[..k + 1][..k] == ordered[..k];
        fullName := fullName + ordered[k].1;
      }
      assert ordered[..|ordered|] == ordered;
      chunks, isDeleted := [], false;
      name := Tidy(fullName);
    }
  }

  // ----- a name written over several entries

  function ChunkCount(name: seq<unit>): (n: nat)
    ensures 13 * (n - 1) < |name| <= 13 * n || (name == [] && n == 0)
  {
    (|name| + 12) / 13
  }

  /** Part `k` of a name, counted from 1. */
  function Chunk(name: seq<unit>, k: nat): (r: seq<unit>)
    requires 1 <= k <= ChunkCount(name)
    ensures |r| <= 13
  {
    name[13 * (k - 1)..if 13 * k < |name| then 13 * k else |name|]
  }

  /** The entry stores the part, and an end mark behind a part shorter than 13; checksum and other fields are free. */
  predicate Holds(entry: seq<byte>, chunk: seq<unit>)
    requires |chunk| <= 13
  {
    && IsLfnEntry(entry)
    && (forall j | 0 <= j < |chunk| :: UnitAt(entry, j) == chunk[j])
    && (|chunk| < 13 ==> IsEnd(UnitAt(entry, |chunk|)))
  }

  function CutAtEnd(s: seq<unit>): (r: seq<unit>)
    ensures |r| <= |s|
  {
    if |s| == 0 || IsEnd(s[0]) then [] else [s[0]] + CutAtEnd(s[1..])
  }

  predicate NoEnds(s: seq<unit>) {
    forall i | 0 <= i < |s| :: !IsEnd(s[i])
  }

  lemma {:induction false} CutKeepsIff(s: seq<unit>)
    ensures CutAtEnd(s) == s <==> NoEnds(s)
    ensures |CutAtEnd(s)| == |s| <==> NoEnds(s)
  {
    if |s| != 0 && !IsEnd(s[0]) {
      CutKeepsIff(s[1..]);
      assert s == [s[0]] + s[1..];
    }
  }

  lemma {:induction false} ReadBack(entry: seq<byte>, chunk: seq<unit>, j: nat)
    requires |chunk| <= 13 && Holds(entry, chunk) && j <= |chunk|
    ensures UnitsFrom(entry, j) == CutAtEnd(chunk[j..])
    decreases |chunk| - j
  {
    hide UnitAt;
    if j < |chunk| {
      ReadBack(entry, chunk, j + 1);
      assert chunk[j..][1..] == chunk[j + 1..];
    }
  }

  /** What is read of part `k`. */
  function Text(name: seq<unit>, k: nat): (r: seq<unit>)
    requires 1 <= k <= ChunkCount(name)
    ensures |r| <= |Chunk(name, k)|
  {
    Lossy(CutAtEnd(Chunk(name, k)))
  }

  lemma TextKeptIff(name: seq<unit>, k: nat)
    requires 1 <= k <= ChunkCount(name)
    ensures Text(name, k) == Chunk(name, k) <==> NoEnds(Chunk(name, k)) && WellFormed(Chunk(name, k))
  {
    hide Lossy, CutAtEnd, NoEnds, WellFormed, Chunk;
    CutKeepsIff(Chunk(name, k));
    LossyKeepsIff(Chunk(name, k));
  }

  function TextsUpTo(name: seq<unit>, k: nat): seq<unit>
    requires k <= ChunkCount(name)
  {
    if k == 0 then [] else TextsUpTo(name, k - 1) + Text(name, k)
  }

  function Covered(name: seq<unit>, k: nat): nat {
    if 13 * k < |name| then 13 * k else |name|
  }

  lemma {:induction false} TextsSize(name: seq<unit>, k: nat)
    requires k <= ChunkCount(name)
    ensures |TextsUpTo(name, k)| <= Covered(name, k)
  {
    hide Text;
    if k != 0 {
      TextsSize(name, k - 1);
    }
  }

  /** The texts spell the name so far exactly when each is its part. */
  lemma {:induction false} TextsSpellIff(name: seq<unit>, k: nat)
    requires k <= ChunkCount(name)
    ensures TextsUpTo(name, k) == name[..Covered(name, k)]
      <==> forall i | 1 <= i <= k :: Text(name, i) == Chunk(name, i)
  {
    hide Text;
    if k != 0 {
      TextsSpellIff(name, k - 1);
      TextsSize(name, k - 1);
      var front, t, c := TextsUpTo(name, k - 1), Text(name, k), Chunk(name, k);
      assert name[..Covered(name, k)] == name[..Covered(name, k - 1)] + c;
      if TextsUpTo(name, k) == name[..Covered(name, k)] {
        assert |front| == Covered(name, k - 1) && |t| == |c|;
        assert front == (front + t)[..|front|] && t == (front + t)[|front|..];
        assert c == name[..Covered(name, k)][|front|..];
      }
    }
  }

  /** Exactly these names survive: none of their parts is cut or split inside a surrogate pair, nothing is trimmed. */
  predicate Survives(name: seq<unit>) {
    && |name| != 0 && CleanEnds(name)
    && forall k | 1 <= k <= ChunkCount(name) :: NoEnds(Chunk(name, k)) && WellFormed(Chunk(name, k))
  }

  lemma SurvivesIff(name: seq<unit>)
    ensures Tidy(TextsUpTo(name, ChunkCount(name))) == Some(name) <==> Survives(name)
  {
    hide Tidy, TextsUpTo, Text, Chunk, CleanEnds, NoEnds, WellFormed;
    var n := ChunkCount(name);
    assert Covered(name, n) == |name| && name[..|name|] == name;
    TextsSize(name, n);
    TextsSpellIff(name, n);
    TidyKeepsIff(TextsUpTo(name, n), name);
    forall k | 1 <= k <= n
      ensures Text(name, k) == Chunk(name, k) <==> NoEnds(Chunk(name, k)) && WellFormed(Chunk(name, k))
    {
      TextKeptIff(name, k);
    }
  }

  // ----- feeding the entries

  lemma {:induction false} FedChunks(entries: seq<seq<byte>>)
    requires forall i | 0 <= i < |entries| :: IsLfnEntry(entries[i])
    ensures var c := NOTHING.FeedAll(entries);
      && |c.chunks| == |entries|
      && (forall i | 0 <= i < |entries| :: IsLfnEntry(entries[i]) && c.chunks[i] == ChunkOf(entries[i]))
      && (c.isDeleted <==> exists i | 0 <= i < |entries| :: entries[i][0] == 0xE5)
  {
    hide ChunkOf;
    if |entries| != 0 {
      FedChunks(entries[..|entries| - 1]);
    }
  }

  lemma {:induction false} ConcatTexts(name: seq<unit>, chunks: seq<(nat, seq<unit>)>, k: nat)
    requires k <= ChunkCount(name) && |chunks| == k
    requires forall i | 0 <= i < k :: chunks[i].1 == Text(name, i + 1)
    ensures Concat(chunks) == TextsUpTo(name, k)
  {
    hide Text;
    if k != 0 {
      ConcatTexts(name, chunks[..k - 1], k - 1);
    }
  }

  /** The entry with number `k` stores part `k`. */
  predicate StoresItsPart(name: seq<unit>, entry: seq<byte>) {
    && IsLfnEntry(entry) && entry[0] != 0xE5
    && var k := NumberOf(entry);
       1 <= k <= ChunkCount(name) && Holds(entry, Chunk(name, k))
  }

  /** A live name in any order of its entries: sorting by number restores it, exactly if it survives at all. */
  lemma LiveNameIff(name: seq<unit>, entries: seq<seq<byte>>)
    requires |entries| == ChunkCount(name) && forall i | 0 <= i < |entries| :: StoresItsPart(name, entries[i])
    requires forall i, j | 0 <= i < j < |entries| :: NumberOf(entries[i]) != NumberOf(entries[j])
    ensures NOTHING.FeedAll(entries).Name() == Some(name) <==> Survives(name)
  {
    hide Holds, Chunk, NumberOf, UnitAt, ChunkOf, Text, Collected.FeedAll, Survives, Tidy;
    var c := NOTHING.FeedAll(entries);
    forall i | 0 <= i < |entries|
      ensures IsLfnEntry(entries[i]) && entries[i][0] != 0xE5
      ensures ChunkOf(entries[i]) == (NumberOf(entries[i]), Text(name, NumberOf(entries[i])))
    {
      assert StoresItsPart(name, entries[i]);
      ReadPartBack(name, entries[i]);
    }
    FedChunks(entries);
    forall i | 0 <= i < |entries|
      ensures 1 <= c.chunks[i].0 <= ChunkCount(name) && c.chunks[i] == (NumberOf(entries[i]), Text(name, c.chunks[i].0))
    {
      assert StoresItsPart(name, entries[i]);
    }
    hide StoresItsPart, IsLfnEntry;
    SortRestores(name, c.chunks);
    ConcatTexts(name, SortByKey(c.chunks), |entries|);
    SurvivesIff(name);
    if |entries| == 0 {
      assert !Survives(name) by { NothingSurvives(name); }
    }
  }

  lemma NothingSurvives(name: seq<unit>)
    requires ChunkCount(name) == 0
    ensures !Survives(name)
  {}

  lemma ReadPartBack(name: seq<unit>, entry: seq<byte>)
    requires StoresItsPart(name, entry)
    ensures ChunkOf(entry) == (NumberOf(entry), Text(name, NumberOf(entry)))
  {
    hide Lossy, CutAtEnd, UnitsFrom, Holds, Chunk, NumberOf;
    var chunk := Chunk(name, NumberOf(entry));
    ReadBack(entry, chunk, 0);
    assert chunk[0..] == chunk;
  }

  /** As many different numbers from 1 on as there are chunks: sorted, they are 1, 2, 3 and so on. */
  lemma SortRestores(name: seq<unit>, chunks: seq<(nat, seq<unit>)>)
    requires |chunks| == ChunkCount(name)
    requires forall i | 0 <= i < |chunks| ::
      1 <= chunks[i].0 <= |chunks| && chunks[i].1 == Text(name, chunks[i].0)
    requires forall i, j | 0 <= i < j < |chunks| :: chunks[i].0 != chunks[j].0
    ensures forall i | 0 <= i < |chunks| :: SortByKey(chunks)[i] == (i + 1, Text(name, i + 1))
  {
    hide Text, SortByKey;
    var sorted := SortByKey(chunks);
    SortSorts(chunks);
    SameNumbers(chunks, sorted);
    forall i | 0 <= i < |sorted|
      ensures sorted[i].0 == i + 1 && sorted[i].1 == Text(name, sorted[i].0)
    {
      assert sorted[i] in multiset(chunks);
      assert sorted[i] in chunks;
      AtLeast(sorted, i);
      AtMost(sorted, i);
    }
  }

  /** A permutation of a list with different numbers has different numbers. */
  lemma SameNumbers(a: seq<(nat, seq<unit>)>, b: seq<(nat, seq<unit>)>)
    requires multiset(a) == multiset(b) && forall i, j | 0 <= i < j < |a| :: a[i].0 != a[j].0
    ensures forall i, j | 0 <= i < j < |b| :: b[i].0 != b[j].0
    ensures forall x :: x in b <==> x in a
  {
    forall x
      ensures x in b <==> x in a
    {
      assert x in multiset(b) <==> x in multiset(a);
    }
    forall i, j | 0 <= i < j < |b|
      ensures b[i].0 != b[j].0
    {
      assert b[i] in a && b[j] in a;
      if b[i].0 == b[j].0 {
        Twice(b, i, j);
        assert multiset(a)[b[i]] >= 2;
        Once(a, b[i]);
      }
    }
  }

  lemma Twice<T>(s: seq<T>, i: nat, j: nat)
    requires i < j < |s| && s[i] == s[j]
    ensures multiset(s)[s[i]] >= 2
  {
    assert s == s[..i] + [s[i]] + s[i + 1..j] + [s[j]] + s[j + 1..];
  }

  lemma {:induction false} Once<T>(s: seq<(nat, T)>, x: (nat, T))
    requires forall i, j | 0 <= i < j < |s| :: s[i].0 != s[j].0
    ensures multiset(s)[x] <= 1
  {
    if |s| != 0 {
      var front, last := s[..|s| - 1], s[|s| - 1];
      assert s == front + [last];
      Once(front, x);
      if x == last {
        assert x !in front;
      }
    }
  }

  lemma {:induction false} AtLeast(s: seq<(nat, seq<unit>)>, i: nat)
    requires SortedByKey(s) && i < |s| && (forall x | x in s :: 1 <= x.0)
    requires forall x, y | 0 <= x < y < |s| :: s[x].0 != s[y].0
    ensures s[i].0 >= i + 1
  {
    assert s[i] in s;
    if i != 0 {
      AtLeast(s, i - 1);
      assert s[i - 1].0 <= s[i].0;
    }
  }

  lemma {:induction false} AtMost(s: seq<(nat, seq<unit>)>, i: nat)
    requires SortedByKey(s) && i < |s| && (forall x | x in s :: x.0 <= |s|)
    requires forall x, y | 0 <= x < y < |s| :: s[x].0 != s[y].0
    ensures s[i].0 <= i + 1
    decreases |s| - i
  {
    assert s[i] in s;
    if i + 1 < |s| {
      AtMost(s, i + 1);
      assert s[i].0 <= s[i + 1].0;
    }
  }

  /** A deleted name, whose numbers are lost: the order on disk, last part first, is enough. */
  lemma DeletedNameIff(name: seq<unit>, entries: seq<seq<byte>>)
    requires |entries| == ChunkCount(name)
    requires forall i | 0 <= i < |entries| ::
      Holds(entries[i], Chunk(name, |entries| - i)) && entries[i][0] == 0xE5
    ensures NOTHING.FeedAll(entries).Name() == Some(name) <==> Survives(name)
  {
    hide Chunk, UnitAt, Holds, ChunkOf, Text, Collected.FeedAll, Survives, Tidy, Lossy;
    var c, n := NOTHING.FeedAll(entries), |entries|;
    forall i | 0 <= i < n
      ensures IsLfnEntry(entries[i]) && ChunkOf(entries[i]).1 == Text(name, n - i)
    {
      DeletedPart(entries[i], name, n - i);
    }
    FedChunks(entries);
    forall i | 0 <= i < n
      ensures Reversed(c.chunks)[i].1 == Text(name, i + 1)
    {
      assert ChunkOf(entries[n - 1 - i]).1 == Text(name, n - (n - 1 - i));
    }
    ConcatTexts(name, Reversed(c.chunks), n);
    SurvivesIff(name);
    if n == 0 {
      assert !Survives(name) by { NothingSurvives(name); }
    }
  }

  lemma DeletedPart(entry: seq<byte>, name: seq<unit>, k: nat)
    requires 1 <= k <= ChunkCount(name) && Holds(entry, Chunk(name, k))
    ensures IsLfnEntry(entry) && ChunkOf(entry).1 == Text(name, k)
  {
    hide Lossy, CutAtEnd, UnitsFrom, Chunk, UnitAt;
    ReadBack(entry, Chunk(name, k), 0);
    assert Chunk(name, k)[0..] == Chunk(name, k);
  }

  // ----- writing a name

  /** Character `j` of the entry for a part: the part, a zero behind it, and then all ones. */
  function Padded(chunk: seq<unit>, j: nat): unit {
    if j < |chunk| then chunk[j] else if j == |chunk| then 0 else 0xFFFF
  }

  /** The character that byte `i` of an entry belongs to, if any. */
  function UnitOf(i: nat): Option<nat>
    requires i < 32
  {
    if 1 <= i < 11 then Some((i - 1) / 2)
    else if 14 <= i < 26 then Some(5 + (i - 14) / 2)
    else if 28 <= i then Some(11 + (i - 28) / 2)
    else None
  }

  /** The 32 bytes of an entry as the file system writes them; type and checksum are zero. */
  function EntryOf(first: byte, chunk: seq<unit>): (r: seq<byte>)
    ensures |r| == 32
  {
    seq(32, i requires 0 <= i < 32 =>
      if i == 0 then first
      else if i == 11 then 0x0F
      else
        var j := UnitOf(i);
        if j.None? then 0
        else
          var low := if i < 11 then i % 2 == 1 else i % 2 == 0;
          if low then Padded(chunk, j.value) % 256 else Padded(chunk, j.value) / 256)
  }

  lemma EntryHolds(first: byte, chunk: seq<unit>)
    requires |chunk| <= 13
    ensures Holds(EntryOf(first, chunk), chunk)
  {
    forall j | 0 <= j < 13
      ensures UnitAt(EntryOf(first, chunk), j) == Padded(chunk, j)
    {
      EntryUnit(first, chunk, j);
    }
    hide UnitAt, EntryOf;
    assert IsLfnEntry(EntryOf(first, chunk)) by { EntryMark(first, chunk); }
  }

  lemma EntryMark(first: byte, chunk: seq<unit>)
    ensures EntryOf(first, chunk)[11] == 0x0F && EntryOf(first, chunk)[0] == first
  {}

  lemma EntryUnit(first: byte, chunk: seq<unit>, j: nat)
    requires j < 13
    ensures UnitAt(EntryOf(first, chunk), j) == Padded(chunk, j)
  {
    hide Padded;
    var at := if j < 5 then 1 + j * 2 else if j < 11 then 14 + (j - 5) * 2 else 28 + (j - 11) * 2;
    UnitPlace(j, at);
    EntryBytes(first, chunk, at);
    EntryBytes(first, chunk, at + 1);
    var e, u := EntryOf(first, chunk), Padded(chunk, j);
    hide EntryOf, UnitOf;
    assert e[at] == u % 256 && e[at + 1] == u / 256;
  }

  lemma UnitPlace(j: nat, at: nat)
    requires j < 13 && at == if j < 5 then 1 + j * 2 else if j < 11 then 14 + (j - 5) * 2 else 28 + (j - 11) * 2
    ensures 1 <= at < 31 && at != 10 && at != 11 && at + 1 != 11 && UnitOf(at) == Some(j) && UnitOf(at + 1) == Some(j)
    ensures if at < 11 then at % 2 == 1 && at + 1 < 11 else at % 2 == 0
  {}

  lemma EntryBytes(first: byte, chunk: seq<unit>, i: nat)
    requires 1 <= i < 32 && i != 11 && UnitOf(i).Some?
    ensures EntryOf(first, chunk)[i] ==
      if (if i < 11 then i % 2 == 1 else i % 2 == 0) then Padded(chunk, UnitOf(i).value) % 256
      else Padded(chunk, UnitOf(i).value) / 256
  {
    hide Padded;
  }

  /** A live name on disk: the last part first, with its number and the flag of the last entry. */
  function LiveEntries(name: seq<unit>): (r: seq<seq<byte>>)
    requires ChunkCount(name) <= 31
    ensures |r| == ChunkCount(name)
  {
    seq(ChunkCount(name), i requires 0 <= i < ChunkCount(name) =>
      var k: nat := ChunkCount(name) - i;
      EntryOf(if i == 0 then 0x40 + k else k, Chunk(name, k)))
  }

  /** The same after deletion. */
  function DeletedEntries(name: seq<unit>): (r: seq<seq<byte>>)
    ensures |r| == ChunkCount(name)
  {
    seq(ChunkCount(name), i requires 0 <= i < ChunkCount(name) => EntryOf(0xE5, Chunk(name, ChunkCount(name) - i)))
  }

  lemma LiveRoundTripIff(name: seq<unit>)
    requires ChunkCount(name) <= 31
    ensures NOTHING.FeedAll(LiveEntries(name)).Name() == Some(name) <==> Survives(name)
  {
    hide Chunk, EntryOf, Holds, Survives, Collected.FeedAll, Collected.Name;
    var n, entries := ChunkCount(name), LiveEntries(name);
    forall i | 0 <= i < n
      ensures StoresItsPart(name, entries[i]) && NumberOf(entries[i]) == n - i
    {
      var k: nat := n - i;
      var first: byte := if i == 0 then 0x40 + k else k;
      EntryMark(first, Chunk(name, k));
      EntryHolds(first, Chunk(name, k));
    }
    hide LiveEntries, StoresItsPart, NumberOf;
    LiveNameIff(name, entries);
  }

  lemma DeletedRoundTripIff(name: seq<unit>)
    ensures NOTHING.FeedAll(DeletedEntries(name)).Name() == Some(name) <==> Survives(name)
  {
    hide Chunk, EntryOf, Holds, Survives, Collected.FeedAll, Collected.Name;
    var n, entries := ChunkCount(name), DeletedEntries(name);
    forall i | 0 <= i < n
      ensures |entries[i]| == 32 && Holds(entries[i], Chunk(name, n - i)) && entries[i][0] == 0xE5
    {
      EntryMark(0xE5, Chunk(name, n - i));
      EntryHolds(0xE5, Chunk(name, n - i));
    }
    hide DeletedEntries;
    DeletedNameIff(name, entries);
  }

  // ----- a name that is lost

  /** Twelve letters and one character of two code units, which falls on two entries. */
  function SplitPairName(): seq<unit> {
    seq(12, _ => 0x61) + [0xD83D, 0xDE00]
  }

  /** The name is sound as a whole, but its entries give back another one, live as well as deleted. */
  lemma SplitPairIsLost()
    ensures var name := SplitPairName();
      && WellFormed(name) && CleanEnds(name) && NoEnds(name) && ChunkCount(name) == 2
      && NOTHING.FeedAll(LiveEntries(name)).Name() != Some(name)
      && NOTHING.FeedAll(DeletedEntries(name)).Name() != Some(name)
  {
    SplitPairIsSound();
    SplitPairParts();
    hide *;
    LiveRoundTripIff(SplitPairName());
    DeletedRoundTripIff(SplitPairName());
  }

  lemma SplitPairIsSound()
    ensures var name := SplitPairName();
      WellFormed(name) && CleanEnds(name) && NoEnds(name) && ChunkCount(name) == 2
  {
    var name, pair: seq<unit> := SplitPairName(), [0xD83D, 0xDE00];
    assert |name| == 14 && name == seq(12, _ => 0x61 as unit) + pair;
    LettersThen(12, pair);
    assert WellFormed(pair) by {
      assert pair[2..] == [];
    }
    hide WellFormed, SplitPairName;
    assert name[0] == 0x61 && name[13] == 0xDE00;
    forall i | 0 <= i < |name|
      ensures !IsEnd(name[i])
    {
      assert name[i] == if i < 12 then 0x61 else pair[i - 12];
    }
  }

  lemma SplitPairParts()
    ensures ChunkCount(SplitPairName()) == 2 && !Survives(SplitPairName())
  {
    var name := SplitPairName();
    assert Chunk(name, 2) == [0xDE00];
    assert !WellFormed([0xDE00]);
    hide WellFormed, CleanEnds, NoEnds;
  }

  lemma {:induction false} LettersThen(n: nat, rest: seq<unit>)
    ensures WellFormed(seq(n, _ => 0x61 as unit) + rest) == WellFormed(rest)
  {
    var s := seq(n, _ => 0x61 as unit) + rest;
    if n == 0 {
      assert s == rest;
    } else {
      LettersThen(n - 1, rest);
      assert s[1..] == seq(n - 1, _ => 0x61 as unit) + rest;
    }
  }
}

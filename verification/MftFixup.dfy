/** Update-sequence protection of NTFS file records. */
module MftFixups {
  import opened Bits
  import opened Wrappers

  datatype FixupError = FixupFailed | InvalidMftMagic

  const FILE: seq<byte> := [0x46, 0x49, 0x4C, 0x45]

  const BAAD: seq<byte> := [0x42, 0x41, 0x41, 0x44]

  function Word(b: seq<byte>, at: nat): (r: nat)
    requires at + 2 <= |b|
  {
    b[at] as nat + 256 * b[at + 1] as nat
  }

  /** Sector `i`, counted from 1, ends inside the record. */
  predicate Covered(size: nat, count: nat, i: nat) {
    1 <= i < count && i * 512 <= size
  }

  /** Moves word `i` of the update array to the end of sector `i`. */
  function Restore(b: seq<byte>, offset: nat, i: nat): (r: seq<byte>)
    requires 1 <= i && i * 512 <= |b| && offset + 2 * i + 2 <= |b|
    ensures |r| == |b|
  {
    b[i * 512 - 2 := b[offset + 2 * i]][i * 512 - 1 := b[offset + 2 * i + 1]]
  }

  /** Sectors from `i` on: whether all their tails carried the signature, and the bytes in the end. */
  function FixFrom(b: seq<byte>, offset: nat, count: nat, sig: nat, i: nat): (r: (bool, seq<byte>))
    requires 1 <= i && offset + 2 * count <= |b|
    ensures |r.1| == |b|
    decreases count - i
  {
    if !Covered(|b|, count, i) then (true, b)
    else if Word(b, i * 512 - 2) != sig then (false, b)
    else FixFrom(Restore(b, offset, i), offset, count, sig, i + 1)
  }

  /** Header checks, in the order they are made. */
  function HeaderError(b: seq<byte>): (r: Option<FixupError>)
    ensures r.None? ==> |b| >= 48 && Word(b, 6) >= 1 && Word(b, 4) + 2 * Word(b, 6) <= |b|
  {
    if |b| < 48 then Some(FixupFailed)
    else if b[0..4] != FILE && b[0..4] != BAAD then Some(InvalidMftMagic)
    else if Word(b, 6) == 0 || Word(b, 4) + 2 * Word(b, 6) > |b| then Some(FixupFailed)
    else None
  }

  /** Which headers are accepted, in the characters of the magic number and the bytes of the two counts. */
  lemma AcceptedIff(b: seq<byte>)
    ensures HeaderError(b).None? <==>
      && |b| >= 48 && (Spells(b[0..4], "FILE") || Spells(b[0..4], "BAAD")) && (b[6] != 0 || b[7] != 0)
      && b[4] as nat + 256 * b[5] as nat + 2 * (b[6] as nat + 256 * b[7] as nat) <= |b|
    ensures HeaderError(b) == Some(InvalidMftMagic) <==>
      |b| >= 48 && !Spells(b[0..4], "FILE") && !Spells(b[0..4], "BAAD")
  {
    if |b| >= 48 {
      SpellsIff(b[0..4], FILE, "FILE");
      SpellsIff(b[0..4], BAAD, "BAAD");
    }
  }

  predicate Spells(bytes: seq<byte>, text: string) {
    |bytes| == |text| && forall i | 0 <= i < |text| :: bytes[i] as int == text[i] as int
  }

  lemma SpellsIff(bytes: seq<byte>, magic: seq<byte>, text: string)
    requires Spells(magic, text)
    ensures bytes == magic <==> Spells(bytes, text)
  {}

  function Signature(b: seq<byte>): nat
    requires HeaderError(b).None?
  {
    Word(b, Word(b, 4))
  }

  method ApplyMftFixup(buffer: array<byte>) returns (r: Result<(), FixupError>)
    modifies buffer
    ensures HeaderError(old(buffer[..])).Some? ==>
      r == Err(HeaderError(old(buffer[..])).value) && buffer[..] == old(buffer[..])
    ensures HeaderError(old(buffer[..])).None? ==>
      var b := old(buffer[..]);
      var fixed := FixFrom(b, Word(b, 4), Word(b, 6), Signature(b), 1);
      buffer[..] == fixed.1 && r == if fixed.0 then Ok(()) else Err(FixupFailed)
  {
    hide FixFrom;
    ghost var b := buffer[..];
    if buffer.Length < 48 {
      return Err(FixupFailed);
    }
    assert buffer[0..4] == b[0..4];
    if buffer[0..4] != FILE && buffer[0..4] != BAAD {
      return Err(InvalidMftMagic);
    }
    var updOff := buffer[4] as nat + 256 * buffer[5] as nat;
    var updCnt := buffer[6] as nat + 256 * buffer[7] as nat;
    if updCnt == 0 || updOff + updCnt * 2 > buffer.Length {
      return Err(FixupFailed);
    }
    var expectedSig := buffer[updOff] as nat + 256 * buffer[updOff + 1] as nat;
    var i := 1;
    while i < updCnt && i * 512 - 2 + 2 <= buffer.Length
      invariant 1 <= i <= updCnt
      invariant FixFrom(buffer[..], updOff, updCnt, expectedSig, i) == FixFrom(b, updOff, updCnt, expectedSig, 1)
    {
      FixStep(buffer[..], updOff, updCnt, expectedSig, i);
      var tail := i * 512 - 2;
      var actualSig := buffer[tail] as nat + 256 * buffer[tail + 1] as nat;
      if actualSig != expectedSig {
        return Err(FixupFailed);
      }
      ghost var before := buffer[..];
      var replOffset := updOff + i * 2;
      buffer[tail], buffer[tail + 1] := buffer[replOffset], buffer[replOffset + 1];
      assert buffer[..] == Restore(before, updOff, i);
      i := i + 1;
    }
    FixStep(buffer[..], updOff, updCnt, expectedSig, i);
    r := Ok(());
  }

  lemma FixStep(b: seq<byte>, offset: nat, count: nat, sig: nat, i: nat)
    requires 1 <= i && offset + 2 * count <= |b|
    ensures FixFrom(b, offset, count, sig, i) ==
      if !Covered(|b|, count, i) then (true, b)
      else if Word(b, i * 512 - 2) != sig then (false, b)
      else FixFrom(Restore(b, offset, i), offset, count, sig, i + 1)
  {}

  // ----- what the fixup does to a record

  ghost predicate InTail(size: nat, count: nat, p: nat) {
    exists i: nat | p == i * 512 - 2 || p == i * 512 - 1 :: Covered(size, count, i)
  }

  /** Whatever the header says, and whether or not it succeeds, no byte outside the covered tails changes. */
  lemma {:induction false} OnlyTailsChange(b: seq<byte>, offset: nat, count: nat, sig: nat, i: nat, p: nat)
    requires 1 <= i && offset + 2 * count <= |b| && p < |b| && !InTail(|b|, count, p)
    ensures FixFrom(b, offset, count, sig, i).1[p] == b[p]
    decreases count - i
  {
    if Covered(|b|, count, i) && Word(b, i * 512 - 2) == sig {
      assert p != i * 512 - 2 && p != i * 512 - 1;
      OnlyTailsChange(Restore(b, offset, i), offset, count, sig, i + 1, p);
    }
  }

  /** The update array does not touch the end of a covered sector. */
  ghost predicate Clear(size: nat, offset: nat, count: nat) {
    forall i: nat | Covered(size, count, i) :: TailClear(offset, count, i)
  }

  predicate TailClear(offset: nat, count: nat, i: nat) {
    i * 512 <= offset || offset + 2 * count <= i * 512 - 2
  }

  /** An array within one sector, before its tail, is clear of all tails. */
  lemma WithinSectorIsClear(size: nat, offset: nat, count: nat)
    requires offset % 512 + 2 * count <= 510
    ensures Clear(size, offset, count)
  {
    forall i: nat | Covered(size, count, i)
      ensures TailClear(offset, count, i)
    {
      assert i <= offset / 512 || i >= offset / 512 + 1;
    }
  }

  /** The tail of sector `i` in `b` holds what the update array of `a` keeps for it. */
  predicate Restored(a: seq<byte>, b: seq<byte>, offset: nat, i: nat)
    requires 1 <= i && i * 512 <= |b| && offset + 2 * i + 2 <= |a|
  {
    b[i * 512 - 2] == a[offset + 2 * i] && b[i * 512 - 1] == a[offset + 2 * i + 1]
  }

  /**
   * With the array clear of the tails: the fixup succeeds exactly if every covered tail carries the signature,
   * and then every covered tail holds the word the array kept for it.
   */
  lemma {:induction false} FixFromClear(b: seq<byte>, offset: nat, count: nat, sig: nat, i: nat)
    requires 1 <= i && offset + 2 * count <= |b| && Clear(|b|, offset, count)
    ensures var r := FixFrom(b, offset, count, sig, i);
      && (r.0 <==> forall j: nat | i <= j && Covered(|b|, count, j) :: Word(b, j * 512 - 2) == sig)
      && (r.0 ==> forall j: nat | i <= j && Covered(|b|, count, j) :: Restored(b, r.1, offset, j))
      && (forall j: nat | 1 <= j < i && Covered(|b|, count, j) ::
            r.1[j * 512 - 2] == b[j * 512 - 2] && r.1[j * 512 - 1] == b[j * 512 - 1])
    decreases count - i
  {
    if Covered(|b|, count, i) && Word(b, i * 512 - 2) == sig {
      var b' := Restore(b, offset, i);
      FixFromClear(b', offset, count, sig, i + 1);
      assert TailClear(offset, count, i);
      var r := FixFrom(b', offset, count, sig, i + 1);
      assert Restored(b, r.1, offset, i);
      forall j: nat | i < j && Covered(|b|, count, j)
        ensures Word(b', j * 512 - 2) == Word(b, j * 512 - 2)
        ensures r.0 ==> Restored(b, r.1, offset, j)
      {
        assert r.0 ==> Restored(b', r.1, offset, j);
      }
    }
  }

  // ----- protecting a record, and undoing it

  /**
   * `p` is `o` protected: the header names an update array clear of the tails, the array keeps the ends of the
   * covered sectors, and the signature stands in their place.
   */
  ghost predicate Protects(p: seq<byte>, o: seq<byte>) {
    && |p| == |o| && HeaderError(p).None?
    && var offset, count := Word(p, 4), Word(p, 6);
       && Clear(|p|, offset, count)
       && (forall i: nat | Covered(|p|, count, i) ::
             Word(p, i * 512 - 2) == Signature(p) && Restored(p, o, offset, i))
       && (forall k | 0 <= k < |p| && !(offset <= k < offset + 2 * count) && !InTail(|p|, count, k) :: p[k] == o[k])
  }

  predicate SameTail(a: seq<byte>, b: seq<byte>, i: nat)
    requires 1 <= i && i * 512 <= |a| && i * 512 <= |b|
  {
    a[i * 512 - 2] == b[i * 512 - 2] && a[i * 512 - 1] == b[i * 512 - 1]
  }

  lemma TailsComeBack(p: seq<byte>, o: seq<byte>)
    requires Protects(p, o)
    ensures Word(p, 4) + 2 * Word(p, 6) <= |p|
    ensures var r := FixFrom(p, Word(p, 4), Word(p, 6), Signature(p), 1);
      r.0 && forall i: nat | Covered(|p|, Word(p, 6), i) :: SameTail(r.1, o, i)
  {
    hide FixFrom, Word, HeaderError, InTail, Clear;
    HeaderBounds(p);
    var offset, count := Word(p, 4), Word(p, 6);
    FixFromClear(p, offset, count, Signature(p), 1);
    var r := FixFrom(p, offset, count, Signature(p), 1);
    forall i: nat | Covered(|p|, count, i)
      ensures SameTail(r.1, o, i)
    {
      assert Restored(p, o, offset, i) && Restored(p, r.1, offset, i);
    }
  }

  /** The fixup undoes protection: everything but the update array itself is as it was. */
  lemma FixupUndoesProtection(p: seq<byte>, o: seq<byte>, k: nat)
    requires Protects(p, o) && k < |p|
    ensures Word(p, 4) + 2 * Word(p, 6) <= |p|
    ensures var r := FixFrom(p, Word(p, 4), Word(p, 6), Signature(p), 1);
      r.0 && r.1[k] == if Word(p, 4) <= k < Word(p, 4) + 2 * Word(p, 6) then p[k] else o[k]
  {
    hide *;
    ProtectsHeader(p, o);
    TailsComeBack(p, o);
    var offset, count := Word(p, 4), Word(p, 6);
    var r := FixFrom(p, offset, count, Signature(p), 1);
    if InTail(|p|, count, k) {
      var i := TailOf(|p|, count, k);
      ProtectedTail(p, o, i, k);
      assert SameTail(r.1, o, i);
      SameTailByte(r.1, o, i, k);
    } else {
      OnlyTailsChange(p, offset, count, Signature(p), 1, k);
      ProtectedElsewhere(p, o, k);
    }
  }

  lemma ProtectsHeader(p: seq<byte>, o: seq<byte>)
    requires Protects(p, o)
    ensures HeaderError(p).None? && |p| == |o|
  {}

  lemma SameTailByte(a: seq<byte>, b: seq<byte>, i: nat, k: nat)
    requires 1 <= i && i * 512 <= |a| && i * 512 <= |b| && SameTail(a, b, i) && (k == i * 512 - 2 || k == i * 512 - 1)
    ensures a[k] == b[k]
  {}

  lemma TailOf(size: nat, count: nat, k: nat) returns (i: nat)
    requires InTail(size, count, k)
    ensures Covered(size, count, i) && 1 <= i && i * 512 <= size && (k == i * 512 - 2 || k == i * 512 - 1)
  {
    i :| (k == i * 512 - 2 || k == i * 512 - 1) && Covered(size, count, i);
  }

  lemma ProtectedTail(p: seq<byte>, o: seq<byte>, i: nat, k: nat)
    requires Protects(p, o) && Covered(|p|, Word(p, 6), i) && (k == i * 512 - 2 || k == i * 512 - 1)
    ensures !(Word(p, 4) <= k < Word(p, 4) + 2 * Word(p, 6))
  {
    assert TailClear(Word(p, 4), Word(p, 6), i);
  }

  lemma ProtectedElsewhere(p: seq<byte>, o: seq<byte>, k: nat)
    requires Protects(p, o) && k < |p| && !InTail(|p|, Word(p, 6), k)
    ensures Word(p, 4) <= k < Word(p, 4) + 2 * Word(p, 6) || p[k] == o[k]
  {
    hide InTail, Word;
  }

  lemma HeaderBounds(b: seq<byte>)
    requires HeaderError(b).None?
    ensures Word(b, 4) + 2 * Word(b, 6) <= |b|
  {}

  /** A record whose array is clear of the tails is rejected exactly if some covered tail does not match. */
  lemma RejectedIff(b: seq<byte>)
    requires HeaderError(b).None? && Clear(|b|, Word(b, 4), Word(b, 6))
    ensures !FixFrom(b, Word(b, 4), Word(b, 6), Signature(b), 1).0
      <==> exists i: nat | Covered(|b|, Word(b, 6), i) :: Word(b, i * 512 - 2) != Signature(b)
  {
    hide FixFrom, Word, HeaderError;
    assert Word(b, 4) + 2 * Word(b, 6) <= |b| by { HeaderBounds(b); }
    FixFromClear(b, Word(b, 4), Word(b, 6), Signature(b), 1);
  }
}

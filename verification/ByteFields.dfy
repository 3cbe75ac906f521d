/** Little-endian integers and fixed-position fields in byte buffers. */
module ByteFields {
  import opened Bits

  function FromLe(s: seq<byte>): nat {
    if |s| == 0 then 0 else s[0] as nat + 256 * FromLe(s[1..])
  }

  function ToLe(v: nat, width: nat): (s: seq<byte>)
    ensures |s| == width
  {
    if width == 0 then [] else [v % 256] + ToLe(v / 256, width - 1)
  }

  /** The value fits in `width` bytes. */
  predicate FitsLe(v: nat, width: nat) {
    if width == 0 then v == 0 else FitsLe(v / 256, width - 1)
  }

  /** Reading back a written value gives the value exactly when it fits. */
  lemma {:induction false} FromToLe(v: nat, width: nat)
    ensures FromLe(ToLe(v, width)) == v <==> FitsLe(v, width)
    ensures FitsLe(FromLe(ToLe(v, width)), width)
  {
    if width != 0 {
      var s := ToLe(v, width);
      assert s[1..] == ToLe(v / 256, width - 1);
      FromToLe(v / 256, width - 1);
    }
  }

  lemma {:induction false} ToFromLe(s: seq<byte>)
    ensures ToLe(FromLe(s), |s|) == s && FitsLe(FromLe(s), |s|)
  {
    if |s| != 0 {
      ToFromLe(s[1..]);
      assert FromLe(s) % 256 == s[0] && FromLe(s) / 256 == FromLe(s[1..]);
    }
  }

  /** A slice seen from `d` bytes further on. */
  lemma DropSlice(s: seq<byte>, d: nat, lo: nat, hi: nat)
    requires d <= lo <= hi <= |s|
    ensures s[d..][lo - d..hi - d] == s[lo..hi]
  {}

  /** Bytes to be stored at a position. */
  datatype Field = Field(at: nat, bytes: seq<byte>)
  {
    function End(): nat { at + |bytes| }
  }

  function Patch(s: seq<byte>, f: Field): (r: seq<byte>)
    requires f.End() <= |s|
    ensures |r| == |s|
  {
    s[..f.at] + f.bytes + s[f.End()..]
  }

  /** The fields follow one another without overlap, and end within `size`. */
  predicate InOrder(fields: seq<Field>, size: nat) {
    if |fields| == 0 then true
    else
      var n := |fields| - 1;
      && fields[n].End() <= size && InOrder(fields[..n], fields[n].at)
  }

  lemma {:induction false} InOrderWithin(fields: seq<Field>, size: nat, k: nat)
    requires InOrder(fields, size) && k < |fields|
    ensures fields[k].End() <= size
  {
    var n := |fields| - 1;
    if k < n {
      InOrderWithin(fields[..n], fields[n].at, k);
    }
  }

  lemma {:induction false} InOrderWeaken(fields: seq<Field>, size: nat, size': nat)
    requires InOrder(fields, size) && size <= size'
    ensures InOrder(fields, size')
  {}

  lemma {:induction false} AdjacentInOrder(fields: seq<Field>, size: nat)
    requires forall k | 0 < k < |fields| :: fields[k - 1].End() <= fields[k].at
    requires |fields| != 0 ==> fields[|fields| - 1].End() <= size
    ensures InOrder(fields, size)
  {
    if |fields| != 0 {
      var n := |fields| - 1;
      AdjacentInOrder(fields[..n], fields[n].at);
    }
  }

  /** All fields stored, first to last. */
  function WriteAll(s: seq<byte>, fields: seq<Field>): (r: seq<byte>)
    requires InOrder(fields, |s|)
    ensures |r| == |s|
  {
    if |fields| == 0 then s
    else
      var n := |fields| - 1;
      InOrderWeaken(fields[..n], fields[n].at, |s|);
      Patch(WriteAll(s, fields[..n]), fields[n])
  }

  /** Every field can be read back. */
  lemma {:induction false} WriteAllHolds(s: seq<byte>, fields: seq<Field>, k: nat)
    requires InOrder(fields, |s|) && k < |fields|
    ensures fields[k].End() <= |s| && WriteAll(s, fields)[fields[k].at..fields[k].End()] == fields[k].bytes
  {
    var n := |fields| - 1;
    var front := fields[..n];
    InOrderWeaken(front, fields[n].at, |s|);
    var t := WriteAll(s, front);
    if k < n {
      WriteAllHolds(s, front, k);
      InOrderWithin(front, fields[n].at, k);
      assert front[k] == fields[k];
      assert WriteAll(s, fields)[fields[k].at..fields[k].End()] == t[fields[k].at..fields[k].End()];
    }
  }

  /** Bytes outside every field keep their value. */
  lemma {:induction false} WriteAllElsewhere(s: seq<byte>, fields: seq<Field>, i: nat)
    requires InOrder(fields, |s|) && i < |s|
    requires forall f | f in fields :: !(f.at <= i < f.End())
    ensures WriteAll(s, fields)[i] == s[i]
  {
    if |fields| != 0 {
      var n := |fields| - 1;
      InOrderWeaken(fields[..n], fields[n].at, |s|);
      WriteAllElsewhere(s, fields[..n], i);
      assert fields[n] in fields;
    }
  }

  /** Copies a field into a buffer, after those already written. */
  method Store(buffer: array<byte>, at: nat, bytes: seq<byte>, ghost was: seq<byte>, ghost done: seq<Field>)
    returns (ghost done': seq<Field>)
    requires InOrder(done, |was|) && |was| == buffer.Length && buffer[..] == WriteAll(was, done)
    requires |done| != 0 ==> done[|done| - 1].End() <= at
    requires at + |bytes| <= buffer.Length
    modifies buffer
    ensures done' == done + [Field(at, bytes)] && InOrder(done', |was|) && buffer[..] == WriteAll(was, done')
  {
    done' := done + [Field(at, bytes)];
    assert done'[..|done|] == done;
    InOrderAt(done, |was|, at);
    forall i | 0 <= i < |bytes| {
      buffer[at + i] := bytes[i];
    }
    assert buffer[..] == Patch(WriteAll(was, done), Field(at, bytes));
  }

  lemma InOrderAt(fields: seq<Field>, size: nat, at: nat)
    requires InOrder(fields, size)
    requires |fields| != 0 ==> fields[|fields| - 1].End() <= at
    ensures InOrder(fields, at)
  {}
}

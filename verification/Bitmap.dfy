/** The page bitmap: one bit per page, a set bit marking a free page. */
module Bitmap {
  import opened Arith

  /** `1 << bit` in one byte. */
  function Mask(bit: nat): bv8
    requires bit < 8
  {
    match bit
    case 0 => 0x01
    case 1 => 0x02
    case 2 => 0x04
    case 3 => 0x08
    case 4 => 0x10
    case 5 => 0x20
    case 6 => 0x40
    case _ => 0x80
  }

  predicate Has(byte: bv8, bit: nat)
    requires bit < 8
  {
    byte & Mask(bit) != 0
  }

  function With(byte: bv8, bit: nat, value: bool): bv8
    requires bit < 8
  {
    if value then byte | Mask(bit) else byte & !Mask(bit)
  }

  predicate Bit(bytes: seq<bv8>, i: nat)
    requires i / 8 < |bytes|
  {
    Has(bytes[i / 8], i % 8)
  }

  function Put(bytes: seq<bv8>, i: nat, value: bool): seq<bv8>
    requires i / 8 < |bytes|
  {
    bytes[i / 8 := With(bytes[i / 8], i % 8, value)]
  }

  /** The bitmap as the flags it stands for. */
  function Flags(bytes: seq<bv8>): (f: seq<bool>)
    ensures |f| == 8 * |bytes|
  {
    seq(8 * |bytes|, i requires 0 <= i < 8 * |bytes| => Bit(bytes, i))
  }

  lemma MasksAreIndependent(x: bv8, b: nat, value: bool, c: nat)
    requires b < 8 && c < 8
    ensures Has(With(x, b, value), c) == if b == c then value else Has(x, c)
  {
  }

  lemma PutBit(bytes: seq<bv8>, i: nat, value: bool, j: nat)
    requires i / 8 < |bytes| && j / 8 < |bytes|
    ensures Bit(Put(bytes, i, value), j) == if i == j then value else Bit(bytes, j)
  {
    if i / 8 == j / 8 {
      MasksAreIndependent(bytes[i / 8], i % 8, value, j % 8);
    }
  }

  /** Writing one bit in its byte changes exactly that flag. */
  lemma PutUpdatesOneFlag(bytes: seq<bv8>, i: nat, value: bool)
    requires i / 8 < |bytes|
    ensures Flags(Put(bytes, i, value)) == Flags(bytes)[i := value]
  {
    var f, g := Flags(Put(bytes, i, value)), Flags(bytes)[i := value];
    forall j | 0 <= j < |f|
      ensures f[j] == g[j]
    {
      PutBit(bytes, i, value, j);
    }
  }

  function AllFree(n: nat): (f: seq<bool>)
    ensures |f| == n && forall i :: 0 <= i < n ==> f[i]
  {
    seq(n, _ => true)
  }

  /** The least index in [from, limit) whose flag is set. */
  function FirstSet(flags: seq<bool>, from: nat, limit: nat): (r: Option<nat>)
    requires from <= limit <= |flags|
    ensures r.Some? ==> from <= r.value < limit && flags[r.value] && forall k :: from <= k < r.value ==> !flags[k]
    ensures r.None? ==> forall k :: from <= k < limit ==> !flags[k]
    decreases limit - from
  {
    if from == limit then None
    else if flags[from] then Some(from)
    else FirstSet(flags, from + 1, limit)
  }

  class PageBitmap {
    const buf: array<bv8>
    const size: nat

    ghost predicate Valid() {
      size == buf.Length < 0x8000_0000
    }

    ghost function State(): seq<bool>
      reads buf
    {
      Flags(buf[..])
    }

    constructor (data: array<bv8>)
      requires data.Length < 0x8000_0000
      modifies data
      ensures Valid() && buf == data && State() == AllFree(8 * data.Length)
    {
      buf := data;
      size := data.Length;
      new;
      for i := 0 to size
        invariant forall k :: 0 <= k < i ==> data[k] == 0xff
      {
        data[i] := 0xff;
      }
      forall i | 0 <= i < 8 * size
        ensures Bit(data[..], i)
      {
        assert data[..][i / 8] == 0xff;
      }
    }

    method Set(i: nat, value: bool)
      requires Valid() && i / 8 < size
      modifies buf
      ensures State() == old(State())[i := value]
    {
      PutUpdatesOneFlag(buf[..], i, value);
      var byte, bit := i / 8, i % 8;
      if value {
        buf[byte] := buf[byte] | Mask(bit);
      } else {
        buf[byte] := buf[byte] & !Mask(bit);
      }
      assert buf[..] == Put(old(buf[..]), i, value);
    }

    /** The scan covers `size` bits although the buffer holds `size` bytes. */
    method FindFree() returns (r: int)
      requires Valid()
      ensures r == match FirstSet(State(), 0, size) case Some(f) => f case None => -1
    {
      var i := 0;
      while i < size
        invariant i <= size
        invariant FirstSet(State(), 0, size) == FirstSet(State(), i, size)
      {
        assert State()[i] == Bit(buf[..], i);
        if buf[i / 8] & Mask(i % 8) != 0 {
          return i;
        }
        i := i + 1;
      }
      return -1;
    }
  }
}

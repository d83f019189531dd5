/** Bit streams over bytes, highest bit first (BitStreamReader and BitStreamWriter in src/streams.h). */
module BitStream {
  import opened Numbers
  import opened Wrappers

  // ----- Shifting numbers

  function Shl(v: nat, k: nat): nat {
    v * Pow2(k)
  }

  function Shr(v: nat, k: nat): nat {
    Quotient(v, Pow2(k))
  }

  /** The k low bits. */
  function Low(v: nat, k: nat): (r: nat)
    ensures r < Pow2(k)
  {
    v % Pow2(k)
  }

  lemma SplitAt(v: nat, k: nat)
    ensures v == Shl(Shr(v, k), k) + Low(v, k)
  {
    hide Pow2;
  }

  lemma JoinAt(a: nat, b: nat, k: nat)
    requires b < Pow2(k)
    ensures Shr(Shl(a, k) + b, k) == a && Low(Shl(a, k) + b, k) == b
  {
    hide Pow2;
    DivUnique(Shl(a, k) + b, Pow2(k), a);
  }

  lemma ShlShl(v: nat, j: nat, k: nat)
    ensures Shl(Shl(v, j), k) == Shl(v, j + k)
  {
    hide Pow2;
    Pow2Add(j, k);
    MulAssoc(v, Pow2(j), Pow2(k));
  }

  lemma ShlSum(v: nat, w: nat, k: nat)
    ensures Shl(v + w, k) == Shl(v, k) + Shl(w, k)
  {
    hide Pow2;
    MulDist(Pow2(k), v, w);
  }

  lemma ShrShl(v: nat, j: nat, k: nat)
    ensures Shr(Shl(v, j), j + k) == Shr(v, k)
  {
    hide Pow2;
    Pow2Add(j, k);
    MulDivMul(Pow2(j), v, Pow2(k));
  }

  lemma LowShl(v: nat, j: nat, k: nat)
    ensures Low(Shl(v, j), j + k) == Shl(Low(v, k), j)
  {
    hide Pow2;
    Pow2Add(j, k);
    MulDivMul(Pow2(j), v, Pow2(k));
  }

  lemma ShrLow(v: nat, j: nat, k: nat)
    ensures Shr(Low(v, j + k), j) == Low(Shr(v, j), k)
  {
    hide Pow2;
    Pow2Add(j, k);
    ModDiv(v, Pow2(j), Pow2(k));
  }

  lemma ShlZero(v: nat)
    ensures Shl(v, 0) == v && Shr(v, 0) == v && Low(v, 0) == 0
  {
  }

  lemma ScaledBelow(v: nat, x: nat, y: nat)
    requires v < x && y > 0
    ensures v * y < x * y
  {
    MulMono(y, v + 1, x);
    MulDist(y, v, 1);
  }

  lemma ShlBound(v: nat, j: nat, k: nat)
    requires v < Pow2(j)
    ensures Shl(v, k) < Pow2(j + k)
  {
    hide Pow2;
    Pow2Add(j, k);
    ScaledBelow(v, Pow2(j), Pow2(k));
  }

  lemma ShrBound(v: nat, j: nat, k: nat)
    requires v < Pow2(j + k)
    ensures Shr(v, k) < Pow2(j)
  {
    hide Pow2, Shl, Shr, Low;
    SplitAt(v, k);
    if Shr(v, k) >= Pow2(j) {
      ShlAtLeast(Shr(v, k), j, k);
    }
  }

  lemma ShlAtLeast(v: nat, j: nat, k: nat)
    requires v >= Pow2(j)
    ensures Shl(v, k) >= Pow2(j + k)
  {
    hide Pow2;
    Pow2Add(j, k);
    MulMono(Pow2(k), Pow2(j), v);
  }

  // ----- Numbers as bits, highest first

  /** The n low bits of v. */
  function ToBits(v: nat, n: nat): (r: seq<bool>)
    ensures |r| == n
  {
    if n == 0 then [] else ToBits(v / 2, n - 1) + [v % 2 == 1]
  }

  function FromBits(bits: seq<bool>): nat {
    if bits == [] then 0
    else 2 * FromBits(bits[..|bits| - 1]) + if bits[|bits| - 1] then 1 else 0
  }

  lemma {:induction false} FromToBits(v: nat, n: nat)
    requires v < Pow2(n)
    ensures FromBits(ToBits(v, n)) == v
  {
    if n > 0 {
      FromToBits(v / 2, n - 1);
      assert ToBits(v, n)[..n - 1] == ToBits(v / 2, n - 1);
    }
  }

  lemma {:induction false} ToBitsConcat(a: nat, m: nat, b: nat, k: nat)
    requires b < Pow2(k)
    ensures ToBits(Shl(a, k) + b, m + k) == ToBits(a, m) + ToBits(b, k)
  {
    if k == 0 {
      ShlZero(a);
    } else {
      ToBitsConcat(a, m, b / 2, k - 1);
      HalfShl(a, k);
      hide Shl, Pow2;
      assert (Shl(a, k) + b) / 2 == Shl(a, k - 1) + b / 2;
    }
  }

  lemma HalfShl(a: nat, k: nat)
    requires k > 0
    ensures Shl(a, k) == 2 * Shl(a, k - 1)
  {
    MulSwap(a, 2, Pow2(k - 1));
  }

  lemma ToBitsSplit(v: nat, m: nat, k: nat)
    ensures ToBits(v, m + k) == ToBits(Shr(v, k), m) + ToBits(Low(v, k), k)
  {
    hide Pow2, ToBits, Shl, Shr, Low;
    SplitAt(v, k);
    ToBitsConcat(Shr(v, k), m, Low(v, k), k);
  }

  /** Only the low bits matter. */
  lemma ToBitsLow(v: nat, n: nat)
    ensures ToBits(Low(v, n), n) == ToBits(v, n)
  {
    assert ToBits(Shr(v, n), 0) == [];
    hide Pow2, ToBits, Shl, Shr, Low;
    ToBitsSplit(v, 0, n);
  }

  lemma {:induction false} FromBitsConcat(s: seq<bool>, t: seq<bool>)
    ensures FromBits(s + t) == Shl(FromBits(s), |t|) + FromBits(t)
  {
    if t == [] {
      assert s + t == s;
      ShlZero(FromBits(s));
    } else {
      var t' := t[..|t| - 1];
      FromBitsConcat(s, t');
      assert (s + t)[..|s + t| - 1] == s + t';
      HalfShl(FromBits(s), |t|);
    }
  }

  function AllBits(bytes: seq<Byte>): seq<bool> {
    if bytes == [] then [] else AllBits(bytes[..|bytes| - 1]) + ToBits(bytes[|bytes| - 1], 8)
  }

  lemma {:induction false} AllBitsLength(bytes: seq<Byte>)
    ensures |AllBits(bytes)| == 8 * |bytes|
  {
    if bytes != [] {
      AllBitsLength(bytes[..|bytes| - 1]);
    }
  }

  lemma AllBitsSnoc(bytes: seq<Byte>, b: Byte)
    ensures AllBits(bytes + [b]) == AllBits(bytes) + ToBits(b, 8)
  {
    assert (bytes + [b])[..|bytes|] == bytes;
  }

  lemma {:induction false} AllBitsConcat(s: seq<Byte>, t: seq<Byte>)
    ensures AllBits(s + t) == AllBits(s) + AllBits(t)
  {
    hide ToBits;
    if t == [] {
      assert s + t == s;
    } else {
      var t' := t[..|t| - 1];
      AllBitsConcat(s, t');
      assert (s + t)[..|s + t| - 1] == s + t';
    }
  }

  // ----- Writing

  /** The bits of the top of an n-bit field that go into the r free bits of the buffer. */
  function Chunk(data: nat, n: nat, r: nat): nat
    requires 0 < n <= 64 && 0 < r <= 8
  {
    Shr(Low(Shl(data, 64 - n), 64), 64 - r)
  }

  lemma ChunkLong(data: nat, n: nat, r: nat)
    requires 0 < r <= n <= 64 && r <= 8
    ensures Chunk(data, n, r) == Low(Shr(data, n - r), r)
  {
    hide Shl, Shr, Low, Pow2;
    LowShl(data, 64 - n, n);
    ShrShl(Low(data, n), 64 - n, n - r);
    ShrLow(data, n - r, r);
  }

  lemma ChunkShort(data: nat, n: nat, r: nat)
    requires 0 < n <= r <= 8
    ensures Chunk(data, n, r) == Shl(Low(data, n), r - n)
  {
    hide Shl, Shr, Low, Pow2;
    LowShl(data, 64 - n, n);
    ShlShl(Low(data, n), r - n, 64 - r);
    JoinAt(Shl(Low(data, n), r - n), 0, 64 - r);
  }

  /** A field at least as long as the free part fills the buffer; the rest of the field remains. */
  lemma FillsByte(buffer: nat, data: nat, n: nat, r: nat)
    requires 0 < r <= 8 && r <= n <= 64 && Low(buffer, r) == 0
    ensures Chunk(data, n, r) < Pow2(r)
    ensures ToBits(buffer + Chunk(data, n, r), 8) + ToBits(data, n - r)
         == ToBits(Shr(buffer, r), 8 - r) + ToBits(data, n)
  {
    hide Pow2, ToBits, Chunk, Shl, Shr, Low;
    ChunkLong(data, n, r);
    SplitAt(buffer, r);
    ToBitsConcat(Shr(buffer, r), 8 - r, Chunk(data, n, r), r);
    ToBitsSplit(data, r, n - r);
    ToBitsLow(Shr(data, n - r), r);
    ToBitsLow(data, n - r);
  }

  /** A shorter field is placed above the bits still free. */
  lemma FitsByte(buffer: nat, data: nat, n: nat, r: nat)
    requires 0 < n < r <= 8 && Low(buffer, r) == 0
    ensures Chunk(data, n, r) < Pow2(r)
    ensures Low(buffer + Chunk(data, n, r), r - n) == 0
    ensures ToBits(Shr(buffer + Chunk(data, n, r), r - n), 8 - r + n)
         == ToBits(Shr(buffer, r), 8 - r) + ToBits(data, n)
  {
    hide Pow2, ToBits, Chunk, Shl, Shr, Low;
    ChunkShort(data, n, r);
    var d, q := Low(data, n), Shr(buffer, r);
    SplitAt(buffer, r);
    ShlShl(q, n, r - n);
    ShlSum(Shl(q, n), d, r - n);
    JoinAt(Shl(q, n) + d, 0, r - n);
    ShlBound(d, n, r - n);
    ToBitsConcat(q, 8 - r, d, n);
    ToBitsLow(data, n);
  }

  lemma ByteFits(buffer: nat, x: nat, r: nat)
    requires 0 < r <= 8 && buffer < 256 && Low(buffer, r) == 0 && x < Pow2(r)
    ensures buffer + x < 256
  {
    hide Pow2, Shl, Shr, Low;
    Pow2Eight();
    SplitAt(buffer, r);
    ShrBound(buffer, 8 - r, r);
    NextBlock(Shr(buffer, r), 8 - r, r);
  }

  lemma NextBlock(v: nat, j: nat, k: nat)
    requires v < Pow2(j)
    ensures Shl(v, k) + Pow2(k) <= Pow2(j + k)
  {
    hide Pow2;
    Pow2Add(j, k);
    MulMono(Pow2(k), v + 1, Pow2(j));
    MulDist(Pow2(k), v, 1);
  }

  lemma OrLow(buffer: nat, x: nat, r: nat)
    requires Low(buffer, r) == 0 && x < Pow2(r)
    ensures Or(buffer, x) == buffer + x
  {
    hide Or, Pow2;
    OrSum(buffer, x, r);
  }

  lemma Pow2Eight()
    ensures Pow2(8) == 256
  {
  }

  lemma EmptyBuffer()
    ensures Low(0, 8) == 0
  {
  }

  lemma FreeBuffer(buffer: nat)
    ensures buffer < 256 && Low(buffer, 8) == 0 ==> buffer == 0
  {
    if buffer < 256 {
      Pow2Eight();
      StaysBelow(buffer, 8);
    }
  }

  lemma NoBits(v: nat)
    ensures ToBits(v, 0) == []
  {
  }

  class BitStreamWriter {
    var out: seq<Byte>
    var buffer: nat
    var offset: nat

    ghost predicate Valid()
      reads this
    {
      offset < 8 && buffer < 256 && Low(buffer, 8 - offset) == 0
    }

    /** Everything written so far. */
    ghost function Bits(): seq<bool>
      requires Valid()
      reads this
    {
      AllBits(out) + ToBits(Shr(buffer, 8 - offset), offset)
    }

    /** A writer that appends to the given bytes. */
    constructor (out: seq<Byte>)
      ensures Valid() && Bits() == AllBits(out) && this.out == out
    {
      this.out := out;
      buffer := 0;
      offset := 0;
    }

    /** One turn of the loop of Write: fills the buffer as far as the field goes. */
    method WriteChunk(data: nat, nbits: nat) returns (left: nat)
      requires Valid() && 0 < nbits <= 64
      modifies this
      ensures Valid() && left < nbits && old(out) <= out
      ensures Bits() + ToBits(data, left) == old(Bits()) + ToBits(data, nbits)
    {
      hide AllBits, ToBits, Pow2, Chunk, Or, Shl, Shr, Low;
      var r := 8 - offset;
      ghost var done, started := AllBits(out), ToBits(Shr(buffer, r), offset);
      if r <= nbits {
        FillsByte(buffer, data, nbits, r);
      } else {
        FitsByte(buffer, data, nbits, r);
      }
      OrLow(buffer, Chunk(data, nbits, r), r);
      ByteFits(buffer, Chunk(data, nbits, r), r);
      NoBits(data);
      var bits := if r < nbits then r else nbits;
      buffer := Or(buffer, Chunk(data, nbits, r));
      offset := offset + bits;
      left := nbits - bits;
      assert done + started + ToBits(data, nbits) == done + (started + ToBits(data, nbits));
      if offset == 8 {
        AllBitsSnoc(out, buffer);
        ghost var byte := ToBits(buffer, 8);
        Flush();
        assert done + byte + ToBits(data, left) == done + (byte + ToBits(data, left));
      }
    }

    /** Writes out a started byte; the bits still free in it are zero. */
    method Flush()
      requires offset <= 8 && buffer < 256 && (offset == 0 ==> buffer == 0)
      modifies this
      ensures Valid() && offset == 0 && buffer == 0 && Bits() == AllBits(out)
      ensures out == if old(offset) == 0 then old(out) else old(out) + [old(buffer)]
    {
      EmptyBuffer();
      if offset == 0 {
        return;
      }
      out := out + [buffer];
      buffer := 0;
      offset := 0;
    }

    /** Ends the stream at a byte boundary; what was written stays, with less than a byte of padding. */
    method Finish()
      requires Valid()
      modifies this
      ensures old(out) <= out && old(Bits()) <= AllBits(out) && |AllBits(out)| < |old(Bits())| + 8
    {
      hide AllBits, ToBits, Pow2, Shr, Low;
      FreeBuffer(buffer);
      ToBitsSplit(buffer, offset, 8 - offset);
      AllBitsSnoc(out, buffer);
      ghost var started, pad := ToBits(Shr(buffer, 8 - offset), offset), ToBits(Low(buffer, 8 - offset), 8 - offset);
      ghost var done := AllBits(out);
      assert done + (started + pad) == done + started + pad;
      NoBits(Shr(buffer, 8));
      Flush();
    }

    method Write(data: nat, nbits: int) returns (ok: bool)
      requires Valid()
      modifies this
      ensures ok <==> 0 <= nbits <= 64
      ensures Valid() && Bits() == old(Bits()) + (if ok then ToBits(data, nbits) else [])
      ensures old(out) <= out
    {
      hide AllBits, ToBits, Pow2, Chunk, Shl, Shr, Low;
      if nbits < 0 || nbits > 64 {
        return false;
      }
      ghost var target := Bits() + ToBits(data, nbits);
      var n := nbits;
      while n > 0
        invariant 0 <= n <= 64 && Valid() && old(out) <= out
        invariant Bits() + ToBits(data, n) == target
      {
        n := WriteChunk(data, n);
      }
      ok := true;
    }
  }

  // ----- Reading

  lemma {:induction false} FromBitsBound(bits: seq<bool>)
    ensures FromBits(bits) < Pow2(|bits|)
  {
    if bits != [] {
      FromBitsBound(bits[..|bits| - 1]);
    }
  }

  /** The next k bits of a buffer of which the m low bits are unread. */
  function NextBits(buffer: nat, m: nat, k: nat): nat
    requires k <= m <= 8
  {
    Shr(Low(Shl(buffer, 8 - m), 8), 8 - k)
  }

  lemma NextBitsAre(buffer: nat, m: nat, k: nat)
    requires k <= m <= 8
    ensures NextBits(buffer, m, k) < Pow2(k)
    ensures ToBits(buffer, m) == ToBits(NextBits(buffer, m, k), k) + ToBits(buffer, m - k)
  {
    hide ToBits, Shl, Shr, Low, Pow2;
    LowShl(buffer, 8 - m, m);
    ShrShl(Low(buffer, m), 8 - m, m - k);
    ShrLow(buffer, m - k, k);
    ToBitsSplit(buffer, k, m - k);
    ToBitsLow(Shr(buffer, m - k), k);
    ToBitsLow(buffer, m - k);
  }

  /** Appending bits to a number already read. */
  lemma AppendBits(read: seq<bool>, x: nat, k: nat)
    requires x < Pow2(k) && |read| + k <= 64
    ensures Or(Low(Shl(FromBits(read), k), 64), x) == FromBits(read + ToBits(x, k))
  {
    hide ToBits, Shl, Shr, Low, Pow2, Or;
    var v := FromBits(read);
    FromBitsBound(read);
    ShlBound(v, |read|, k);
    Pow2Mono(|read| + k, 64);
    StaysBelow(Shl(v, k), 64);
    JoinAt(v, 0, k);
    OrLow(Shl(v, k), x, k);
    FromToBits(x, k);
    FromBitsConcat(read, ToBits(x, k));
  }

  lemma StaysBelow(v: nat, k: nat)
    requires v < Pow2(k)
    ensures Low(v, k) == v
  {
    hide Pow2;
    DivUnique(v, Pow2(k), 0);
  }

  class BitStreamReader {
    const bytes: seq<Byte>
    var pos: nat
    var buffer: Byte
    var offset: nat

    ghost predicate Valid()
      reads this
    {
      pos <= |bytes| && offset <= 8
    }

    /** Everything still to be read. */
    ghost function Rest(): seq<bool>
      requires Valid()
      reads this
    {
      ToBits(buffer, 8 - offset) + AllBits(bytes[pos..])
    }

    /** A reader of the bytes from the given position on. */
    constructor (bytes: seq<Byte>, pos: nat)
      requires pos <= |bytes|
      ensures Valid() && this.bytes == bytes && Rest() == AllBits(bytes[pos..]) && offset > 0
    {
      this.bytes := bytes;
      this.pos := pos;
      buffer := 0;
      offset := 8;
    }

    /** Between reads, the stream is at its end exactly when less than a byte is unread. */
    lemma EndIff()
      requires Valid() && offset > 0
      ensures pos == |bytes| <==> |Rest()| < 8
    {
      AllBitsLength(bytes[pos..]);
    }

    /** Loads the next byte when the buffer is used up; false at the end of the stream. */
    method Load() returns (ok: bool)
      requires Valid()
      modifies this
      ensures Valid() && Rest() == old(Rest())
      ensures ok <==> Rest() != []
      ensures !ok ==> offset > 0
      ensures ok ==> offset < 8
    {
      hide AllBits, ToBits;
      ok := true;
      NoBits(buffer);
      if offset == 8 {
        if pos == |bytes| {
          NothingLeft(bytes[pos..]);
          return false;
        }
        FirstByte(bytes[pos..]);
        assert bytes[pos..][1..] == bytes[pos + 1..];
        buffer := bytes[pos];
        pos := pos + 1;
        offset := 0;
      }
    }

    /** Reads up to n bits from the loaded byte onto the bits read so far. */
    method ReadChunk(data: nat, n: nat, ghost read: seq<bool>) returns (r: nat, left: nat)
      requires Valid() && offset < 8 && n > 0 && |read| + n <= 64 && data == FromBits(read)
      modifies this
      ensures Valid() && left < n && n - left <= |old(Rest())| && offset > 0
      ensures r == FromBits(read + old(Rest())[..n - left]) && Rest() == old(Rest())[n - left..]
    {
      hide AllBits, ToBits, Pow2, Shl, Shr, Low, Or, FromBits, NextBits;
      var m := 8 - offset;
      var bits := if m < n then m else n;
      NextBitsAre(buffer, m, bits);
      ghost var x := NextBits(buffer, m, bits);
      AppendBits(read, x, bits);
      r := Or(Low(Shl(data, bits), 64), NextBits(buffer, m, bits));
      offset := offset + bits;
      left := n - bits;
      assert old(Rest())[..bits] == ToBits(x, bits);
    }

    /** Reads nbits bits; a bad count or the end of the stream throws. */
    method Read(nbits: int) returns (r: Option<nat>)
      requires Valid()
      modifies this
      ensures Valid() && (old(offset) > 0 ==> offset > 0)
      ensures r.Some? <==> 0 <= nbits <= 64 && nbits <= |old(Rest())|
      ensures r.Some? ==> r.value == FromBits(old(Rest())[..nbits]) && Rest() == old(Rest())[nbits..]
    {
      hide AllBits, ToBits, FromBits;
      if nbits < 0 || nbits > 64 {
        return None;
      }
      ghost var all := Rest();
      var data, n := 0, nbits;
      NoValue();
      while n > 0
        invariant 0 <= n <= nbits && Valid() && nbits - n <= |all| && (old(offset) > 0 ==> offset > 0)
        invariant Rest() == all[nbits - n..] && data == FromBits(all[..nbits - n])
      {
        ghost var k := nbits - n;
        var ok := Load();
        if !ok {
          return None;
        }
        data, n := ReadChunk(data, n, all[..k]);
        assert all[..k] + all[k..][..nbits - n - k] == all[..nbits - n];
        assert all[k..][nbits - n - k..] == all[nbits - n..];
      }
      r := Some(data);
    }
  }

  lemma NothingLeft(s: seq<Byte>)
    requires s == []
    ensures AllBits(s) == []
  {
  }

  lemma NoValue()
    ensures FromBits([]) == 0
  {
  }

  lemma FirstByte(s: seq<Byte>)
    requires s != []
    ensures AllBits(s) == ToBits(s[0], 8) + AllBits(s[1..])
  {
    assert s == [s[0]] + s[1..];
    AllBitsConcat([s[0]], s[1..]);
    AllBitsSnoc([], s[0]);
    assert [] + [s[0]] == [s[0]];
  }
}

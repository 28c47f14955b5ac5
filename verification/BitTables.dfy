/** Coils and discrete inputs: one cell per byte in memory, eight to a byte on the wire. */
module BitTables {
  import opened Bytes

  /** `v << k` kept to 8 bits. */
  function Shl(v: bv8, k: nat): bv8 {
    if k == 0 then v else Shl(v, k - 1) << 1
  }

  function Or(u: bv8, v: bv8): bv8 { u | v }

  predicate Bit(v: bv8, k: nat) { v & Shl(1, k) != 0 }

  /** Bit k of a wire byte. */
  predicate BitSet(b: byte, k: nat) { Bit(ToBv8(b), k) }

  /** Number of wire bytes for n bits. */
  function ByteCount(n: nat): nat { n / 8 + if n % 8 != 0 then 1 else 0 }

  /** Cells holding only OFF and ON. */
  predicate Flags(cells: seq<byte>) {
    forall i :: 0 <= i < |cells| ==> cells[i] == 0 || cells[i] == 1
  }

  function Truth(cells: seq<byte>): (flags: seq<byte>)
    ensures |flags| == |cells| && Flags(flags)
  {
    seq(|cells|, i requires 0 <= i < |cells| => if cells[i] != 0 then 1 else 0)
  }

  function OrCells(cells: seq<byte>): bv8 {
    if cells == [] then 0
    else Or(OrCells(cells[..|cells| - 1]), Shl(ToBv8(cells[|cells| - 1]), |cells| - 1))
  }

  function PackByte(cells: seq<byte>): byte { FromBv8(OrCells(cells)) }

  /** The cells that go into wire byte j. */
  function Slice(cells: seq<byte>, j: nat): (part: seq<byte>)
    requires j < ByteCount(|cells|)
  {
    cells[8 * j..if 8 * j + 8 <= |cells| then 8 * j + 8 else |cells|]
  }

  function PackBits(cells: seq<byte>): (bs: seq<byte>)
    ensures |bs| == ByteCount(|cells|)
  {
    seq(ByteCount(|cells|), j requires 0 <= j < ByteCount(|cells|) => PackByte(Slice(cells, j)))
  }

  function UnpackBits(bs: seq<byte>, nb: nat): (cells: seq<byte>)
    requires ByteCount(nb) <= |bs|
    ensures |cells| == nb && Flags(cells)
  {
    seq(nb, k requires 0 <= k < nb => if BitSet(bs[k / 8], k % 8) then 1 else 0)
  }

  // ---------- Bits of a packed byte ----------

  lemma ShlOne()
    ensures Shl(1, 0) == 0x01 && Shl(1, 1) == 0x02 && Shl(1, 2) == 0x04 && Shl(1, 3) == 0x08
    ensures Shl(1, 4) == 0x10 && Shl(1, 5) == 0x20 && Shl(1, 6) == 0x40 && Shl(1, 7) == 0x80
    ensures Shl(1, 8) == 0
  {
    assert Shl(1, 2) == 0x04;
    assert Shl(1, 4) == 0x10;
    assert Shl(1, 6) == 0x40;
  }

  lemma {:induction false} ShlZero(k: nat)
    ensures Shl(0, k) == 0
  {
    if k > 0 {
      ShlZero(k - 1);
    }
  }

  lemma SingleBit(j: nat, k: nat)
    requires j < 8 && k < 8
    ensures Bit(Shl(1, j), k) <==> j == k
  {
    ShlOne();
    hide Shl;
  }

  lemma OrBit(u: bv8, v: bv8, k: nat)
    ensures Bit(Or(u, v), k) <==> Bit(u, k) || Bit(v, k)
  {
    OrMask(u, v, Shl(1, k));
    hide Shl;
  }

  lemma OrMask(u: bv8, v: bv8, m: bv8)
    ensures (u | v) & m != 0 <==> u & m != 0 || v & m != 0
  {
  }

  lemma FlagBits()
    ensures ToBv8(0) == 0 && ToBv8(1) == 1
  {
    assert FromBv8(0) == 0 && FromBv8(1) == 1;
    Bv8RoundTripBack(0);
    Bv8RoundTripBack(1);
    hide ToBv8, FromBv8;
  }

  lemma NoBit(k: nat)
    ensures !Bit(0, k)
  {
  }

  lemma CellBit(c: byte, n: nat, k: nat)
    requires (c == 0 || c == 1) && n < 8 && k < 8
    ensures Bit(Shl(ToBv8(c), n), k) <==> n == k && c == 1
  {
    FlagBits();
    hide Bit, Shl, ToBv8;
    if c == 0 {
      ShlZero(n);
      NoBit(k);
    } else {
      SingleBit(n, k);
    }
  }

  /** Bit k of the packed byte is cell k, and the rest is zero. */
  lemma {:induction false} OrCellsBit(cells: seq<byte>, k: nat)
    requires |cells| <= 8 && Flags(cells) && k < 8
    ensures Bit(OrCells(cells), k) <==> k < |cells| && cells[k] == 1
    decreases |cells|
  {
    hide Bit, Shl, ToBv8, Or;
    if cells == [] {
      NoBit(k);
    } else {
      var n := |cells| - 1;
      OrCellsBit(cells[..n], k);
      OrBit(OrCells(cells[..n]), Shl(ToBv8(cells[n]), n), k);
      CellBit(cells[n], n, k);
    }
  }

  lemma PackByteBit(cells: seq<byte>, k: nat)
    requires |cells| <= 8 && Flags(cells) && k < 8
    ensures BitSet(PackByte(cells), k) <==> k < |cells| && cells[k] == 1
  {
    OrCellsBit(cells, k);
    Bv8RoundTripBack(OrCells(cells));
    hide ToBv8, FromBv8, OrCells, Bit;
  }

  lemma ByteCountBound(n: nat, k: nat)
    ensures k < n ==> k / 8 < ByteCount(n)
    ensures n <= 8 * ByteCount(n) < n + 8
  {
  }

  /** Bit k of the packed table is cell k; the padding of the last byte is zero. */
  lemma PackBitsAt(cells: seq<byte>, k: nat)
    requires Flags(cells) && k < 8 * ByteCount(|cells|)
    ensures BitSet(PackBits(cells)[k / 8], k % 8) <==> k < |cells| && cells[k] == 1
  {
    hide BitSet, PackByte;
    var part := Slice(cells, k / 8);
    assert k == 8 * (k / 8) + k % 8;
    PackByteBit(part, k % 8);
  }

  /** The bits of a wire byte are its binary digits, least significant first. */
  lemma BitsAreDigits(b: byte)
    ensures BitSet(b, 0) == (b % 2 == 1) && BitSet(b, 1) == (b / 2 % 2 == 1)
    ensures BitSet(b, 2) == (b / 4 % 2 == 1) && BitSet(b, 3) == (b / 8 % 2 == 1)
    ensures BitSet(b, 4) == (b / 16 % 2 == 1) && BitSet(b, 5) == (b / 32 % 2 == 1)
    ensures BitSet(b, 6) == (b / 64 % 2 == 1) && BitSet(b, 7) == (b / 128 % 2 == 1)
  {
    hide BitSet;
    BitsAreHalves(b);
    HalvesOfByte(b);
  }

  lemma HalvesOfByte(b: byte)
    ensures var q4 := Half(Half(Half(Half(b))));
            && Half(b) == b / 2 && Half(Half(b)) == b / 4 && Half(Half(Half(b))) == b / 8 && q4 == b / 16
            && Half(q4) == b / 32 && Half(Half(q4)) == b / 64 && Half(Half(Half(q4))) == b / 128
  {
  }

  lemma BitsAreHalves(b: byte)
    ensures var q4 := Half(Half(Half(Half(b))));
            && BitSet(b, 0) == Odd(b) && BitSet(b, 1) == Odd(Half(b))
            && BitSet(b, 2) == Odd(Half(Half(b))) && BitSet(b, 3) == Odd(Half(Half(Half(b))))
            && BitSet(b, 4) == Odd(q4) && BitSet(b, 5) == Odd(Half(q4))
            && BitSet(b, 6) == Odd(Half(Half(q4))) && BitSet(b, 7) == Odd(Half(Half(Half(q4))))
  {
    hide Shl, FromBits, Odd, Half;
    ShlOne();
    var q2 := Half(Half(b));
    var q4 := Half(Half(q2));
    var q6 := Half(Half(q4));
    BitsOfFromBits(Odd(b), Odd(Half(b)), Odd(q2), Odd(Half(q2)), Odd(q4), Odd(Half(q4)), Odd(q6), Odd(Half(q6)));
  }

  /** Unpacking inverts packing, for tables of any length. */
  lemma UnpackPack(cells: seq<byte>, rest: seq<byte>)
    requires Flags(cells)
    ensures UnpackBits(PackBits(cells) + rest, |cells|) == cells
  {
    hide BitSet, PackBits;
    var bs := PackBits(cells);
    assert |bs| == ByteCount(|cells|);
    forall k | 0 <= k < |cells|
      ensures UnpackBits(bs + rest, |cells|)[k] == cells[k]
    {
      ByteCountBound(|cells|, k);
      PackBitsAt(cells, k);
      assert (bs + rest)[k / 8] == bs[k / 8];
    }
  }

  /** Bytes with the same eight bits are the same byte. */
  lemma SameByte(a: byte, b: byte)
    requires forall k: nat :: k < 8 ==> BitSet(a, k) == BitSet(b, k)
    ensures a == b
  {
    hide Bit, ToBv8, FromBv8;
    assert BitSet(a, 0) == BitSet(b, 0) && BitSet(a, 1) == BitSet(b, 1) && BitSet(a, 2) == BitSet(b, 2);
    assert BitSet(a, 3) == BitSet(b, 3) && BitSet(a, 4) == BitSet(b, 4) && BitSet(a, 5) == BitSet(b, 5);
    assert BitSet(a, 6) == BitSet(b, 6) && BitSet(a, 7) == BitSet(b, 7);
    SameVector(ToBv8(a), ToBv8(b));
    Bv8RoundTrip(a);
    Bv8RoundTrip(b);
  }

  lemma SameVector(u: bv8, v: bv8)
    requires Bit(u, 0) == Bit(v, 0) && Bit(u, 1) == Bit(v, 1) && Bit(u, 2) == Bit(v, 2) && Bit(u, 3) == Bit(v, 3)
    requires Bit(u, 4) == Bit(v, 4) && Bit(u, 5) == Bit(v, 5) && Bit(u, 6) == Bit(v, 6) && Bit(u, 7) == Bit(v, 7)
    ensures u == v
  {
    hide Shl;
    ShlOne();
    EightBits(u, v);
  }

  lemma EightBits(u: bv8, v: bv8)
    requires (u & 0x01 != 0) == (v & 0x01 != 0) && (u & 0x02 != 0) == (v & 0x02 != 0)
    requires (u & 0x04 != 0) == (v & 0x04 != 0) && (u & 0x08 != 0) == (v & 0x08 != 0)
    requires (u & 0x10 != 0) == (v & 0x10 != 0) && (u & 0x20 != 0) == (v & 0x20 != 0)
    requires (u & 0x40 != 0) == (v & 0x40 != 0) && (u & 0x80 != 0) == (v & 0x80 != 0)
    ensures u == v
  {
  }

  /** Packing inverts unpacking exactly when the padding bits of the last byte are clear. */
  lemma PackUnpack(bs: seq<byte>, nb: nat)
    requires |bs| == ByteCount(nb)
    ensures PackBits(UnpackBits(bs, nb)) == bs
       <==> forall k: nat :: nb <= k < 8 * |bs| ==> !BitSet(bs[k / 8], k % 8)
  {
    hide BitSet, PackBits;
    var cells := UnpackBits(bs, nb);
    var again := PackBits(cells);
    forall k: nat | k < 8 * |bs|
      ensures BitSet(again[k / 8], k % 8) <==> k < nb && BitSet(bs[k / 8], k % 8)
    {
      PackBitsAt(cells, k);
    }
    if forall k: nat :: nb <= k < 8 * |bs| ==> !BitSet(bs[k / 8], k % 8) {
      forall j | 0 <= j < |bs|
        ensures again[j] == bs[j]
      {
        forall b: nat | b < 8
          ensures BitSet(again[j], b) == BitSet(bs[j], b)
        {
          var k := 8 * j + b;
          assert k / 8 == j && k % 8 == b;
        }
        SameByte(again[j], bs[j]);
      }
    }
  }

  /** On 0/1 tables the three packers below compute the same bytes: of the cells, of their truth, one at a time. */
  lemma PackersAgree(cells: seq<byte>)
    requires Flags(cells)
    ensures PackBits(Truth(cells)) == PackBits(cells)
    ensures 0 < |cells| <= 8 ==> PackBits(cells) == [PackByte(cells)]
  {
    hide PackByte;
    assert Truth(cells) == cells;
    if 0 < |cells| <= 8 {
      assert Slice(cells, 0) == cells;
    }
  }

  // ---------- The packing loops ----------

  lemma PackBitsGrows(cells: seq<byte>, q: nat)
    requires 8 * q + 8 <= |cells|
    ensures PackBits(cells[..8 * q + 8]) == PackBits(cells[..8 * q]) + [PackByte(cells[8 * q..8 * q + 8])]
  {
    hide PackByte;
    var next, now := cells[..8 * q + 8], cells[..8 * q];
    assert ByteCount(|next|) == q + 1 && ByteCount(|now|) == q;
    forall j | 0 <= j < q
      ensures Slice(next, j) == Slice(now, j)
    {
      assert next[8 * j..8 * j + 8] == now[8 * j..8 * j + 8];
    }
    assert Slice(next, q) == cells[8 * q..8 * q + 8];
  }

  lemma PackBitsLast(cells: seq<byte>, q: nat)
    requires 8 * q < |cells| < 8 * q + 8
    ensures PackBits(cells) == PackBits(cells[..8 * q]) + [PackByte(cells[8 * q..])]
  {
    hide PackByte;
    var now := cells[..8 * q];
    assert ByteCount(|cells|) == q + 1 && ByteCount(|now|) == q;
    forall j | 0 <= j < q
      ensures Slice(cells, j) == Slice(now, j)
    {
      assert cells[8 * j..8 * j + 8] == now[8 * j..8 * j + 8];
    }
    assert Slice(cells, q) == cells[8 * q..];
  }

  lemma OrCellsSnoc(cells: seq<byte>, c: byte)
    ensures OrCells(cells + [c]) == Or(OrCells(cells), Shl(ToBv8(c), |cells|))
  {
    assert (cells + [c])[..|cells|] == cells;
    hide Shl, ToBv8;
  }

  lemma OrCellsMore(cells: seq<byte>, lo: nat, hi: nat)
    requires lo <= hi < |cells|
    ensures OrCells(cells[lo..hi + 1]) == OrCells(cells[lo..hi]) | Shl(ToBv8(cells[hi]), hi - lo)
  {
    hide OrCells, Shl, ToBv8;
    OrCellsSnoc(cells[lo..hi], cells[hi]);
    assert cells[lo..hi] + [cells[hi]] == cells[lo..hi + 1];
  }

  /** response_io_status: appends the packed cells of a range to a response. */
  method ResponseIoStatus(address: nat, nb: nat, tab: array<byte>, rsp: array<byte>, start: nat) returns (offset: nat)
    requires address + nb <= tab.Length && start + ByteCount(nb) <= rsp.Length
    requires tab != rsp
    modifies rsp
    ensures offset == start + ByteCount(nb)
    ensures rsp[..offset] == old(rsp[..start]) + PackBits(tab[address..address + nb])
    ensures forall k :: offset <= k < rsp.Length ==> rsp[k] == old(rsp[k])
  {
    hide Shl, ToBv8, FromBv8, PackBits, OrCells;
    ghost var cells := tab[address..address + nb];
    var shift: nat, acc: bv8 := 0, 0;
    ghost var q: nat := 0;
    offset := start;
    OrCellsNone();
    for i := address to address + nb
      invariant shift < 8 && i - address == 8 * q + shift
      invariant offset == start + q
      invariant start + ByteCount(nb) <= rsp.Length
      invariant acc == OrCells(cells[8 * q..8 * q + shift])
      invariant rsp[..offset] == old(rsp[..start]) + PackBits(cells[..8 * q])
      invariant forall k :: start + ByteCount(nb) <= k < rsp.Length ==> rsp[k] == old(rsp[k])
    {
      ByteCountBound(nb, i - address);
      assert q < ByteCount(nb);
      OrCellsMore(cells, 8 * q, 8 * q + shift);
      acc := acc | Shl(ToBv8(tab[i]), shift);
      if shift == 7 {
        rsp[offset] := FromBv8(acc);
        PackBitsGrows(cells, q);
        offset := offset + 1;
        acc, shift, q := 0, 0, q + 1;
        assert cells[8 * q..8 * q] == [];
      } else {
        shift := shift + 1;
      }
    }
    assert nb == 8 * q + shift;
    if shift != 0 {
      rsp[offset] := FromBv8(acc);
      PackBitsLast(cells, q);
      assert cells[8 * q..8 * q + shift] == cells[8 * q..];
      offset := offset + 1;
    } else {
      assert cells[..8 * q] == cells;
    }
  }

  lemma OrCellsNone()
    ensures OrCells([]) == 0 && PackBits([]) == []
  {
  }

  /** `b |= bit` or `b &= ~bit`. */
  function Assign(b: byte, bit: bv8, on: bool): byte {
    FromBv8(if on then ToBv8(b) | bit else ToBv8(b) & !bit)
  }

  /** Assigning bit k of a byte that holds k packed cells packs one more cell. */
  lemma AssignPacks(b: byte, part: seq<byte>, on: bool)
    requires |part| < 8 && Flags(part) && b == PackByte(part)
    ensures Assign(b, Shl(1, |part|), on) == PackByte(part + [if on then 1 else 0])
  {
    hide Shl, OrCells, ToBv8, FromBv8;
    var c: byte := if on then 1 else 0;
    Bv8RoundTripBack(OrCells(part));
    OrCellsSnoc(part, c);
    FlagBits();
    if !on {
      hide Bit;
      OrCellsBit(part, |part|);
      ShlZero(|part|);
      ClearBit(part);
    }
  }

  lemma ClearBit(part: seq<byte>)
    requires |part| < 8 && !Bit(OrCells(part), |part|)
    ensures OrCells(part) & !Shl(1, |part|) == OrCells(part) == Or(OrCells(part), 0)
  {
    ClearClear(OrCells(part), Shl(1, |part|));
    hide Shl, OrCells;
  }

  lemma ClearClear(v: bv8, m: bv8)
    requires v & m == 0
    ensures v & !m == v && v | 0 == v
  {
  }

  /** `bit = bit << 1`; the loops stop once the mask has left the low 8 bits. */
  lemma ShlNext(k: nat)
    requires k < 8
    ensures Shl(1, k) << 1 == Shl(1, k + 1) && Shl(1, k) != 0
    ensures Shl(1, 0) == 1 && Shl(1, 8) == 0
  {
    ShlOne();
    assert Shl(1, k + 1) == Shl(1, k) << 1;
    hide Shl;
  }

  /** The inner loop of modbus_write_bits: fills one request byte from up to eight source cells. */
  method AppendByte(src: array<byte>, nb: nat, req: array<byte>, at: nat, start: nat) returns (pos: nat)
    requires start <= nb <= src.Length && at < req.Length
    requires src != req
    modifies req
    ensures pos == if start + 8 <= nb then start + 8 else nb
    ensures req[at] == PackByte(Truth(src[start..pos]))
    ensures forall k :: 0 <= k < req.Length && k != at ==> req[k] == old(req[k])
  {
    hide Shl, PackByte, Assign;
    pos := start;
    // Only the low 8 bits of the source's `bit` are ever used, so the mask is kept in 8 bits.
    var bit: bv8 := 1;
    req[at] := 0;
    PackByteNone();
    ShlNext(0);
    assert src[start..start] == [];
    while bit != 0 && pos < nb
      invariant start <= pos <= nb && pos <= start + 8
      invariant bit == Shl(1, pos - start)
      invariant req[at] == PackByte(Truth(src[start..pos]))
      invariant forall k :: 0 <= k < req.Length && k != at ==> req[k] == old(req[k])
      decreases nb - pos
    {
      ghost var part := Truth(src[start..pos]);
      assert pos < start + 8 by { ShlNext(0); }
      AssignPacks(req[at], part, src[pos] != 0);
      assert Truth(src[start..pos + 1]) == part + [if src[pos] != 0 then 1 else 0];
      req[at] := Assign(req[at], bit, src[pos] != 0);
      ShlNext(pos - start);
      pos := pos + 1;
      bit := bit << 1;
    }
    if pos < start + 8 && pos < nb {
      ShlNext(pos - start);
    }
  }

  lemma PackByteNone()
    ensures PackByte([]) == 0
  {
    assert FromBv8(0) == 0;
  }

  /** The packing loops of modbus_write_bits: one bit per source cell, set where the cell is not zero. */
  method AppendBits(src: array<byte>, nb: nat, req: array<byte>, start: nat) returns (reqLength: nat)
    requires nb <= src.Length && start + ByteCount(nb) <= req.Length
    requires src != req
    modifies req
    ensures reqLength == start + ByteCount(nb)
    ensures req[..reqLength] == old(req[..start]) + PackBits(Truth(src[..nb]))
    ensures forall k :: reqLength <= k < req.Length ==> req[k] == old(req[k])
  {
    hide PackBits, PackByte, ByteCount, Truth;
    ghost var cells := Truth(src[..nb]);
    var byteCount := ByteCount(nb);
    var pos: nat := 0;
    reqLength := start;
    PackBitsEnds(cells);
    assert cells[..0] == [];
    for i := 0 to byteCount
      invariant reqLength == start + i
      invariant pos == if 8 * i <= nb then 8 * i else nb
      invariant req[..reqLength] == old(req[..start]) + PackBits(cells[..pos])
      invariant forall k :: start + byteCount <= k < req.Length ==> req[k] == old(req[k])
    {
      ghost var filled, from := req[..reqLength], pos;
      CountReaches(nb, i);
      pos := AppendByte(src, nb, req, reqLength, pos);
      TruthOfPart(src[..nb], from, pos);
      assert src[..nb][from..pos] == src[from..pos];
      reqLength := reqLength + 1;
      assert req[..reqLength] == filled + [req[reqLength - 1]];
      PacksMore(cells, i, pos);
    }
    assert cells[..pos] == cells;
  }

  lemma PackBitsEnds(cells: seq<byte>)
    ensures PackBits([]) == []
    ensures |cells| <= 8 * ByteCount(|cells|)
  {
  }

  lemma CountReaches(n: nat, i: nat)
    requires i < ByteCount(n)
    ensures 8 * i < n
  {
  }

  lemma TruthOfPart(cells: seq<byte>, lo: nat, hi: nat)
    requires lo <= hi <= |cells|
    ensures Truth(cells)[lo..hi] == Truth(cells[lo..hi])
  {
  }

  /** One more byte of a packed table, the last one perhaps of fewer than eight cells. */
  lemma PacksMore(cells: seq<byte>, i: nat, pos: nat)
    requires 8 * i < |cells| && pos == if 8 * i + 8 <= |cells| then 8 * i + 8 else |cells|
    ensures PackBits(cells[..pos]) == PackBits(cells[..8 * i]) + [PackByte(cells[8 * i..pos])]
  {
    hide PackBits, PackByte;
    if 8 * i + 8 <= |cells| {
      PackBitsGrows(cells, i);
    } else {
      PackBitsLast(cells, i);
      assert cells[8 * i..pos] == cells[8 * i..] && cells[..pos] == cells;
    }
  }

  /** modbus_get_byte_from_bits: at most eight cells into one byte, with the clamp of a build without asserts. */
  method GetByteFromBits(src: array<byte>, index: nat, nbBits: nat) returns (value: byte)
    requires index + (if nbBits > 8 then 8 else nbBits) <= src.Length
    ensures value == PackByte(src[index..index + if nbBits > 8 then 8 else nbBits])
  {
    hide Shl, ToBv8, FromBv8, OrCells;
    var n := if nbBits > 8 then 8 else nbBits;
    var acc: bv8 := 0;
    OrCellsNone();
    assert src[index..index] == [];
    for i := 0 to n
      invariant acc == OrCells(src[index..index + i])
    {
      OrCellsMore(src[..], index, index + i);
      assert src[..][index..index + i + 1] == src[index..index + i + 1] && src[..][index..index + i] == src[index..index + i];
      acc := acc | Shl(ToBv8(src[index + i]), i);
    }
    value := FromBv8(acc);
  }

  // ---------- The unpacking loops ----------

  /** modbus_set_bits_from_bytes: cells index .. index + nb from a byte table; the other cells stay. */
  method SetBitsFromBytes(dest: array<byte>, index: nat, nb: nat, tabByte: array<byte>, first: nat)
    requires index + nb <= dest.Length && first + ByteCount(nb) <= tabByte.Length
    requires dest != tabByte
    modifies dest
    ensures dest[..] == old(dest[..index]) + UnpackBits(tabByte[first..first + ByteCount(nb)], nb) + old(dest[index + nb..])
  {
    hide BitSet;
    ghost var bs := tabByte[first..first + ByteCount(nb)];
    var shift: nat := 0;
    for i := index to index + nb
      invariant shift == (i - index) % 8
      invariant forall k :: index <= k < i ==> dest[k] == UnpackBits(bs, nb)[k - index]
      invariant forall k :: 0 <= k < dest.Length && !(index <= k < i) ==> dest[k] == old(dest[k])
    {
      ByteCountBound(nb, i - index);
      dest[i] := if BitSet(tabByte[first + (i - index) / 8], shift) then 1 else 0;
      shift := shift + 1;
      shift := shift % 8;
    }
  }

  /** modbus_set_bits_from_byte: all eight bits of one value. */
  method SetBitsFromByte(dest: array<byte>, index: nat, value: byte)
    requires index + 8 <= dest.Length
    modifies dest
    ensures dest[..] == old(dest[..index]) + UnpackBits([value], 8) + old(dest[index + 8..])
  {
    hide BitSet;
    for i := 0 to 8
      invariant forall k :: 0 <= k < i ==> dest[index + k] == UnpackBits([value], 8)[k]
      invariant forall k :: 0 <= k < dest.Length && !(index <= k < index + i) ==> dest[k] == old(dest[k])
    {
      dest[index + i] := if BitSet(value, i) then 1 else 0;
    }
  }

  /** The inner loop of read_io_status: up to eight cells from one response byte. */
  method ReadByteInto(temp: byte, nb: nat, dest: array<byte>, start: nat) returns (pos: nat)
    requires start <= nb <= dest.Length
    modifies dest
    ensures pos == if start + 8 <= nb then start + 8 else nb
    ensures forall k :: start <= k < pos ==> dest[k] == if BitSet(temp, k - start) then 1 else 0
    ensures forall k :: 0 <= k < dest.Length && !(start <= k < pos) ==> dest[k] == old(dest[k])
  {
    hide Shl, ToBv8;
    pos := start;
    var bit: bv8 := 1;
    ShlNext(0);
    while bit != 0 && pos < nb
      invariant start <= pos <= nb && pos <= start + 8
      invariant bit == Shl(1, pos - start)
      invariant forall k :: start <= k < pos ==> dest[k] == if BitSet(temp, k - start) then 1 else 0
      invariant forall k :: 0 <= k < dest.Length && !(start <= k < pos) ==> dest[k] == old(dest[k])
      decreases nb - pos
    {
      dest[pos] := if ToBv8(temp) & bit != 0 then 1 else 0;
      ShlNext(pos - start);
      pos := pos + 1;
      bit := bit << 1;
    }
    if pos < start + 8 && pos < nb {
      ShlNext(pos - start);
    }
  }

  /** The unpacking loop of read_io_status: nb cells from rc response bytes. */
  method ReadBitsInto(rsp: array<byte>, offset: nat, rc: nat, nb: nat, dest: array<byte>)
    requires offset + rc <= rsp.Length && rc == ByteCount(nb) && nb <= dest.Length
    requires rsp != dest
    modifies dest
    ensures dest[..] == UnpackBits(rsp[offset..offset + rc], nb) + old(dest[nb..])
  {
    hide BitSet;
    ghost var bs := rsp[offset..offset + rc];
    var pos: nat := 0;
    ByteCountBound(nb, 0);
    for i := offset to offset + rc
      invariant pos == if 8 * (i - offset) <= nb then 8 * (i - offset) else nb
      invariant forall k :: 0 <= k < pos ==> dest[k] == UnpackBits(bs, nb)[k]
      invariant forall k :: pos <= k < dest.Length ==> dest[k] == old(dest[k])
    {
      ghost var start := pos;
      pos := ReadByteInto(rsp[i], nb, dest, pos);
      forall k | start <= k < pos
        ensures dest[k] == UnpackBits(bs, nb)[k]
      {
        assert k / 8 == i - offset && k % 8 == k - start;
      }
    }
    assert pos == nb;
  }
}

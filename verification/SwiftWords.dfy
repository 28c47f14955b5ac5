/**
 * The Swift value layer: arrays of integers of 1, 2, 4, 8 or 16 bytes laid out in one raw buffer that is
 * also read as 16-bit words, on a little-endian host.
 */
module SwiftWords {
  import opened Bytes

  datatype Endianness = BigEndian | LittleEndian

  /** The element sizes that convertBigEndian knows. */
  predicate IsWidth(w: nat) { w == 1 || w == 2 || w == 4 || w == 8 || w == 16 }

  /** v is the bit pattern of an integer of w bytes. */
  predicate HasWidth(v: nat, w: nat) { if w == 0 then v == 0 else HasWidth(v / 0x100, w - 1) }

  predicate AllWidth(values: seq<nat>, w: nat) { forall i :: 0 <= i < |values| ==> HasWidth(values[i], w) }

  // ---------- Values and bytes ----------

  /** The w bytes of a value, least significant first: how the host stores it. */
  function LittleBytes(v: nat, w: nat): (bs: seq<byte>)
    ensures |bs| == w
  {
    if w == 0 then [] else [v % 0x100] + LittleBytes(v / 0x100, w - 1)
  }

  /** The w bytes of a value, most significant first. */
  function BigBytes(v: nat, w: nat): (bs: seq<byte>)
    ensures |bs| == w
  {
    if w == 0 then [] else BigBytes(v / 0x100, w - 1) + [v % 0x100]
  }

  /** The n 16-bit words of a value, least significant first. */
  function LittleWords(v: nat, n: nat): (ws: seq<word>)
    ensures |ws| == n
  {
    if n == 0 then [] else [v % 0x1_0000] + LittleWords(v / 0x1_0000, n - 1)
  }

  function FromLittle(bs: seq<byte>): nat {
    if bs == [] then 0 else bs[0] + 0x100 * FromLittle(bs[1..])
  }

  lemma {:induction false} LittleRoundTrip(v: nat, w: nat)
    requires HasWidth(v, w)
    ensures FromLittle(LittleBytes(v, w)) == v
    decreases w
  {
    if w > 0 {
      LittleRoundTrip(v / 0x100, w - 1);
      assert LittleBytes(v, w)[1..] == LittleBytes(v / 0x100, w - 1);
    }
  }

  function Reverse(s: seq<byte>): (r: seq<byte>)
    ensures |r| == |s|
  {
    seq(|s|, i requires 0 <= i < |s| => s[|s| - 1 - i])
  }

  lemma {:induction false} ReverseLittle(v: nat, w: nat)
    ensures Reverse(LittleBytes(v, w)) == BigBytes(v, w)
    decreases w
  {
    if w > 0 {
      ReverseLittle(v / 0x100, w - 1);
      var tail := LittleBytes(v / 0x100, w - 1);
      assert Reverse([v % 0x100] + tail) == Reverse(tail) + [v % 0x100];
    }
  }

  // ---------- Buffers ----------

  /** The elements of an array as the host stores them one after the other. */
  function Raw(values: seq<nat>, w: nat): seq<byte> {
    if values == [] then [] else LittleBytes(values[0], w) + Raw(values[1..], w)
  }

  /** The elements most significant byte first. */
  function BigRaw(values: seq<nat>, w: nat): seq<byte> {
    if values == [] then [] else BigBytes(values[0], w) + BigRaw(values[1..], w)
  }

  /** convertBigEndian: every complete element of w bytes reversed, in place. */
  function SwapEach(s: seq<byte>, w: nat): (r: seq<byte>)
    requires 0 < w
    ensures |r| == |s|
    decreases |s|
  {
    if |s| < w then s else Reverse(s[..w]) + SwapEach(s[w..], w)
  }

  /** The first count elements of w bytes. */
  function Values(bs: seq<byte>, w: nat, count: nat): (vs: seq<nat>)
    requires count * w <= |bs|
    ensures |vs| == count
    decreases count
  {
    if count == 0 then []
    else
      assert count * w == w + (count - 1) * w;
      [FromLittle(bs[..w])] + Values(bs[w..], w, count - 1)
  }

  lemma {:induction false} RawLength(values: seq<nat>, w: nat)
    ensures |Raw(values, w)| == |values| * w
    decreases |values|
  {
    if values != [] {
      RawLength(values[1..], w);
      assert |values| * w == w + (|values| - 1) * w;
    }
  }

  lemma {:induction false} ValuesOfRaw(values: seq<nat>, w: nat, rest: seq<byte>)
    requires AllWidth(values, w)
    ensures |values| * w <= |Raw(values, w) + rest|
    ensures Values(Raw(values, w) + rest, w, |values|) == values
    decreases |values|
  {
    RawLength(values, w);
    if values != [] {
      var head, tail := LittleBytes(values[0], w), Raw(values[1..], w);
      var bs := Raw(values, w) + rest;
      assert bs == head + (tail + rest);
      assert bs[..w] == head && bs[w..] == tail + rest;
      LittleRoundTrip(values[0], w);
      ValuesOfRaw(values[1..], w, rest);
      hide LittleBytes, FromLittle, HasWidth;
    }
  }

  lemma ReverseTwice(s: seq<byte>)
    ensures Reverse(Reverse(s)) == s
  {
  }

  /** Swapping twice is the identity, whatever is left over at the end. */
  lemma {:induction false} SwapTwice(s: seq<byte>, w: nat)
    requires 0 < w
    ensures SwapEach(SwapEach(s, w), w) == s
    decreases |s|
  {
    hide Reverse;
    if |s| >= w {
      var head, tail := Reverse(s[..w]), SwapEach(s[w..], w);
      SwapFirst(head, tail);
      ReverseTwice(s[..w]);
      SwapTwice(s[w..], w);
      assert s == s[..w] + s[w..];
    }
  }

  lemma SwapFirst(head: seq<byte>, rest: seq<byte>)
    requires head != []
    ensures SwapEach(head + rest, |head|) == Reverse(head) + SwapEach(rest, |head|)
  {
    hide Reverse;
    assert (head + rest)[..|head|] == head && (head + rest)[|head|..] == rest;
  }

  lemma {:induction false} SwapRaw(values: seq<nat>, w: nat, rest: seq<byte>)
    requires 0 < w && |rest| < w
    ensures SwapEach(Raw(values, w) + rest, w) == BigRaw(values, w) + rest
    decreases |values|
  {
    hide LittleBytes, BigBytes, Reverse;
    if values == [] {
      assert [] + rest == rest;
    } else {
      var head, tail := LittleBytes(values[0], w), Raw(values[1..], w);
      assert Raw(values, w) + rest == head + (tail + rest);
      SwapFirst(head, tail + rest);
      ReverseLittle(values[0], w);
      SwapRaw(values[1..], w, rest);
      assert BigBytes(values[0], w) + (BigRaw(values[1..], w) + rest) == BigRaw(values, w) + rest;
    }
  }

  lemma {:induction false} SwapBytesIdle(s: seq<byte>)
    ensures SwapEach(s, 1) == s
    decreases |s|
  {
    if |s| >= 1 {
      SwapBytesIdle(s[1..]);
      assert Reverse(s[..1]) == s[..1];
      assert s == s[..1] + s[1..];
    }
  }

  // ---------- The buffer as 16-bit words ----------

  /** A buffer of 2 * n bytes read as n words of a little-endian host. */
  function WordsOf(bs: seq<byte>, n: nat): (ws: seq<word>)
    requires |bs| == 2 * n
    ensures |ws| == n
  {
    seq(n, k requires 0 <= k < n => Word(bs[2 * k + 1], bs[2 * k]))
  }

  /** The bytes of words as a little-endian host stores them. */
  function BytesOf(ws: seq<word>): (bs: seq<byte>)
    ensures |bs| == 2 * |ws|
  {
    if ws == [] then []
    else
      var n := |ws| - 1;
      BytesOf(ws[..n]) + [Lo(ws[n]), Hi(ws[n])]
  }

  lemma {:induction false} BytesOfWords(bs: seq<byte>, n: nat)
    requires |bs| == 2 * n
    ensures BytesOf(WordsOf(bs, n)) == bs
    decreases n
  {
    hide Hi, Lo, Word;
    if n > 0 {
      var m := n - 1;
      BytesOfWords(bs[..2 * m], m);
      HalvesOfWord(bs[2 * m + 1], bs[2 * m]);
      assert WordsOf(bs, n)[..m] == WordsOf(bs[..2 * m], m);
      assert bs == bs[..2 * m] + [bs[2 * m], bs[2 * m + 1]];
    }
  }

  lemma {:induction false} BytesOfAt(ws: seq<word>, i: nat)
    requires i < |ws|
    ensures BytesOf(ws)[2 * i] == Lo(ws[i]) && BytesOf(ws)[2 * i + 1] == Hi(ws[i])
    decreases |ws|
  {
    hide Hi, Lo;
    if i < |ws| - 1 {
      BytesOfAt(ws[..|ws| - 1], i);
    }
  }

  lemma SwapPairAt(s: seq<byte>)
    requires 2 <= |s|
    ensures SwapEach(s, 2) == [s[1], s[0]] + SwapEach(s[2..], 2)
  {
    assert Reverse(s[..2]) == [s[1], s[0]];
  }

  /** A register goes out high byte first, so the wire carries each pair of buffer bytes swapped. */
  lemma {:induction false} WireIsSwapped(bs: seq<byte>, n: nat)
    requires |bs| == 2 * n
    ensures RegisterBytes(WordsOf(bs, n)) == SwapEach(bs, 2)
    decreases n
  {
    if n > 0 {
      hide Hi, Lo, Word;
      var tail := bs[2..];
      WireIsSwapped(tail, n - 1);
      SwapPairAt(bs);
      HalvesOfWord(bs[1], bs[0]);
      assert WordsOf(bs, n) == [Word(bs[1], bs[0])] + WordsOf(tail, n - 1);
      RegisterBytesCons(Word(bs[1], bs[0]), WordsOf(tail, n - 1));
    }
  }

  lemma {:induction false} RegisterBytesCons(w: word, ws: seq<word>)
    ensures RegisterBytes([w] + ws) == [Hi(w), Lo(w)] + RegisterBytes(ws)
    decreases |ws|
  {
    hide Hi, Lo;
    var n := |ws|;
    if n > 0 {
      assert ([w] + ws)[..n] == [w] + ws[..n - 1];
      RegisterBytesCons(w, ws[..n - 1]);
    }
  }

  // ---------- writeRegisters and readRegisters ----------

  /** Number of registers for an array: ((bitWidth * count) + 15) / 16. */
  function WordCount(w: nat, count: nat): nat { (8 * w * count + 15) / 16 }

  lemma WordCountBytes(w: nat, count: nat)
    requires IsWidth(w)
    ensures 2 * WordCount(w, count) == if w == 1 then count + count % 2 else count * w
  {
    if w == 1 {
      Sixteenths(count);
      assert WordCount(1, count) == (8 * count + 15) / 16;
    } else if w == 2 {
      assert WordCount(2, count) == count;
    } else if w == 4 {
      assert WordCount(4, count) == 2 * count;
    } else if w == 8 {
      assert WordCount(8, count) == 4 * count;
    } else {
      assert WordCount(16, count) == 8 * count;
    }
    hide WordCount;
  }

  lemma Sixteenths(n: nat)
    ensures 2 * ((8 * n + 15) / 16) == n + n % 2
  {
  }

  /** The buffer writeRegisters fills: the elements, and a zero byte if the last word is only half used. */
  function Filled(values: seq<nat>, w: nat): (bs: seq<byte>)
    requires IsWidth(w)
    ensures |bs| == 2 * WordCount(w, |values|)
  {
    RawLength(values, w);
    WordCountBytes(w, |values|);
    Raw(values, w) + if w == 1 && |values| % 2 == 1 then [0] else []
  }

  /** What writeRegisters hands to modbus_write_registers. */
  function Encode(values: seq<nat>, w: nat, e: Endianness): (ws: seq<word>)
    requires IsWidth(w)
    ensures |ws| == WordCount(w, |values|)
  {
    var bs := Filled(values, w);
    WordsOf(if e.BigEndian? then SwapEach(SwapEach(bs, w), 2) else bs, WordCount(w, |values|))
  }

  /** What readRegisters makes of the registers it received. */
  function Decode(ws: seq<word>, w: nat, count: nat, e: Endianness): (values: seq<nat>)
    requires IsWidth(w) && |ws| == WordCount(w, count)
    ensures |values| == count
  {
    WordCountBytes(w, count);
    var bs := BytesOf(ws);
    Values(if e.BigEndian? then SwapEach(SwapEach(bs, 2), w) else bs, w, count)
  }

  /** Swift to registers and back: any width, any count - odd numbers of bytes included - any endianness. */
  lemma RoundTrip(values: seq<nat>, w: nat, e: Endianness)
    requires IsWidth(w) && AllWidth(values, w)
    ensures Decode(Encode(values, w, e), w, |values|, e) == values
  {
    var bs, n := Filled(values, w), WordCount(w, |values|);
    ValuesOfRaw(values, w, if w == 1 && |values| % 2 == 1 then [0] else []);
    if e.BigEndian? {
      BytesOfWords(SwapEach(SwapEach(bs, w), 2), n);
      SwapTwice(SwapEach(bs, w), 2);
      SwapTwice(bs, w);
    } else {
      BytesOfWords(bs, n);
    }
    hide Values, SwapEach, Raw, WordsOf, BytesOf;
  }

  /** Big-endian values travel most significant byte first, one after the other, then the padding. */
  lemma BigEndianWireOrder(values: seq<nat>, w: nat)
    requires IsWidth(w)
    ensures RegisterBytes(Encode(values, w, BigEndian)) == BigRaw(values, w) + if w == 1 && |values| % 2 == 1 then [0] else []
  {
    hide SwapEach, WordsOf, RegisterBytes, BigRaw, WordCount, Filled;
    var swapped := SwapEach(Filled(values, w), w);
    WireIsSwapped(SwapEach(swapped, 2), WordCount(w, |values|));
    SwapTwice(swapped, 2);
    FilledSwapped(values, w);
  }

  lemma FilledSwapped(values: seq<nat>, w: nat)
    requires IsWidth(w)
    ensures SwapEach(Filled(values, w), w) == BigRaw(values, w) + if w == 1 && |values| % 2 == 1 then [0] else []
  {
    hide SwapEach, Raw, BigRaw, WordCount;
    var bs := Filled(values, w);
    if w == 1 {
      SwapBytesIdle(bs);
      BytesAreBig(values);
    } else {
      assert bs == Raw(values, w) + [];
      SwapRaw(values, w, []);
    }
  }

  lemma {:induction false} BytesAreBig(values: seq<nat>)
    ensures BigRaw(values, 1) == Raw(values, 1)
    decreases |values|
  {
    if values != [] {
      BytesAreBig(values[1..]);
      assert BigBytes(values[0], 1) == [values[0] % 0x100] == LittleBytes(values[0], 1);
    }
  }

  function LittleWordsOf(values: seq<nat>, n: nat): seq<word> {
    if values == [] then [] else LittleWords(values[0], n) + LittleWordsOf(values[1..], n)
  }

  /** With .littleEndian, register k of a value of 16 or more bits holds its 16-bit word k. */
  lemma LittleEndianRegisters(values: seq<nat>, w: nat)
    requires IsWidth(w) && w != 1
    ensures Encode(values, w, LittleEndian) == LittleWordsOf(values, w / 2)
  {
    hide Raw, LittleWordsOf, WordsOf, WordCount;
    assert Filled(values, w) == Raw(values, w);
    RawWords(values, w / 2, WordCount(w, |values|));
  }

  /** With .littleEndian, bytes fill the registers in pairs, the first of a pair in the low half. */
  lemma LittleEndianBytes(values: seq<nat>, k: nat)
    requires AllWidth(values, 1) && 2 * k < |values|
    ensures |Encode(values, 1, LittleEndian)| == (|values| + 1) / 2
    ensures Encode(values, 1, LittleEndian)[k] == values[2 * k] + 0x100 * (if 2 * k + 1 < |values| then values[2 * k + 1] else 0)
  {
    RawLength(values, 1);
    RawByte(values, 2 * k);
    if 2 * k + 1 < |values| {
      RawByte(values, 2 * k + 1);
    }
    hide Raw, HasWidth;
  }

  lemma {:induction false} RawByte(values: seq<nat>, i: nat)
    requires AllWidth(values, 1) && i < |values|
    ensures i < |Raw(values, 1)| && Raw(values, 1)[i] == values[i]
    decreases |values|
  {
    RawLength(values, 1);
    assert HasWidth(values[0], 1) && HasWidth(values[0] / 0x100, 0);
    assert LittleBytes(values[0], 1) == [values[0] % 0x100];
    if i > 0 {
      RawByte(values[1..], i - 1);
    }
  }

  /** m words in all: the n words of each value, one value after the other. */
  lemma {:induction false} RawWords(values: seq<nat>, n: nat, m: nat)
    requires |Raw(values, 2 * n)| == 2 * m
    ensures WordsOf(Raw(values, 2 * n), m) == LittleWordsOf(values, n)
    decreases |values|
  {
    hide LittleBytes, LittleWords, WordsOf;
    if values == [] {
      NoWords();
    } else {
      var head, tail := LittleBytes(values[0], 2 * n), Raw(values[1..], 2 * n);
      RawWords(values[1..], n, m - n);
      LittleBytesWords(values[0], n);
      WordsAppend(head, n, tail, m - n);
    }
  }

  lemma NoWords()
    ensures WordsOf([], 0) == []
  {
  }

  lemma WordsAppend(a: seq<byte>, m: nat, b: seq<byte>, n: nat)
    requires |a| == 2 * m && |b| == 2 * n
    ensures WordsOf(a + b, m + n) == WordsOf(a, m) + WordsOf(b, n)
  {
    hide Word;
  }

  lemma {:induction false} LittleBytesWords(v: nat, n: nat)
    ensures WordsOf(LittleBytes(v, 2 * n), n) == LittleWords(v, n)
    decreases n
  {
    if n > 0 {
      var low, next, rest := v % 0x100, v / 0x100 % 0x100, v / 0x1_0000;
      var tail := LittleBytes(rest, 2 * (n - 1));
      LowWord(v);
      assert LittleBytes(v, 2 * n) == [low, next] + tail;
      hide LittleBytes;
      LittleBytesWords(rest, n - 1);
      WordsAppend([low, next], 1, tail, n - 1);
      assert WordsOf([low, next], 1) == [Word(next, low)];
    }
  }

  lemma LowWord(v: nat)
    ensures v / 0x100 / 0x100 == v / 0x1_0000
    ensures Word(v / 0x100 % 0x100, v % 0x100) == v % 0x1_0000
  {
  }
}

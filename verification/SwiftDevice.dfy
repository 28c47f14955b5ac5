/** ModbusDevice: the raw buffer of the Swift layer, rewritten in place, on top of the C client functions. */
module SwiftDevice {
  import opened Bytes
  import opened Memory
  import opened SwiftWords
  import opened Backends
  import Refinement
  import opened ClientCalls

  datatype RegisterType = Holding | Input

  /** `typedPointer[i] = typedPointer[i].bigEndian` for one element of w bytes. */
  method SwapElement(buf: array<byte>, base: nat, w: nat)
    requires base + w <= buf.Length
    modifies buf
    ensures buf[base..base + w] == Reverse(old(buf[base..base + w]))
    ensures forall k :: 0 <= k < buf.Length && !(base <= k < base + w) ==> buf[k] == old(buf[k])
  {
    var element := buf[base..base + w];
    for j := 0 to w
      invariant forall k :: base <= k < base + j ==> buf[k] == element[w - 1 - (k - base)]
      invariant forall k :: 0 <= k < buf.Length && !(base <= k < base + j) ==> buf[k] == old(buf[k])
    {
      buf[base + j] := element[w - 1 - j];
    }
    ghost var swapped := buf[base..base + w];
    assert forall k :: 0 <= k < w ==> swapped[k] == buf[base + k] == element[w - 1 - k];
    assert swapped == Reverse(element);
  }

  /** The bytes that n elements of w bytes take. */
  ghost function Span(n: nat, w: nat): nat {
    n * w
  }

  /** convertBigEndian on a typed pointer: count elements of w bytes, in place. */
  method ConvertBigEndian(buf: array<byte>, w: nat, count: nat)
    requires 0 < w && count * w <= buf.Length
    modifies buf
    ensures buf[..count * w] == SwapEach(old(buf[..count * w]), w)
    ensures forall k :: count * w <= k < buf.Length ==> buf[k] == old(buf[k])
  {
    hide Reverse, SwapEach, Span;
    SpanEnds(count, w);
    ghost var s := buf[..Span(count, w)];
    var base: nat := 0;
    assert s[0..] == s;
    for i := 0 to count
      invariant base == Span(i, w) <= |s|
      invariant buf[..base] + SwapEach(s[base..], w) == SwapEach(s, w)
      invariant forall k :: base <= k < buf.Length ==> buf[k] == old(buf[k])
    {
      SpanGrows(i, count, w);
      ghost var done := buf[..base];
      SameElement(buf[..], old(buf[..]), s, base, w);
      SwapStep(done, s, base, w);
      SwapElement(buf, base, w);
      assert buf[..base + w] == done + Reverse(s[base..base + w]);
      base := base + w;
    }
    SwapNothing(s, base, w);
  }

  lemma SameElement(now: seq<byte>, before: seq<byte>, s: seq<byte>, base: nat, w: nat)
    requires base + w <= |s| <= |now| == |before| && s == before[..|s|]
    requires forall k :: base <= k < |now| ==> now[k] == before[k]
    ensures now[base..base + w] == s[base..base + w]
  {
  }

  lemma SwapStep(done: seq<byte>, s: seq<byte>, base: nat, w: nat)
    requires 0 < w && base + w <= |s|
    ensures done + SwapEach(s[base..], w) == done + Reverse(s[base..base + w]) + SwapEach(s[base + w..], w)
  {
    hide Reverse;
    assert s[base..] == s[base..base + w] + s[base + w..];
    SwapFirst(s[base..base + w], s[base + w..]);
  }

  lemma SwapNothing(s: seq<byte>, base: nat, w: nat)
    requires 0 < w && base == |s|
    ensures SwapEach(s[base..], w) == []
  {
  }

  lemma SpanEnds(count: nat, w: nat)
    ensures Span(0, w) == 0
    ensures Span(count, w) == count * w
  {
  }

  lemma SpanGrows(i: nat, count: nat, w: nat)
    requires i < count
    ensures Span(i + 1, w) == Span(i, w) + w <= Span(count, w)
  {
    assert (count - i - 1) * w >= 0;
    assert count * w == (i + 1) * w + (count - i - 1) * w;
  }

  /** convertBigEndian on a raw pointer: refuses element sizes it does not know. */
  method ConvertRaw(buf: array<byte>, elementSize: nat, count: nat) returns (ok: bool)
    requires count * elementSize <= buf.Length
    modifies buf
    ensures ok <==> elementSize == 1 || elementSize == 2 || elementSize == 4 || elementSize == 8 || elementSize == 16
    ensures ok ==> buf[..count * elementSize] == SwapEach(old(buf[..count * elementSize]), elementSize)
    ensures !ok ==> buf[..] == old(buf[..])
    ensures forall k :: count * elementSize <= k < buf.Length ==> buf[k] == old(buf[k])
  {
    if elementSize == 1 {
      SwapBytesIdle(buf[..count * elementSize]);
      return true;
    }
    if elementSize == 2 || elementSize == 4 || elementSize == 8 || elementSize == 16 {
      ConvertBigEndian(buf, elementSize, count);
      return true;
    }
    ok := false;
  }

  /** The whole buffer swapped, when the elements fill it or are single bytes. */
  lemma SwapWhole(bs: seq<byte>, w: nat, count: nat)
    requires IsWidth(w) && |bs| == 2 * WordCount(w, count)
    ensures count * w <= |bs|
    ensures SwapEach(bs[..count * w], w) + bs[count * w..] == SwapEach(bs, w)
  {
    WordCountBytes(w, count);
    if w == 1 {
      SwapBytesIdle(bs);
      SwapBytesIdle(bs[..count * w]);
    } else {
      assert bs[..count * w] == bs && bs[count * w..] == [];
    }
  }

  /** copyMemory: the elements of an array as the host stores them. */
  method CopyElements(values: seq<nat>, w: nat, buf: array<byte>)
    requires |values| * w <= buf.Length
    modifies buf
    ensures |Raw(values, w)| == |values| * w
    ensures buf[..|values| * w] == Raw(values, w)
    ensures forall k :: |values| * w <= k < buf.Length ==> buf[k] == old(buf[k])
  {
    RawLength(values, w);
    var raw := Raw(values, w);
    for i := 0 to |raw|
      invariant forall k :: 0 <= k < i ==> buf[k] == raw[k]
      invariant forall k :: i <= k < buf.Length ==> buf[k] == old(buf[k])
    {
      buf[i] := raw[i];
    }
  }

  /** The filling of the buffer in writeRegisters, up to the call into C. */
  method FillBuffer(values: seq<nat>, w: nat, e: Endianness) returns (words: array<word>)
    requires IsWidth(w) && values != []
    ensures fresh(words) && words[..] == Encode(values, w, e)
  {
    hide WordCount, SwapEach, Raw, Word;
    WordCountBytes(w, |values|);
    var wordCount := WordCount(w, |values|);
    var buf := new byte[2 * wordCount];
    // An odd byte leaves half of the last word unused; it must be zero.
    buf[2 * wordCount - 2], buf[2 * wordCount - 1] := 0, 0;
    CopyElements(values, w, buf);
    assert buf[..] == buf[..|values| * w] + buf[|values| * w..];
    assert buf[|values| * w..] == if w == 1 && |values| % 2 == 1 then [0] else [];
    ghost var bs := Filled(values, w);
    assert buf[..] == bs;
    if e.BigEndian? {
      SwapWhole(bs, w, |values|);
      assert bs[..|values| * w] == buf[..|values| * w];
      ConvertBigEndian(buf, w, |values|);
      assert buf[..] == buf[..|values| * w] + bs[|values| * w..];
      assert buf[..] == SwapEach(bs, w);
      assert buf[..wordCount * 2] == buf[..];
      ConvertBigEndian(buf, 2, wordCount);
      assert buf[..wordCount * 2] == buf[..];
    }
    words := new word[wordCount](k requires 0 <= k < wordCount reads buf => Word(buf[2 * k + 1], buf[2 * k]));
    assert words[..] == WordsOf(buf[..], wordCount);
  }

  /** readRegisters after the call into C: the words as they lie in the buffer, then the swaps in place. */
  method TakeValues(words: array<word>, w: nat, count: nat, e: Endianness) returns (values: seq<nat>)
    requires IsWidth(w) && words.Length == WordCount(w, count)
    ensures values == Decode(words[..], w, count, e)
  {
    hide WordCount, SwapEach, Hi, Lo, Values;
    WordCountBytes(w, count);
    var wordCount := words.Length;
    var buf := new byte[2 * wordCount](i requires 0 <= i < 2 * wordCount reads words => if i % 2 == 0 then Lo(words[i / 2]) else Hi(words[i / 2]));
    ghost var bs := BytesOf(words[..]);
    forall i | 0 <= i < 2 * wordCount
      ensures buf[i] == bs[i]
    {
      BytesOfAt(words[..], i / 2);
      assert i == 2 * (i / 2) + i % 2;
    }
    assert buf[..] == bs;
    if e.BigEndian? {
      assert buf[..wordCount * 2] == buf[..];
      ConvertBigEndian(buf, 2, wordCount);
      assert buf[..wordCount * 2] == buf[..];
      ghost var pairs := buf[..];
      SwapWhole(pairs, w, count);
      assert pairs[..count * w] == buf[..count * w];
      ConvertBigEndian(buf, w, count);
      assert buf[..] == buf[..count * w] + pairs[count * w..];
    }
    values := Values(buf[..], w, count);
  }

  /** writeRegisters: true for success, false where the source throws. */
  method WriteValues(client: Client, station: Station, startAddress: int, values: seq<nat>, w: nat, e: Endianness)
    returns (ok: bool)
    requires IsWidth(w) && client.Linked(station)
    modifies client`tId, station.mapping.tabBits, station.mapping.tabRegisters
    ensures values == [] ==> ok && station.mapping.State() == old(station.mapping.State())
    ensures values != [] ==>
              var c := Call.WriteRegisters(Low16(startAddress), Encode(values, w, e));
              && station.mapping.State() == Perform(c, old(station.mapping.State())).1
              && (ok <==> !Perform(c, old(station.mapping.State())).0.Failed?)
  {
    if values == [] {
      return true;
    }
    hide Perform, Encode;
    var words := FillBuffer(values, w, e);
    assert words[..words.Length] == words[..];
    var rc, errno := client.WriteRegisters(station, startAddress, words.Length, words);
    ok := rc >= 0;
  }

  /** readRegisters: the values, or nothing where the source throws. */
  method ReadValues(client: Client, station: Station, startAddress: int, count: nat, kind: RegisterType, w: nat, e: Endianness)
    returns (ok: bool, values: seq<nat>)
    requires IsWidth(w) && client.Linked(station)
    modifies client`tId, station.mapping.tabBits, station.mapping.tabRegisters
    ensures station.mapping.State() == old(station.mapping.State())
    ensures var n := WordCount(w, count);
            var c := if kind.Input? then Call.ReadInputRegisters(Low16(startAddress), n) else Call.ReadRegisters(Low16(startAddress), n);
            var o := Perform(c, old(station.mapping.State())).0;
            if o.Failed? then !ok && values == []
            else ok && o.Registers? && |o.values| == n && values == Decode(o.values, w, count, e)
  {
    var n := WordCount(w, count);
    ghost var c := if kind.Input? then Call.ReadInputRegisters(Low16(startAddress), n) else Call.ReadRegisters(Low16(startAddress), n);
    ReadChangesNothing(c, station.mapping.State());
    hide Perform, Decode, WordCount;
    var words := new word[n](_ => 0);
    var rc, errno := client.ReadRegistersOf(station, if kind.Input? then 4 else 3, startAddress, n, words, c);
    if rc < 0 {
      return false, [];
    }
    assert words[..n] == words[..];
    values := TakeValues(words, w, count, e);
    ok := true;
  }

  lemma ReadChangesNothing(c: Call, t: Tables)
    requires c.ReadRegisters? || c.ReadInputRegisters?
    ensures Perform(c, t).1 == t
    ensures Perform(c, t).0.Failed? || (Perform(c, t).0.Registers? && |Perform(c, t).0.values| == c.nb)
  {
  }

  /**
   * Values written to a range of holding registers, at any address, and read back with the same
   * endianness are the same values, whenever the write is accepted.
   */
  lemma WriteThenRead(addr: word, values: seq<nat>, w: nat, e: Endianness, t: Tables)
    requires IsWidth(w) && AllWidth(values, w)
    requires !Perform(WriteRegisters(addr, Encode(values, w, e)), t).0.Failed?
    ensures var t' := Perform(WriteRegisters(addr, Encode(values, w, e)), t).1;
            var o := Perform(ReadRegisters(addr, WordCount(w, |values|)), t').0;
            o.Registers? && |o.values| == WordCount(w, |values|) && Decode(o.values, w, |values|, e) == values
  {
    hide Perform, Encode, Decode, WordCount, AllWidth;
    RoundTrip(values, w, e);
    ReadBack(addr, Encode(values, w, e), t);
  }

  /** writeRegisters over the wire, byte for byte: an empty array is done without an exchange. */
  function WriteOverWire(b: Backend, tid: word, slave: byte, addr: word, values: seq<nat>, w: nat, e: Endianness, t: Tables): (bool, Tables)
    requires IsWidth(w)
  {
    if values == [] then (true, t)
    else
      var (o, t') := Refinement.Exchange(b, tid, slave, WriteRegisters(addr, Encode(values, w, e)), t);
      (!o.Failed?, t')
  }

  /** readRegisters of holding registers over the wire. */
  function ReadOverWire(b: Backend, tid: word, slave: byte, addr: word, count: nat, w: nat, e: Endianness, t: Tables): (bool, seq<nat>)
    requires IsWidth(w)
  {
    var (o, _) := Refinement.Exchange(b, tid, slave, ReadRegisters(addr, WordCount(w, count)), t);
    if o.Registers? && |o.values| == WordCount(w, count) then (true, Decode(o.values, w, count, e)) else (false, [])
  }

  /**
   * Values of any width and count, the empty array included, written to a server and read back on either
   * backend, with any transaction identifiers, are the same values; the tables are those of the write.
   */
  lemma WireRoundTrip(b: Backend, tid: word, tid': word, slave: byte, addr: word, values: seq<nat>, w: nat, e: Endianness, t: Tables)
    requires IsWidth(w) && AllWidth(values, w) && WellFormed(t)
    requires WithinLimits(WriteRegisters(addr, Encode(values, w, e)))
    requires InRange(WriteRegisters(addr, Encode(values, w, e)), t)
    ensures var (ok, t') := WriteOverWire(b, tid, slave, addr, values, w, e, t);
            && ok
            && t' == Perform(WriteRegisters(addr, Encode(values, w, e)), t).1
            && ReadOverWire(b, tid', slave, addr, |values|, w, e, t') == (true, values)
  {
    hide Refinement.Exchange, Encode, Decode, WordCount, WellFormed, AllWidth;
    var c, n := WriteRegisters(addr, Encode(values, w, e)), WordCount(w, |values|);
    Refinement.ExchangeRefines(b, tid, slave, c, t);
    Refinement.PerformWellFormed(c, t);
    var t' := Perform(c, t).1;
    if values == [] {
      NothingWritten(addr, w, e, t);
    }
    Refinement.ExchangeRefines(b, tid', slave, ReadRegisters(addr, n), t');
    WriteThenRead(addr, values, w, e, t);
  }

  lemma NothingWritten(addr: word, w: nat, e: Endianness, t: Tables)
    requires IsWidth(w) && InRange(WriteRegisters(addr, Encode([], w, e)), t)
    ensures Perform(WriteRegisters(addr, Encode([], w, e)), t).1 == t
  {
    WordCountBytes(w, 0);
    assert |Encode([], w, e)| == 0;
    assert t.registers[..addr] + t.registers[addr..] == t.registers;
  }

  // ---------- Strings ----------

  /** A Swift character: one scalar, or a cluster of several, of which CR LF alone has an ASCII value. */
  datatype Character = One(scalar: char) | CrLf | Cluster(first: char, rest: string)

  /** asciiValue ?? 0; the value of CR LF is that of LF. */
  function AsciiValue(c: Character): byte {
    match c
    case One(s) => if s as int < 0x80 then s as int else 0
    case CrLf => 0x0A
    case Cluster(_, _) => 0
  }

  /** The scalars of a string, by which strings are compared. */
  function Scalars(s: seq<Character>): string {
    if s == [] then []
    else
      (match s[0]
       case One(c) => [c]
       case CrLf => ['\r', '\n']
       case Cluster(c, rest) => [c] + rest) + Scalars(s[1..])
  }

  /** The byte array of writeASCIIString: the string, then zeros. */
  function StringBytes(s: seq<Character>, count: nat): (bs: seq<byte>)
    requires |s| <= count
    ensures |bs| == count
  {
    seq(count, i requires 0 <= i < count => if i < |s| then AsciiValue(s[i]) else 0)
  }

  predicate AllBytes(values: seq<nat>) { forall i :: 0 <= i < |values| ==> values[i] < 0x100 }

  /** readASCIIString: the scalars up to the first zero byte. */
  function BytesString(values: seq<nat>): string
    requires AllBytes(values)
  {
    if values == [] || values[0] == 0 then [] else [values[0] as char] + BytesString(values[1..])
  }

  /** The ASCII values up to the first character that has none, or has the value 0. */
  function Surviving(s: seq<Character>): string {
    if s == [] || AsciiValue(s[0]) == 0 then [] else [AsciiValue(s[0]) as char] + Surviving(s[1..])
  }

  /**
   * Where the surviving part ends: at the end of the string, or at the first character that is a cluster other
   * than CR LF, a scalar outside ASCII, or NUL. Before that, scalars are kept and CR LF has become LF.
   */
  lemma {:induction false} SurvivesUntil(s: seq<Character>)
    ensures var n := |Surviving(s)|;
            && n <= |s|
            && (n < |s| ==> s[n].Cluster? || (s[n].One? && (s[n].scalar as int == 0 || s[n].scalar as int >= 128)))
            && forall i :: 0 <= i < n ==>
                 if s[i].CrLf? then Surviving(s)[i] == '\n'
                 else s[i].One? && s[i].scalar == Surviving(s)[i] && 0 < s[i].scalar as int < 128
    decreases |s|
  {
    if s != [] && AsciiValue(s[0]) != 0 {
      SurvivesUntil(s[1..]);
      assert Surviving(s)[1..] == Surviving(s[1..]);
      assert forall i :: 0 < i < |s| ==> s[i] == s[1..][i - 1];
      assert forall i :: 0 < i < |Surviving(s)| ==> Surviving(s)[i] == Surviving(s[1..])[i - 1];
    }
  }

  lemma {:induction false} StringOfBytes(s: seq<Character>, count: nat)
    requires |s| <= count
    ensures BytesString(StringBytes(s, count)) == Surviving(s)
    decreases |s|
  {
    if s != [] {
      StringOfBytes(s[1..], count - 1);
      assert StringBytes(s, count)[1..] == StringBytes(s[1..], count - 1);
    }
  }

  lemma {:induction false} SurvivingLength(s: seq<Character>)
    ensures |Surviving(s)| <= |s| <= |Scalars(s)|
    decreases |s|
  {
    if s != [] {
      SurvivingLength(s[1..]);
    }
  }

  /** A character that comes back as itself. */
  predicate Kept(c: Character) { c.One? && 0 < c.scalar as int < 0x80 }

  /** A string comes back whole if and only if each of its characters is a single ASCII scalar and not NUL. */
  lemma {:induction false} WholeExactly(s: seq<Character>)
    ensures Surviving(s) == Scalars(s) <==> forall i :: 0 <= i < |s| ==> Kept(s[i])
    decreases |s|
  {
    if s != [] {
      var tail := s[1..];
      WholeExactly(tail);
      SurvivingLength(tail);
      assert s == [s[0]] + tail;
      assert forall i :: 0 <= i < |tail| ==> tail[i] == s[i + 1];
      if Kept(s[0]) {
        assert Surviving(s)[1..] == Surviving(tail) && Scalars(s)[1..] == Scalars(tail);
      } else {
        assert |Surviving(s)| < |Scalars(s)|;
      }
    }
  }

  /** The one character that is all ASCII and not kept: a line end of a text file loses its CR. */
  lemma CrLfIsLost()
    ensures Surviving([One('A'), CrLf, One('B')]) == "A\nB"
    ensures Scalars([One('A'), CrLf, One('B')]) == "A\r\nB"
  {
    assert [One('A'), CrLf, One('B')][1..] == [CrLf, One('B')] && [CrLf, One('B')][1..] == [One('B')];
    assert [One('B')][1..] == [];
  }

  /** Bytes are elements of width 1, so strings go through writeRegisters and readRegisters like any array. */
  lemma BytesAreValues(bs: seq<byte>)
    ensures AllWidth(bs, 1)
  {
    forall i | 0 <= i < |bs|
      ensures HasWidth(bs[i], 1)
    {
      assert HasWidth(bs[i] / 0x100, 0);
    }
  }

  lemma {:induction false} ByteValues(bs: seq<byte>, count: nat)
    requires count * 1 <= |bs|
    ensures AllBytes(Values(bs, 1, count))
    decreases count
  {
    if count > 0 {
      ByteValues(bs[1..], count - 1);
      assert bs[..1][1..] == [];
      assert FromLittle(bs[..1]) == bs[0];
    }
  }

  lemma DecodedBytes(ws: seq<word>, count: nat, e: Endianness)
    requires |ws| == WordCount(1, count)
    ensures AllBytes(Decode(ws, 1, count, e))
  {
    hide SwapEach, BytesOf, WordCount, Values, AllBytes;
    WordCountBytes(1, count);
    var bs := BytesOf(ws);
    ByteValues(if e.BigEndian? then SwapEach(SwapEach(bs, 2), 1) else bs, count);
  }

  /**
   * A string written to registers of a server and read back, on either backend: what comes back is its
   * surviving part, and that is the string exactly if all its characters are kept.
   */
  lemma AsciiRoundTrip(b: Backend, tid: word, tid': word, slave: byte, addr: word, s: seq<Character>, count: nat, e: Endianness, t: Tables)
    requires |s| <= count && WellFormed(t)
    requires WithinLimits(WriteRegisters(addr, Encode(StringBytes(s, count), 1, e)))
    requires InRange(WriteRegisters(addr, Encode(StringBytes(s, count), 1, e)), t)
    ensures var (written, t') := WriteOverWire(b, tid, slave, addr, StringBytes(s, count), 1, e, t);
            var (read, values) := ReadOverWire(b, tid', slave, addr, count, 1, e, t');
            && written && read && AllBytes(values)
            && BytesString(values) == Surviving(s)
            && (BytesString(values) == Scalars(s) <==> forall i :: 0 <= i < |s| ==> Kept(s[i]))
  {
    hide WriteOverWire, ReadOverWire, Encode, StringBytes, WellFormed, WithinLimits, InRange, AllWidth, Surviving, Scalars;
    var bs := StringBytes(s, count);
    BytesAreValues(bs);
    WireRoundTrip(b, tid, tid', slave, addr, bs, 1, e, t);
    StringOfBytes(s, count);
    WholeExactly(s);
  }

  /** writeASCIIString; a string longer than the byte count stops the source. */
  method WriteAsciiString(client: Client, station: Station, start: int, count: nat, s: seq<Character>, e: Endianness)
    returns (ok: bool)
    requires |s| <= count && client.Linked(station)
    modifies client`tId, station.mapping.tabBits, station.mapping.tabRegisters
    ensures count == 0 ==> ok && station.mapping.State() == old(station.mapping.State())
    ensures count != 0 ==>
              var c := Call.WriteRegisters(Low16(start), Encode(StringBytes(s, count), 1, e));
              && station.mapping.State() == Perform(c, old(station.mapping.State())).1
              && (ok <==> !Perform(c, old(station.mapping.State())).0.Failed?)
  {
    hide Perform, Encode, WellFormed;
    var values := new byte[count](_ => 0);
    for i := 0 to |s|
      modifies values
      invariant forall k :: 0 <= k < count ==> values[k] == if k < i then AsciiValue(s[k]) else 0
    {
      values[i] := AsciiValue(s[i]);
    }
    assert values[..] == StringBytes(s, count);
    ok := WriteValues(client, station, start, values[..], 1, e);
  }

  /** readASCIIString: the text, or nothing where the source throws. */
  method ReadAsciiString(client: Client, station: Station, start: int, count: nat, kind: RegisterType, e: Endianness)
    returns (ok: bool, text: string)
    requires client.Linked(station)
    modifies client`tId, station.mapping.tabBits, station.mapping.tabRegisters
    ensures station.mapping.State() == old(station.mapping.State())
    ensures var n := WordCount(1, count);
            var c := if kind.Input? then Call.ReadInputRegisters(Low16(start), n) else Call.ReadRegisters(Low16(start), n);
            var o := Perform(c, old(station.mapping.State())).0;
            if o.Failed? then !ok && text == []
            else
              && ok && o.Registers? && |o.values| == n
              && AllBytes(Decode(o.values, 1, count, e))
              && text == BytesString(Decode(o.values, 1, count, e))
  {
    hide Perform, Decode, WordCount, WellFormed;
    var values;
    ok, values := ReadValues(client, station, start, count, kind, 1, e);
    text := [];
    if !ok {
      return;
    }
    ghost var n := WordCount(1, count);
    ghost var c := if kind.Input? then Call.ReadInputRegisters(Low16(start), n) else Call.ReadRegisters(Low16(start), n);
    DecodedBytes(Perform(c, old(station.mapping.State())).0.values, count, e);
    var i := 0;
    while i < |values| && values[i] != 0
      invariant 0 <= i <= |values|
      invariant text + BytesString(values[i..]) == BytesString(values)
    {
      assert values[i..][1..] == values[i + 1..];
      text := text + [values[i] as char];
      i := i + 1;
    }
    assert BytesString(values[i..]) == [];
  }
}

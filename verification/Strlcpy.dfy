/** The two implementations of strlcpy that the repository carries, against one specification. */
module Strlcpy {
  import opened Bytes

  /** The characters of a C string: those before the first NUL. */
  function Text(s: seq<byte>): (t: seq<byte>)
    ensures t <= s && 0 !in t
    ensures 0 in s ==> |t| < |s| && s[|t|] == 0
  {
    if s == [] || s[0] == 0 then [] else [s[0]] + Text(s[1..])
  }

  /** The destination after a copy: as much of the text as fits, one NUL, and the bytes that were behind it. */
  function Copied(dest: seq<byte>, text: seq<byte>, size: nat): (d: seq<byte>)
    requires size <= |dest|
    ensures |d| == |dest|
  {
    if size == 0 then dest
    else
      var n := if |text| < size then |text| else size - 1;
      text[..n] + [0] + dest[n + 1..]
  }

  lemma {:induction false} TextBeforeNul(t: seq<byte>, rest: seq<byte>)
    requires 0 !in t
    ensures Text(t + [0] + rest) == t
    decreases |t|
  {
    if t != [] {
      assert (t + [0] + rest)[1..] == t[1..] + [0] + rest;
      TextBeforeNul(t[1..], rest);
    }
  }

  /**
   * What the copy is for: the destination always holds a C string, a prefix of the text of at most
   * size - 1 characters; it is the whole text exactly if the returned length is less than the size; and
   * nothing behind its NUL is touched.
   */
  lemma CopyIsString(dest: seq<byte>, text: seq<byte>, size: nat)
    requires 0 < size <= |dest| && 0 !in text
    ensures var d := Copied(dest, text, size);
            && Text(d) <= text
            && |Text(d)| < size && d[|Text(d)|] == 0
            && (Text(d) == text <==> |text| < size)
            && (|text| >= size ==> |Text(d)| == size - 1)
            && d[|Text(d)| + 1..] == dest[|Text(d)| + 1..]
  {
    var n := if |text| < size then |text| else size - 1;
    TextBeforeNul(text[..n], dest[n + 1..]);
  }

  /** The first NUL, and no earlier byte, ends the text. */
  lemma TextEnds(s: seq<byte>)
    requires 0 in s
    ensures |Text(s)| < |s| && Text(s) == s[..|Text(s)|]
    ensures forall k :: 0 <= k <= |Text(s)| ==> (s[k] == 0 <==> k == |Text(s)|)
  {
    var t := Text(s);
    assert forall k :: 0 <= k < |t| ==> s[k] == t[k];
  }

  lemma CopiedTo(dest: seq<byte>, before: seq<byte>, text: seq<byte>, size: nat, n: nat)
    requires 0 < size <= |before| == |dest|
    requires n == if |text| < size then |text| else size - 1
    requires dest[..n] == text[..n] && dest[n] == 0 && dest[n + 1..] == before[n + 1..]
    ensures dest == Copied(before, text, size)
  {
    assert dest == dest[..n] + [dest[n]] + dest[n + 1..];
  }

  /** The loop of modbus.c: two pointers that run along the strings. */
  method CopyByPointers(dest: array<byte>, src: array<byte>, destSize: nat) returns (length: nat)
    requires destSize <= dest.Length && dest != src && 0 in src[..]
    modifies dest
    ensures length == |Text(src[..])|
    ensures dest[..] == Copied(old(dest[..]), Text(src[..]), destSize)
  {
    hide Copied, Text;
    ghost var text := Text(src[..]);
    ghost var before := dest[..];
    TextEnds(src[..]);
    var d: nat, s: nat, n := 0, 0, destSize;
    // n counts the bytes of dest that are left for characters.
    if n != 0 {
      n := n - 1;
      while n != 0
        invariant 0 <= n && d == s <= |text| && n + s == destSize - 1
        invariant dest[..d] == text[..d] && dest[d..] == before[d..]
        decreases n
      {
        ghost var front, back := dest[..d], dest[d..];
        dest[d] := src[s];
        d, s := d + 1, s + 1;
        assert dest[..d] == front + [src[s - 1]];
        assert dest[d..] == back[1..] == before[d..];
        if dest[d - 1] == 0 {
          CopiedTo(dest[..], before, text, destSize, |text|);
          break;
        }
        n := n - 1;
      }
    }
    // The text was not copied to its end: the NUL is missing, and so is the rest of the length.
    if n == 0 {
      if destSize != 0 {
        dest[d] := 0;
        CopiedTo(dest[..], before, text, destSize, d);
      } else {
        CopiedNowhere(before, text);
      }
      while src[s] != 0
        invariant s <= |text|
        decreases |text| - s
      {
        s := s + 1;
      }
      s := s + 1;
    }
    // s stands one behind the NUL.
    length := s - 1;
  }

  lemma CopiedNowhere(dest: seq<byte>, text: seq<byte>)
    ensures Copied(dest, text, 0) == dest
  {
  }

  method Strlen(src: array<byte>) returns (length: nat)
    requires 0 in src[..]
    ensures length == |Text(src[..])|
  {
    hide Text;
    ghost var text := Text(src[..]);
    TextEnds(src[..]);
    length := 0;
    while src[length] != 0
      invariant length <= |text|
      decreases |text| - length
    {
      length := length + 1;
    }
  }

  method Memcpy(dest: array<byte>, src: array<byte>, n: nat)
    requires n <= dest.Length && n <= src.Length && dest != src
    modifies dest
    ensures dest[..n] == src[..n] && dest[n..] == old(dest[n..])
  {
    for i := 0 to n
      invariant forall k :: 0 <= k < i ==> dest[k] == src[k]
      invariant forall k :: i <= k < dest.Length ==> dest[k] == old(dest[k])
    {
      dest[i] := src[i];
    }
  }

  /** strlcpy.c: the length first, then one block copy. */
  method CopyByLength(dest: array<byte>, src: array<byte>, maxLen: nat) returns (srcLen: nat)
    requires maxLen <= dest.Length && dest != src && 0 in src[..]
    modifies dest
    ensures srcLen == |Text(src[..])|
    ensures dest[..] == Copied(old(dest[..]), Text(src[..]), maxLen)
  {
    hide Copied, Text;
    ghost var text := Text(src[..]);
    ghost var before := dest[..];
    TextEnds(src[..]);
    srcLen := Strlen(src);
    assert src[..srcLen] == text;
    if srcLen + 1 < maxLen {
      Memcpy(dest, src, srcLen + 1);
      FrontOf(dest[..], src[..], srcLen, srcLen + 1);
      CopiedTo(dest[..], before, text, maxLen, srcLen);
    } else if maxLen != 0 {
      Memcpy(dest, src, maxLen - 1);
      dest[maxLen - 1] := 0;
      FrontOf(src[..], text, maxLen - 1, srcLen);
      CopiedTo(dest[..], before, text, maxLen, maxLen - 1);
    } else {
      CopiedNowhere(before, text);
    }
  }

  lemma FrontOf(s: seq<byte>, t: seq<byte>, n: nat, m: nat)
    requires n <= m <= |s| && m <= |t| && s[..m] == t[..m]
    ensures s[..n] == t[..n]
    ensures n < m ==> s[n] == t[n]
  {
    assert s[..n] == s[..m][..n] && t[..n] == t[..m][..n];
    assert n < m ==> s[n] == s[..m][n] && t[n] == t[..m][n];
  }
}

/** Reading and writing the records of an object file in either byte order, on a host of either
    byte order: a record is read as the host sees it, and its fields are swapped if the orders
    differ.

    A machine word is written as the sequence of its bytes, the least significant one first, so
    shifting by whole bytes drops bytes at one end and adds zeros at the other. */
module ElfCodec {
  import opened Arith

  type Byte = b: nat | b < 256

  type Word = seq<Byte>

  // ---- words

  /** The bytes in the opposite order. */
  function Reverse(b: seq<Byte>): (r: seq<Byte>)
    ensures |r| == |b|
    ensures forall i :: 0 <= i < |b| ==> r[i] == b[|b| - 1 - i]
  {
    seq(|b|, i requires 0 <= i < |b| => b[|b| - 1 - i])
  }

  /** The number a word stands for. */
  function Val(w: Word): nat
  {
    if w == [] then 0 else w[0] + 256 * Val(w[1..])
  }

  /** The word of `n` bytes that holds a number. */
  function WordOf(v: nat, n: nat): (w: Word)
    ensures |w| == n
  {
    if n == 0 then [] else [v % 256] + WordOf(v / 256, n - 1)
  }

  /** 256 to the power of `n`. */
  function Limit(n: nat): nat
  {
    if n == 0 then 1 else 256 * Limit(n - 1)
  }

  lemma {:induction false} ValOfWord(v: nat, n: nat)
    requires v < Limit(n)
    ensures Val(WordOf(v, n)) == v
  {
    if n > 0 {
      ValOfWord(v / 256, n - 1);
      assert WordOf(v, n)[1..] == WordOf(v / 256, n - 1);
    }
  }

  lemma LowestByte(b: Byte, v: nat)
    ensures (b + 256 * v) % 256 == b && (b + 256 * v) / 256 == v
  {
  }

  lemma {:induction false} WordOfVal(w: Word)
    ensures Val(w) < Limit(|w|) && WordOf(Val(w), |w|) == w
  {
    if w != [] {
      WordOfVal(w[1..]);
      LowestByte(w[0], Val(w[1..]));
      assert w == [w[0]] + w[1..];
    }
  }

  lemma Limits()
    ensures Limit(1) == 0x100 && Limit(2) == 0x1_0000 && Limit(4) == 0x1_0000_0000
    ensures Limit(8) == 0x1_0000_0000_0000_0000
  {
    assert Limit(3) == 256 * Limit(2) && Limit(4) == 256 * Limit(3);
    assert Limit(5) == 256 * Limit(4) && Limit(6) == 256 * Limit(5);
    assert Limit(7) == 256 * Limit(6) && Limit(8) == 256 * Limit(7);
  }

  // ---- operations on words

  function Zeros(n: nat): (r: Word)
    ensures |r| == n
  {
    seq(n, _ => 0)
  }

  /** `w >> 8*k` and `w << 8*k`. */
  function Shr(w: Word, k: nat): (r: Word)
    requires k <= |w|
    ensures |r| == |w|
  {
    w[k..] + Zeros(k)
  }

  function Shl(w: Word, k: nat): (r: Word)
    requires k <= |w|
    ensures |r| == |w|
  {
    Zeros(k) + w[..|w| - k]
  }

  /** Bitwise or of two numbers of `n` bits. */
  function OrBits(x: nat, y: nat, n: nat): (r: nat)
    requires x < Pow2(n) && y < Pow2(n)
    ensures r < Pow2(n)
  {
    if x == 0 then y
    else if y == 0 then x
    else (if x % 2 == 1 || y % 2 == 1 then 1 else 0) + 2 * OrBits(x / 2, y / 2, n - 1)
  }

  lemma ByteHas8Bits()
    ensures Pow2(8) == 256
  {
    assert Pow2(4) == 2 * Pow2(3) == 4 * Pow2(2) && Pow2(8) == 2 * Pow2(7) == 4 * Pow2(6);
    assert Pow2(6) == 2 * Pow2(5) == 4 * Pow2(4);
  }

  function Or(a: Word, b: Word): (r: Word)
    requires |a| == |b|
    ensures |r| == |a|
    ensures forall i :: 0 <= i < |a| ==> (a[i] == 0 ==> r[i] == b[i]) && (b[i] == 0 ==> r[i] == a[i])
  {
    ByteHas8Bits();
    seq(|a|, i requires 0 <= i < |a| == |b| && Pow2(8) == 256 => OrBits(a[i], b[i], 8))
  }

  /** `elf_swab` on 16 bits. */
  function Swab(v: Word): Word
    requires |v| == 2
  {
    Or(Shr(v, 1), Shl(v, 1))
  }

  /** `elf_swap32`. */
  function Swap32(v: Word): Word
    requires |v| == 4
  {
    var vl, vh := v[..2], Shr(v, 2)[..2];
    SwabReverses(vl);
    SwabReverses(vh);
    Or(Shl(Swab(vl) + Zeros(2), 2), Swab(vh) + Zeros(2))
  }

  /** `elf_swah`. */
  function Swah(v: Word): Word
    requires |v| == 4
  {
    SwabReverses(Shr(v, 2)[..2]);
    SwabReverses(v[..2]);
    Or(Swab(Shr(v, 2)[..2]) + Zeros(2), Shl(Swab(v[..2]) + Zeros(2), 2))
  }

  /** `elf_swap64`. */
  function Swap64(v: Word): Word
    requires |v| == 8
  {
    var vl, vh := v[..4], Shr(v, 4)[..4];
    SwahReverses(vl);
    SwahReverses(vh);
    Or(Shl(Swah(vl) + Zeros(4), 4), Swah(vh) + Zeros(4))
  }

  predicate WidthOk(n: nat) { n == 1 || n == 2 || n == 4 || n == 8 }

  /** The swap routine for a field; single bytes are left alone. */
  function Swap(v: Word): Word
    requires WidthOk(|v|)
  {
    if |v| == 1 then v else if |v| == 2 then Swab(v) else if |v| == 4 then Swap32(v) else Swap64(v)
  }

  lemma SwabReverses(v: Word)
    requires |v| == 2
    ensures Swab(v) == Reverse(v)
  {
  }

  lemma Swap32Reverses(v: Word)
    requires |v| == 4
    ensures Swap32(v) == Reverse(v)
  {
    SwabReverses(v[..2]);
    SwabReverses(Shr(v, 2)[..2]);
  }

  lemma SwahReverses(v: Word)
    requires |v| == 4
    ensures Swah(v) == Reverse(v)
  {
    SwabReverses(v[..2]);
    SwabReverses(Shr(v, 2)[..2]);
  }

  lemma Swap64Reverses(v: Word)
    requires |v| == 8
    ensures Swap64(v) == Reverse(v)
  {
    SwahReverses(v[..4]);
    SwahReverses(Shr(v, 4)[..4]);
  }

  /** All swap routines reverse the bytes of their word. */
  lemma SwapReverses(v: Word)
    requires WidthOk(|v|)
    ensures Swap(v) == Reverse(v)
  {
    if |v| == 2 {
      SwabReverses(v);
    } else if |v| == 4 {
      Swap32Reverses(v);
    } else if |v| == 8 {
      Swap64Reverses(v);
    }
  }

  // ---- words in memory and in a file

  /** The word that bytes hold in a byte order, and the other way round. */
  function InOrder(b: seq<Byte>, lsb: bool): (w: Word)
    ensures |w| == |b|
  {
    if lsb then b else Reverse(b)
  }

  lemma InOrderTwice(b: seq<Byte>, lsb: bool)
    ensures InOrder(InOrder(b, lsb), lsb) == b
  {
  }

  // ---- records

  predicate WidthsOk(ws: seq<nat>)
  {
    forall i :: 0 <= i < |ws| ==> WidthOk(ws[i])
  }

  function Size(ws: seq<nat>): nat
  {
    if ws == [] then 0 else ws[0] + Size(ws[1..])
  }

  /** The words have the widths of the fields. */
  predicate Fits(r: seq<Word>, ws: seq<nat>)
  {
    |r| == |ws| && forall i :: 0 <= i < |r| ==> |r[i]| == ws[i]
  }

  /** The fields that bytes hold, and the bytes of a record. */
  function Unpack(b: seq<Byte>, ws: seq<nat>, lsb: bool): (r: seq<Word>)
    requires |b| == Size(ws)
    ensures Fits(r, ws)
  {
    if ws == [] then [] else [InOrder(b[..ws[0]], lsb)] + Unpack(b[ws[0]..], ws[1..], lsb)
  }

  function Pack(r: seq<Word>, ws: seq<nat>, lsb: bool): (b: seq<Byte>)
    requires Fits(r, ws)
    ensures |b| == Size(ws)
  {
    if ws == [] then [] else InOrder(r[0], lsb) + Pack(r[1..], ws[1..], lsb)
  }

  lemma {:induction false} UnpackPack(r: seq<Word>, ws: seq<nat>, lsb: bool)
    requires Fits(r, ws)
    ensures Unpack(Pack(r, ws, lsb), ws, lsb) == r
  {
    if ws != [] {
      var b := Pack(r, ws, lsb);
      assert b[..ws[0]] == InOrder(r[0], lsb) && b[ws[0]..] == Pack(r[1..], ws[1..], lsb);
      InOrderTwice(r[0], lsb);
      UnpackPack(r[1..], ws[1..], lsb);
    }
  }

  lemma {:induction false} PackUnpack(b: seq<Byte>, ws: seq<nat>, lsb: bool)
    requires |b| == Size(ws)
    ensures Pack(Unpack(b, ws, lsb), ws, lsb) == b
  {
    if ws != [] {
      InOrderTwice(b[..ws[0]], lsb);
      PackUnpack(b[ws[0]..], ws[1..], lsb);
      assert Unpack(b, ws, lsb)[1..] == Unpack(b[ws[0]..], ws[1..], lsb);
    }
  }

  function AllReversed(r: seq<Word>): (s: seq<Word>)
    ensures |s| == |r| && forall i :: 0 <= i < |r| ==> s[i] == Reverse(r[i])
  {
    if r == [] then [] else [Reverse(r[0])] + AllReversed(r[1..])
  }

  /** Swap all fields of a record in place. */
  method SwapFields(r: array<Word>, ws: seq<nat>)
    requires WidthsOk(ws) && Fits(r[..], ws)
    modifies r
    ensures r[..] == AllReversed(old(r[..]))
  {
    ghost var was := r[..];
    for i := 0 to r.Length
      invariant forall k :: 0 <= k < r.Length ==> r[k] == if k < i then Reverse(was[k]) else was[k]
    {
      assert |was[i]| == ws[i];
      SwapReverses(r[i]);
      r[i] := Swap(r[i]);
    }
  }

  /** Reading as the host does and swapping all fields is reading in the other order. */
  lemma {:induction false} UnpackReversed(b: seq<Byte>, ws: seq<nat>, host: bool)
    requires |b| == Size(ws)
    ensures AllReversed(Unpack(b, ws, host)) == Unpack(b, ws, !host)
  {
    if ws != [] {
      UnpackReversed(b[ws[0]..], ws[1..], host);
      assert Unpack(b, ws, host)[1..] == Unpack(b[ws[0]..], ws[1..], host);
      assert Reverse(InOrder(b[..ws[0]], host)) == InOrder(b[..ws[0]], !host);
    }
  }

  lemma PackReversed(r: seq<Word>, ws: seq<nat>, host: bool)
    requires Fits(r, ws)
    ensures Fits(AllReversed(r), ws) && Pack(AllReversed(r), ws, host) == Pack(r, ws, !host)
  {
    var b := Pack(r, ws, !host);
    UnpackPack(r, ws, !host);
    UnpackReversed(b, ws, !host);
    PackUnpack(b, ws, host);
  }

  /** A record as it lies in the memory of the host is read, and put in file order if need be. */
  method GetRecord(b: seq<Byte>, ws: seq<nat>, host: bool, needswap: bool) returns (r: seq<Word>)
    requires WidthsOk(ws) && |b| == Size(ws)
    ensures r == Unpack(b, ws, host != needswap)
  {
    r := Unpack(b, ws, host);
    if needswap {
      var a := new Word[|r|](i requires 0 <= i < |r| => r[i]);
      assert a[..] == r;
      SwapFields(a, ws);
      UnpackReversed(b, ws, host);
      r := a[..];
    }
  }

  /** A copy of the record is swapped if need be and written as it lies in memory. */
  method PutRecord(r: seq<Word>, ws: seq<nat>, host: bool, needswap: bool) returns (b: seq<Byte>)
    requires WidthsOk(ws) && Fits(r, ws)
    ensures b == Pack(r, ws, host != needswap)
  {
    var c := r;
    if needswap {
      var a := new Word[|r|](i requires 0 <= i < |r| => r[i]);
      assert a[..] == r;
      SwapFields(a, ws);
      PackReversed(r, ws, host);
      c := a[..];
    }
    b := Pack(c, ws, host);
  }
}

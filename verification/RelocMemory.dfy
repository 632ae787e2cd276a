/** The memory a relocation patches: the bytes of a section on a big-endian machine. */
module RelocMemory {
  import opened ElfCodec

  /** The word of `n` bytes at an offset. */
  function WordAt(m: seq<Byte>, at: nat, n: nat): nat
    requires at + n <= |m|
  {
    Val(Reverse(m[at..at + n]))
  }

  /** The memory with a number stored in `n` bytes at an offset. */
  function Patched(m: seq<Byte>, at: nat, n: nat, v: nat): (r: seq<Byte>)
    requires at + n <= |m|
    ensures |r| == |m|
  {
    m[..at] + Reverse(WordOf(v, n)) + m[at + n..]
  }

  lemma PatchedReads(m: seq<Byte>, at: nat, n: nat, v: nat)
    requires at + n <= |m| && v < Limit(n)
    ensures WordAt(Patched(m, at, n, v), at, n) == v
    ensures forall i :: 0 <= i < |m| && !(at <= i < at + n) ==> Patched(m, at, n, v)[i] == m[i]
  {
    var w := Reverse(WordOf(v, n));
    assert Patched(m, at, n, v)[at..at + n] == w;
    assert Reverse(w) == WordOf(v, n);
    ValOfWord(v, n);
  }

  /** The first byte is the highest: bytes, halves and words of a big-endian machine. */
  lemma WordsAreBigEndian(m: seq<Byte>, at: nat)
    ensures at + 1 <= |m| ==> WordAt(m, at, 1) == m[at]
    ensures at + 2 <= |m| ==>
      var a: nat, b: nat := m[at], m[at + 1];
      WordAt(m, at, 2) == 0x100 * a + b
    ensures at + 4 <= |m| ==>
      var a: nat, b: nat, c: nat, d: nat := m[at], m[at + 1], m[at + 2], m[at + 3];
      WordAt(m, at, 4) == 0x100_0000 * a + 0x1_0000 * b + 0x100 * c + d
  {
    if at + 1 <= |m| {
      LowByte(m, at, 0);
    }
    if at + 2 <= |m| {
      LowByte(m, at, 1);
    }
    if at + 4 <= |m| {
      LowByte(m, at, 3);
      LowByte(m, at, 2);
    }
  }

  /** The last of `n + 1` bytes is the lowest. */
  lemma LowByte(m: seq<Byte>, at: nat, n: nat)
    requires at + n + 1 <= |m|
    ensures WordAt(m, at, n + 1) == 256 * WordAt(m, at, n) + m[at + n]
    ensures WordAt(m, at, 0) == 0
  {
    var w := Reverse(m[at..at + n + 1]);
    assert w[1..] == Reverse(m[at..at + n]);
  }

  lemma WordBelow(m: seq<Byte>, at: nat, n: nat)
    requires at + n <= |m|
    ensures WordAt(m, at, n) < Limit(n)
  {
    WordOfVal(Reverse(m[at..at + n]));
  }

  /** The `memcpy` back to the patched location. */
  method Store(mem: array<Byte>, at: nat, n: nat, v: nat)
    requires at + n <= mem.Length
    modifies mem
    ensures mem[..] == Patched(old(mem[..]), at, n, v)
  {
    var w := Reverse(WordOf(v, n));
    ghost var was := mem[..];
    for i := 0 to n
      invariant forall k :: 0 <= k < mem.Length ==> mem[k] == if at <= k < at + i then w[k - at] else was[k]
    {
      mem[at + i] := w[i];
    }
  }

  /** A number as a signed field of `2 * half` values. */
  function SignedField(f: int, half: nat): int
  {
    if f < half then f else f - 2 * half
  }
}

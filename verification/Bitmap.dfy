/** The dependency bitmaps of a module record: 256 bits in eight words, of which only the low
    32 bit positions are ever addressed.

    A word of `width` bits (32 or 64, the size of `unsigned long`) is written as the set of the
    positions of its one bits, so `|`, `&` and `~` are union, intersection and complement.  The
    constant `1<<b` is a 32-bit int: widening it to the word copies bit 31 into 32..width-1, and
    widening its complement copies the complement of bit 31. */
module Bitmap {

  const MAX_NUM_MODULES := 256
  const BITMAP_DEPTH := 8

  type Id = i: nat | i < MAX_NUM_MODULES

  type Word = set<nat>

  predicate WidthOk(width: nat) { width == 32 || width == 64 }

  /** All positions from `lo` up to the width of a word. */
  function From(lo: nat, width: nat): Word
  {
    set i: nat | 0 <= i < width && Reaches(i, lo)
  }

  predicate Reaches(i: nat, lo: nat) { lo <= i }

  /** A 32-bit int widened to an `unsigned long`. */
  function Widen(v: Word, width: nat): Word
  {
    if 31 in v then v + From(32, width) else v
  }

  /** `1 << b` as it meets the word. */
  function Mask(b: nat, width: nat): Word
    requires b < 32
  {
    Widen({b}, width)
  }

  /** `~(1 << b)` as it meets the word. */
  function NotMask(b: nat, width: nat): Word
    requires b < 32
  {
    Widen(From(0, 32) - {b}, width)
  }

  /** BITMAP_TST. */
  predicate Tst(bm: seq<Word>, id: Id, width: nat)
    requires |bm| == BITMAP_DEPTH
  {
    bm[id / 32] * Mask(id % 32, width) != {}
  }

  predicate WordsOk(bm: seq<Word>, width: nat)
  {
    |bm| == BITMAP_DEPTH && WidthOk(width)
    && forall i, b :: 0 <= i < BITMAP_DEPTH && b in bm[i] ==> b < width
  }

  /** The set of ids a bitmap stands for. */
  ghost function Members(bm: seq<Word>, width: nat): set<Id>
    requires |bm| == BITMAP_DEPTH
  {
    set id: Id | 0 <= id < MAX_NUM_MODULES && Tst(bm, id, width)
  }

  /** Bit 31 owns positions 31..width-1 and every other bit owns its own position only. */
  lemma MaskOwns(b: nat, i: nat, width: nat)
    requires b < 32 && WidthOk(width) && i < width
    ensures i in Mask(b, width) <==> b == if i < 31 then i else 31
    ensures i in NotMask(b, width) <==> b != if i < 31 then i else 31
  {
  }

  lemma SetBit(w: Word, a: nat, b: nat, width: nat)
    requires a < 32 && b < 32 && WidthOk(width) && forall i :: i in w ==> i < width
    ensures (w + Mask(a, width)) * Mask(b, width) != {} <==> a == b || w * Mask(b, width) != {}
  {
    assert b in Mask(b, width);
    if a == b {
      assert b in (w + Mask(a, width)) * Mask(b, width);
    } else {
      assert Mask(a, width) * Mask(b, width) == {};
      assert (w + Mask(a, width)) * Mask(b, width) == w * Mask(b, width);
    }
  }

  lemma ClrBit(w: Word, a: nat, b: nat, width: nat)
    requires a < 32 && b < 32 && WidthOk(width) && forall i :: i in w ==> i < width
    ensures (w * NotMask(a, width)) * Mask(b, width) != {} <==> a != b && w * Mask(b, width) != {}
  {
    forall i | i in w ensures i in NotMask(a, width) * Mask(b, width) <==> a != b && i in Mask(b, width) {
      MaskOwns(a, i, width);
      MaskOwns(b, i, width);
    }
    if a == b {
      assert (w * NotMask(a, width)) * Mask(b, width) == {};
    } else {
      assert (w * NotMask(a, width)) * Mask(b, width) == w * Mask(b, width);
    }
  }

  /** The test `neededby[i]` over all words of the unload routine asks for the empty set: no word
      can be non-zero behind the back of the 32 addressable bits. */
  lemma EmptyIffZero(bm: seq<Word>, width: nat)
    requires WordsOk(bm, width)
    ensures Members(bm, width) == {} <==> forall i :: 0 <= i < BITMAP_DEPTH ==> bm[i] == {}
  {
    if i, p :| 0 <= i < BITMAP_DEPTH && p in bm[i] {
      var b := if p < 31 then p else 31;
      MaskOwns(b, p, width);
      var id: Id := 32 * i + b;
      assert id / 32 == i && id % 32 == b;
      assert p in bm[i] * Mask(b, width);
      assert id in Members(bm, width);
    } else {
      assert forall i :: 0 <= i < BITMAP_DEPTH ==> bm[i] == {};
    }
  }

  /** BITMAP_SET is set insertion. */
  function SetIn(bm: seq<Word>, id: Id, width: nat): (r: seq<Word>)
    requires WordsOk(bm, width)
    ensures WordsOk(r, width) && Members(r, width) == Members(bm, width) + {id}
  {
    var r := bm[id / 32 := bm[id / 32] + Mask(id % 32, width)];
    assert forall k: Id :: Tst(r, k, width) <==> k == id || Tst(bm, k, width) by {
      forall k: Id ensures Tst(r, k, width) <==> k == id || Tst(bm, k, width) {
        SetBit(bm[id / 32], id % 32, k % 32, width);
      }
    }
    r
  }

  /** BITMAP_CLR is set removal. */
  function ClrIn(bm: seq<Word>, id: Id, width: nat): (r: seq<Word>)
    requires WordsOk(bm, width)
    ensures WordsOk(r, width) && Members(r, width) == Members(bm, width) - {id}
  {
    var r := bm[id / 32 := bm[id / 32] * NotMask(id % 32, width)];
    assert forall k: Id :: Tst(r, k, width) <==> k != id && Tst(bm, k, width) by {
      forall k: Id ensures Tst(r, k, width) <==> k != id && Tst(bm, k, width) {
        ClrBit(bm[id / 32], id % 32, k % 32, width);
      }
    }
    r
  }

  /** A bitmap cleared by `memset`. */
  const ZERO: seq<Word> := [{}, {}, {}, {}, {}, {}, {}, {}]

  lemma ZeroIsEmpty(width: nat)
    requires WidthOk(width)
    ensures WordsOk(ZERO, width) && Members(ZERO, width) == {}
  {
    EmptyIffZero(ZERO, width);
  }

  /** The loop of the unload routine over all words. */
  method AnyBit(bm: seq<Word>, ghost width: nat) returns (any: bool)
    requires WordsOk(bm, width)
    ensures any <==> Members(bm, width) != {}
  {
    EmptyIffZero(bm, width);
    for i := 0 to BITMAP_DEPTH
      invariant forall k :: 0 <= k < i ==> bm[k] == {}
    {
      if bm[i] != {} {
        return true;
      }
    }
    return false;
  }
}

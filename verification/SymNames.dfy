/** Symbol names and the comparison that orders every symbol table.  A name is a C string without
    its terminator; its characters are non-zero, and may be negative where `char` is signed. */
module SymNames {

  const AT: int := 64   // LINKER_VERSION_SEPARATOR

  type Name = seq<int>

  predicate CString(n: Name) { forall i :: 0 <= i < |n| ==> n[i] != 0 }

  /** Names on which the comparison is an order: no version separator, no negative character. */
  predicate Plain(n: Name) { forall i :: 0 <= i < |n| ==> n[i] > 0 && n[i] != AT }

  function NameComp(k: Name, c: Name): int
  {
    if k == [] then
      if c == [] || c[0] == AT then 0 else -1
    else if c == [] then k[0]
    else if k[0] != c[0] then k[0] - c[0]
    else NameComp(k[1..], c[1..])
  }

  /** `_cexp_namecomp`: two pointers walk the two strings. */
  method NameCompare(key: Name, cmp: Name) returns (r: int)
    requires CString(key) && CString(cmp)
    ensures r == NameComp(key, cmp)
  {
    var i := 0;
    while i < |key|
      invariant i <= |key| && i <= |cmp|
      invariant NameComp(key, cmp) == NameComp(key[i..], cmp[i..])
    {
      r := key[i] - (if i < |cmp| then cmp[i] else 0);
      assert key[i..][0] == key[i] && key[i..][1..] == key[i + 1..];
      if i < |cmp| {
        assert cmp[i..][0] == cmp[i] && cmp[i..][1..] == cmp[i + 1..];
      }
      if r != 0 {
        return;
      }
      i := i + 1;
    }
    r := if i == |cmp| || cmp[i] == AT then 0 else -1;
  }

  /** `b` continues `a` with a version separator or with a negative character. */
  predicate BadExtension(a: Name, b: Name)
  {
    |a| < |b| && a == b[..|a|] && (b[|a|] < 0 || b[|a|] == AT)
  }

  /** Swapping the operands reverses the answer, and only equal names compare equal, on exactly
      the pairs of which neither badly extends the other. */
  lemma {:induction false} Antisymmetric(a: Name, b: Name)
    requires CString(a) && CString(b)
    ensures (!BadExtension(a, b) && !BadExtension(b, a))
       <==> (&& (NameComp(a, b) < 0 <==> NameComp(b, a) > 0)
             && (NameComp(a, b) > 0 <==> NameComp(b, a) < 0)
             && (NameComp(a, b) == 0 <==> a == b)
             && (NameComp(b, a) == 0 <==> a == b))
  {
    if a != [] && b != [] && a[0] == b[0] {
      Antisymmetric(a[1..], b[1..]);
      BadTail(a, b);
      BadTail(b, a);
      assert a == b <==> a[1..] == b[1..] by {
        assert a == [a[0]] + a[1..] && b == [b[0]] + b[1..];
      }
    }
  }

  lemma BadTail(a: Name, b: Name)
    requires a != [] && b != [] && a[0] == b[0]
    ensures BadExtension(a, b) <==> BadExtension(a[1..], b[1..])
  {
    if |a| < |b| {
      assert b[1..][..|a| - 1] == b[..|a|][1..];
      assert a == [a[0]] + a[1..];
      assert b[..|a|] == [b[0]] + b[..|a|][1..];
    }
  }

  lemma VersionedNamesBreakTheOrder()
    ensures NameComp([102], [102, AT, 49]) == 0 && NameComp([102, AT, 49], [102]) > 0
    ensures NameComp([97], [97, -1]) < 0 && NameComp([97, -1], [97]) < 0
  {
    assert [102, AT, 49][1..] == [AT, 49] && [102][1..] == [] && [97, -1][1..] == [-1] && [97][1..] == [];
    assert NameComp([], [AT, 49]) == 0 && NameComp([AT, 49], []) == AT;
    assert NameComp([], [-1]) == -1 && NameComp([-1], []) == -1;
  }

  lemma PlainAntisymmetric(a: Name, b: Name)
    requires Plain(a) && Plain(b)
    ensures NameComp(a, b) < 0 <==> NameComp(b, a) > 0
    ensures NameComp(a, b) > 0 <==> NameComp(b, a) < 0
    ensures NameComp(a, b) == 0 <==> a == b
  {
    Antisymmetric(a, b);
  }

  lemma {:induction false} PlainTransitive(a: Name, b: Name, c: Name)
    requires Plain(a) && Plain(b) && Plain(c)
    requires NameComp(a, b) <= 0 && NameComp(b, c) <= 0
    ensures NameComp(a, c) <= 0
    ensures NameComp(a, b) < 0 || NameComp(b, c) < 0 ==> NameComp(a, c) < 0
  {
    if a != [] && b != [] && c != [] && a[0] == b[0] == c[0] {
      PlainTransitive(a[1..], b[1..], c[1..]);
    } else {
      assert a == [] && b == [] ==> c == [] || c[0] != AT;
    }
  }

  /** The names have their first difference at `i`: one ends there, or the character is smaller. */
  predicate FirstBelow(a: seq<int>, b: seq<int>, i: nat)
  {
    i <= |a| && i < |b| && a[..i] == b[..i] && (i < |a| ==> a[i] < b[i])
  }

  lemma FirstIsLater(a: seq<int>, b: seq<int>, i: nat)
    requires FirstBelow(a, b, i) && a != [] && a[0] == b[0]
    ensures i > 0 && FirstBelow(a[1..], b[1..], i - 1)
  {
    assert a[1..][..i - 1] == a[..i][1..] && b[1..][..i - 1] == b[..i][1..];
  }

  lemma FirstIsEarlier(a: seq<int>, b: seq<int>, i: nat)
    requires a != [] && b != [] && a[0] == b[0] && FirstBelow(a[1..], b[1..], i)
    ensures FirstBelow(a, b, i + 1)
  {
    assert a[..i + 1] == [a[0]] + a[1..][..i] && b[..i + 1] == [b[0]] + b[1..][..i];
  }

  lemma FirstOrSame(a: seq<int>, b: seq<int>, i: nat)
    requires FirstBelow(a, b, i) && a != []
    ensures a[0] <= b[0]
  {
    if i > 0 {
      assert a[0] == a[..i][0] == b[..i][0] == b[0];
    }
  }

  /** On plain names the comparison is that of dictionaries. */
  lemma {:induction false} PlainLexicographic(a: Name, b: Name)
    requires Plain(a) && Plain(b)
    ensures NameComp(a, b) < 0 <==> exists i: nat :: FirstBelow(a, b, i)
  {
    if a == [] || b == [] || a[0] < b[0] {
      assert NameComp(a, b) < 0 ==> FirstBelow(a, b, 0);
    } else if a[0] == b[0] {
      PlainLexicographic(a[1..], b[1..]);
      if i: nat :| FirstBelow(a[1..], b[1..], i) {
        FirstIsEarlier(a, b, i);
      }
      if i: nat :| FirstBelow(a, b, i) {
        FirstIsLater(a, b, i);
      }
    } else if i: nat :| FirstBelow(a, b, i) {
      FirstOrSame(a, b, i);
    }
  }
}

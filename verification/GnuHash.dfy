/** The number of dynamic symbols, dug out of a GNU hash table: the chain of the last bucket in use
    ends at the last symbol. */
module GnuHash {

  function Sum(lens: seq<nat>): nat
  {
    if lens == [] then 0 else Sum(lens[..|lens| - 1]) + lens[|lens| - 1]
  }

  lemma SumSnoc(lens: seq<nat>, b: nat)
    requires b < |lens|
    ensures Sum(lens[..b + 1]) == Sum(lens[..b]) + lens[b]
  {
    assert lens[..b + 1][..b] == lens[..b];
  }

  lemma {:induction false} SumGrows(lens: seq<nat>, a: nat, b: nat)
    requires a <= b <= |lens|
    ensures Sum(lens[..a]) <= Sum(lens[..b])
    decreases b
  {
    if a < b {
      SumGrows(lens, a, b - 1);
      SumSnoc(lens, b - 1);
    }
  }

  lemma {:induction false} SumOfZeros(lens: seq<nat>, a: nat, b: nat)
    requires a <= b <= |lens| && forall k :: a <= k < b ==> lens[k] == 0
    ensures Sum(lens[..b]) == Sum(lens[..a])
    decreases b
  {
    if a < b {
      SumOfZeros(lens, a, b - 1);
      SumSnoc(lens, b - 1);
    }
  }

  /** The first symbol index of a chain, or 0 for an empty bucket. */
  ghost predicate BucketOk(buckets: seq<nat>, symndx: nat, lens: seq<nat>, b: nat)
    requires b < |buckets| == |lens|
  {
    buckets[b] == if lens[b] == 0 then 0 else symndx + Sum(lens[..b])
  }

  /** The lowest bit marks the end of a chain. */
  ghost predicate ChainOk(chain: seq<nat>, lens: seq<nat>, b: nat)
    requires b < |lens|
  {
    var lo, hi := Sum(lens[..b]), Sum(lens[..b + 1]);
    hi <= |chain| && (lo < hi ==> chain[hi - 1] % 2 == 1) && forall k :: lo <= k < hi - 1 ==> chain[k] % 2 == 0
  }

  /** A well-formed table: the hashed symbols are those from `symndx` on (index 0 is reserved),
      sorted by bucket, `lens[b]` of them in bucket `b`; one chain word for each. */
  ghost predicate WellFormed(buckets: seq<nat>, chain: seq<nat>, symndx: nat, lens: seq<nat>)
  {
    && symndx >= 1 && |buckets| == |lens| && Sum(lens) <= |chain|
    && (forall b :: 0 <= b < |lens| ==> BucketOk(buckets, symndx, lens, b))
    && (forall b :: 0 <= b < |lens| ==> ChainOk(chain, lens, b))
  }

  /** The counting part of the callback: `table` holds the 32-bit words behind the header, first
      the filter of `filter` words, then the buckets, then the chains. */
  method CountSymbols(table: seq<nat>, nbuckets: nat, filter: nat, symndx: nat, ghost lens: seq<nat>)
    returns (ndsyms: nat)
    requires filter + nbuckets <= |table|
    requires WellFormed(table[filter..filter + nbuckets], table[filter + nbuckets..], symndx, lens)
    ensures ndsyms == symndx + Sum(lens)
  {
    var buckets, chain := table[filter..filter + nbuckets], table[filter + nbuckets..];
    var i: int := nbuckets - 1;
    ndsyms := 0;
    while i >= 0
      invariant -1 <= i < nbuckets && ndsyms == 0
      invariant forall b :: i < b < nbuckets ==> lens[b] == 0
    {
      assert BucketOk(buckets, symndx, lens, i);
      ndsyms := buckets[i];
      if ndsyms != 0 {
        break;
      }
      i := i - 1;
    }
    assert lens[..nbuckets] == lens;
    if i < 0 {
      SumOfZeros(lens, 0, nbuckets);
    } else {
      LastChain(lens, i);
    }
    ghost var last := i;
    if ndsyms >= symndx {
      i := ndsyms - symndx;
      assert ChainOk(chain, lens, last);
      while chain[i] % 2 == 0
        invariant Sum(lens[..last]) <= i < Sum(lens)
        invariant forall k :: Sum(lens[..last]) <= k < i ==> chain[k] % 2 == 0
        decreases Sum(lens) - i
      {
        i := i + 1;
      }
      i := i + 1;
    } else {
      i := 0;
    }
    ndsyms := i + symndx;
  }

  /** The last chain in use ends where all chains end. */
  lemma LastChain(lens: seq<nat>, last: nat)
    requires last < |lens| && forall b :: last < b < |lens| ==> lens[b] == 0
    ensures Sum(lens) == Sum(lens[..last + 1]) == Sum(lens[..last]) + lens[last]
  {
    SumSnoc(lens, last);
    SumOfZeros(lens, last + 1, |lens|);
    assert lens[..|lens|] == lens;
  }

  /** With a well-formed table every bucket in use names a symbol that is counted. */
  lemma BucketsAreCounted(buckets: seq<nat>, chain: seq<nat>, symndx: nat, lens: seq<nat>, b: nat)
    requires WellFormed(buckets, chain, symndx, lens) && b < |lens| && lens[b] > 0
    ensures symndx <= buckets[b] && buckets[b] + lens[b] <= symndx + Sum(lens)
  {
    assert BucketOk(buckets, symndx, lens, b);
    SumSnoc(lens, b);
    SumGrows(lens, b + 1, |lens|);
    assert lens[..|lens|] == lens;
  }
}

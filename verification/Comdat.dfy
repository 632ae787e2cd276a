/** COMDAT groups: a group header and its members are linked into a ring, and the whole group is
    discarded when its signature is known already. */
module Comdat {

  /** What a section header of the file says.  A group section lists its members; its signature may be
      unreadable. */
  datatype Kind = Skipped | Unsupported | Plain | Group(comdat: bool, members: seq<nat>, signed: bool)

  /** `named` headers have a name that starts with `.gnu.linkonce`. */
  datatype Header = Header(kind: Kind, alloc: bool, named: bool) {
    predicate IsComdat() {
      kind.Group? && kind.comdat
    }
  }

  /** A section record.  `bogus` marks ELF sections that are no sections to the loader. */
  datatype Sec = Sec(bogus: bool, alloc: bool, linkOnce: bool, isGroup: bool, next: nat)

  const SHN_UNDEF := 0
  const SHN_LORESERVE := 0xff00

  /** The mark for bogus sections is all flags at once. */
  function Marked(s: Sec): (r: Sec) {
    Sec(true, true, true, true, s.next)
  }

  /** The header and the members of a group, in the order of the ring. */
  function Chain(idx: nat, members: seq<nat>): (c: seq<nat>)
    ensures |c| == |members| + 1
  {
    [idx] + members
  }

  predicate InBounds(secs: seq<Sec>, m: nat)
  {
    0 < m < |secs|
  }

  /** The members are different sections other than the header. */
  predicate Distinct(idx: nat, members: seq<nat>)
  {
    forall i, j :: 0 <= i < j <= |members| ==> Chain(idx, members)[i] != Chain(idx, members)[j]
  }

  /** Section `k` of the chain points to the next one, the last to the header. */
  predicate LinkOk(secs: seq<Sec>, idx: nat, members: seq<nat>, k: nat)
    requires k <= |members|
  {
    var c := Chain(idx, members);
    c[k] < |secs| && secs[c[k]].next == if k < |members| then c[k + 1] else idx
  }

  ghost predicate RingUpTo(secs: seq<Sec>, idx: nat, members: seq<nat>, n: nat)
    requires n <= |members| + 1
  {
    forall k :: 0 <= k < n ==> LinkOk(secs, idx, members, k)
  }

  ghost predicate Ring(secs: seq<Sec>, idx: nat, members: seq<nat>)
  {
    RingUpTo(secs, idx, members, |members| + 1)
  }

  /** Members the group section may name: in bounds, and not (yet) marked as bogus. */
  predicate MembersOk(secs: seq<Sec>, members: seq<nat>)
  {
    forall i :: 0 <= i < |members| ==> InBounds(secs, members[i]) && !secs[members[i]].bogus
  }

  /** Only links of the chain changed. */
  ghost predicate OnlyLinks(was: seq<Sec>, now: seq<Sec>, idx: nat, members: seq<nat>)
  {
    |now| == |was| && forall k :: 0 <= k < |was| ==>
      now[k] == was[k].(next := now[k].next) && (k !in Chain(idx, members) ==> now[k] == was[k])
  }

  /** The loop over the members of a group section in `elf2bfdsec`. */
  method BuildRing(secs: array<Sec>, idx: nat, members: seq<nat>) returns (ok: bool)
    requires idx < secs.Length < SHN_LORESERVE
    modifies secs
    ensures ok <==> MembersOk(old(secs[..]), members)
    ensures OnlyLinks(old(secs[..]), secs[..], idx, members)
    ensures ok && Distinct(idx, members) ==> Ring(secs[..], idx, members)
  {
    var s := idx;
    ghost var was, c := secs[..], Chain(idx, members);
    for i := 0 to |members|
      invariant s == c[i] && s < secs.Length && MembersOk(was, members[..i])
      invariant OnlyLinks(was, secs[..], idx, members)
      invariant Distinct(idx, members) ==> RingUpTo(secs[..], idx, members, i)
    {
      var m := members[i];
      ghost var was0 := secs[..];
      assert m == members[..i + 1][i] && c[i] in c;
      if m == 0 || m >= secs.Length {
        secs[s] := secs[s].(next := SHN_UNDEF);
        return false;
      }
      if Distinct(idx, members) {
        LinkSet(was0, idx, members, i, m);
      }
      secs[s] := secs[s].(next := m);
      assert secs[..] == LinkTo(was0, s, m);
      if secs[m].bogus {
        return false;
      }
      MoreMembers(was, members, i);
      assert c[i + 1] == m;
      s := m;
    }
    assert members[..|members|] == members && c[|members|] in c;
    ghost var was0 := secs[..];
    if Distinct(idx, members) {
      LinkSet(was0, idx, members, |members|, idx);
    }
    secs[s] := secs[s].(next := idx);
    assert secs[..] == LinkTo(was0, s, idx);
    return true;
  }

  lemma MoreMembers(was: seq<Sec>, members: seq<nat>, i: nat)
    requires i < |members| && MembersOk(was, members[..i]) && InBounds(was, members[i]) && !was[members[i]].bogus
    ensures MembersOk(was, members[..i + 1])
  {
    forall k | 0 <= k < i + 1 ensures InBounds(was, members[k]) && !was[members[k]].bogus {
      assert k < i ==> members[k] == members[..i][k];
    }
  }

  function LinkTo(secs: seq<Sec>, s: nat, target: nat): (r: seq<Sec>)
    requires s < |secs|
    ensures |r| == |secs|
  {
    secs[s := secs[s].(next := target)]
  }

  /** Setting one link of the chain leaves the earlier ones alone. */
  lemma LinkSet(secs: seq<Sec>, idx: nat, members: seq<nat>, i: nat, target: nat)
    requires i <= |members| && Distinct(idx, members) && Chain(idx, members)[i] < |secs|
    requires RingUpTo(secs, idx, members, i)
    requires target == if i < |members| then Chain(idx, members)[i + 1] else idx
    ensures RingUpTo(LinkTo(secs, Chain(idx, members)[i], target), idx, members, i + 1)
  {
    var c := Chain(idx, members);
    var t := LinkTo(secs, c[i], target);
    forall k | 0 <= k < i ensures LinkOk(t, idx, members, k) {
      assert LinkOk(secs, idx, members, k) && c[k] != c[i];
    }
  }

  /** A ring depends on the links of its sections only. */
  lemma RingKept(was: seq<Sec>, now: seq<Sec>, idx: nat, members: seq<nat>)
    requires Ring(was, idx, members) && |now| == |was|
    requires forall k :: 0 <= k < |was| && k in Chain(idx, members) ==> now[k].next == was[k].next
    ensures Ring(now, idx, members)
  {
    forall k | 0 <= k <= |members| ensures LinkOk(now, idx, members, k) {
      assert LinkOk(was, idx, members, k) && Chain(idx, members)[k] in Chain(idx, members);
    }
  }

  // ---- converting all section headers

  /** What one header needs for itself, given the records at that point. */
  predicate Acceptable(secs: seq<Sec>, h: Header)
  {
    && !h.kind.Unsupported?
    && (h.kind.Group? ==> h.kind.signed)
    && (h.IsComdat() ==> MembersOk(secs, h.kind.members))
  }

  /** A header was converted: links of its own ring and its own flags changed, nothing else. */
  ghost predicate ConvertedOne(was: seq<Sec>, now: seq<Sec>, h: Header, idx: nat)
    requires idx < |was|
  {
    && |now| == |was|
    && (forall k :: 0 <= k < |was| && k != idx ==> now[k] == was[k].(next := now[k].next))
    && (forall k :: 0 <= k < |was| && !(h.IsComdat() && k in Chain(idx, h.kind.members)) ==>
          now[k].next == was[k].next)
    && (h.IsComdat() && Distinct(idx, h.kind.members) ==> Ring(now, idx, h.kind.members))
    && now[idx] ==
         if h.kind.Skipped? then Marked(now[idx])
         else Sec(false, h.alloc, h.IsComdat() || (now[idx].next == 0 && h.named), h.kind.Group?, now[idx].next)
  }

  /** `elf2bfdsec` for one section: the record is bogus while the header is looked at. */
  method ConvertSection(secs: array<Sec>, h: Header, idx: nat) returns (ok: bool)
    requires idx < secs.Length < SHN_LORESERVE
    modifies secs
    ensures ok <==> Acceptable(old(secs[..])[idx := Marked(old(secs[idx]))], h)
    ensures ok ==> ConvertedOne(old(secs[..]), secs[..], h, idx)
  {
    secs[idx] := Marked(secs[idx]);
    ghost var mid := secs[..];
    var linkOnce := false;
    match h.kind {
      case Skipped => return true;
      case Unsupported => return false;
      case Plain =>
      case Group(comdat, members, signed) =>
        if comdat {
          var built := BuildRing(secs, idx, members);
          if !built {
            return false;
          }
          linkOnce := true;
        }
        if !signed {
          return false;
        }
    }
    ghost var linked := secs[..];
    if secs[idx].next == 0 && h.named {
      linkOnce := true;
    }
    secs[idx] := Sec(false, h.alloc, linkOnce, h.kind.Group?, secs[idx].next);
    if h.IsComdat() && Distinct(idx, h.kind.members) {
      RingKept(linked, secs[..], idx, h.kind.members);
    }
    return true;
  }

  /** Members that the group section `idx` may name: other sections, and none that was skipped earlier. */
  predicate Fits(hdrs: seq<Header>, idx: nat, m: nat)
  {
    0 < m < |hdrs| && m != idx && (m < idx ==> !hdrs[m].kind.Skipped?)
  }

  predicate Loadable(hdrs: seq<Header>, idx: nat)
    requires idx < |hdrs|
  {
    && !hdrs[idx].kind.Unsupported?
    && (hdrs[idx].kind.Group? ==> hdrs[idx].kind.signed)
    && (hdrs[idx].IsComdat() ==> forall m :: m in hdrs[idx].kind.members ==> Fits(hdrs, idx, m))
  }

  /** Exactly the skipped ones among the first `i` sections are bogus; the others have their own flags. */
  ghost predicate MarksDone(secs: seq<Sec>, hdrs: seq<Header>, i: nat)
  {
    && |secs| == |hdrs|
    && (forall k :: 0 <= k < |secs| ==> (secs[k].bogus <==> k < i && hdrs[k].kind.Skipped?))
    && (forall k :: 0 <= k < |secs| && k < i && !secs[k].bogus ==>
          secs[k].alloc == hdrs[k].alloc && secs[k].isGroup == hdrs[k].kind.Group?)
  }

  /** A member that comes later is not marked yet; the header itself is. */
  lemma AcceptableIffLoadable(secs: seq<Sec>, hdrs: seq<Header>, i: nat)
    requires i < |hdrs| && MarksDone(secs, hdrs, i)
    ensures Acceptable(secs[i := Marked(secs[i])], hdrs[i]) <==> Loadable(hdrs, i)
  {
    var mid := secs[i := Marked(secs[i])];
    forall m: nat ensures InBounds(mid, m) && !mid[m].bogus <==> Fits(hdrs, i, m) {
    }
    if hdrs[i].IsComdat() {
      var ms := hdrs[i].kind.members;
      assert forall k :: 0 <= k < |ms| ==> ms[k] in ms;
    }
  }

  ghost predicate ComdatAt(hdrs: seq<Header>, j: nat)
  {
    j < |hdrs| && hdrs[j].IsComdat()
  }

  function ChainOf(hdrs: seq<Header>, j: nat): (c: seq<nat>)
    requires ComdatAt(hdrs, j)
  {
    Chain(j, hdrs[j].kind.members)
  }

  /** The COMDAT groups of a sound file: duplicate-free, disjoint, and each header precedes its members. */
  ghost predicate GroupsOk(hdrs: seq<Header>)
  {
    && (forall j: nat :: ComdatAt(hdrs, j) ==> 0 < j && Distinct(j, hdrs[j].kind.members))
    && (forall j: nat, m :: ComdatAt(hdrs, j) && m in hdrs[j].kind.members ==> j < m < |hdrs|)
    && (forall i: nat, j: nat, m ::
          ComdatAt(hdrs, i) && ComdatAt(hdrs, j) && m in ChainOf(hdrs, i) && m in ChainOf(hdrs, j) ==> i == j)
  }

  ghost predicate IsMember(hdrs: seq<Header>, k: nat)
  {
    exists j: nat :: ComdatAt(hdrs, j) && k in hdrs[j].kind.members
  }

  /** Sections that are discarded when their name is known: COMDAT groups, and by name those in none. */
  ghost predicate LinkOnce(hdrs: seq<Header>, k: nat)
    requires k < |hdrs|
  {
    hdrs[k].IsComdat() || (hdrs[k].named && !IsMember(hdrs, k))
  }

  ghost function Final(hdrs: seq<Header>, k: nat, next: nat): (s: Sec)
    requires k < |hdrs|
  {
    if hdrs[k].kind.Skipped? then Sec(true, true, true, true, next)
    else Sec(false, hdrs[k].alloc, LinkOnce(hdrs, k), hdrs[k].kind.Group?, next)
  }

  ghost predicate Linked(hdrs: seq<Header>, k: nat, i: nat)
  {
    exists j: nat :: j < i && ComdatAt(hdrs, j) && k in ChainOf(hdrs, j)
  }

  /** The first `i` headers are converted: their flags are final, their rings closed, and only sections of
      those rings are linked. */
  ghost predicate Converted(secs: seq<Sec>, hdrs: seq<Header>, i: nat)
  {
    && |secs| == |hdrs|
    && (forall k :: 0 <= k < |secs| ==>
          secs[k] == if k < i then Final(hdrs, k, secs[k].next) else Sec(false, false, false, false, secs[k].next))
    && (forall j: nat :: j < i && ComdatAt(hdrs, j) ==> Ring(secs, j, hdrs[j].kind.members))
    && (forall k :: 0 <= k < |secs| ==> (secs[k].next != 0 <==> Linked(hdrs, k, i)))
  }

  /** The first section of each link is known by its place in the ring. */
  lemma RingLinks(secs: seq<Sec>, hdrs: seq<Header>, j: nat, k: nat)
    requires GroupsOk(hdrs) && ComdatAt(hdrs, j) && Ring(secs, j, hdrs[j].kind.members)
    requires k in ChainOf(hdrs, j)
    ensures k < |secs| && secs[k].next != 0
  {
    var ms := hdrs[j].kind.members;
    var p :| 0 <= p <= |ms| && Chain(j, ms)[p] == k;
    assert LinkOk(secs, j, ms, p);
    assert p < |ms| ==> ms[p] in ms;
  }

  lemma LinkedStep(was: seq<Sec>, now: seq<Sec>, hdrs: seq<Header>, i: nat, k: nat)
    requires GroupsOk(hdrs) && i < |hdrs| && k < |hdrs| && Converted(was, hdrs, i)
    requires ConvertedOne(was, now, hdrs[i], i)
    ensures now[k].next != 0 <==> Linked(hdrs, k, i + 1)
  {
    if ComdatAt(hdrs, i) && k in ChainOf(hdrs, i) {
      RingLinks(now, hdrs, i, k);
    } else {
      assert now[k].next == was[k].next;
    }
  }

  /** At its turn a section outside all COMDAT headers is linked exactly if it is a member: all groups that
      may name it come earlier. */
  lemma LinkedIffMember(hdrs: seq<Header>, i: nat)
    requires GroupsOk(hdrs) && i < |hdrs| && !hdrs[i].IsComdat()
    ensures Linked(hdrs, i, i + 1) <==> IsMember(hdrs, i)
  {
    if IsMember(hdrs, i) {
      var j: nat :| ComdatAt(hdrs, j) && i in hdrs[j].kind.members;
      assert i in ChainOf(hdrs, j);
    }
    if Linked(hdrs, i, i + 1) {
      var j: nat :| j < i + 1 && ComdatAt(hdrs, j) && i in ChainOf(hdrs, j);
      assert i in hdrs[j].kind.members;
    }
  }

  lemma ConvertedStep(was: seq<Sec>, now: seq<Sec>, hdrs: seq<Header>, i: nat)
    requires GroupsOk(hdrs) && i < |hdrs| && Converted(was, hdrs, i)
    requires ConvertedOne(was, now, hdrs[i], i)
    ensures Converted(now, hdrs, i + 1)
  {
    forall k | 0 <= k < |now| ensures now[k].next != 0 <==> Linked(hdrs, k, i + 1) {
      LinkedStep(was, now, hdrs, i, k);
    }
    forall j: nat | j < i + 1 && ComdatAt(hdrs, j) ensures Ring(now, j, hdrs[j].kind.members) {
      if j < i {
        assert forall k :: k in ChainOf(hdrs, j) && ComdatAt(hdrs, i) ==> k !in ChainOf(hdrs, i);
        RingKept(was, now, j, hdrs[j].kind.members);
      }
    }
    if !hdrs[i].IsComdat() {
      LinkedIffMember(hdrs, i);
    }
  }

  /** In a sound file only unknown kinds of sections and unreadable signatures are errors. */
  lemma SoundGroupsFit(hdrs: seq<Header>, k: nat)
    requires GroupsOk(hdrs) && k < |hdrs|
    ensures Loadable(hdrs, k) <==> !hdrs[k].kind.Unsupported? && (hdrs[k].kind.Group? ==> hdrs[k].kind.signed)
  {
    if hdrs[k].IsComdat() {
      assert ComdatAt(hdrs, k);
    }
  }

  /** The pass of `elf2bfdsec` over a fresh table. */
  method ConvertAll(secs: array<Sec>, hdrs: seq<Header>) returns (err: bool)
    requires secs.Length == |hdrs| < SHN_LORESERVE
    requires forall k :: 0 <= k < secs.Length ==> secs[k] == Sec(false, false, false, false, 0)
    modifies secs
    ensures !err <==> forall k :: 0 <= k < |hdrs| ==> Loadable(hdrs, k)
    ensures !err ==> MarksDone(secs[..], hdrs, |hdrs|)
    ensures !err && GroupsOk(hdrs) ==> Converted(secs[..], hdrs, |hdrs|)
  {
    err := false;
    for i := 0 to |hdrs|
      invariant !err <==> forall k :: 0 <= k < i ==> Loadable(hdrs, k)
      invariant !err ==> MarksDone(secs[..], hdrs, i)
      invariant !err && GroupsOk(hdrs) ==> Converted(secs[..], hdrs, i)
    {
      ghost var was := secs[..];
      var ok := ConvertSection(secs, hdrs[i], i);
      if !err {
        AcceptableIffLoadable(was, hdrs, i);
        if ok && GroupsOk(hdrs) {
          ConvertedStep(was, secs[..], hdrs, i);
        }
      }
      err := err || !ok;
    }
  }

  // ---- discarding

  /** How many members precede the first bogus one. */
  function Live(secs: seq<Sec>, members: seq<nat>): (n: nat)
    requires forall i :: 0 <= i < |members| ==> members[i] < |secs|
    ensures n <= |members| && forall i :: 0 <= i < n ==> !secs[members[i]].bogus
    ensures n < |members| ==> secs[members[n]].bogus
  {
    if members == [] || secs[members[0]].bogus then 0
    else
      assert forall i :: 0 <= i < |members| - 1 ==> members[1..][i] == members[i + 1];
      1 + Live(secs, members[1..])
  }

  const NONE: int := -1
  const UND: int := -2

  /** `elf_next_in_group`: none if the next section is bogus; link 0 leads to the special section for
      undefined symbols, whose own link is 0. */
  function NextInGroup(secs: seq<Sec>, s: int): (r: int)
    requires s == UND || (0 <= s < |secs| && secs[s].next < |secs|)
  {
    if s == UND || secs[s].next == SHN_UNDEF then UND
    else if secs[secs[s].next].bogus then NONE
    else secs[s].next
  }

  ghost predicate Members(secs: seq<Sec>, idx: nat, members: seq<nat>)
  {
    0 < idx < |secs| && Distinct(idx, members) && Ring(secs, idx, members)
    && forall i :: 0 <= i < |members| ==> 0 < members[i] < |secs|
  }

  /** Nothing but the memory flag of the first `n` members, and of the header, was cleared. */
  ghost predicate Cleared(was: seq<Sec>, now: seq<Sec>, idx: nat, members: seq<nat>, n: nat)
    requires n <= |members|
  {
    |now| == |was| && forall k :: 0 <= k < |was| ==>
      now[k] == if k == idx || k in members[..n] then was[k].(alloc := false) else was[k]
  }

  /** The section that the walk meets in round `p`: the members, then the header. */
  function Round(idx: nat, members: seq<nat>, p: nat): nat
  {
    if 1 <= p <= |members| then members[p - 1] else idx
  }

  /** A group section either heads a ring or, being no COMDAT group, has no link at all. */
  ghost predicate RingOrAlone(secs: seq<Sec>, idx: nat, members: seq<nat>)
  {
    idx < |secs| && if secs[idx].next == 0 then members == [] else Members(secs, idx, members)
  }

  /** The walk around the ring. */
  method DiscardRing(secs: array<Sec>, idx: nat, ghost members: seq<nat>, ghost was: seq<Sec>)
    requires RingOrAlone(was, idx, members) && !was[idx].bogus && Cleared(was, secs[..], idx, members, 0)
    modifies secs
    ensures Cleared(was, secs[..], idx, members, Live(was, members))
  {
    if was[idx].next != 0 {
      NextRound(was, secs[..], idx, members, 0, 0);
    }
    var s := NextInGroup(secs[..], idx);
    var frst := s;
    ghost var p := 1;
    while s != NONE
      invariant 1 <= p <= |members| + 2 && (s == NONE ==> Cleared(was, secs[..], idx, members, Live(was, members)))
      invariant s == UND ==> frst == UND && Cleared(was, secs[..], idx, members, Live(was, members))
      invariant s != NONE && s != UND ==>
        was[idx].next != 0 && Walking(was, secs[..], idx, members, p, s, frst)
      decreases |members| + 2 - p
    {
      if s != UND {
        ghost var now := secs[..];
        secs[s] := secs[s].(alloc := false);
        ClearOne(was, now, idx, members, p, s);
      }
      s := NextInGroup(secs[..], s);
      p := p + 1;
      if s == frst {
        break;
      }
    }
  }

  /** The walk is in round `p`, and all sections it has met were live. */
  ghost predicate Walking(was: seq<Sec>, now: seq<Sec>, idx: nat, members: seq<nat>, p: nat, s: int, frst: int)
    requires Members(was, idx, members)
  {
    && 1 <= p <= |members| + 1 && p <= Live(was, members) + 1 && (p <= |members| ==> p <= Live(was, members))
    && s == Round(idx, members, p) && frst == Round(idx, members, 1)
    && Cleared(was, now, idx, members, p - 1)
  }

  /** Where `elf_next_in_group` leads from round `p`. */
  lemma NextRound(was: seq<Sec>, now: seq<Sec>, idx: nat, members: seq<nat>, p: nat, n: nat)
    requires Members(was, idx, members) && !was[idx].bogus && n <= |members| && p <= |members| + 1
    requires Cleared(was, now, idx, members, n)
    ensures now[Round(idx, members, p)].next < |now|
    ensures NextInGroup(now, Round(idx, members, p))
         == var q := if p == |members| + 1 then 1 else p + 1;
            if was[Round(idx, members, q)].bogus then NONE else Round(idx, members, q)
  {
    var k := if p == |members| + 1 then 0 else p;
    assert LinkOk(was, idx, members, k);
  }

  /** One round clears one more section and moves on. */
  lemma ClearOne(was: seq<Sec>, now: seq<Sec>, idx: nat, members: seq<nat>, p: nat, s: nat)
    requires Members(was, idx, members) && !was[idx].bogus
    requires Walking(was, now, idx, members, p, s, Round(idx, members, 1))
    ensures s < |now|
    ensures var t := now[s := now[s].(alloc := false)];
      && t[s].next < |t|
      && var r := NextInGroup(t, s);
         r != UND && if r == NONE then Cleared(was, t, idx, members, Live(was, members))
         else if r == Round(idx, members, 1) then Cleared(was, t, idx, members, Live(was, members))
         else Walking(was, t, idx, members, p + 1, r, Round(idx, members, 1))
  {
    var t := now[s := now[s].(alloc := false)];
    var n := if p <= |members| then p else |members|;
    MoreCleared(was, now, idx, members, p, s, n);
    NextRound(was, t, idx, members, p, n);
    if p <= |members| && NextInGroup(t, s) != NONE {
      assert Chain(idx, members)[if p < |members| then p + 1 else 0] != Chain(idx, members)[1];
    }
  }

  lemma MoreCleared(was: seq<Sec>, now: seq<Sec>, idx: nat, members: seq<nat>, p: nat, s: nat, n: nat)
    requires 1 <= p <= |members| + 1 && s == Round(idx, members, p) < |was| && Cleared(was, now, idx, members, p - 1)
    requires n == if p <= |members| then p else |members|
    ensures Cleared(was, now[s := now[s].(alloc := false)], idx, members, n)
  {
    forall k | 0 <= k < |was| ensures k in members[..n] <==> k in members[..p - 1] || (p <= |members| && k == s) {
      if p <= |members| {
        assert members[..p] == members[..p - 1] + [s];
      }
    }
  }

  // ---- discarding known sections of a whole file

  /** What `s_eliminate_linkonce` does for one section. */
  ghost predicate EliminatedOne(was: seq<Sec>, now: seq<Sec>, idx: nat, known: bool, members: seq<nat>)
    requires idx < |was| && forall i :: 0 <= i < |members| ==> members[i] < |was|
  {
    if was[idx].linkOnce && known
    then Cleared(was, now, idx, members, if was[idx].isGroup then Live(was, members) else 0)
    else now == was
  }

  /** `s_eliminate_linkonce`: `known` says that a loaded module has a symbol of the section's name. */
  method EliminateLinkOnce(secs: array<Sec>, idx: nat, known: bool, ghost members: seq<nat>)
    returns (counted: bool)
    requires idx < secs.Length && !secs[idx].bogus && forall i :: 0 <= i < |members| ==> members[i] < secs.Length
    requires secs[idx].linkOnce && secs[idx].isGroup ==> RingOrAlone(secs[..], idx, members)
    modifies secs
    ensures EliminatedOne(old(secs[..]), secs[..], idx, known, members)
    ensures counted == secs[idx].alloc
  {
    if secs[idx].linkOnce && known {
      ghost var was := secs[..];
      secs[idx] := secs[idx].(alloc := false);
      if secs[idx].isGroup {
        DiscardRing(secs, idx, members, was);
      }
    }
    counted := secs[idx].alloc;
  }

  function MembersOf(hdrs: seq<Header>, j: nat): (ms: seq<nat>)
    requires j < |hdrs|
  {
    if hdrs[j].IsComdat() then hdrs[j].kind.members else []
  }

  /** No skipped section comes before member `p`, and it is none itself. */
  ghost predicate Reached(hdrs: seq<Header>, ms: seq<nat>, p: nat)
  {
    p < |ms| && forall q :: 0 <= q <= p ==> ms[q] < |hdrs| && !hdrs[ms[q]].kind.Skipped?
  }

  ghost predicate ReachedMember(hdrs: seq<Header>, ms: seq<nat>, k: nat)
  {
    exists p: nat :: Reached(hdrs, ms, p) && ms[p] == k
  }

  /** Discarding section `j` discards section `k`. */
  ghost predicate Discards(hdrs: seq<Header>, known: seq<bool>, j: nat, k: nat)
    requires j < |hdrs| == |known|
  {
    && known[j] && !hdrs[j].kind.Skipped? && LinkOnce(hdrs, j)
    && (k == j || ReachedMember(hdrs, MembersOf(hdrs, j), k))
  }

  /** Section `k` is discarded on account of one of the first `i` sections. */
  ghost predicate Gone(hdrs: seq<Header>, known: seq<bool>, i: nat, k: nat)
    requires i <= |hdrs| == |known|
  {
    exists j: nat :: j < i && Discards(hdrs, known, j, k)
  }

  /** The memory flags of the discarded sections are cleared, and nothing else changed. */
  ghost predicate Eliminated(base: seq<Sec>, now: seq<Sec>, hdrs: seq<Header>, known: seq<bool>, i: nat)
    requires i <= |hdrs| == |known|
  {
    && |now| == |base| == |hdrs|
    && forall k :: 0 <= k < |base| ==>
         now[k] == if Gone(hdrs, known, i, k) then base[k].(alloc := false) else base[k]
  }

  /** Clearing memory flags leaves the rings and the marks alone. */
  lemma StillRingOrAlone(base: seq<Sec>, now: seq<Sec>, hdrs: seq<Header>, known: seq<bool>, i: nat)
    requires GroupsOk(hdrs) && i < |hdrs| == |known| && Converted(base, hdrs, |hdrs|)
    requires Eliminated(base, now, hdrs, known, i) && !hdrs[i].kind.Skipped? && LinkOnce(hdrs, i)
    ensures RingOrAlone(now, i, MembersOf(hdrs, i))
  {
    if hdrs[i].IsComdat() {
      assert ComdatAt(hdrs, i);
      RingKept(base, now, i, hdrs[i].kind.members);
      RingLinks(now, hdrs, i, i);
      var ms := hdrs[i].kind.members;
      assert forall k :: 0 <= k < |ms| ==> ms[k] in ms;
    }
  }

  lemma ReachedIsLive(now: seq<Sec>, hdrs: seq<Header>, ms: seq<nat>, k: nat)
    requires |now| == |hdrs| && forall i :: 0 <= i < |ms| ==> ms[i] < |now|
    requires forall m :: 0 <= m < |now| ==> now[m].bogus == hdrs[m].kind.Skipped?
    ensures k in ms[..Live(now, ms)] <==> ReachedMember(hdrs, ms, k)
  {
    var n := Live(now, ms);
    if k in ms[..n] {
      var p :| 0 <= p < n && ms[..n][p] == k;
      assert Reached(hdrs, ms, p) && ms[p] == k;
    }
    if ReachedMember(hdrs, ms, k) {
      var p: nat :| Reached(hdrs, ms, p) && ms[p] == k;
      assert ms[..n][p] == k;
    }
  }

  lemma EliminatedStep(base: seq<Sec>, was: seq<Sec>, now: seq<Sec>, hdrs: seq<Header>, known: seq<bool>, i: nat)
    requires GroupsOk(hdrs) && i < |hdrs| == |known| && Converted(base, hdrs, |hdrs|)
    requires Eliminated(base, was, hdrs, known, i) && !hdrs[i].kind.Skipped?
    requires forall p :: 0 <= p < |MembersOf(hdrs, i)| ==> MembersOf(hdrs, i)[p] < |was|
    requires EliminatedOne(was, now, i, known[i], MembersOf(hdrs, i))
    ensures Eliminated(base, now, hdrs, known, i + 1)
  {
    var ms := MembersOf(hdrs, i);
    forall k: nat | k < |base|
      ensures now[k] == if Gone(hdrs, known, i + 1, k) then base[k].(alloc := false) else base[k]
    {
      ReachedIsLive(was, hdrs, ms, k);
      assert Gone(hdrs, known, i + 1, k) <==> Gone(hdrs, known, i, k) || Discards(hdrs, known, i, k);
    }
  }

  /** A section that takes memory in the end. */
  ghost predicate Kept(hdrs: seq<Header>, known: seq<bool>, k: nat)
    requires k < |hdrs| == |known|
  {
    !hdrs[k].kind.Skipped? && hdrs[k].alloc && !Gone(hdrs, known, |hdrs|, k)
  }

  ghost function KeptUpTo(hdrs: seq<Header>, known: seq<bool>, i: nat): (r: set<nat>)
    requires i <= |hdrs| == |known|
  {
    set k: nat | k < i && Kept(hdrs, known, k)
  }

  /** Headers come first: what is discarded is discarded by the time it is met. */
  lemma GoneWhenMet(hdrs: seq<Header>, known: seq<bool>, k: nat)
    requires GroupsOk(hdrs) && k < |hdrs| == |known|
    ensures Gone(hdrs, known, |hdrs|, k) <==> Gone(hdrs, known, k + 1, k)
  {
    if Gone(hdrs, known, |hdrs|, k) {
      var j: nat :| j < |hdrs| && Discards(hdrs, known, j, k);
      if j != k {
        assert ComdatAt(hdrs, j) && k in hdrs[j].kind.members;
      }
    }
  }

  /** The pass of `s_eliminate_linkonce` over all sections; bogus ones are not visited. */
  method EliminateAll(secs: array<Sec>, known: seq<bool>, ghost hdrs: seq<Header>) returns (count: nat)
    requires GroupsOk(hdrs) && secs.Length == |hdrs| == |known| && Converted(secs[..], hdrs, |hdrs|)
    modifies secs
    ensures Eliminated(old(secs[..]), secs[..], hdrs, known, |hdrs|)
    ensures count == |KeptUpTo(hdrs, known, |hdrs|)|
  {
    ghost var base := secs[..];
    count := 0;
    for i := 0 to secs.Length
      invariant Eliminated(base, secs[..], hdrs, known, i)
      invariant count == |KeptUpTo(hdrs, known, i)|
    {
      ghost var was, ms := secs[..], MembersOf(hdrs, i);
      assert was[i].bogus == hdrs[i].kind.Skipped?;
      GoneWhenMet(hdrs, known, i);
      if !secs[i].bogus {
        MembersInFile(hdrs, i);
        if LinkOnce(hdrs, i) {
          StillRingOrAlone(base, was, hdrs, known, i);
        }
        var counted := EliminateLinkOnce(secs, i, known[i], ms);
        EliminatedStep(base, was, secs[..], hdrs, known, i);
        assert counted <==> Kept(hdrs, known, i);
        if counted {
          count := count + 1;
        }
      }
      OneMoreKept(hdrs, known, i);
    }
  }

  lemma MembersInFile(hdrs: seq<Header>, i: nat)
    requires GroupsOk(hdrs) && i < |hdrs|
    ensures forall p :: 0 <= p < |MembersOf(hdrs, i)| ==> MembersOf(hdrs, i)[p] < |hdrs|
  {
    var ms := MembersOf(hdrs, i);
    forall p | 0 <= p < |ms| ensures ms[p] < |hdrs| {
      assert ComdatAt(hdrs, i) && ms[p] in hdrs[i].kind.members;
    }
  }

  lemma OneMoreKept(hdrs: seq<Header>, known: seq<bool>, i: nat)
    requires i < |hdrs| == |known|
    ensures |KeptUpTo(hdrs, known, i + 1)| == |KeptUpTo(hdrs, known, i)| + if Kept(hdrs, known, i) then 1 else 0
  {
    var less, more := KeptUpTo(hdrs, known, i), KeptUpTo(hdrs, known, i + 1);
    assert i !in less && more == if Kept(hdrs, known, i) then less + {i} else less;
  }

  /** Both passes over the section headers of a sound file. */
  method LoadSections(hdrs: seq<Header>, known: seq<bool>) returns (secs: array<Sec>, err: bool, count: nat)
    requires GroupsOk(hdrs) && |hdrs| == |known| && |hdrs| < SHN_LORESERVE
    ensures !err <==> forall k :: 0 <= k < |hdrs| ==>
      !hdrs[k].kind.Unsupported? && (hdrs[k].kind.Group? ==> hdrs[k].kind.signed)
    ensures !err ==> secs.Length == |hdrs| && forall k :: 0 <= k < |hdrs| ==>
      secs[k] == Final(hdrs, k, secs[k].next).(alloc := hdrs[k].kind.Skipped? || Kept(hdrs, known, k))
    ensures !err ==> count == |set k: nat | k < |hdrs| && Kept(hdrs, known, k)|
  {
    secs := new Sec[|hdrs|](_ => Sec(false, false, false, false, 0));
    count := 0;
    err := ConvertAll(secs, hdrs);
    forall k: nat | k < |hdrs| ensures Loadable(hdrs, k)
      <==> !hdrs[k].kind.Unsupported? && (hdrs[k].kind.Group? ==> hdrs[k].kind.signed)
    {
      SoundGroupsFit(hdrs, k);
    }
    if !err {
      count := EliminateAll(secs, known, hdrs);
      assert KeptUpTo(hdrs, known, |hdrs|) == set k: nat | k < |hdrs| && Kept(hdrs, known, k);
    }
  }

  // ---- what stays in memory, in terms of the headers

  predicate ComdatHeader(hdrs: seq<Header>, j: nat)
  {
    j < |hdrs| && hdrs[j].kind.Group? && hdrs[j].kind.comdat
  }

  /** Section `k` is member `p` of the COMDAT group `j`, and no member before it was skipped. */
  predicate Meets(hdrs: seq<Header>, j: nat, p: nat, k: nat)
  {
    && ComdatHeader(hdrs, j) && p < |hdrs[j].kind.members| && hdrs[j].kind.members[p] == k
    && forall q :: 0 <= q <= p ==> hdrs[j].kind.members[q] < |hdrs| && !hdrs[hdrs[j].kind.members[q]].kind.Skipped?
  }

  /** The name of the section itself decides: a COMDAT header, or one called linkonce that is in no group. */
  ghost predicate ByName(hdrs: seq<Header>, k: nat)
    requires k < |hdrs|
  {
    ComdatHeader(hdrs, k)
    || (hdrs[k].named && forall j: nat :: ComdatHeader(hdrs, j) ==> k !in hdrs[j].kind.members)
  }

  ghost predicate GoesWithGroup(hdrs: seq<Header>, known: seq<bool>, k: nat)
    requires |hdrs| == |known|
  {
    exists j: nat, p: nat :: Meets(hdrs, j, p, k) && known[j]
  }

  /** A section takes memory exactly if its header asks for it, neither its own name is known nor that of a
      group that reaches it. */
  lemma KeptExactlyWhen(hdrs: seq<Header>, known: seq<bool>, k: nat)
    requires k < |hdrs| == |known|
    ensures Kept(hdrs, known, k) <==>
      && !hdrs[k].kind.Skipped? && hdrs[k].alloc
      && !(known[k] && ByName(hdrs, k)) && !GoesWithGroup(hdrs, known, k)
  {
    ByNameIsLinkOnce(hdrs, k);
    if j: nat :| j < |hdrs| && Discards(hdrs, known, j, k) && j != k {
      var p: nat :| Reached(hdrs, MembersOf(hdrs, j), p) && MembersOf(hdrs, j)[p] == k;
      MeetsIsReached(hdrs, j, p, k);
    }
    if j: nat, p: nat :| Meets(hdrs, j, p, k) && known[j] {
      MeetsIsReached(hdrs, j, p, k);
      assert Discards(hdrs, known, j, k);
    }
    if !hdrs[k].kind.Skipped? && known[k] && ByName(hdrs, k) {
      assert Discards(hdrs, known, k, k);
    }
  }

  lemma MeetsIsReached(hdrs: seq<Header>, j: nat, p: nat, k: nat)
    requires j < |hdrs|
    ensures Meets(hdrs, j, p, k) <==> Reached(hdrs, MembersOf(hdrs, j), p) && MembersOf(hdrs, j)[p] == k
    ensures Meets(hdrs, j, p, k) ==> ReachedMember(hdrs, MembersOf(hdrs, j), k)
  {
  }

  lemma ByNameIsLinkOnce(hdrs: seq<Header>, k: nat)
    requires k < |hdrs|
    ensures ByName(hdrs, k) <==> LinkOnce(hdrs, k)
  {
    if j: nat :| ComdatHeader(hdrs, j) && k in hdrs[j].kind.members {
      assert ComdatAt(hdrs, j);
    }
    if IsMember(hdrs, k) {
      var j: nat :| ComdatAt(hdrs, j) && k in hdrs[j].kind.members;
      assert ComdatHeader(hdrs, j);
    }
  }

  /** A known group without skipped members goes as a whole. */
  lemma GroupGoesTogether(hdrs: seq<Header>, known: seq<bool>, j: nat)
    requires |hdrs| == |known| && ComdatHeader(hdrs, j) && known[j]
    requires forall m :: m in hdrs[j].kind.members ==> m < |hdrs| && !hdrs[m].kind.Skipped?
    ensures !Kept(hdrs, known, j) && forall m :: m in hdrs[j].kind.members ==> !Kept(hdrs, known, m)
  {
    KeptExactlyWhen(hdrs, known, j);
    forall m | m in hdrs[j].kind.members ensures !Kept(hdrs, known, m) {
      var p :| 0 <= p < |hdrs[j].kind.members| && hdrs[j].kind.members[p] == m;
      assert forall q :: 0 <= q <= p ==> hdrs[j].kind.members[q] in hdrs[j].kind.members;
      assert Meets(hdrs, j, p, m);
      KeptExactlyWhen(hdrs, known, m);
    }
  }
}

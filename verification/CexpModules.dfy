/** The run-time list of modules: records linked through `next`, dependency bitmaps updated in
    place.  Every routine is proved against the step it takes in the loader's state machine. */
module CexpModules {
  import opened SymNames
  import opened SymTbl
  import opened Bitmap
  import opened LoaderSpec
  import opened LoaderRuns

  class ModuleRec {
    var name: Name
    var next: ModuleRec?
    var id: Id
    var needs: seq<Word>
    var neededby: seq<Word>
    var symtbl: seq<Sym>
    ghost var serial: nat
    ghost var refs: set<Ref>

    constructor (name: Name, ghost serial: nat)
      ensures this.name == name && this.serial == serial && refs == {} && next == null
      ensures needs == ZERO && neededby == ZERO && symtbl == [] && id == 0
    {
      this.name, this.serial, refs, next := name, serial, {}, null;
      needs, neededby, symtbl, id := ZERO, ZERO, [], 0;
    }

    ghost predicate WordsFit(width: nat)
      reads `needs, `neededby
    {
      WordsOk(needs, width) && WordsOk(neededby, width)
    }

    ghost function View(width: nat): Mod
      requires WordsFit(width)
      reads `serial, `name, `id, `needs, `neededby, `symtbl, `refs
    {
      Mod(serial, name, id, Members(needs, width), Members(neededby, width), symtbl, refs)
    }
  }

  ghost function Views(spine: seq<ModuleRec>, width: nat): (r: seq<Mod>)
    requires forall i :: 0 <= i < |spine| ==> spine[i].WordsFit(width)
    reads spine
    ensures |r| == |spine| && forall i :: 0 <= i < |r| ==> r[i] == spine[i].View(width)
  {
    if spine == [] then []
    else Views(spine[..|spine| - 1], width) + [spine[|spine| - 1].View(width)]
  }

  ghost predicate Shown(rec: ModuleRec, v: Mod, width: nat)
    reads rec`serial, rec`name, rec`id, rec`needs, rec`neededby, rec`symtbl, rec`refs
  {
    rec.WordsFit(width) && rec.View(width) == v
  }

  /** The records stand for `vs`; how they are chained does not matter. */
  ghost predicate Show(recs: seq<ModuleRec>, vs: seq<Mod>, width: nat)
    reads recs`serial, recs`name, recs`id, recs`needs, recs`neededby, recs`symtbl, recs`refs
  {
    && |recs| == |vs|
    && forall i {:trigger vs[i]} :: 0 <= i < |vs| ==> Shown(recs[i], vs[i], width)
  }

  /** In the middle of a loop that turns `mods` into `r`. */
  function Mixed(k: nat, r: seq<Mod>, mods: seq<Mod>): (m: seq<Mod>)
    requires |r| == |mods|
    ensures |m| == |mods| && forall i {:trigger m[i]} :: 0 <= i < |m| ==> m[i] == if i < k then r[i] else mods[i]
  {
    seq(|mods|, i requires 0 <= i < |mods| == |r| => if i < k then r[i] else mods[i])
  }

  lemma MixedNext(k: nat, r: seq<Mod>, mods: seq<Mod>)
    requires k < |r| == |mods|
    ensures Mixed(k + 1, r, mods) == Mixed(k, r, mods)[k := r[k]]
  {
  }

  lemma MixedEnds(r: seq<Mod>, mods: seq<Mod>)
    requires |r| == |mods|
    ensures Mixed(0, r, mods) == mods && Mixed(|r|, r, mods) == r
  {
  }

  lemma ShowSnoc(recs: seq<ModuleRec>, vs: seq<Mod>, m: ModuleRec, v: Mod, width: nat)
    requires Show(recs, vs, width) && m.WordsFit(width) && m.View(width) == v
    ensures Show(recs + [m], vs + [v], width)
  {
    forall i | 0 <= i < |recs| ensures Shown(recs[i], vs[i], width) {
      ShownAt(recs, vs, i, width);
    }
  }

  /** Record `i` stands for module `i`. */
  lemma ShownAt(recs: seq<ModuleRec>, vs: seq<Mod>, i: nat, width: nat)
    requires Show(recs, vs, width) && i < |recs|
    ensures Shown(recs[i], vs[i], width)
  {
    var v := vs[i];
  }

  /** The sequence without element `k`. */
  function Dropped<T>(s: seq<T>, k: nat): (r: seq<T>)
    requires k < |s|
    ensures |r| == |s| - 1 && forall i :: 0 <= i < |r| ==> r[i] == s[Was(k, i)]
  {
    s[..k] + s[k + 1..]
  }

  lemma ShowRest(recs: seq<ModuleRec>, mods: seq<Mod>, k: nat, width: nat)
    requires k < |mods| && Show(recs, Retract(mods, mods[k].id), width)
    ensures Show(Dropped(recs, k), Without(mods, k), width)
  {
    assert Without(mods, k) == Dropped(Retract(mods, mods[k].id), k);
  }

  lemma ShowIsViews(recs: seq<ModuleRec>, vs: seq<Mod>, width: nat)
    requires Show(recs, vs, width)
    ensures forall i :: 0 <= i < |recs| ==> recs[i].WordsFit(width)
    ensures Views(recs, width) == vs
  {
    forall i | 0 <= i < |recs| ensures recs[i].WordsFit(width) && recs[i].View(width) == vs[i] {
      ShownAt(recs, vs, i, width);
    }
  }

  /** The links of the records. */
  ghost function Nexts(recs: seq<ModuleRec>): (r: seq<ModuleRec?>)
    reads recs`next
    ensures |r| == |recs| && forall i {:trigger r[i]} :: 0 <= i < |r| ==> r[i] == recs[i].next
  {
    if recs == [] then [] else Nexts(recs[..|recs| - 1]) + [recs[|recs| - 1].next]
  }

  ghost predicate NoRepeats(recs: seq<ModuleRec>)
  {
    forall i, j :: 0 <= i < j < |recs| ==> recs[i] != recs[j]
  }

  function Behind(recs: seq<ModuleRec>, i: nat): ModuleRec?
  {
    if i + 1 < |recs| then recs[i + 1] else null
  }

  /** Every record is linked to the one behind it. */
  ghost predicate Follow(recs: seq<ModuleRec>, next: seq<ModuleRec?>)
  {
    |next| == |recs| && forall i {:trigger next[i]} :: 0 <= i < |next| ==> next[i] == Behind(recs, i)
  }

  lemma NextsDropped(was: seq<ModuleRec>, next: seq<ModuleRec?>, k: nat, next': seq<ModuleRec?>)
    requires NoRepeats(was) && Follow(was, next) && k + 1 < |was| == |next'| + 1
    requires forall i :: 0 <= i < |next'| ==> next'[i] == next[if i == k then k + 1 else Was(k + 1, i)]
    ensures NoRepeats(Dropped(was, k + 1)) && Follow(Dropped(was, k + 1), next')
  {
  }

  lemma NextsAppended(was: seq<ModuleRec>, next: seq<ModuleRec?>, m: ModuleRec, next': seq<ModuleRec?>)
    requires NoRepeats(was) && m !in was && Follow(was, next) && |next'| == |was| + 1
    requires next'[|was|] == null && (was != [] ==> next'[|was| - 1] == m)
    requires forall i :: 0 <= i < |was| - 1 ==> next'[i] == next[i]
    ensures NoRepeats(was + [m]) && Follow(was + [m], next')
  {
  }

  class Registry {
    const width: nat
    var system: ModuleRec?
    var lastId: Id
    ghost var spine: seq<ModuleRec>
    ghost var nextSerial: nat

    /** The list is the chain of records from `system`. */
    ghost predicate Chain()
      reads `system, `spine, spine`next
    {
      && NoRepeats(spine) && system == At(0) && Follow(spine, Nexts(spine))
    }

    /** The list is intact and its records stand for `mods`. */
    ghost predicate Lists(mods: seq<Mod>)
      reads `system, `spine, spine`next
      reads spine`serial, spine`name, spine`id, spine`needs, spine`neededby, spine`symtbl, spine`refs
    {
      WidthOk(width) && Chain() && Show(spine, mods, width)
    }

    /** So that its tables can be searched. */
    ghost predicate Ready(mods: seq<Mod>)
      reads `system, `spine, spine`next
      reads spine`serial, spine`name, spine`id, spine`needs, spine`neededby, spine`symtbl, spine`refs
    {
      Lists(mods) && Tables(mods)
    }

    ghost predicate Linked()
      reads `system, `spine, spine`next, spine`needs, spine`neededby
    {
      WidthOk(width) && Chain() && forall i :: 0 <= i < |spine| ==> spine[i].WordsFit(width)
    }

    ghost function At(i: nat): ModuleRec?
      reads `spine
    {
      if i < |spine| then spine[i] else null
    }

    ghost function Mods(): (r: seq<Mod>)
      requires Linked()
      reads `system, `spine, spine
    {
      Views(spine, width)
    }

    ghost function View(): State
      requires Linked()
      reads this, spine
    {
      State(Mods(), lastId, nextSerial)
    }

    ghost predicate Valid()
      reads this, spine
    {
      Linked() && Inv(View())
    }

    /** The registry is in that state. */
    ghost predicate Is(s: State)
      reads this, spine`next
      reads spine`serial, spine`name, spine`id, spine`needs, spine`neededby, spine`symtbl, spine`refs
    {
      match s
      case State(mods, last, serial) => Lists(mods) && lastId == last && nextSerial == serial
    }

    lemma IsView()
      requires Linked()
      ensures Is(View())
    {
    }

    lemma ViewIs(s: State)
      requires Is(s)
      ensures Linked() && View() == s
    {
      ShowIsViews(spine, s.mods, width);
    }

    constructor (width: nat)
      requires WidthOk(width)
      ensures Valid() && View() == EMPTY && this.width == width
    {
      this.width := width;
      system, lastId, spine, nextSerial := null, MAX_NUM_MODULES - 1, [], 0;
    }

    /** `predecessor`: the record in front of `mod`, null if there is none. */
    method Predecessor(mod: ModuleRec?) returns (pred: ModuleRec?, ghost k: nat)
      requires Chain()
      ensures mod == null ==> pred == null
      ensures mod != null ==> pred == At(k) && (pred != null ==> At(k + 1) == mod)
      ensures mod != null && pred == null ==> forall i :: 1 <= i < |spine| ==> spine[i] != mod
    {
      if mod == null {
        return null, 0;
      }
      pred, k := system, 0;
      while pred != null && pred.next != mod
        invariant k <= |spine| && pred == At(k)
        invariant forall i :: 1 <= i <= k && i < |spine| ==> spine[i] != mod
        decreases |spine| - k
      {
        assert Nexts(spine)[k] == At(k + 1);
        pred := pred.next;
        k := k + 1;
      }
      if pred != null {
        assert Nexts(spine)[k] == At(k + 1);
      }
    }

    /** `cexpSymLookup`: walk the list, bisect every table.  `pos` counts the records passed. */
    method SymLookup(n: Name, ghost mods: seq<Mod>) returns (mod: ModuleRec?, pos: nat, sym: nat)
      requires Ready(mods) && Plain(n)
      ensures mod == null ==> LookupMod(mods, n) == Missing
      ensures mod != null ==> LookupMod(mods, n) == Found.At(pos) && pos < |spine| && mod == spine[pos]
                              && mods[pos].table == mod.symtbl && Find(mod.symtbl, n) == Found.At(sym)
    {
      mod, pos, sym := system, 0, 0;
      while mod != null
        invariant pos <= |spine| && mod == At(pos)
        invariant forall i :: 0 <= i < pos ==> !Has(mods[i], n)
        decreases |spine| - pos
      {
        assert mods[pos].table == mod.symtbl;
        var r := Lookup(mod.symtbl, n);
        if r.At? {
          FirstHolder(mods, pos, n);
          return mod, pos, r.index;
        }
        assert !Has(mods[pos], n) && Nexts(spine)[pos] == At(pos + 1);
        mod := mod.next;
        pos := pos + 1;
      }
    }

    /** `idAlloc`: mark the used ids, then search cyclically behind the last id handed out. */
    method IdAlloc(mod: ModuleRec, ghost mods: seq<Mod>) returns (ok: bool)
      requires Ready(mods) && mod !in spine
      modifies this`lastId, mod`id
      ensures Ready(mods)
      ensures var r := NextFree(UsedIds(mods), old(lastId), old(lastId));
        if r == -1 then !ok && lastId == old(lastId) else ok && lastId == mod.id == r
    {
      var used := MarkUsed(mods);
      var newId := SearchFree(used, lastId, width);
      if newId == -1 {
        return false;
      }
      TakeId(mod, newId, mods);
      return true;
    }

    method TakeId(mod: ModuleRec, newId: Id, ghost mods: seq<Mod>)
      requires Ready(mods) && mod !in spine
      modifies this`lastId, mod`id
      ensures Ready(mods) && lastId == mod.id == newId
    {
      mod.id, lastId := newId, newId;
    }

    method MarkUsed(ghost mods: seq<Mod>) returns (used: seq<Word>)
      requires Ready(mods)
      ensures WordsOk(used, width) && Members(used, width) == UsedIds(mods)
    {
      ZeroIsEmpty(width);
      used := ZERO;
      var m := system;
      ghost var k := 0;
      while m != null
        invariant k <= |spine| && m == At(k)
        invariant WordsOk(used, width) && Members(used, width) == UsedIds(mods[..k])
        decreases |spine| - k
      {
        used := SetIn(used, m.id, width);
        UsedSnoc(mods, k);
        assert Nexts(spine)[k] == At(k + 1);
        m := m.next;
        k := k + 1;
      }
      assert mods[..k] == mods;
    }

    /** One round of the loop in `resolve_syms`. */
    method ResolveOne(s: ObjSym, ghost mods: seq<Mod>) returns (a: Action)
      requires Ready(mods) && Plain(s.name)
      ensures a == Classify(mods, s)
    {
      if IsLocal(s) {
        return if s.sectionSym && s.place == Section(true) then Keep else Skip;
      }
      if s.threadLocal {
        return Skip;
      }
      var mod, pos, sym := SymLookup(s.name, mods);
      if mod == null {
        if s.place.Undefined? {
          return if s.value != 0 && s.code then Keep else if s.weak then NewCommon else Skip;
        }
        return if s.place.Common? then NewCommon else Keep;
      }
      if s.place.Undefined? {
        return Skip;
      } else if s.place.Common? {
        return if Serves(mod.symtbl[sym], s) then Borrow(pos) else Reject;
      } else {
        return if s.weak then Borrow(pos) else Reject;
      }
    }

    /** `asymFromCexpSym`: raise the bit of the module at position `pos`. */
    method Depend(needs: seq<Word>, pos: nat, ghost mods: seq<Mod>, ghost loans: seq<Loan>, ghost n: Name)
      returns (r: seq<Word>)
      requires Ready(mods) && LookupMod(mods, n) == Found.At(pos)
      requires NeedsAre(needs, width, mods, loans)
      ensures NeedsAre(r, width, mods, loans + [Loan(n, pos)])
    {
      var m := Nth(pos);
      r := SetIn(needs, m.id, width);
      NeedsSnoc(mods, loans, Loan(n, pos));
    }

    method Nth(pos: nat) returns (m: ModuleRec)
      requires Chain() && pos < |spine|
      ensures m == spine[pos]
    {
      m := system;
      for k := 0 to pos
        invariant m == spine[k]
      {
        assert Nexts(spine)[k] == At(k + 1);
        m := m.next;
      }
    }

    /** The effect of one symbol on the dependency bitmap. */
    method Account(needs: seq<Word>, s: ObjSym, a: Action, ghost mods: seq<Mod>, ghost loans: seq<Loan>)
      returns (r: seq<Word>)
      requires Ready(mods) && a == Classify(mods, s) && NeedsAre(needs, width, mods, loans)
      ensures NeedsAre(r, width, mods, loans + Lent(s, a))
    {
      r := needs;
      if a.Borrow? {
        ClassifyBorrows(mods, s);
        r := Depend(needs, a.from, mods, loans, s.name);
      } else {
        assert loans + [] == loans;
      }
    }

    /** `resolve_syms`. */
    method ResolveSyms(syms: seq<ObjSym>, ghost mods: seq<Mod>)
      returns (errs: nat, acts: seq<Action>, needs: seq<Word>)
      requires Ready(mods)
      requires forall k :: 0 <= k < |syms| ==> Plain(syms[k].name)
      ensures |acts| == |syms| && ActsAre(acts, mods, syms)
      ensures errs == 0 <==> Resolved(mods, syms)
      ensures NeedsAre(needs, width, mods, Loans(mods, syms))
    {
      ResolvingNone(mods, syms, width);
      errs, acts, needs := 0, [], ZERO;
      var ini, fini := false, false;
      for i := 0 to |syms|
        invariant |acts| == i && Resolving(mods, syms[..i], width, errs, ini, fini, needs)
        invariant ActsAre(acts, mods, syms)
      {
        var a;
        a, errs, ini, fini, needs := ResolveNext(syms, i, errs, ini, fini, needs, mods);
        ActsNext(acts, mods, syms, a);
        acts := acts + [a];
      }
      assert syms[..|syms|] == syms;
    }

    method ResolveAndAccount(s: ObjSym, needs: seq<Word>, ghost mods: seq<Mod>, ghost loans: seq<Loan>)
      returns (a: Action, needs': seq<Word>)
      requires Ready(mods) && Plain(s.name) && NeedsAre(needs, width, mods, loans)
      ensures a == Classify(mods, s) && NeedsAre(needs', width, mods, loans + Lent(s, a))
    {
      a := ResolveOne(s, mods);
      needs' := Account(needs, s, a, mods, loans);
    }

    /** The body of the loop of `resolve_syms`. */
    method ResolveNext(syms: seq<ObjSym>, i: nat, errs: nat, ini: bool, fini: bool, needs: seq<Word>,
                       ghost mods: seq<Mod>)
      returns (a: Action, errs': nat, ini': bool, fini': bool, needs': seq<Word>)
      requires Ready(mods) && i < |syms| && Plain(syms[i].name)
      requires Resolving(mods, syms[..i], width, errs, ini, fini, needs)
      ensures a == Classify(mods, syms[i])
      ensures Resolving(mods, syms[..i + 1], width, errs', ini', fini', needs')
    {
      var dup;
      dup, ini', fini' := NoteCallback(syms[i].name, ini, fini);
      a, needs' := ResolveAndAccount(syms[i], needs, mods, Loans(mods, syms[..i]));
      errs' := errs + dup + if a.Reject? then 1 else 0;
      ResolvingStep(mods, syms, i, width, errs, ini, fini, a, errs', needs');
    }

    // ---- relocation

    /** Look up the name behind an undefined symbol. */
    method ResolveReloc(s: ObjSym, ghost mods: seq<Mod>) returns (t: Target)
      requires Ready(mods) && Plain(s.name)
      ensures t == ExternalTarget(mods, s.name)
    {
      var mod, pos, sym := SymLookup(s.name, mods);
      if mod == null {
        return Bad;
      }
      if pos == 0 && s.name == DSO_HANDLE {
        assert system == At(0) == spine[0] && mods[0].table == system.symtbl;
        CxaIsPlain();
        var r := Lookup(system.symtbl, CXA_FINALIZE);
        return if r.At? then OwnHandle else Bad;
      }
      return External(pos);
    }

    /** The part of the loop body of `s_reloc` that concerns symbols.  A slot that was resolved
        holds an absolute symbol from then on. */
    method RelocNext(f: ObjFile, k: nat, und: seq<bool>, errs: nat, needs: seq<Word>,
                     ghost base: seq<Loan>, ghost mods: seq<Mod>)
      returns (und': seq<bool>, errs': nat, needs': seq<Word>)
      requires Ready(mods) && k < |f.relocs|
      requires forall j :: 0 <= j < |f.syms| ==> Plain(f.syms[j].name)
      requires Relocating(mods, f, f.relocs[..k], width, base, und, errs, needs)
      ensures Relocating(mods, f, f.relocs[..k + 1], width, base, und', errs', needs')
    {
      var idx := f.relocs[k];
      ghost var loans := base + RelocLoans(mods, f.syms, f.relocs[..k]);
      if idx < 0 || idx >= |f.syms| {
        und', errs', needs' := und, errs + 1, needs;
      } else if und[idx] {
        und', errs', needs' := RelocUndefined(f, idx, und, errs, needs, loans, mods);
      } else {
        und', errs', needs' := und, errs, needs;
      }
      RelocatingStep(mods, f, k, width, base, und, errs, needs, und', errs', needs');
    }

    /** A relocation against an undefined symbol. */
    method RelocUndefined(f: ObjFile, idx: nat, und: seq<bool>, errs: nat, needs: seq<Word>,
                          ghost loans: seq<Loan>, ghost mods: seq<Mod>)
      returns (und': seq<bool>, errs': nat, needs': seq<Word>)
      requires Ready(mods) && idx < |f.syms| && Plain(f.syms[idx].name)
      requires Slots(mods, f, loans, und) && und[idx] && NeedsAre(needs, width, mods, loans)
      ensures RelocEffect(mods, f, idx, width, loans, und, errs, needs, und', errs', needs')
    {
      var t := ResolveReloc(f.syms[idx], mods);
      und', errs', needs' := und, errs, needs;
      if t.Bad? {
        errs' := errs + 1;
      } else {
        und' := und[idx := false];
        needs' := AccountTarget(f.syms[idx].name, t, needs, mods, loans);
        TargetEffect(mods, f, idx, loans, und, t);
      }
    }

    /** The effect of a resolved relocation on the dependency bitmap. */
    method AccountTarget(n: Name, t: Target, needs: seq<Word>, ghost mods: seq<Mod>, ghost loans: seq<Loan>)
      returns (r: seq<Word>)
      requires Ready(mods) && t == ExternalTarget(mods, n) && NeedsAre(needs, width, mods, loans)
      ensures NeedsAre(r, width, mods, loans + TargetLent(n, t))
    {
      r := needs;
      if t.External? {
        ExternalIsLookup(mods, n);
        r := Depend(needs, t.from, mods, loans, n);
      } else {
        assert loans + [] == loans;
      }
    }

    method Relocate(f: ObjFile, acts: seq<Action>, needs: seq<Word>, ghost mods: seq<Mod>)
      returns (errs: nat, needs': seq<Word>)
      requires Ready(mods) && |acts| == |f.syms| && ActsAre(acts, mods, f.syms)
      requires forall j :: 0 <= j < |f.syms| ==> Plain(f.syms[j].name)
      requires NeedsAre(needs, width, mods, Loans(mods, f.syms))
      ensures errs == 0 <==> Relocated(mods, f)
      ensures NeedsAre(needs', width, mods, Loans(mods, f.syms) + RelocLoans(mods, f.syms, f.relocs))
    {
      ghost var base := Loans(mods, f.syms);
      var und := FirstSlots(f, acts);
      errs, needs' := 0, needs;
      RelocatingInit(mods, f, acts, width, und, needs);
      for k := 0 to |f.relocs|
        invariant Relocating(mods, f, f.relocs[..k], width, base, und, errs, needs')
      {
        und, errs, needs' := RelocNext(f, k, und, errs, needs', base, mods);
      }
      assert f.relocs[..|f.relocs|] == f.relocs;
    }

    // ---- loading and unloading

    /** `cexpLoadFile`: resolve, build the table, relocate.  What the record holds after a failure
        does not matter, it is freed. */
    method LoadFile(l: Load, nmod: ModuleRec, ghost mods: seq<Mod>) returns (ok: bool)
      requires Ready(mods) && Admissible(mods, l) && nmod !in spine
      modifies nmod`needs, nmod`symtbl, nmod`refs
      ensures ok <==> LoadOk(mods, l)
      ensures ok ==> Outcome(mods, l, width, nmod.needs, nmod.symtbl, nmod.refs)
    {
      var needs, table;
      ok, needs, table := ReadFile(l, mods);
      if ok {
        nmod.needs, nmod.symtbl := needs, table;
        nmod.refs := RefsOf(mods, AllLoans(mods, l.file));
      }
    }

    /** The same without the record. */
    method ReadFile(l: Load, ghost mods: seq<Mod>) returns (ok: bool, needs: seq<Word>, table: seq<Sym>)
      requires Ready(mods) && Admissible(mods, l)
      ensures ok <==> LoadOk(mods, l)
      ensures ok ==> LoansOk(mods, AllLoans(mods, l.file))
      ensures ok ==> Outcome(mods, l, width, needs, table, RefsOf(mods, AllLoans(mods, l.file)))
    {
      needs, table := ZERO, [];
      if !l.readable {
        return false, needs, table;
      }
      var errs, acts;
      errs, acts, needs := ResolveSyms(l.file.syms, mods);
      if errs > 0 {
        return false, needs, table;
      }
      table := MakeTable(l, acts, mods);
      ok, needs := LinkFile(l, acts, needs, mods);
      ok := ok && l.sane;
    }

    method MakeTable(l: Load, acts: seq<Action>, ghost mods: seq<Mod>) returns (table: seq<Sym>)
      requires Admissible(mods, l) && Resolved(mods, l.file.syms)
      requires |acts| == |l.file.syms| && ActsAre(acts, mods, l.file.syms)
      ensures TableOf(table, KeptSyms(mods, l.file.syms, l.addr, l.ptrSize))
    {
      var kept := Filter(l.file.syms, acts, l.addr, l.ptrSize, mods);
      KeptNames(mods, l.file.syms, l.addr, l.ptrSize);
      table := CreateSymTbl(kept);
    }

    /** Placing and relocation, which the first module is spared. */
    method LinkFile(l: Load, acts: seq<Action>, needs: seq<Word>, ghost mods: seq<Mod>)
      returns (ok: bool, needs': seq<Word>)
      requires Ready(mods) && Admissible(mods, l)
      requires |acts| == |l.file.syms| && ActsAre(acts, mods, l.file.syms)
      requires NeedsAre(needs, width, mods, Loans(mods, l.file.syms))
      ensures ok <==> mods == [] || (l.placed && Relocated(mods, l.file) && l.patched)
      ensures ok ==> NeedsAre(needs', width, mods, AllLoans(mods, l.file))
    {
      needs' := needs;
      if system == null {
        assert mods == [] && AllLoans(mods, l.file) == Loans(mods, l.file.syms);
        return true, needs';
      }
      assert mods != [];
      if !l.placed {
        return false, needs';
      }
      var bad;
      bad, needs' := Relocate(l.file, acts, needs, mods);
      ok := bad == 0 && l.patched;
    }

    /** `addDependencies`: tell every module the new one needs. */
    method AddDependencies(nmod: ModuleRec, ghost mods: seq<Mod>, ghost nv: Mod)
      requires Lists(mods) && nmod !in spine && nmod.WordsFit(width) && nv == nmod.View(width)
      modifies spine`neededby
      ensures Chain() && Show(spine, Announce(mods, nv), width)
    {
      var m := system;
      ghost var k, r := 0, Announce(mods, nv);
      MixedEnds(r, mods);
      while m != null
        invariant k <= |spine| && m == At(k) && Lists(Mixed(k, r, mods))
        decreases |spine| - k
      {
        AddOne(m, nmod, k, r, mods, nv);
        assert Nexts(spine)[k] == At(k + 1);
        m := m.next;
        k := k + 1;
      }
    }

    method AddOne(m: ModuleRec, nmod: ModuleRec, ghost k: nat, ghost r: seq<Mod>, ghost mods: seq<Mod>, ghost nv: Mod)
      requires |r| == |mods| && k < |spine| && Lists(Mixed(k, r, mods)) && m == spine[k]
      requires nmod !in spine && nmod.WordsFit(width) && nv == nmod.View(width)
      requires r[k] == if mods[k].id in nv.needs then mods[k].(neededby := mods[k].neededby + {nv.id}) else mods[k]
      modifies m`neededby
      ensures Lists(Mixed(k + 1, r, mods))
    {
      MixedNext(k, r, mods);
      ShownAt(spine, Mixed(k, r, mods), k, width);
      var words := m.neededby;
      if Tst(nmod.needs, m.id, width) {
        words := SetIn(words, nmod.id, width);
      }
      SetNeededby(m, words, k, Mixed(k, r, mods), r[k]);
    }

    /** Replace the bitmap of one record. */
    method SetNeededby(m: ModuleRec, words: seq<Word>, ghost k: nat, ghost vs: seq<Mod>, ghost v: Mod)
      requires Lists(vs) && k < |spine| && m == spine[k] && WordsOk(words, width)
      requires v == vs[k].(neededby := Members(words, width))
      modifies m`neededby
      ensures Lists(vs[k := v])
    {
      ShownAt(spine, vs, k, width);
      m.neededby := words;
      forall i | 0 <= i < |spine| ensures Shown(spine[i], vs[k := v][i], width) {
        if i != k {
          assert spine[i] != m;
        }
      }
    }

    /** The first loop of `cexpModuleLoad`: is the name taken, and where does the list end? */
    method FindTail(n: Name, ghost mods: seq<Mod>) returns (taken: bool, tail: ModuleRec?)
      requires Ready(mods)
      ensures taken <==> NameTaken(mods, n)
      ensures !taken ==> tail == if spine == [] then null else spine[|spine| - 1]
    {
      var m := system;
      tail := null;
      ghost var k := 0;
      while m != null
        invariant k <= |spine| && m == At(k) && tail == if k == 0 then null else spine[k - 1]
        invariant forall i :: 0 <= i < k ==> mods[i].name != n
        decreases |spine| - k
      {
        tail := m;
        if m.name == n {
          assert mods[k].name == n;
          return true, tail;
        }
        assert Nexts(spine)[k] == At(k + 1);
        m := m.next;
        k := k + 1;
      }
      return false, tail;
    }

    /** Chain a finished record to the end of the list. */
    method Append(nmod: ModuleRec, tail: ModuleRec?)
      requires Chain() && nmod !in spine && nmod.next == null
      requires tail == if spine == [] then null else spine[|spine| - 1]
      modifies this`system, this`spine, this`nextSerial, if tail == null then {} else {tail}`next
      ensures Chain() && spine == old(spine) + [nmod] && nextSerial == old(nextSerial) + 1
    {
      ghost var was, next := spine, Nexts(spine);
      if tail != null {
        tail.next := nmod;
      } else {
        system := nmod;
      }
      spine := spine + [nmod];
      nextSerial := nextSerial + 1;
      NextsAppended(was, next, nmod, Nexts(spine));
    }

    /** Enter the new module into the books of the others and into the list. */
    method LinkIn(nmod: ModuleRec, tail: ModuleRec?, ghost mods: seq<Mod>, ghost nv: Mod, ghost all: seq<Mod>)
      requires all == Announce(mods, nv) + [nv]
      requires Lists(mods) && nmod !in spine && nmod.next == null
      requires nmod.WordsFit(width) && nv == nmod.View(width)
      requires tail == if spine == [] then null else spine[|spine| - 1]
      modifies this`system, this`spine, this`nextSerial, spine`neededby, spine`next
      ensures Lists(all)
      ensures spine == old(spine) + [nmod] && nextSerial == old(nextSerial) + 1
    {
      AddDependencies(nmod, mods, nv);
      ghost var was, r := spine, Announce(mods, nv);
      Append(nmod, tail);
      ShowSnoc(was, r, nmod, nv, width);
    }

    /** `cexpModuleLoad`. */
    method ModuleLoad(l: Load) returns (rval: ModuleRec?)
      requires Valid() && Admissible(Mods(), l)
      modifies this, spine
      ensures Valid() && LoadStep(old(View()), l, View())
      ensures rval == null ==> spine == old(spine)
      ensures rval != null ==> fresh(rval) && spine == old(spine) + [rval]
    {
      ghost var s, t := View(), EMPTY;
      IsView();
      rval, t := TryLoad(l, s);
      ViewIs(t);
      LoadKeepsInv(s, l, t);
    }

    method TryLoad(l: Load, ghost s: State) returns (rval: ModuleRec?, ghost t: State)
      requires Is(s) && Tables(s.mods) && Admissible(s.mods, l)
      modifies this, spine
      ensures Is(t) && LoadStep(s, l, t)
      ensures rval == null ==> spine == old(spine)
      ensures rval != null ==> fresh(rval) && spine == old(spine) + [rval]
    {
      var nmod := new ModuleRec(l.modName, nextSerial);
      var taken, tail := FindTail(l.modName, s.mods);
      if taken {
        return null, s;
      }
      var ok;
      ok, t := Enter(l, nmod, tail, s);
      rval := if ok then nmod else null;
    }

    /** A record that is to become the new module. */
    ghost predicate Blank(nmod: ModuleRec, l: Load, s: State)
      reads `spine, nmod
    {
      nmod !in spine && nmod.name == l.modName && nmod.serial == s.nextSerial
      && nmod.next == null && nmod.neededby == ZERO
    }

    ghost predicate IsTail(tail: ModuleRec?)
      reads `spine
    {
      tail == if spine == [] then null else spine[|spine| - 1]
    }

    /** `cexpModuleLoad` once the name is known to be new. */
    method Enter(l: Load, nmod: ModuleRec, tail: ModuleRec?, ghost s: State) returns (ok: bool, ghost t: State)
      requires Is(s) && Tables(s.mods) && Admissible(s.mods, l) && !NameTaken(s.mods, l.modName)
      requires Blank(nmod, l, s) && IsTail(tail)
      modifies nmod, this, spine`neededby, spine`next
      ensures Is(t) && LoadStep(s, l, t)
      ensures spine == old(spine) + if ok then [nmod] else []
    {
      ok := IdAlloc(nmod, s.mods);
      t := s;
      if ok {
        ok, t := LoadAndLink(l, nmod, tail, s);
      }
    }

    /** The state that linking in a loaded record leads to. */
    lemma WithLoaded(l: Load, nmod: ModuleRec, s: State) returns (m: Mod, t: State)
      requires WidthOk(width) && |l.addr| == |l.file.syms| && LoadOk(s.mods, l) && !NameTaken(s.mods, l.modName)
      requires nmod.id == NextFree(UsedIds(s.mods), s.lastId, s.lastId)
      requires nmod.name == l.modName && nmod.serial == s.nextSerial && nmod.neededby == ZERO
      requires Outcome(s.mods, l, width, nmod.needs, nmod.symtbl, nmod.refs)
      ensures nmod.WordsFit(width) && m == nmod.View(width)
      ensures t == State(Announce(s.mods, m) + [m], nmod.id, s.nextSerial + 1) && LoadStep(s, l, t)
    {
      ZeroIsEmpty(width);
      m := nmod.View(width);
      OutcomeIsNewMod(s, l, width, nmod.needs, m);
      t := State(Announce(s.mods, m) + [m], nmod.id, s.nextSerial + 1);
      Loaded(s, l, nmod.id, m, t);
    }

    /** The part of `cexpModuleLoad` behind the allocation of an id. */
    method LoadAndLink(l: Load, nmod: ModuleRec, tail: ModuleRec?, ghost s: State) returns (ok: bool, ghost t: State)
      requires Ready(s.mods) && Admissible(s.mods, l) && !NameTaken(s.mods, l.modName)
      requires nextSerial == s.nextSerial && nmod.id == lastId == NextFree(UsedIds(s.mods), s.lastId, s.lastId)
      requires Blank(nmod, l, s) && IsTail(tail)
      modifies nmod, this`system, this`spine, this`nextSerial, spine`neededby, spine`next
      ensures Is(t) && LoadStep(s, l, t)
      ensures spine == old(spine) + if ok then [nmod] else []
    {
      ok := LoadFile(l, nmod, s.mods);
      if !ok {
        t := s.(lastId := lastId);
        NotLoaded(s, l, t);
        return;
      }
      ghost var m;
      m, t := WithLoaded(l, nmod, s);
      LinkAs(nmod, tail, s, m, t);
    }

    method LinkAs(nmod: ModuleRec, tail: ModuleRec?, ghost s: State, ghost m: Mod, ghost t: State)
      requires Lists(s.mods) && nextSerial == s.nextSerial && nmod !in spine && nmod.next == null && IsTail(tail)
      requires nmod.WordsFit(width) && m == nmod.View(width)
      requires t == State(Announce(s.mods, m) + [m], lastId, nextSerial + 1)
      modifies this`system, this`spine, this`nextSerial, spine`neededby, spine`next
      ensures Is(t) && spine == old(spine) + [nmod]
    {
      LinkIn(nmod, tail, s.mods, m, t.mods);
    }

    /** `cexpModuleUnload`; `veto` is the verdict of the module's finalizer.  A handle that is not
        listed belongs to a record that was freed or never listed. */
    method ModuleUnload(mod: ModuleRec?, veto: bool) returns (ok: bool)
      requires Valid()
      requires mod != null && mod !in spine ==> forall i :: 0 <= i < |spine| ==> spine[i].serial != mod.serial
      modifies this`spine, spine`next, spine`neededby
      ensures Valid()
      ensures mod == null ==> !ok && View() == old(View())
      ensures mod != null ==> View() == Unload(old(View()), mod.serial, veto)
      ensures mod != null ==> ok == MayUnload(old(Mods()), mod.serial, veto)
    {
      ghost var s, h, t := View(), if mod == null then 0 else mod.serial, EMPTY;
      IsView();
      ok, t := UnloadTo(mod, veto, h, s);
      ViewIs(t);
    }

    method UnloadTo(mod: ModuleRec?, veto: bool, ghost h: nat, ghost s: State) returns (ok: bool, ghost t: State)
      requires Is(s) && Inv(s) && (mod != null ==> h == mod.serial)
      requires mod != null && mod !in spine ==> forall i :: 0 <= i < |spine| ==> spine[i].serial != h
      modifies this`spine, spine`next, spine`neededby
      ensures Is(t) && Inv(t) && t == (if mod == null then s else Unload(s, h, veto))
      ensures ok == (mod != null && MayUnload(s.mods, h, veto))
    {
      t := Unloaded(s, h, veto, mod != null);
      ok := TryUnload(mod, veto, h, s, t);
    }

    /** `t` is the state that the unload leads to. */
    method TryUnload(mod: ModuleRec?, veto: bool, ghost h: nat, ghost s: State, ghost t: State) returns (ok: bool)
      requires Is(s) && Distinct(s.mods) && (mod != null ==> h == mod.serial)
      requires mod != null && mod !in spine ==> forall i :: 0 <= i < |spine| ==> spine[i].serial != h
      requires t == s.(mods := if mod != null && MayUnload(s.mods, h, veto)
                               then Without(s.mods, FindSerial(s.mods, h).index) else s.mods)
      modifies this`spine, spine`next, spine`neededby
      ensures Is(t) && ok == (mod != null && MayUnload(s.mods, h, veto))
    {
      var pred;
      ghost var k;
      ok, pred, k := Removable(mod, veto, h, s.mods);
      if !ok {
        return;
      }
      RemoveTo(mod, pred, k, s, t);
    }

    method RemoveTo(mod: ModuleRec, pred: ModuleRec, ghost k: nat, ghost s: State, ghost t: State)
      requires Is(s) && k + 1 < |spine| && pred == spine[k] && mod == spine[k + 1]
      requires t == s.(mods := Without(s.mods, k + 1))
      modifies this`spine, spine`next, spine`neededby
      ensures Is(t)
    {
      Remove(mod, pred, k, s.mods, t.mods);
    }

    /** The checks of the unload routine. */
    method Removable(mod: ModuleRec?, veto: bool, ghost h: nat, ghost mods: seq<Mod>)
      returns (ok: bool, pred: ModuleRec?, ghost k: nat)
      requires Lists(mods) && Distinct(mods) && (mod != null ==> h == mod.serial)
      requires mod != null && mod !in spine ==> forall i :: 0 <= i < |spine| ==> spine[i].serial != h
      ensures mod == null ==> !ok
      ensures mod != null ==> ok == MayUnload(mods, h, veto)
      ensures ok ==> k + 1 < |spine| && pred == spine[k] && mod == spine[k + 1]
                     && FindSerial(mods, h) == Found.At(k + 1)
    {
      pred, k := Predecessor(mod);
      if mod != null && mod == system {
        assert mod == spine[0] && mods[0].serial == h;
        return false, pred, k;
      }
      if mod == null || pred == null {
        if mod != null {
          NotListed(mod, mods);
        }
        return false, pred, k;
      }
      ShownAt(spine, mods, k + 1, width);
      SerialAt(mods, k + 1);
      var any := AnyBit(mod.neededby, width);
      return !any && !veto, pred, k;
    }

    method Remove(mod: ModuleRec, pred: ModuleRec, ghost k: nat, ghost mods: seq<Mod>, ghost rest: seq<Mod>)
      requires Lists(mods) && k + 1 < |spine| && pred == spine[k] && mod == spine[k + 1]
      requires rest == Without(mods, k + 1)
      modifies this`spine, spine`next, spine`neededby
      ensures Lists(rest)
    {
      ghost var was := spine;
      ClearDependencies(mod, k + 1, mods);
      TakeOut(mod, pred, k, Retract(mods, mods[k + 1].id));
      ShowRest(was, mods, k + 1, width);
    }

    /** Unlinking a record changes nothing that the records stand for. */
    method TakeOut(mod: ModuleRec, pred: ModuleRec, ghost k: nat, ghost vs: seq<Mod>)
      requires Chain() && Show(spine, vs, width) && k + 1 < |spine| && pred == spine[k] && mod == spine[k + 1]
      modifies this`spine, pred`next, mod`next
      ensures Chain() && spine == Dropped(old(spine), k + 1) && Show(old(spine), vs, width)
    {
      Unlink(mod, pred, k);
    }

    lemma NotListed(mod: ModuleRec, mods: seq<Mod>)
      requires Lists(mods) && mod !in spine
      requires forall i :: 0 <= i < |spine| ==> spine[i].serial != mod.serial
      ensures FindSerial(mods, mod.serial).Missing?
    {
      assert forall i :: 0 <= i < |spine| ==> mods[i].serial == spine[i].serial;
    }

    /** Remove the bit of the module from the bitmaps of all. */
    method ClearDependencies(mod: ModuleRec, ghost at: nat, ghost mods: seq<Mod>)
      requires Lists(mods) && at < |spine| && mod == spine[at]
      modifies spine`neededby
      ensures Chain() && Show(spine, Retract(mods, mods[at].id), width)
    {
      var m := system;
      ghost var k, r := 0, Retract(mods, mods[at].id);
      MixedEnds(r, mods);
      while m != null
        invariant k <= |spine| && m == At(k) && Lists(Mixed(k, r, mods))
        decreases |spine| - k
      {
        ClearOne(m, mod.id, k, r, mods);
        assert Nexts(spine)[k] == At(k + 1);
        m := m.next;
        k := k + 1;
      }
    }

    method ClearOne(m: ModuleRec, id: Id, ghost k: nat, ghost r: seq<Mod>, ghost mods: seq<Mod>)
      requires |r| == |mods| && k < |spine| && Lists(Mixed(k, r, mods)) && m == spine[k]
      requires r[k] == mods[k].(neededby := mods[k].neededby - {id})
      modifies m`neededby
      ensures Lists(Mixed(k + 1, r, mods))
    {
      MixedNext(k, r, mods);
      ShownAt(spine, Mixed(k, r, mods), k, width);
      var words := ClrIn(m.neededby, id, width);
      SetNeededby(m, words, k, Mixed(k, r, mods), r[k]);
    }

    /** Take the record behind `pred` out of the list. */
    method Unlink(mod: ModuleRec, pred: ModuleRec, ghost k: nat)
      requires Chain() && k + 1 < |spine| && pred == spine[k] && mod == spine[k + 1]
      modifies this`spine, pred`next, mod`next
      ensures Chain() && spine == Dropped(old(spine), k + 1) && mod.next == null
    {
      ghost var was, next := spine, Nexts(spine);
      pred.next := mod.next;
      mod.next := null;
      spine := Dropped(was, k + 1);
      NextsDropped(was, next, k, Nexts(spine));
    }
  }

  /** The state after an unload; without a handle nothing happens. */
  lemma Unloaded(s: State, h: nat, veto: bool, given: bool) returns (t: State)
    requires Inv(s)
    ensures Inv(t) && t == if given then Unload(s, h, veto) else s
    ensures t == s.(mods := if given && MayUnload(s.mods, h, veto)
                            then Without(s.mods, FindSerial(s.mods, h).index) else s.mods)
  {
    t := if given then Unload(s, h, veto) else s;
    UnloadKeepsInv(s, h, veto);
  }

  /** What a successful `cexpLoadFile` puts into the record. */
  ghost predicate Outcome(mods: seq<Mod>, l: Load, width: nat, needs: seq<Word>, table: seq<Sym>, refs: set<Ref>)
    requires |l.addr| == |l.file.syms|
  {
    var loans := AllLoans(mods, l.file);
    && LoansOk(mods, loans) && NeedsAre(needs, width, mods, loans) && refs == RefsOf(mods, loans)
    && TableOf(table, KeptSyms(mods, l.file.syms, l.addr, l.ptrSize))
  }

  lemma OutcomeIsNewMod(s: State, l: Load, width: nat, needs: seq<Word>, m: Mod)
    requires |l.addr| == |l.file.syms| && Outcome(s.mods, l, width, needs, m.table, m.refs)
    requires m.serial == s.nextSerial && m.name == l.modName && m.needs == Members(needs, width) && m.neededby == {}
    ensures NewMod(s, l, m.id, m)
  {
  }

  lemma NotLoaded(s: State, l: Load, s': State)
    requires |l.addr| == |l.file.syms| && !LoadOk(s.mods, l) && !NameTaken(s.mods, l.modName)
    requires s' == s.(lastId := s'.lastId) && s'.lastId == NextFree(UsedIds(s.mods), s.lastId, s.lastId)
    ensures LoadStep(s, l, s')
  {
  }

  lemma Loaded(s: State, l: Load, id: Id, m: Mod, s': State)
    requires |l.addr| == |l.file.syms| && LoadOk(s.mods, l) && !NameTaken(s.mods, l.modName)
    requires id == NextFree(UsedIds(s.mods), s.lastId, s.lastId) && NewMod(s, l, id, m)
    requires s' == State(Announce(s.mods, m) + [m], id, s.nextSerial + 1)
    ensures LoadStep(s, l, s')
  {
  }

  /** The filter pass of `cexpCreateSymTbl`: keep what resolution marked. */
  method Filter(syms: seq<ObjSym>, acts: seq<Action>, addr: seq<nat>, ptrSize: nat, ghost mods: seq<Mod>)
    returns (kept: seq<Sym>)
    requires |acts| == |addr| == |syms| && ActsAre(acts, mods, syms)
    ensures kept == KeptSyms(mods, syms, addr, ptrSize)
  {
    kept := [];
    for i := 0 to |syms|
      invariant kept == KeptSyms(mods, syms[..i], addr[..i], ptrSize)
    {
      assert syms[..i + 1][..i] == syms[..i] && addr[..i + 1][..i] == addr[..i];
      assert acts[i] == Classify(mods, syms[i]);
      if acts[i].Keep? || acts[i].NewCommon? {
        kept := kept + [Entry(syms[i], acts[i], addr[i], ptrSize)];
      } else {
        assert kept + [] == kept;
      }
    }
    assert syms[..|syms|] == syms && addr[..|addr|] == addr;
  }

  /** The names `cexpSortSymTbl` can deal with. */
  ghost predicate GoodNames(t: seq<Sym>)
  {
    forall k :: 0 <= k < |t| ==> Plain(t[k].name) && t[k].name != MARKER
  }

  lemma {:induction false} KeptNames(mods: seq<Mod>, syms: seq<ObjSym>, addr: seq<nat>, ptrSize: nat)
    requires |addr| == |syms|
    requires forall k :: 0 <= k < |syms| ==> Plain(syms[k].name) && syms[k].name != MARKER
    ensures GoodNames(KeptSyms(mods, syms, addr, ptrSize))
  {
    if syms != [] {
      var n := |syms| - 1;
      KeptNames(mods, syms[..n], addr[..n], ptrSize);
    }
  }

  /** `RelocTarget` of a symbol that is still undefined. */
  function ExternalTarget(mods: seq<Mod>, n: Name): Target
  {
    match LookupMod(mods, n)
    case Missing => Bad
    case At(i) =>
      if i == 0 && n == DSO_HANDLE then
        if Has(mods[0], CXA_FINALIZE) then OwnHandle else Bad
      else External(i)
  }

  lemma CxaIsPlain()
    ensures Plain(CXA_FINALIZE)
  {
    assert forall i :: 0 <= i < 14 ==> "__cxa_finalize"[i] != '@' && "__cxa_finalize"[i] as int > 0;
  }

  lemma ExternalIsLookup(mods: seq<Mod>, n: Name)
    requires ExternalTarget(mods, n).External?
    ensures LookupMod(mods, n) == At(ExternalTarget(mods, n).from)
  {
  }

  /** The slots during relocation: still undefined, or settled with the loan already recorded. */
  ghost predicate Slots(mods: seq<Mod>, f: ObjFile, loans: seq<Loan>, und: seq<bool>)
  {
    && |und| == |f.syms|
    && forall j :: 0 <= j < |und| ==>
         if und[j] then RelocTarget(mods, f.syms, j) == ExternalTarget(mods, f.syms[j].name)
         else Settled(loans, f.syms[j].name, RelocTarget(mods, f.syms, j))
  }

  predicate Settled(loans: seq<Loan>, n: Name, t: Target)
  {
    match t
    case Bad => false
    case External(i) => Loan(n, i) in loans
    case _ => true
  }

  ghost predicate NoneBad(mods: seq<Mod>, f: ObjFile, relocs: seq<int>)
  {
    forall k :: 0 <= k < |relocs| ==> !RelocTarget(mods, f.syms, relocs[k]).Bad?
  }

  /** What the relocation loop knows after the relocations `p`. */
  ghost predicate Relocating(mods: seq<Mod>, f: ObjFile, p: seq<int>, width: nat, base: seq<Loan>,
                             und: seq<bool>, errs: nat, needs: seq<Word>)
  {
    && Slots(mods, f, base + RelocLoans(mods, f.syms, p), und)
    && NeedsAre(needs, width, mods, base + RelocLoans(mods, f.syms, p))
    && (errs == 0 <==> NoneBad(mods, f, p))
  }

  function RelocLent(mods: seq<Mod>, f: ObjFile, idx: int): seq<Loan>
  {
    match RelocTarget(mods, f.syms, idx) case External(i) => [Loan(f.syms[idx].name, i)] case _ => []
  }

  function TargetLent(n: Name, t: Target): seq<Loan>
  {
    match t case External(i) => [Loan(n, i)] case _ => []
  }

  lemma TargetEffect(mods: seq<Mod>, f: ObjFile, idx: nat, loans: seq<Loan>, und: seq<bool>, t: Target)
    requires Slots(mods, f, loans, und) && idx < |f.syms| && und[idx]
    requires t == ExternalTarget(mods, f.syms[idx].name)
    ensures RelocTarget(mods, f.syms, idx) == t && RelocLent(mods, f, idx) == TargetLent(f.syms[idx].name, t)
  {
  }

  lemma RelocLoansSnoc(mods: seq<Mod>, f: ObjFile, k: nat)
    requires k < |f.relocs|
    ensures RelocLoans(mods, f.syms, f.relocs[..k + 1])
         == RelocLoans(mods, f.syms, f.relocs[..k]) + RelocLent(mods, f, f.relocs[k])
  {
    assert f.relocs[..k + 1][..k] == f.relocs[..k];
  }

  lemma NoneBadSnoc(mods: seq<Mod>, f: ObjFile, k: nat)
    requires k < |f.relocs|
    ensures NoneBad(mods, f, f.relocs[..k + 1])
       <==> NoneBad(mods, f, f.relocs[..k]) && !RelocTarget(mods, f.syms, f.relocs[k]).Bad?
  {
    var p, q := f.relocs[..k], f.relocs[..k + 1];
    assert forall i :: 0 <= i < k ==> q[i] == p[i];
    assert q[k] == f.relocs[k];
  }

  lemma SlotsGrow(mods: seq<Mod>, f: ObjFile, loans: seq<Loan>, more: seq<Loan>, und: seq<bool>)
    requires Slots(mods, f, loans, und)
    ensures Slots(mods, f, loans + more, und)
  {
  }

  lemma SlotsSettle(mods: seq<Mod>, f: ObjFile, loans: seq<Loan>, und: seq<bool>, idx: nat)
    requires Slots(mods, f, loans, und) && idx < |und| && !RelocTarget(mods, f.syms, idx).Bad?
    ensures Slots(mods, f, loans + RelocLent(mods, f, idx), und[idx := false])
  {
    SlotsGrow(mods, f, loans, RelocLent(mods, f, idx), und);
  }

  /** Borrowing again what is already recorded changes nothing. */
  lemma NeedsAgain(needs: seq<Word>, width: nat, mods: seq<Mod>, loans: seq<Loan>, more: seq<Loan>)
    requires NeedsAre(needs, width, mods, loans) && forall l :: l in more ==> l in loans
    ensures NeedsAre(needs, width, mods, loans + more)
  {
    assert forall l :: l in loans + more <==> l in loans;
    assert NeedsOf(mods, loans + more) == NeedsOf(mods, loans);
  }

  /** What one relocation does to the slots, the error count and the bitmap. */
  ghost predicate RelocEffect(mods: seq<Mod>, f: ObjFile, idx: int, width: nat, loans: seq<Loan>,
                              und: seq<bool>, errs: nat, needs: seq<Word>,
                              und': seq<bool>, errs': nat, needs': seq<Word>)
    requires |und| == |f.syms|
  {
    if !(0 <= idx < |und|) || (und[idx] && RelocTarget(mods, f.syms, idx).Bad?) then
      und' == und && errs' == errs + 1 && needs' == needs
    else if !und[idx] then
      und' == und && errs' == errs && needs' == needs
    else
      und' == und[idx := false] && errs' == errs
      && NeedsAre(needs', width, mods, loans + RelocLent(mods, f, idx))
  }

  lemma EffectOnNeeds(mods: seq<Mod>, f: ObjFile, idx: int, width: nat, loans: seq<Loan>,
                      und: seq<bool>, errs: nat, needs: seq<Word>,
                      und': seq<bool>, errs': nat, needs': seq<Word>)
    requires Slots(mods, f, loans, und) && NeedsAre(needs, width, mods, loans)
    requires RelocEffect(mods, f, idx, width, loans, und, errs, needs, und', errs', needs')
    ensures NeedsAre(needs', width, mods, loans + RelocLent(mods, f, idx))
  {
    if !(0 <= idx < |und|) || !und[idx] || RelocTarget(mods, f.syms, idx).Bad? {
      NeedsAgain(needs, width, mods, loans, RelocLent(mods, f, idx));
    }
  }

  lemma EffectOnSlots(mods: seq<Mod>, f: ObjFile, idx: int, width: nat, loans: seq<Loan>,
                      und: seq<bool>, errs: nat, needs: seq<Word>,
                      und': seq<bool>, errs': nat, needs': seq<Word>)
    requires Slots(mods, f, loans, und)
    requires RelocEffect(mods, f, idx, width, loans, und, errs, needs, und', errs', needs')
    ensures Slots(mods, f, loans + RelocLent(mods, f, idx), und')
    ensures errs' == errs + if RelocTarget(mods, f.syms, idx).Bad? then 1 else 0
  {
    if 0 <= idx < |und| && und[idx] && !RelocTarget(mods, f.syms, idx).Bad? {
      SlotsSettle(mods, f, loans, und, idx);
    } else {
      SlotsGrow(mods, f, loans, RelocLent(mods, f, idx), und);
    }
  }

  lemma RelocatingStep(mods: seq<Mod>, f: ObjFile, k: nat, width: nat, base: seq<Loan>,
                       und: seq<bool>, errs: nat, needs: seq<Word>,
                       und': seq<bool>, errs': nat, needs': seq<Word>)
    requires k < |f.relocs| && Relocating(mods, f, f.relocs[..k], width, base, und, errs, needs)
    requires RelocEffect(mods, f, f.relocs[k], width, base + RelocLoans(mods, f.syms, f.relocs[..k]),
                         und, errs, needs, und', errs', needs')
    ensures Relocating(mods, f, f.relocs[..k + 1], width, base, und', errs', needs')
  {
    var loans := base + RelocLoans(mods, f.syms, f.relocs[..k]);
    EffectOnNeeds(mods, f, f.relocs[k], width, loans, und, errs, needs, und', errs', needs');
    EffectOnSlots(mods, f, f.relocs[k], width, loans, und, errs, needs, und', errs', needs');
    RelocLoansSnoc(mods, f, k);
    NoneBadSnoc(mods, f, k);
    assert loans + RelocLent(mods, f, f.relocs[k])
        == base + RelocLoans(mods, f.syms, f.relocs[..k + 1]);
  }

  /** The slots as symbol resolution leaves them. */
  ghost predicate InitialSlots(f: ObjFile, acts: seq<Action>, und: seq<bool>)
    requires |acts| == |f.syms|
  {
    |und| == |f.syms| && forall j :: 0 <= j < |und| ==>
      und[j] == (f.syms[j].place.Undefined? && !acts[j].Borrow? && !acts[j].NewCommon?)
  }

  method FirstSlots(f: ObjFile, acts: seq<Action>) returns (und: seq<bool>)
    requires |acts| == |f.syms|
    ensures InitialSlots(f, acts, und)
  {
    und := seq(|f.syms|, j requires 0 <= j < |f.syms| && |acts| == |f.syms| =>
      f.syms[j].place.Undefined? && !acts[j].Borrow? && !acts[j].NewCommon?);
  }

  lemma RelocatingInit(mods: seq<Mod>, f: ObjFile, acts: seq<Action>, width: nat, und: seq<bool>, needs: seq<Word>)
    requires |acts| == |f.syms| && ActsAre(acts, mods, f.syms) && InitialSlots(f, acts, und)
    requires NeedsAre(needs, width, mods, Loans(mods, f.syms))
    ensures Relocating(mods, f, f.relocs[..0], width, Loans(mods, f.syms), und, 0, needs)
  {
    var base := Loans(mods, f.syms);
    assert base + RelocLoans(mods, f.syms, f.relocs[..0]) == base;
    forall j | 0 <= j < |und|
      ensures if und[j] then RelocTarget(mods, f.syms, j) == ExternalTarget(mods, f.syms[j].name)
              else RelocTarget(mods, f.syms, j) == Internal
    {
    }
  }

  function Lent(s: ObjSym, a: Action): seq<Loan>
  {
    match a case Borrow(f) => [Loan(s.name, f)] case _ => []
  }

  lemma ResolvingStep(mods: seq<Mod>, syms: seq<ObjSym>, i: nat, width: nat, errs: nat, ini: bool, fini: bool,
                      a: Action, errs': nat, needs': seq<Word>)
    requires i < |syms| && Tally(mods, syms[..i], errs, ini, fini) && a == Classify(mods, syms[i])
    requires NeedsAre(needs', width, mods, Loans(mods, syms[..i]) + Lent(syms[i], a))
    requires errs' == errs + Dup(syms[i].name, ini, fini) + (if a.Reject? then 1 else 0)
    ensures Resolving(mods, syms[..i + 1], width, errs', ini || syms[i].name == INITIALIZER,
                      fini || syms[i].name == FINALIZER, needs')
  {
    LoansSnoc(mods, syms, i);
    TallyStep(mods, syms, i, errs, ini, fini, errs');
  }

  ghost predicate ActsAre(acts: seq<Action>, mods: seq<Mod>, syms: seq<ObjSym>)
    requires |acts| <= |syms|
  {
    forall k :: 0 <= k < |acts| ==> acts[k] == Classify(mods, syms[k])
  }

  lemma ActsNext(acts: seq<Action>, mods: seq<Mod>, syms: seq<ObjSym>, a: Action)
    requires |acts| < |syms| && ActsAre(acts, mods, syms) && a == Classify(mods, syms[|acts|])
    ensures ActsAre(acts + [a], mods, syms)
  {
  }

  lemma ResolvingNone(mods: seq<Mod>, syms: seq<ObjSym>, width: nat)
    requires WidthOk(width)
    ensures Resolving(mods, syms[..0], width, 0, false, false, ZERO)
  {
    ZeroIsEmpty(width);
  }

  /** What the loop of `resolve_syms` knows after the symbols `p`. */
  ghost predicate Resolving(mods: seq<Mod>, p: seq<ObjSym>, width: nat, errs: nat, ini: bool, fini: bool,
                            needs: seq<Word>)
  {
    Tally(mods, p, errs, ini, fini) && NeedsAre(needs, width, mods, Loans(mods, p))
  }

  function Dup(n: Name, ini: bool, fini: bool): nat
  {
    if n == INITIALIZER then (if ini then 1 else 0) else if n == FINALIZER && fini then 1 else 0
  }

  /** At most one initializer and one finalizer may be present in a loaded object. */
  method NoteCallback(n: Name, ini: bool, fini: bool) returns (dup: nat, ini': bool, fini': bool)
    ensures dup == Dup(n, ini, fini)
    ensures ini' == (ini || n == INITIALIZER) && fini' == (fini || n == FINALIZER)
  {
    dup, ini', fini' := 0, ini, fini;
    if n == INITIALIZER {
      if ini {
        dup := 1;
      }
      ini' := true;
      assert |INITIALIZER| != |FINALIZER|;
    } else if n == FINALIZER {
      if fini {
        dup := 1;
      }
      fini' := true;
    }
  }

  /** The bitmap records exactly the lenders. */
  ghost predicate NeedsAre(needs: seq<Word>, width: nat, mods: seq<Mod>, loans: seq<Loan>)
  {
    WordsOk(needs, width) && LoansOk(mods, loans) && Members(needs, width) == NeedsOf(mods, loans)
  }

  /** The error count and the two "seen" flags after a prefix of the symbols. */
  ghost predicate Tally(mods: seq<Mod>, p: seq<ObjSym>, errs: nat, ini: bool, fini: bool)
  {
    && (errs == 0 <==> Resolved(mods, p))
    && (ini <==> CountObj(p, INITIALIZER) >= 1)
    && (fini <==> CountObj(p, FINALIZER) >= 1)
  }

  lemma CountSnoc(syms: seq<ObjSym>, i: nat, n: Name)
    requires i < |syms|
    ensures CountObj(syms[..i + 1], n) == CountObj(syms[..i], n) + (if syms[i].name == n then 1 else 0)
  {
    assert syms[..i + 1][..i] == syms[..i];
  }

  lemma LoansSnoc(mods: seq<Mod>, syms: seq<ObjSym>, i: nat)
    requires i < |syms|
    ensures Loans(mods, syms[..i + 1]) == Loans(mods, syms[..i]) + Lent(syms[i], Classify(mods, syms[i]))
  {
    assert syms[..i + 1][..i] == syms[..i];
  }

  ghost predicate NoRejects(mods: seq<Mod>, p: seq<ObjSym>)
  {
    forall k :: 0 <= k < |p| ==> !Classify(mods, p[k]).Reject?
  }

  lemma NoRejectsSnoc(mods: seq<Mod>, syms: seq<ObjSym>, i: nat)
    requires i < |syms|
    ensures NoRejects(mods, syms[..i + 1]) <==> NoRejects(mods, syms[..i]) && !Classify(mods, syms[i]).Reject?
  {
    var p, q := syms[..i], syms[..i + 1];
    assert forall k :: 0 <= k < i ==> q[k] == p[k];
    assert q[i] == syms[i];
  }

  lemma TallyStep(mods: seq<Mod>, syms: seq<ObjSym>, i: nat, errs: nat, ini: bool, fini: bool, errs': nat)
    requires i < |syms| && Tally(mods, syms[..i], errs, ini, fini)
    requires var s := syms[i];
      errs' == errs + Dup(s.name, ini, fini) + (if Classify(mods, s).Reject? then 1 else 0)
    ensures Tally(mods, syms[..i + 1], errs', ini || syms[i].name == INITIALIZER, fini || syms[i].name == FINALIZER)
  {
    CountSnoc(syms, i, INITIALIZER);
    CountSnoc(syms, i, FINALIZER);
    NoRejectsSnoc(mods, syms, i);
    var p, q := syms[..i], syms[..i + 1];
    assert Resolved(mods, p) <==> NoRejects(mods, p) && CountObj(p, INITIALIZER) <= 1 && CountObj(p, FINALIZER) <= 1;
    assert Resolved(mods, q) <==> NoRejects(mods, q) && CountObj(q, INITIALIZER) <= 1 && CountObj(q, FINALIZER) <= 1;
    assert |INITIALIZER| != |FINALIZER|;
  }

  lemma NeedsSnoc(mods: seq<Mod>, loans: seq<Loan>, l: Loan)
    requires LoansOk(mods, loans) && LookupMod(mods, l.name) == At(l.from)
    ensures LoansOk(mods, loans + [l])
    ensures NeedsOf(mods, loans + [l]) == NeedsOf(mods, loans) + {mods[l.from].id}
  {
    assert l in loans + [l];
    forall d | d in NeedsOf(mods, loans) ensures d in NeedsOf(mods, loans + [l]) {
      var x :| x in loans && mods[x.from].id == d;
      assert x in loans + [l];
    }
  }

  lemma ClassifyBorrows(mods: seq<Mod>, s: ObjSym)
    requires Classify(mods, s).Borrow?
    ensures LookupMod(mods, s.name) == At(Classify(mods, s).from)
  {
  }

  /** The do-while loop of `idAlloc`. */
  method SearchFree(used: seq<Word>, last: Id, width: nat) returns (newId: int)
    requires WordsOk(used, width)
    ensures newId == NextFree(Members(used, width), last, last)
  {
    var id: Id := last;
    ghost var u := Members(used, width);
    while true
      invariant NextFree(u, last, id) == NextFree(u, last, last)
      decreases Distance(id, last)
    {
      ghost var was := id;
      id := (id + 1) % MAX_NUM_MODULES;
      assert id == Successor(was);
      if id == last {
        return -1;
      }
      CloserToLast(was, last);
      if !Tst(used, id, width) {
        assert id !in u;
        return id;
      }
      assert id in u;
    }
  }

  lemma CloserToLast(id: Id, last: Id)
    requires Successor(id) != last
    ensures Distance(Successor(id), last) < Distance(id, last)
  {
  }

  lemma UsedSnoc(mods: seq<Mod>, k: nat)
    requires k < |mods|
    ensures UsedIds(mods[..k + 1]) == UsedIds(mods[..k]) + {mods[k].id}
  {
    assert mods[..k + 1][k] == mods[k];
    forall d | d in UsedIds(mods[..k]) ensures d in UsedIds(mods[..k + 1]) {
      var i :| 0 <= i < k && mods[..k][i].id == d;
      assert mods[..k + 1][i].id == d;
    }
    forall d | d in UsedIds(mods[..k + 1]) && d != mods[k].id ensures d in UsedIds(mods[..k]) {
      var i :| 0 <= i < k + 1 && mods[..k + 1][i].id == d;
      assert mods[..k][i].id == d;
    }
  }
}

/** What a load and an unload give, in terms of the fields of the object file and of the modules that are
    loaded: when they succeed, what the new module exports, what it refers to and what it needs. */
module LoadResults {
  import opened SymNames
  import opened SymTbl
  import opened Bitmap
  import opened LoaderSpec
  import opened LoaderRuns

  /** The load has appended the module `m`. */
  ghost predicate Appends(s: State, l: Load, s': State, m: Mod)
  {
    && |l.addr| == |l.file.syms| && LoadStep(s, l, s')
    && |s'.mods| > |s.mods| && m == s'.mods[|s.mods|]
  }

  /** A global symbol that is no callback of the module. */
  predicate Global(x: ObjSym)
  {
    !x.local && x.name != INITIALIZER && x.name != FINALIZER && !x.threadLocal
  }

  /** No loaded module knows the name. */
  ghost predicate New(mods: seq<Mod>, n: Name)
  {
    forall i, e :: 0 <= i < |mods| && e in mods[i].table ==> e.name != n
  }

  lemma NewIsMissing(mods: seq<Mod>, n: Name)
    ensures New(mods, n) <==> LookupMod(mods, n).Missing?
  {
    if LookupMod(mods, n).Missing? {
      forall i, e | 0 <= i < |mods| && e in mods[i].table ensures e.name != n {
        assert !Has(mods[i], n);
      }
    } else {
      var i := LookupMod(mods, n).index;
      assert Get(mods[i], n) in mods[i].table;
    }
  }

  // ---- what the new module exports

  predicate Defined(x: ObjSym) { Global(x) && !x.place.Undefined? }

  predicate SectionName(x: ObjSym)
  {
    (x.local || x.name == INITIALIZER || x.name == FINALIZER) && x.sectionSym && x.place == Section(true)
  }

  /** An undefined function with a value lives in a shared library. */
  predicate Shared(x: ObjSym) { Global(x) && x.place.Undefined? && x.value != 0 && x.code }

  /** A weak undefined symbol gets memory of its own. */
  predicate Weak(x: ObjSym) { Global(x) && x.place.Undefined? && x.weak && (x.value == 0 || !x.code) }

  /** Symbols that go into the table of the module. */
  ghost predicate Exported(mods: seq<Mod>, x: ObjSym)
  {
    SectionName(x) || (New(mods, x.name) && (Defined(x) || Shared(x) || Weak(x)))
  }

  /** The entry says where the symbol ended up and how large it is: functions without a size count as
      pointers, and weak undefined objects have the size in their value. */
  predicate Describes(e: Sym, x: ObjSym, addr: nat, ptrSize: nat)
  {
    && e.name == x.name && e.value == addr && e.sect == x.sectionSym && e.weak == x.weak
    && (x.code && x.size == 0 ==> e.size == ptrSize)
    && (x.code && x.size != 0 ==> e.size == x.size)
    && (!x.code && (x.sectionSym || !x.place.Undefined?) ==> e.size == x.size)
    && (Weak(x) && !x.code && !x.sectionSym ==> e.size == x.value)
  }

  lemma ExportedIsKept(mods: seq<Mod>, x: ObjSym, addr: nat, ptrSize: nat)
    requires !Classify(mods, x).Reject?
    ensures var a := Classify(mods, x);
      && (Exported(mods, x) <==> a.Keep? || a.NewCommon?)
      && (a.Keep? || a.NewCommon? ==> Describes(Entry(x, a, addr, ptrSize), x, addr, ptrSize))
  {
    NewIsMissing(mods, x.name);
  }

  /** Some symbol of the file with that entry is exported. */
  ghost predicate Accounted(mods: seq<Mod>, syms: seq<ObjSym>, addr: seq<nat>, ptrSize: nat, e: Sym, k: nat)
    requires |addr| == |syms|
  {
    k < |syms| && Exported(mods, syms[k]) && Describes(e, syms[k], addr[k], ptrSize)
  }

  lemma {:induction false} KeptIsAccounted(mods: seq<Mod>, syms: seq<ObjSym>, addr: seq<nat>, ptr: nat, e: Sym)
    returns (k: nat)
    requires |addr| == |syms| && e in KeptSyms(mods, syms, addr, ptr)
    requires forall i :: 0 <= i < |syms| ==> !Classify(mods, syms[i]).Reject?
    ensures Accounted(mods, syms, addr, ptr, e, k)
  {
    var n := |syms| - 1;
    if e in KeptSyms(mods, syms[..n], addr[..n], ptr) {
      k := KeptIsAccounted(mods, syms[..n], addr[..n], ptr, e);
    } else {
      k := n;
      ExportedIsKept(mods, syms[n], addr[n], ptr);
    }
  }

  lemma {:induction false} ExportIsKept(mods: seq<Mod>, syms: seq<ObjSym>, addr: seq<nat>, ptr: nat, k: nat)
    requires |addr| == |syms| && k < |syms| && Exported(mods, syms[k]) && !Classify(mods, syms[k]).Reject?
    ensures syms[k].name in Names(KeptSyms(mods, syms, addr, ptr))
  {
    var n := |syms| - 1;
    var was, now := KeptSyms(mods, syms[..n], addr[..n], ptr), KeptSyms(mods, syms, addr, ptr);
    ExportedIsKept(mods, syms[k], addr[k], ptr);
    if k == n {
      assert now[|was|].name == syms[k].name;
    } else {
      ExportIsKept(mods, syms[..n], addr[..n], ptr, k);
      var i :| 0 <= i < |was| && was[i].name == syms[k].name;
      assert now[i] == was[i];
    }
  }

  /** Every entry of a new table stands for an exported symbol of the file, with its address and size. */
  lemma EntriesAreExports(s: State, l: Load, s': State, m: Mod, e: Sym) returns (k: nat)
    requires Appends(s, l, s', m) && e in m.table
    ensures Accounted(s.mods, l.file.syms, l.addr, l.ptrSize, e, k)
  {
    k := KeptIsAccounted(s.mods, l.file.syms, l.addr, l.ptrSize, e);
  }

  /** Every exported symbol of the file has its name in the new table; if no other exported symbol has that
      name, the entry gives its address and size. */
  lemma ExportsAreEntries(s: State, l: Load, s': State, m: Mod, k: nat)
    requires Appends(s, l, s', m) && k < |l.file.syms| && Exported(s.mods, l.file.syms[k])
    ensures Has(m, l.file.syms[k].name)
    ensures (forall j :: 0 <= j < |l.file.syms| && l.file.syms[j].name == l.file.syms[k].name ==> j == k) ==>
      Describes(Get(m, l.file.syms[k].name), l.file.syms[k], l.addr[k], l.ptrSize)
  {
    var n := l.file.syms[k].name;
    ExportIsKept(s.mods, l.file.syms, l.addr, l.ptrSize, k);
    assert n in Names(m.table);
    assert Has(m, n);
    var j := EntriesAreExports(s, l, s', m, Get(m, n));
  }

  // ---- what it refers to

  /** The reference is to the entry that lookup finds for the name, in module `i`. */
  predicate RefersTo(mods: seq<Mod>, n: Name, i: nat, r: Ref)
  {
    LookupMod(mods, n) == Found.At(i) && r == Ref(n, mods[i].serial, Get(mods[i], n).value)
  }

  /** Symbol `k` of the file is defined in a loaded module already. */
  ghost predicate Reuse(mods: seq<Mod>, syms: seq<ObjSym>, k: nat, i: nat, r: Ref)
  {
    k < |syms| && Defined(syms[k]) && RefersTo(mods, syms[k].name, i, r)
  }

  /** Relocation `k` is against an undefined symbol that module `i` defines, other than the handle of the
      system itself. */
  ghost predicate Import(mods: seq<Mod>, syms: seq<ObjSym>, relocs: seq<int>, k: nat, i: nat, r: Ref)
  {
    && k < |relocs| && 0 <= relocs[k] < |syms|
    && syms[relocs[k]].place.Undefined? && RefersTo(mods, syms[relocs[k]].name, i, r)
    && !(i == 0 && syms[relocs[k]].name == DSO_HANDLE)
  }

  ghost predicate Reused(mods: seq<Mod>, syms: seq<ObjSym>, r: Ref)
  {
    exists k: nat, i: nat :: Reuse(mods, syms, k, i, r)
  }

  ghost predicate Imported(mods: seq<Mod>, syms: seq<ObjSym>, relocs: seq<int>, r: Ref)
  {
    exists k: nat, i: nat :: Import(mods, syms, relocs, k, i, r)
  }

  function RefOf(mods: seq<Mod>, x: Loan): (r: Ref)
    requires LookupMod(mods, x.name) == Found.At(x.from)
    ensures RefersTo(mods, x.name, x.from, r)
  {
    Ref(x.name, mods[x.from].serial, Get(mods[x.from], x.name).value)
  }

  lemma {:induction false} LoanIsReuse(mods: seq<Mod>, syms: seq<ObjSym>, x: Loan)
    requires x in Loans(mods, syms) && LookupMod(mods, x.name) == Found.At(x.from)
    ensures Reused(mods, syms, RefOf(mods, x))
  {
    var n := |syms| - 1;
    if x in Loans(mods, syms[..n]) {
      LoanIsReuse(mods, syms[..n], x);
      var k: nat, i: nat :| Reuse(mods, syms[..n], k, i, RefOf(mods, x));
      assert Reuse(mods, syms, k, i, RefOf(mods, x));
    } else {
      assert Reuse(mods, syms, n, x.from, RefOf(mods, x));
    }
  }

  lemma {:induction false} LoanIsImport(mods: seq<Mod>, syms: seq<ObjSym>, relocs: seq<int>, x: Loan)
    requires x in RelocLoans(mods, syms, relocs) && LookupMod(mods, x.name) == Found.At(x.from)
    ensures Imported(mods, syms, relocs, RefOf(mods, x))
  {
    var n, r := |relocs| - 1, RefOf(mods, x);
    if x in RelocLoans(mods, syms, relocs[..n]) {
      LoanIsImport(mods, syms, relocs[..n], x);
      var k: nat, i: nat :| Import(mods, syms, relocs[..n], k, i, r);
      assert Import(mods, syms, relocs, k, i, r);
    } else {
      assert RelocTarget(mods, syms, relocs[n]) == External(x.from);
      assert Import(mods, syms, relocs, n, x.from, r);
    }
  }

  lemma ImportIsExternal(mods: seq<Mod>, syms: seq<ObjSym>, relocs: seq<int>, k: nat, i: nat, r: Ref)
    requires Import(mods, syms, relocs, k, i, r)
    ensures RelocTarget(mods, syms, relocs[k]) == External(i)
  {
  }

  lemma {:induction false} ExternalIsLoan(mods: seq<Mod>, syms: seq<ObjSym>, relocs: seq<int>, k: nat, i: nat)
    requires k < |relocs| && RelocTarget(mods, syms, relocs[k]) == External(i)
    ensures Loan(syms[relocs[k]].name, i) in RelocLoans(mods, syms, relocs)
  {
    if k < |relocs| - 1 {
      ExternalIsLoan(mods, syms, relocs[..|relocs| - 1], k, i);
    }
  }

  lemma ReuseIsBorrow(mods: seq<Mod>, syms: seq<ObjSym>, k: nat, i: nat, r: Ref)
    requires Reuse(mods, syms, k, i, r) && !Classify(mods, syms[k]).Reject?
    ensures Loan(syms[k].name, i) in Loans(mods, syms)
  {
    BorrowedIsLoan(mods, syms, k, i);
  }

  lemma RefsAreLoans(mods: seq<Mod>, loans: seq<Loan>, r: Ref)
    requires LoansOk(mods, loans)
    ensures r in RefsOf(mods, loans) <==> exists x :: x in loans && RefOf(mods, x) == r
  {
    if r in RefsOf(mods, loans) {
      var x :| x in loans && r == Ref(x.name, mods[x.from].serial, Get(mods[x.from], x.name).value);
      assert RefOf(mods, x) == r;
    }
    if x :| x in loans && RefOf(mods, x) == r {
      LoanIsRecorded(mods, loans, x);
    }
  }

  /** The new module refers exactly to what it does not define anew and to what its relocations name; the
      first module is not relocated. */
  lemma RefsExactly(s: State, l: Load, s': State, m: Mod, r: Ref)
    requires Appends(s, l, s', m)
    ensures r in m.refs <==>
      Reused(s.mods, l.file.syms, r) || (s.mods != [] && Imported(s.mods, l.file.syms, l.file.relocs, r))
  {
    var mods, loans := s.mods, AllLoans(s.mods, l.file);
    RefsAreLoans(mods, loans, r);
    if r in m.refs {
      var x :| x in loans && RefOf(mods, x) == r;
      if x in Loans(mods, l.file.syms) {
        LoanIsReuse(mods, l.file.syms, x);
      } else {
        LoanIsImport(mods, l.file.syms, l.file.relocs, x);
      }
    }
    if k: nat, i: nat :| Reuse(mods, l.file.syms, k, i, r) {
      ReuseIsBorrow(mods, l.file.syms, k, i, r);
      assert Loan(l.file.syms[k].name, i) in loans;
    } else if s.mods != [] && Imported(s.mods, l.file.syms, l.file.relocs, r) {
      var k: nat, i: nat :| Import(mods, l.file.syms, l.file.relocs, k, i, r);
      ImportIsExternal(mods, l.file.syms, l.file.relocs, k, i, r);
      ExternalIsLoan(mods, l.file.syms, l.file.relocs, k, i);
      assert Loan(l.file.syms[l.file.relocs[k]].name, i) in loans;
    }
  }

  ghost predicate RefersInto(refs: set<Ref>, serial: nat)
  {
    exists r :: r in refs && r.provider == serial
  }

  ghost predicate LentFrom(loans: seq<Loan>, i: nat)
  {
    exists x :: x in loans && x.from == i
  }

  lemma NeededIsLender(mods: seq<Mod>, loans: seq<Loan>, i: nat)
    requires Distinct(mods) && LoansOk(mods, loans) && i < |mods|
    ensures mods[i].id in NeedsOf(mods, loans) <==> LentFrom(loans, i)
  {
    if x :| x in loans && x.from == i {
      LoanIsRecorded(mods, loans, x);
    }
  }

  lemma ReferredIsLender(mods: seq<Mod>, loans: seq<Loan>, i: nat)
    requires Distinct(mods) && LoansOk(mods, loans) && i < |mods|
    ensures RefersInto(RefsOf(mods, loans), mods[i].serial) <==> LentFrom(loans, i)
  {
    if x :| x in loans && x.from == i {
      LoanIsRecorded(mods, loans, x);
      assert RefOf(mods, x).provider == mods[i].serial;
    }
    if r :| r in RefsOf(mods, loans) && r.provider == mods[i].serial {
      RefsAreLoans(mods, loans, r);
      var x :| x in loans && RefOf(mods, x) == r;
      assert x.from == i;
    }
  }

  /** The modules it needs are exactly those it refers to. */
  lemma NeedsExactly(s: State, l: Load, s': State, m: Mod, i: nat)
    requires Inv(s) && Appends(s, l, s', m) && i < |s.mods|
    ensures s.mods[i].id in m.needs <==> RefersInto(m.refs, s.mods[i].serial)
  {
    NeededIsLender(s.mods, AllLoans(s.mods, l.file), i);
    ReferredIsLender(s.mods, AllLoans(s.mods, l.file), i);
  }

  /** A relocation against a symbol of another module is recorded: the new module refers to the entry and
      needs the module, which cannot be unloaded any more. */
  lemma RelocationIsRecorded(s: State, l: Load, s': State, m: Mod, k: nat, i: nat, veto: bool)
    requires Inv(s) && Admissible(s.mods, l) && Appends(s, l, s', m) && k < |l.file.relocs|
    requires 0 <= l.file.relocs[k] < |l.file.syms|
    requires var x := l.file.syms[l.file.relocs[k]];
      x.place.Undefined? && LookupMod(s.mods, x.name) == Found.At(i) && !(i == 0 && x.name == DSO_HANDLE)
    ensures var n := l.file.syms[l.file.relocs[k]].name;
      Ref(n, s.mods[i].serial, Get(s.mods[i], n).value) in m.refs
    ensures s.mods[i].id in m.needs && !MayUnload(s'.mods, s.mods[i].serial, veto)
  {
    var n := l.file.syms[l.file.relocs[k]].name;
    var r := Ref(n, s.mods[i].serial, Get(s.mods[i], n).value);
    assert Import(s.mods, l.file.syms, l.file.relocs, k, i, r);
    RefsExactly(s, l, s', m, r);
    NeedsExactly(s, l, s', m, i);
    LoadKeepsInv(s, l, s');
    SerialAt(s'.mods, i);
  }

  // ---- when a load succeeds

  /** A name that is known already may be defined again if the present instance is large enough and
      aligned, for a common symbol, or if the symbol is weak. */
  ghost predicate NoClash(mods: seq<Mod>, x: ObjSym)
  {
    Defined(x) && LookupMod(mods, x.name).At? ==>
      var e := Get(mods[LookupMod(mods, x.name).index], x.name);
      if x.place.Common? then e.size >= x.size && (x.align == 0 || e.value % x.align == 0) else x.weak
  }

  ghost predicate AtMostOnce(syms: seq<ObjSym>, n: Name)
  {
    forall j, k :: 0 <= j < k < |syms| ==> syms[j].name != n || syms[k].name != n
  }

  /** The symbol of a relocation is part of the file, in a loaded module, or gets memory; the handle of the
      system can be asked for only if the system can finalize modules. */
  ghost predicate HasTarget(mods: seq<Mod>, syms: seq<ObjSym>, idx: int)
  {
    && 0 <= idx < |syms|
    && (syms[idx].place.Undefined? ==>
          if New(mods, syms[idx].name) then Weak(syms[idx])
          else LookupMod(mods, syms[idx].name) == Found.At(0) && syms[idx].name == DSO_HANDLE ==>
            Has(mods[0], CXA_FINALIZE))
  }

  lemma ClashIsReject(mods: seq<Mod>, x: ObjSym)
    ensures Classify(mods, x).Reject? <==> !NoClash(mods, x)
  {
  }

  lemma TargetIsGood(mods: seq<Mod>, syms: seq<ObjSym>, idx: int)
    ensures HasTarget(mods, syms, idx) <==> !RelocTarget(mods, syms, idx).Bad?
  {
    if 0 <= idx < |syms| {
      NewIsMissing(mods, syms[idx].name);
    }
  }

  lemma {:induction false} CountsOnce(syms: seq<ObjSym>, n: Name)
    ensures CountObj(syms, n) == 0 <==> forall k :: 0 <= k < |syms| ==> syms[k].name != n
    ensures CountObj(syms, n) <= 1 <==> AtMostOnce(syms, n)
  {
    if syms != [] {
      var t := syms[..|syms| - 1];
      CountsOnce(t, n);
      assert forall k :: 0 <= k < |t| ==> t[k] == syms[k];
      if CountObj(syms, n) <= 1 && syms[|t|].name == n {
        assert CountObj(t, n) == 0;
      }
      if AtMostOnce(syms, n) {
        assert AtMostOnce(t, n);
        if syms[|t|].name == n {
          assert forall k :: 0 <= k < |t| ==> t[k].name != n;
        }
      }
    }
  }

  lemma ResolvedExactlyWhen(mods: seq<Mod>, syms: seq<ObjSym>)
    ensures Resolved(mods, syms) <==>
      && (forall k :: 0 <= k < |syms| ==> NoClash(mods, syms[k]))
      && AtMostOnce(syms, INITIALIZER) && AtMostOnce(syms, FINALIZER)
  {
    forall k | 0 <= k < |syms| ensures Classify(mods, syms[k]).Reject? <==> !NoClash(mods, syms[k]) {
      ClashIsReject(mods, syms[k]);
    }
    CountsOnce(syms, INITIALIZER);
    CountsOnce(syms, FINALIZER);
  }

  lemma RelocatedExactlyWhen(mods: seq<Mod>, f: ObjFile)
    ensures Relocated(mods, f) <==> forall k :: 0 <= k < |f.relocs| ==> HasTarget(mods, f.syms, f.relocs[k])
  {
    forall k | 0 <= k < |f.relocs|
      ensures HasTarget(mods, f.syms, f.relocs[k]) <==> !RelocTarget(mods, f.syms, f.relocs[k]).Bad?
    {
      TargetIsGood(mods, f.syms, f.relocs[k]);
    }
  }

  /** An id is left other than the last one handed out. */
  ghost predicate IdLeft(mods: seq<Mod>, last: Id)
  {
    exists d: Id :: d != last && Unused(mods, d)
  }

  ghost predicate Unused(mods: seq<Mod>, d: Id)
  {
    forall i :: 0 <= i < |mods| ==> mods[i].id != d
  }

  lemma IdIsFound(mods: seq<Mod>, last: Id)
    ensures NextFree(UsedIds(mods), last, last) != -1 <==> IdLeft(mods, last)
  {
    AllocSucceeds(UsedIds(mods), last);
    forall d: Id ensures d !in UsedIds(mods) <==> Unused(mods, d) {
      if i :| 0 <= i < |mods| && mods[i].id == d {
        assert d in UsedIds(mods);
      }
    }
  }

  /** A load appends a module exactly if the name and an id are free, the environment lets it, no symbol
      clashes, callbacks are unique, and every relocation has a target; otherwise no module changes. */
  lemma LoadsExactlyWhen(s: State, l: Load, s': State)
    requires |l.addr| == |l.file.syms| && LoadStep(s, l, s')
    ensures |s'.mods| > |s.mods| <==>
      && (forall i :: 0 <= i < |s.mods| ==> s.mods[i].name != l.modName)
      && IdLeft(s.mods, s.lastId) && l.readable && l.sane
      && (forall k :: 0 <= k < |l.file.syms| ==> NoClash(s.mods, l.file.syms[k]))
      && AtMostOnce(l.file.syms, INITIALIZER) && AtMostOnce(l.file.syms, FINALIZER)
      && (s.mods != [] ==>
            l.placed && l.patched
            && forall k :: 0 <= k < |l.file.relocs| ==> HasTarget(s.mods, l.file.syms, l.file.relocs[k]))
    ensures |s'.mods| <= |s.mods| ==> s'.mods == s.mods && s'.nextSerial == s.nextSerial
    ensures s'.lastId != s.lastId <==>
      (forall i :: 0 <= i < |s.mods| ==> s.mods[i].name != l.modName) && IdLeft(s.mods, s.lastId)
  {
    IdIsFound(s.mods, s.lastId);
    AllocSucceeds(UsedIds(s.mods), s.lastId);
    ResolvedExactlyWhen(s.mods, l.file.syms);
    RelocatedExactlyWhen(s.mods, l.file);
  }

  // ---- when a module goes

  ghost predicate Unneeded(mods: seq<Mod>, j: nat)
    requires j < |mods|
  {
    forall i :: 0 <= i < |mods| ==> mods[j].id !in mods[i].needs
  }

  /** Module `j` has that handle, is not the first, and is needed by none. */
  ghost predicate Free(mods: seq<Mod>, j: nat, h: nat)
  {
    0 < j < |mods| && mods[j].serial == h && Unneeded(mods, j)
  }

  /** A loaded module goes exactly if it is not the first, nobody needs it, and its finalizer agrees;
      otherwise nothing changes. */
  lemma UnloadsExactlyWhen(s: State, h: nat, veto: bool)
    requires Inv(s)
    ensures |Unload(s, h, veto).mods| < |s.mods| <==>
      !veto && exists j: nat :: Free(s.mods, j, h)
    ensures |Unload(s, h, veto).mods| >= |s.mods| ==> Unload(s, h, veto) == s
  {
    if MayUnload(s.mods, h, veto) {
      var j := FindSerial(s.mods, h).index;
      NeededByNobody(s.mods, j);
      assert Free(s.mods, j, h);
    } else if j: nat :| Free(s.mods, j, h) {
      SerialAt(s.mods, j);
      NeededByNobody(s.mods, j);
    }
  }

  lemma NeededByNobody(mods: seq<Mod>, j: nat)
    requires ListInv(mods) && j < |mods|
    ensures mods[j].neededby == {} <==> Unneeded(mods, j)
  {
    if mods[j].neededby == {} {
      forall i | 0 <= i < |mods| ensures mods[j].id !in mods[i].needs {
        NobodyNeeds(mods, j, i);
      }
    } else {
      var d :| d in mods[j].neededby;
      Needer(mods, j, d);
    }
  }

  /** Then all others stay, in their order; only the id of the module that went leaves their records. */
  lemma OthersStay(s: State, j: nat, veto: bool)
    requires Inv(s) && j < |s.mods| && |Unload(s, s.mods[j].serial, veto).mods| < |s.mods|
    ensures var s' := Unload(s, s.mods[j].serial, veto);
      && s'.lastId == s.lastId && s'.nextSerial == s.nextSerial && |s'.mods| == |s.mods| - 1
      && forall i :: 0 <= i < |s'.mods| ==>
           var was := s.mods[if i < j then i else i + 1];
           s'.mods[i] == was.(neededby := was.neededby - {s.mods[j].id})
  {
    SerialAt(s.mods, j);
    assert Unload(s, s.mods[j].serial, veto).mods == Without(s.mods, j);
  }

  lemma StepKeepsFirst(s: State, s': State)
    requires Step(s, s') && s.mods != []
    ensures s'.mods != [] && SameRecord(s.mods[0], s'.mods[0])
  {
    if l :| Admissible(s.mods, l) && LoadStep(s, l, s') {
    } else {
      var h, veto :| s' == Unload(s, h, veto);
      if MayUnload(s.mods, h, veto) {
        assert s'.mods == Without(s.mods, FindSerial(s.mods, h).index);
      }
    }
  }

  /** Once loaded, the system module stays the first of the list, whatever is loaded and unloaded. */
  lemma {:induction false} SystemStays(states: seq<State>, i: nat, n: nat)
    requires Run(states) && i <= n < |states| && states[i].mods != []
    ensures states[n].mods != [] && SameRecord(states[i].mods[0], states[n].mods[0])
    decreases n
  {
    if i < n {
      SystemStays(states, i, n - 1);
      StepOf(states, n);
      StepKeepsFirst(states[n - 1], states[n]);
    }
  }
}

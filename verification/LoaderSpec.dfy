/** The loader as a state machine: what one load or unload does to the list of modules.
    Loaded code and its callbacks are opaque; the finalizer only accepts or rejects. */
module LoaderSpec {
  import opened SymNames
  import opened SymTbl
  import opened Bitmap

  // ---- object files

  /** Where the object file places a symbol; `alloc` tells whether its section is (still) loaded. */
  datatype Place = Undefined | Common | Section(alloc: bool)

  datatype ObjSym = ObjSym(name: Name, place: Place, local: bool, sectionSym: bool, threadLocal: bool,
                           weak: bool, code: bool, value: nat, size: nat, align: nat)

  /** `relocs` lists the symbol index of every relocation of the loaded sections, -1 if malformed. */
  datatype ObjFile = ObjFile(syms: seq<ObjSym>, relocs: seq<int>)

  function Chars(s: string): (n: Name)
    ensures |n| == |s|
  {
    seq(|s|, i requires 0 <= i < |s| => s[i] as int)
  }

  const INITIALIZER := Chars("_cexpModuleInitialize")
  const FINALIZER := Chars("_cexpModuleFinalize")
  const DSO_HANDLE := Chars("__dso_handle")
  const CXA_FINALIZE := Chars("__cxa_finalize")

  // ---- loaded modules

  /** A reference into another module, as it was resolved at load time. */
  datatype Ref = Ref(name: Name, provider: nat, value: nat)

  /** `serial` stands for the address of the module record: no two modules ever share one. */
  datatype Mod = Mod(serial: nat, name: Name, id: Id, needs: set<Id>, neededby: set<Id>,
                     table: seq<Sym>, refs: set<Ref>)

  datatype State = State(mods: seq<Mod>, lastId: Id, nextSerial: nat)

  const EMPTY := State([], MAX_NUM_MODULES - 1, 0)

  predicate Has(m: Mod, n: Name) { Find(m.table, n).At? }

  function Get(m: Mod, n: Name): (e: Sym)
    requires Has(m, n)
    ensures e in m.table && e.name == n
  {
    m.table[Find(m.table, n).index]
  }

  /** `cexpSymLookup`: the first module in list order that knows the name. */
  function LookupMod(mods: seq<Mod>, n: Name): (r: Found)
    ensures r.Missing? <==> forall i :: 0 <= i < |mods| ==> !Has(mods[i], n)
    ensures r.At? ==> r.index < |mods| && Has(mods[r.index], n)
    ensures r.At? ==> forall i :: 0 <= i < r.index ==> !Has(mods[i], n)
  {
    if mods == [] then Missing
    else if Has(mods[0], n) then At(0)
    else
      match LookupMod(mods[1..], n)
      case Missing =>
        assert forall i :: 1 <= i < |mods| ==> mods[i] == mods[1..][i - 1];
        Missing
      case At(i) => At(i + 1)
  }

  // ---- symbol resolution

  datatype Action = Skip | Keep | NewCommon | Borrow(from: nat) | Reject

  predicate IsLocal(s: ObjSym)
  {
    s.local || s.name == INITIALIZER || s.name == FINALIZER
  }

  function Alignment(s: ObjSym): nat
  {
    if s.align == 0 then 1 else s.align
  }

  /** Can an existing symbol serve as this common symbol? */
  predicate Serves(e: Sym, s: ObjSym)
  {
    e.size >= s.size && e.value % Alignment(s) == 0
  }

  /** What `resolve_syms` does with one symbol. */
  function Classify(mods: seq<Mod>, s: ObjSym): Action
  {
    if IsLocal(s) then
      if s.sectionSym && s.place == Section(true) then Keep else Skip
    else if s.threadLocal then Skip
    else
      match LookupMod(mods, s.name)
      case Missing =>
        if s.place.Undefined? then
          if s.value != 0 && s.code then Keep else if s.weak then NewCommon else Skip
        else if s.place.Common? then NewCommon
        else Keep
      case At(i) =>
        if s.place.Undefined? then Skip
        else if s.place.Common? then
          if Serves(Get(mods[i], s.name), s) then Borrow(i) else Reject
        else if s.weak then Borrow(i)
        else Reject
  }

  /** How many symbols carry a name reserved for a module callback. */
  function CountObj(syms: seq<ObjSym>, n: Name): nat
  {
    if syms == [] then 0
    else CountObj(syms[..|syms| - 1], n) + (if syms[|syms| - 1].name == n then 1 else 0)
  }

  /** `resolve_syms` reports no error. */
  predicate Resolved(mods: seq<Mod>, syms: seq<ObjSym>)
  {
    && (forall k :: 0 <= k < |syms| ==> !Classify(mods, syms[k]).Reject?)
    && CountObj(syms, INITIALIZER) <= 1 && CountObj(syms, FINALIZER) <= 1
  }

  /** A reference taken from another module: the name and the position of the lender. */
  datatype Loan = Loan(name: Name, from: nat)

  /** The references that symbol resolution takes from other modules. */
  function Loans(mods: seq<Mod>, syms: seq<ObjSym>): seq<Loan>
  {
    if syms == [] then []
    else
      var x := syms[|syms| - 1];
      Loans(mods, syms[..|syms| - 1]) + match Classify(mods, x) case Borrow(i) => [Loan(x.name, i)] case _ => []
  }

  /** What `s_reloc` finds behind the symbol of one relocation. */
  datatype Target = Internal | OwnHandle | External(from: nat) | Bad

  function RelocTarget(mods: seq<Mod>, syms: seq<ObjSym>, idx: int): Target
  {
    if !(0 <= idx < |syms|) then Bad
    else
      var a := Classify(mods, syms[idx]);
      if a.Borrow? || a.NewCommon? || !syms[idx].place.Undefined? then Internal
      else
        match LookupMod(mods, syms[idx].name)
        case Missing => Bad
        case At(i) =>
          if i == 0 && syms[idx].name == DSO_HANDLE then
            if Has(mods[0], CXA_FINALIZE) then OwnHandle else Bad
          else External(i)
  }

  predicate Relocated(mods: seq<Mod>, f: ObjFile)
  {
    forall k :: 0 <= k < |f.relocs| ==> !RelocTarget(mods, f.syms, f.relocs[k]).Bad?
  }

  /** The references that relocation takes from other modules. */
  function RelocLoans(mods: seq<Mod>, syms: seq<ObjSym>, relocs: seq<int>): seq<Loan>
  {
    if relocs == [] then []
    else
      var idx := relocs[|relocs| - 1];
      RelocLoans(mods, syms, relocs[..|relocs| - 1])
      + match RelocTarget(mods, syms, idx) case External(i) => [Loan(syms[idx].name, i)] case _ => []
  }

  /** All loans of a load; the first module (the system symbol table) is never relocated. */
  function AllLoans(mods: seq<Mod>, f: ObjFile): seq<Loan>
  {
    Loans(mods, f.syms) + if mods == [] then [] else RelocLoans(mods, f.syms, f.relocs)
  }

  predicate LoansOk(mods: seq<Mod>, loans: seq<Loan>)
  {
    forall l :: l in loans ==> LookupMod(mods, l.name) == At(l.from)
  }

  function NeedsOf(mods: seq<Mod>, loans: seq<Loan>): set<Id>
    requires LoansOk(mods, loans)
  {
    set l | l in loans :: mods[l.from].id
  }

  function RefsOf(mods: seq<Mod>, loans: seq<Loan>): set<Ref>
    requires LoansOk(mods, loans)
  {
    set l | l in loans :: Ref(l.name, mods[l.from].serial, Get(mods[l.from], l.name).value)
  }

  // ---- the new module's own table

  /** The internal symbol made by `assign`, with its address after linking. */
  function Entry(s: ObjSym, a: Action, addr: nat, ptrSize: nat): Sym
  {
    var size :=
      if s.code then (if s.size == 0 then ptrSize else s.size)
      else if !s.sectionSym && a.NewCommon? && s.place.Undefined? then s.value
      else s.size;
    Sym(s.name, addr, size, s.sectionSym, s.weak)
  }

  /** The symbols with the KEEP flag; borrowed ones have lost it. */
  function KeptSyms(mods: seq<Mod>, syms: seq<ObjSym>, addr: seq<nat>, ptrSize: nat): seq<Sym>
    requires |addr| == |syms|
  {
    if syms == [] then []
    else
      var n := |syms| - 1;
      var a := Classify(mods, syms[n]);
      KeptSyms(mods, syms[..n], addr[..n], ptrSize)
      + if a.Keep? || a.NewCommon? then [Entry(syms[n], a, addr[n], ptrSize)] else []
  }

  // ---- loading

  /** A load request together with everything the outside world decides about it: can the file be
      opened and is it compatible, is there memory and room, do the patched fields hold their
      values, does the final sanity check pass, and where does every symbol end up. */
  datatype Load = Load(modName: Name, file: ObjFile, addr: seq<nat>, ptrSize: nat,
                       readable: bool, placed: bool, patched: bool, sane: bool)

  predicate NameTaken(mods: seq<Mod>, n: Name)
  {
    exists i :: 0 <= i < |mods| && mods[i].name == n
  }

  ghost function UsedIds(mods: seq<Mod>): set<Id>
  {
    set i | 0 <= i < |mods| :: mods[i].id
  }

  /** How many steps behind `from` the cyclic search meets `to`: a full turn if they are equal. */
  function Distance(from: Id, to: Id): (k: nat)
    ensures 1 <= k <= MAX_NUM_MODULES
  {
    if to > from then to - from else to + MAX_NUM_MODULES - from
  }

  function Successor(id: Id): Id
  {
    (id + 1) % MAX_NUM_MODULES
  }

  /** The search for an unused id behind `prev`; it ends, without success, when it meets `last`. */
  function NextFree(used: set<Id>, last: Id, prev: Id): (r: int)
    ensures -1 <= r < MAX_NUM_MODULES
    decreases Distance(prev, last)
  {
    var id := Successor(prev);
    if id == last then -1 else if id in used then NextFree(used, last, id) else id
  }

  /** The part of `cexpLoadFile` that can fail. */
  predicate LoadOk(mods: seq<Mod>, l: Load)
  {
    && l.readable && Resolved(mods, l.file.syms)
    && (mods == [] || (l.placed && Relocated(mods, l.file) && l.patched))
    && l.sane
  }

  /** What the source demands of the files it is given. */
  ghost predicate Admissible(mods: seq<Mod>, l: Load)
  {
    && |l.addr| == |l.file.syms|
    && (forall k :: 0 <= k < |l.file.syms| ==>
          Plain(l.file.syms[k].name) && l.file.syms[k].name != MARKER)
    && (forall k :: 0 <= k < |l.file.syms| ==> l.file.syms[k].sectionSym ==> l.file.syms[k].local)
    && var kept := KeptSyms(mods, l.file.syms, l.addr, l.ptrSize);
       Resolved(mods, l.file.syms) ==>
         kept != [] && forall g :: IsGreatest(kept, g) ==> CountName(kept, g) == 1
  }

  /** The module a successful load appends. */
  ghost predicate NewMod(s: State, l: Load, id: Id, m: Mod)
    requires |l.addr| == |l.file.syms|
  {
    var loans := AllLoans(s.mods, l.file);
    && LoansOk(s.mods, loans)
    && m.serial == s.nextSerial && m.name == l.modName && m.id == id
    && m.needs == NeedsOf(s.mods, loans) && m.refs == RefsOf(s.mods, loans)
    && m.neededby == {}
    && TableOf(m.table, KeptSyms(s.mods, l.file.syms, l.addr, l.ptrSize))
  }

  /** `addDependencies`. */
  function Announce(mods: seq<Mod>, m: Mod): (r: seq<Mod>)
    ensures |r| == |mods|
  {
    seq(|mods|, i requires 0 <= i < |mods| =>
      if mods[i].id in m.needs then mods[i].(neededby := mods[i].neededby + {m.id}) else mods[i])
  }

  ghost predicate LoadStep(s: State, l: Load, s': State)
    requires |l.addr| == |l.file.syms|
  {
    if NameTaken(s.mods, l.modName) then s' == s
    else
      var id := NextFree(UsedIds(s.mods), s.lastId, s.lastId);
      if id == -1 then s' == s
      else if !LoadOk(s.mods, l) then s' == s.(lastId := id)
      else
        && |s'.mods| == |s.mods| + 1
        && NewMod(s, l, id, s'.mods[|s.mods|])
        && s' == State(Announce(s.mods, s'.mods[|s.mods|]) + [s'.mods[|s.mods|]], id, s.nextSerial + 1)
  }

  // ---- unloading

  function FindSerial(mods: seq<Mod>, h: nat): (r: Found)
    ensures r.Missing? <==> forall i :: 0 <= i < |mods| ==> mods[i].serial != h
    ensures r.At? ==> r.index < |mods| && mods[r.index].serial == h
    ensures r.At? ==> forall i :: 0 <= i < r.index ==> mods[i].serial != h
  {
    if mods == [] then Missing
    else if mods[0].serial == h then At(0)
    else
      match FindSerial(mods[1..], h)
      case Missing =>
        assert forall i :: 1 <= i < |mods| ==> mods[i] == mods[1..][i - 1];
        Missing
      case At(i) => At(i + 1)
  }

  /** Unloading is accepted for a listed module, not the first, that nobody needs. */
  predicate MayUnload(mods: seq<Mod>, h: nat, veto: bool)
  {
    match FindSerial(mods, h)
    case Missing => false
    case At(i) => i > 0 && mods[i].neededby == {} && !veto
  }

  function Retract(mods: seq<Mod>, id: Id): (r: seq<Mod>)
    ensures |r| == |mods|
  {
    seq(|mods|, i requires 0 <= i < |mods| => mods[i].(neededby := mods[i].neededby - {id}))
  }

  function Unload(s: State, h: nat, veto: bool): State
  {
    if MayUnload(s.mods, h, veto) then
      var i := FindSerial(s.mods, h).index;
      var r := Retract(s.mods, s.mods[i].id);
      s.(mods := r[..i] + r[i + 1..])
    else s
  }

  ghost predicate Step(s: State, s': State)
  {
    || (exists l :: Admissible(s.mods, l) && LoadStep(s, l, s'))
    || (exists h, veto :: s' == Unload(s, h, veto))
  }
}

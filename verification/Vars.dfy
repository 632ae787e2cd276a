/** The user's variables and the static strings: singly linked lists behind a sentinel, kept in
    ascending order of their names.  All routines run under one lock. */
module Vars {
  import SymNames

  /** The characters of a C string as unsigned numbers. */
  type Name = seq<nat>

  // ---- the order of strings

  /** `strcmp`. */
  function Strcmp(a: Name, b: Name): int
  {
    if a == [] then (if b == [] then 0 else -1)
    else if b == [] then 1
    else if a[0] < b[0] then -1
    else if a[0] > b[0] then 1
    else Strcmp(a[1..], b[1..])
  }

  predicate Less(a: Name, b: Name) { Strcmp(a, b) < 0 }

  lemma {:induction false} StrcmpIsOrder(a: Name, b: Name)
    ensures Strcmp(a, b) == 0 <==> a == b
    ensures Less(a, b) <==> Strcmp(b, a) > 0
  {
    if a != [] && b != [] && a[0] == b[0] {
      StrcmpIsOrder(a[1..], b[1..]);
      assert a == [a[0]] + a[1..] && b == [b[0]] + b[1..];
    }
  }

  /** The order is that of dictionaries. */
  lemma {:induction false} LessIsLexicographic(a: Name, b: Name)
    ensures Less(a, b) <==> exists i: nat :: SymNames.FirstBelow(a, b, i)
  {
    if a == [] || b == [] || a[0] < b[0] {
      assert Less(a, b) ==> SymNames.FirstBelow(a, b, 0);
    } else if a[0] == b[0] {
      LessIsLexicographic(a[1..], b[1..]);
      if i: nat :| SymNames.FirstBelow(a[1..], b[1..], i) {
        SymNames.FirstIsEarlier(a, b, i);
      }
      if i: nat :| SymNames.FirstBelow(a, b, i) {
        SymNames.FirstIsLater(a, b, i);
      }
    } else if i: nat :| SymNames.FirstBelow(a, b, i) {
      SymNames.FirstOrSame(a, b, i);
    }
  }

  lemma {:induction false} LessTransitive(a: Name, b: Name, c: Name)
    requires Less(a, b) && Less(b, c)
    ensures Less(a, c)
  {
    if a != [] && b != [] && c != [] && a[0] == b[0] == c[0] {
      LessTransitive(a[1..], b[1..], c[1..]);
    }
  }

  // ---- the list

  /** A list element.  A variable refers to the string record that holds its name. */
  class Cell {
    const name: Name
    const str: Cell?
    var p: Cell?

    constructor (name: Name, str: Cell?)
      ensures this.name == name && this.str == str && p == null
    {
      this.name, this.str, p := name, str, null;
    }
  }

  ghost predicate Ascending(s: seq<Cell>)
  {
    forall i, j :: 0 <= i < j < |s| ==> Less(s[i].name, s[j].name)
  }

  class List {
    const head: Cell
    ghost var spine: seq<Cell>
    ghost var contents: map<Name, Cell>

    constructor ()
      ensures Valid() && spine == [] && contents == map[] && fresh(head)
    {
      head := new Cell([], null);
      spine, contents := [], map[];
      new;
      assert LinkOk(0);
    }

    /** The sentinel, then the elements, then nothing. */
    ghost function At(i: nat): Cell?
      reads `spine
    {
      if i == 0 then head else if i <= |spine| then spine[i - 1] else null
    }

    ghost predicate Chain()
      reads `spine, head`p, spine`p
    {
      && head !in spine
      && (forall i, j :: 0 <= i < j < |spine| ==> spine[i] != spine[j])
      && (forall i :: 0 <= i <= |spine| ==> LinkOk(i))
    }

    ghost predicate LinkOk(i: nat)
      requires i <= |spine|
      reads `spine, head`p, spine`p
    {
      At(i).p == At(i + 1)
    }

    /** The list is intact, in order, and holds exactly the entries of the map. */
    ghost predicate Valid()
      reads `spine, `contents, head`p, spine`p
    {
      Chain() && Ascending(spine) && Represents(contents, spine)
    }

    /** `lhrFindN_LOCK`: the element of that name, and the one behind which it is or would be. */
    method Find(name: Name) returns (v: Cell?, succ: Cell, ghost k: nat)
      requires Chain()
      ensures k <= |spine| && succ == At(k) && Splits(spine, k, name)
      ensures if v == null then k < |spine| ==> Less(name, spine[k].name)
              else k < |spine| && v == spine[k] && v.name == name
    {
      var missed := 1;
      v, succ, k := head.p, head, 0;
      assert LinkOk(0);
      while v != null
        invariant k <= |spine| && succ == At(k) && v == At(k + 1) && Splits(spine, k, name)
        invariant v == null ==> missed != 0
        decreases |spine| - k
      {
        missed := Strcmp(v.name, name);
        if missed >= 0 {
          break;
        }
        SplitsMore(spine, k, name);
        succ, k := v, k + 1;
        assert LinkOk(k);
        v := v.p;
      }
      if v != null {
        StrcmpIsOrder(v.name, name);
        StrcmpIsOrder(name, v.name);
      }
      if missed != 0 {
        v := null;
      }
    }

    /** The same in terms of the map. */
    method Seek(name: Name) returns (v: Cell?, succ: Cell, ghost k: nat)
      requires Valid()
      ensures (v == null <==> name !in contents) && (v != null ==> v == contents[name])
      ensures IsPlace(name, succ, k, v != null)
    {
      v, succ, k := Find(name);
      FoundInMap(contents, spine, k, name, v != null);
    }

    /** The place of a name in the list. */
    ghost predicate IsPlace(name: Name, pred: Cell, k: nat, found: bool)
      reads `spine
    {
      && k <= |spine| && pred == At(k) && Splits(spine, k, name)
      && if found then k < |spine| && spine[k].name == name else k < |spine| ==> Less(name, spine[k].name)
    }

    method Enter(el: Cell, pred: Cell, ghost k: nat)
      requires Valid() && IsPlace(el.name, pred, k, false) && el != head && el !in spine && el.p == null
      requires el.name !in contents
      modifies `spine, `contents, el`p, pred`p
      ensures Valid() && contents == old(contents)[el.name := el]
      ensures forall c :: c in spine <==> c in old(spine) || c == el
    {
      InsertedAscending(spine, k, el);
      InsertedRepresents(contents, spine, k, el);
      InsertedElements(spine, k, el);
      contents := contents[el.name := el];
      Add(el, pred, k);
    }

    method Drop(v: Cell, pred: Cell, ghost k: nat)
      requires Valid() && IsPlace(v.name, pred, k, true) && v == spine[k]
      modifies `spine, `contents, pred`p
      ensures Valid() && contents == old(contents) - {v.name}
      ensures forall c :: c in spine ==> c in old(spine)
    {
      RemovedAscending(spine, k);
      RemovedRepresents(contents, spine, k);
      contents := contents - {v.name};
      Remove(v, pred, k);
    }

    /** `lhrAdd`: behind the element (or the sentinel) at position `k`. */
    method Add(el: Cell, where: Cell, ghost k: nat)
      requires Chain() && k <= |spine| && where == At(k) && el != head && el !in spine && el.p == null
      modifies `spine, el`p, where`p
      ensures Chain() && spine == Inserted(old(spine), k, el)
    {
      ghost var was := spine;
      el.p := where.p;
      where.p := el;
      spine := Inserted(was, k, el);
      forall i | 0 <= i <= |spine| ensures LinkOk(i) {
        assert old(LinkOk(if i <= k then i else i - 1));
      }
    }

    /** Unlink the element behind `pred`. */
    method Remove(v: Cell, pred: Cell, ghost k: nat)
      requires Chain() && k < |spine| && pred == At(k) && v == spine[k]
      modifies `spine, pred`p
      ensures Chain() && spine == Removed(old(spine), k)
    {
      ghost var was := spine;
      pred.p := v.p;
      spine := Removed(was, k);
      forall i | 0 <= i <= |spine| ensures LinkOk(i) {
        assert old(LinkOk(if i < k then i else i + 1));
      }
    }

    /** The loop of `cexpVarWalk`: the walker is given the names in order until it returns non-zero. */
    method Walk(walker: Name -> int) returns (rval: int, visited: seq<Name>)
      requires Valid()
      ensures |visited| <= |spine| && visited == Names(spine)[..|visited|]
      ensures forall i :: 0 <= i < |visited| - 1 ==> walker(visited[i]) == 0
      ensures rval == if visited == [] then 0 else walker(visited[|visited| - 1])
      ensures rval == 0 ==> |visited| == |spine|
    {
      var v := head.p;
      rval, visited := 0, [];
      assert LinkOk(0);
      while v != null
        invariant |visited| <= |spine| && v == At(|visited| + 1) && visited == Names(spine)[..|visited|]
        invariant rval == 0 && forall i :: 0 <= i < |visited| ==> walker(visited[i]) == 0
        decreases |spine| - |visited|
      {
        rval, visited := walker(v.name), visited + [v.name];
        if rval != 0 {
          break;
        }
        assert LinkOk(|visited|);
        v := v.p;
      }
    }
  }

  /** The first `k` elements are below the name. */
  ghost predicate Splits(s: seq<Cell>, k: nat, name: Name)
    requires k <= |s|
  {
    forall i :: 0 <= i < k ==> Less(s[i].name, name)
  }

  lemma SplitsMore(s: seq<Cell>, k: nat, name: Name)
    requires k < |s| && Splits(s, k, name) && Less(s[k].name, name)
    ensures Splits(s, k + 1, name)
  {
  }

  function Names(s: seq<Cell>): (r: seq<Name>)
    ensures |r| == |s| && forall i :: 0 <= i < |s| ==> r[i] == s[i].name
  {
    seq(|s|, i requires 0 <= i < |s| => s[i].name)
  }

  ghost function Inserted(s: seq<Cell>, k: nat, el: Cell): (r: seq<Cell>)
    requires k <= |s|
    ensures |r| == |s| + 1
    ensures forall i :: 0 <= i < |r| ==> r[i] == if i < k then s[i] else if i == k then el else s[i - 1]
  {
    s[..k] + [el] + s[k..]
  }

  lemma InsertedElements(s: seq<Cell>, k: nat, el: Cell)
    requires k <= |s|
    ensures forall c :: c in Inserted(s, k, el) <==> c in s || c == el
  {
    var r := Inserted(s, k, el);
    assert r[k] == el;
    forall i | 0 <= i < |s| ensures s[i] in r {
      assert r[if i < k then i else i + 1] == s[i];
    }
  }

  ghost function Removed(s: seq<Cell>, k: nat): (r: seq<Cell>)
    requires k < |s|
    ensures |r| == |s| - 1 && forall i :: 0 <= i < |r| ==> r[i] == if i < k then s[i] else s[i + 1]
  {
    s[..k] + s[k + 1..]
  }

  lemma InsertedAscending(s: seq<Cell>, k: nat, el: Cell)
    requires Ascending(s) && k <= |s| && Splits(s, k, el.name) && (k < |s| ==> Less(el.name, s[k].name))
    ensures Ascending(Inserted(s, k, el))
  {
    forall i | k < i < |s| ensures Less(el.name, s[i].name) {
      LessTransitive(el.name, s[k].name, s[i].name);
    }
  }

  lemma RemovedAscending(s: seq<Cell>, k: nat)
    requires Ascending(s) && k < |s|
    ensures Ascending(Removed(s, k))
  {
  }

  // ---- maps

  /** The list holds exactly the entries of the map. */
  ghost predicate Represents(m: map<Name, Cell>, s: seq<Cell>)
  {
    && (forall i :: 0 <= i < |s| ==> s[i].name in m && m[s[i].name] == s[i])
    && (forall n :: n in m ==> m[n] in s && m[n].name == n)
  }

  /** Where a search ends tells whether the name is in the map. */
  lemma FoundInMap(m: map<Name, Cell>, s: seq<Cell>, k: nat, name: Name, found: bool)
    requires Represents(m, s) && Ascending(s) && k <= |s| && Splits(s, k, name)
    requires if found then k < |s| && s[k].name == name else k < |s| ==> Less(name, s[k].name)
    ensures found <==> name in m
    ensures found ==> m[name] == s[k]
  {
    if !found && name in m {
      var i :| 0 <= i < |s| && s[i] == m[name];
      StrcmpIsOrder(name, name);
      if i > k {
        LessTransitive(name, s[k].name, s[i].name);
      }
      assert false;
    }
  }

  lemma InsertedRepresents(m: map<Name, Cell>, s: seq<Cell>, k: nat, el: Cell)
    requires Represents(m, s) && k <= |s| && el.name !in m
    ensures Represents(m[el.name := el], Inserted(s, k, el))
  {
    var r := Inserted(s, k, el);
    assert r[k] == el;
    forall n | n in m ensures m[n] in r {
      var i :| 0 <= i < |s| && s[i] == m[n];
      assert r[if i < k then i else i + 1] == s[i];
    }
  }

  lemma RemovedRepresents(m: map<Name, Cell>, s: seq<Cell>, k: nat)
    requires Represents(m, s) && k < |s| && Ascending(s)
    ensures Represents(m - {s[k].name}, Removed(s, k))
  {
    var r := Removed(s, k);
    StrcmpIsOrder(s[k].name, s[k].name);
    forall n | n in m && n != s[k].name ensures m[n] in r {
      var i :| 0 <= i < |s| && s[i] == m[n];
      assert r[if i < k then i else i - 1] == s[i];
    }
  }

  /** The name of the last result, which is not a list element. */
  const LAST_RESULT: Name := [0x61, 0x6e, 0x73]

  class Store {
    const vars: List
    const strs: List

    constructor ()
      ensures Valid() && vars.contents == map[] && strs.contents == map[] && fresh(vars) && fresh(strs)
    {
      vars := new List();
      strs := new List();
    }

    /** The lists do not share records: names of variables are strings, strings are not named. */
    ghost predicate Apart()
      reads vars`spine, strs`spine
    {
      && vars != strs && vars.head != strs.head && vars.head !in strs.spine && strs.head !in vars.spine
      && (forall c :: c in vars.spine ==> c !in strs.spine && c.str != null)
      && (forall c :: c in strs.spine ==> c.str == null)
    }

    /** Every variable is named by the string record of its name. */
    ghost predicate Named()
      reads vars`contents, strs`contents
    {
      forall n :: n in vars.contents ==> n in strs.contents && vars.contents[n].str == strs.contents[n]
    }

    ghost predicate Valid()
      reads vars, strs, vars.head`p, strs.head`p, vars.spine`p, strs.spine`p
    {
      vars.Valid() && strs.Valid() && Apart() && Named()
    }

    /** `cexpStrLookup`: strings are never changed or removed; equal strings are one object. */
    method StrLookup(name: Name, creat: bool) returns (t: Cell?)
      requires Valid()
      modifies strs`spine, strs`contents, strs.head`p, strs.spine`p
      ensures Valid()
      ensures name in old(strs.contents) ==> t == old(strs.contents)[name] && strs.contents == old(strs.contents)
      ensures name !in old(strs.contents) && !creat ==> t == null && strs.contents == old(strs.contents)
      ensures name !in old(strs.contents) && creat ==>
        t != null && fresh(t) && t.name == name && strs.contents == old(strs.contents)[name := t]
      ensures forall c :: c in strs.spine ==> c in old(strs.spine) || fresh(c)
    {
      var q;
      ghost var k;
      t, q, k := strs.Seek(name);
      if t == null && creat {
        t := NewStr(name, q, k);
      }
    }

    /** Make a string record and add it to the list. */
    method NewStr(name: Name, q: Cell, ghost k: nat) returns (t: Cell)
      requires Valid() && strs.IsPlace(name, q, k, false) && name !in strs.contents
      modifies strs`spine, strs`contents, strs.head`p, strs.spine`p
      ensures Valid() && fresh(t) && t.name == name && strs.contents == old(strs.contents)[name := t]
      ensures forall c :: c in strs.spine ==> c in old(strs.spine) || fresh(c)
    {
      t := new Cell(name, null);
      strs.Enter(t, q, k);
      assert vars.Valid();
    }

    /** `cexpVarLookup`; `last` is the record of the last result, which the context keeps. */
    method VarLookup(name: Name, creat: bool, last: Cell) returns (v: Cell?)
      requires Valid()
      modifies vars`spine, vars`contents, vars.head`p, vars.spine`p
      modifies strs`spine, strs`contents, strs.head`p, strs.spine`p
      ensures Valid()
      ensures name == LAST_RESULT ==> v == last
      ensures name != LAST_RESULT && name in old(vars.contents) ==> v == old(vars.contents)[name]
      ensures name != LAST_RESULT && name !in old(vars.contents) && !creat ==> v == null
      ensures name == LAST_RESULT || name in old(vars.contents) || !creat ==>
        vars.contents == old(vars.contents) && strs.contents == old(strs.contents)
      ensures name != LAST_RESULT && name !in old(vars.contents) && creat ==>
        v != null && fresh(v) && v.name == name && vars.contents == old(vars.contents)[name := v]
        && name in strs.contents && v.str == strs.contents[name]
        && strs.contents == if name in old(strs.contents) then old(strs.contents)
                            else old(strs.contents)[name := strs.contents[name]]
    {
      if name == LAST_RESULT {
        return last;
      }
      var pred;
      ghost var k;
      v, pred, k := vars.Seek(name);
      if v == null && creat {
        var t := StrLookup(name, true);
        v := NewVar(name, t, pred, k);
      }
    }

    /** Make a variable that is named by a string record and add it to the list. */
    method NewVar(name: Name, t: Cell, pred: Cell, ghost k: nat) returns (v: Cell)
      requires Valid() && vars.IsPlace(name, pred, k, false) && name !in vars.contents
      requires name in strs.contents && t == strs.contents[name]
      modifies vars`spine, vars`contents, vars.head`p, vars.spine`p
      ensures Valid() && fresh(v) && v.name == name && v.str == t && vars.contents == old(vars.contents)[name := v]
    {
      v := new Cell(name, t);
      EnterVar(v, pred, k);
    }

    method EnterVar(v: Cell, pred: Cell, ghost k: nat)
      requires Valid() && vars.IsPlace(v.name, pred, k, false) && v.name !in vars.contents
      requires v != vars.head && v != strs.head && v !in vars.spine && v !in strs.spine && v.p == null
      requires v.name in strs.contents && v.str == strs.contents[v.name]
      modifies vars`spine, vars`contents, vars.head`p, vars.spine`p, v`p
      ensures Valid() && vars.contents == old(vars.contents)[v.name := v]
    {
      vars.Enter(v, pred, k);
      assert strs.Valid();
    }

    /** `cexpVarDelete`. */
    method VarDelete(name: Name) returns (found: bool)
      requires Valid()
      modifies vars`spine, vars`contents, vars.head`p, vars.spine`p
      ensures Valid() && found == (name in old(vars.contents)) && vars.contents == old(vars.contents) - {name}
    {
      var v, pred;
      ghost var k;
      v, pred, k := vars.Seek(name);
      found := v != null;
      if found {
        DropVar(v, pred, k);
      } else {
        assert vars.contents - {name} == vars.contents;
      }
    }

    method DropVar(v: Cell, pred: Cell, ghost k: nat)
      requires Valid() && vars.IsPlace(v.name, pred, k, true) && v == vars.spine[k]
      modifies vars`spine, vars`contents, vars.head`p, vars.spine`p
      ensures Valid() && vars.contents == old(vars.contents) - {v.name}
    {
      assert strs.Valid();
      vars.Drop(v, pred, k);
      assert strs.Valid() && Apart();
    }

    /** `cexpVarWalk`: every variable once, in ascending order, until the walker stops. */
    method VarWalk(walker: Name -> int) returns (rval: int, visited: seq<Name>)
      requires Valid()
      ensures forall i, j :: 0 <= i < j < |visited| ==> Less(visited[i], visited[j])
      ensures forall i :: 0 <= i < |visited| - 1 ==> walker(visited[i]) == 0
      ensures rval == if visited == [] then 0 else walker(visited[|visited| - 1])
      ensures forall n :: n in visited ==> n in vars.contents
      ensures rval == 0 ==> forall n :: n in vars.contents ==> n in visited
      ensures rval != 0 ==> forall n :: n in vars.contents && Less(n, visited[|visited| - 1]) ==> n in visited
    {
      rval, visited := vars.Walk(walker);
      PrefixAscends(vars.spine, visited);
      WalkSeesAll(vars.contents, vars.spine, |visited|);
    }
  }

  lemma PrefixAscends(s: seq<Cell>, visited: seq<Name>)
    requires Ascending(s) && |visited| <= |s| && visited == Names(s)[..|visited|]
    ensures forall i, j :: 0 <= i < j < |visited| ==> Less(visited[i], visited[j])
    ensures visited != [] ==> visited[|visited| - 1] == s[|visited| - 1].name
  {
  }

  /** The names of a prefix of the list are the least ones of the map. */
  lemma WalkSeesAll(m: map<Name, Cell>, s: seq<Cell>, k: nat)
    requires Represents(m, s) && Ascending(s) && k <= |s|
    ensures forall n :: n in Names(s)[..k] ==> n in m
    ensures forall n :: n in m && (k == |s| || (k > 0 && Less(n, s[k - 1].name))) ==> n in Names(s)[..k]
  {
    forall n | n in m && (k == |s| || (k > 0 && Less(n, s[k - 1].name))) ensures n in Names(s)[..k] {
      var i :| 0 <= i < |s| && s[i] == m[n];
      if k < |s| && i >= k {
        LessTransitive(n, s[k - 1].name, s[i].name);
        StrcmpIsOrder(n, n);
        assert false;
      }
      assert Names(s)[..k][i] == n;
    }
  }
}

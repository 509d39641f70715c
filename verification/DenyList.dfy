/** The denylist: processes by package, an index from app ids to packages, and the stored rows. */
module DenyList {
  import opened Common

  const ISOLATED := "isolated"
  const WEBVIEW := "webview_zygote"
  const WEBVIEW_UID := 1053
  const USER_OFFSET := 100000
  const FIRST_ISOLATED := 90000

  datatype Response = Ok | ItemExist | ItemNotExist | InvalidPkg | Error

  type Packages = map<string, set<string>>

  type Index = map<int, set<string>>

  // ---------------------------------------------------------------------------------------
  // Names
  // ---------------------------------------------------------------------------------------

  predicate NameChar(c: char) { 'a' <= c <= 'z' || 'A' <= c <= 'Z' || '0' <= c <= '9' || c == '_' }

  predicate PackageName(s: string) { '.' in s && forall i :: 0 <= i < |s| ==> NameChar(s[i]) || s[i] == '.' }

  predicate ProcessName(s: string) { forall i :: 0 <= i < |s| ==> NameChar(s[i]) || s[i] == '.' || s[i] == ':' }

  /** Of an isolated process, what stands before the first colon is checked. */
  predicate IsolatedName(s: string) {
    s == "" || s[0] == ':' || ((NameChar(s[0]) || s[0] == '.') && IsolatedName(s[1..]))
  }

  predicate ValidNames(pkg: string, proc: string) {
    if pkg == ISOLATED then IsolatedName(proc)
    else if pkg == WEBVIEW then proc == WEBVIEW
    else PackageName(pkg) && ProcessName(proc)
  }

  method Validate(pkg: string, proc: string) returns (ok: bool)
    ensures ok == ValidNames(pkg, proc)
  {
    if pkg == ISOLATED {
      for i := 0 to |proc|
        invariant IsolatedName(proc[i..]) == IsolatedName(proc)
      {
        assert proc[i..][1..] == proc[i + 1..];
        if NameChar(proc[i]) || proc[i] == '.' {
          continue;
        }
        return proc[i] == ':';
      }
      return true;
    }
    if pkg == WEBVIEW {
      return proc == WEBVIEW;
    }
    var pkgValid := false;
    for i := 0 to |pkg|
      invariant pkgValid <==> '.' in pkg[..i]
      invariant forall j :: 0 <= j < i ==> NameChar(pkg[j]) || pkg[j] == '.'
    {
      assert pkg[..i + 1] == pkg[..i] + [pkg[i]];
      if NameChar(pkg[i]) {
        continue;
      }
      if pkg[i] == '.' {
        pkgValid := true;
        continue;
      }
      return false;
    }
    assert pkg[..|pkg|] == pkg;
    for i := 0 to |proc|
      invariant forall j :: 0 <= j < i ==> NameChar(proc[j]) || proc[j] == '.' || proc[j] == ':'
    {
      if !(NameChar(proc[i]) || proc[i] == ':' || proc[i] == '.') {
        return false;
      }
    }
    return pkgValid;
  }

  // ---------------------------------------------------------------------------------------
  // App ids
  // ---------------------------------------------------------------------------------------

  /** `get_app_id`: zero for a package that is not installed. */
  function AppId(installed: map<string, nat>, pkg: string): int {
    if pkg == ISOLATED then -1
    else if pkg == WEBVIEW then WEBVIEW_UID
    else if pkg in installed then installed[pkg] % USER_OFFSET
    else 0
  }

  predicate Listed(pkgs: Packages, pkg: string, proc: string) { pkg in pkgs && proc in pkgs[pkg] }

  /** The index is the inverse of the package map, without empty entries. */
  ghost predicate IsInverse(installed: map<string, nat>, pkgs: Packages, index: Index) {
    && (forall id :: id in index ==> id > 0 && index[id] != {})
    && (forall id, pkg :: (id in index && pkg in index[id]) <==> id > 0 && pkg in pkgs && AppId(installed, pkg) == id)
  }

  /** Every listed package has a process, and an app id. */
  ghost predicate IsClean(installed: map<string, nat>, pkgs: Packages) {
    forall pkg :: pkg in pkgs ==> pkgs[pkg] != {} && AppId(installed, pkg) != 0
  }

  function IndexAdd(index: Index, id: int, pkg: string): Index {
    if id <= 0 then index
    else index[id := (if id in index then index[id] else {}) + {pkg}]
  }

  function IndexRemove(index: Index, id: int, pkg: string): Index {
    if id <= 0 || id !in index then index
    else if index[id] - {pkg} == {} then index - {id}
    else index[id := index[id] - {pkg}]
  }

  lemma IndexAddInverse(installed: map<string, nat>, pkgs: Packages, index: Index, pkg: string, procs: set<string>)
    requires IsInverse(installed, pkgs, index)
    ensures IsInverse(installed, pkgs[pkg := procs], IndexAdd(index, AppId(installed, pkg), pkg))
  {
    hide AppId;
  }

  lemma IndexRemoveInverse(installed: map<string, nat>, pkgs: Packages, index: Index, pkg: string)
    requires IsInverse(installed, pkgs, index)
    ensures IsInverse(installed, pkgs - {pkg}, IndexRemove(index, AppId(installed, pkg), pkg))
  {
    hide AppId;
  }

  lemma SameKeysInverse(installed: map<string, nat>, pkgs: Packages, index: Index, pkg: string, procs: set<string>)
    requires IsInverse(installed, pkgs, index) && pkg in pkgs
    ensures IsInverse(installed, pkgs[pkg := procs], index)
  {
    hide AppId;
  }

  predicate StartsWith(process: string, prefix: string) { prefix <= process }

  /** What a plain scan of all pairs answers. */
  ghost predicate Denied(installed: map<string, nat>, list: set<(string, string)>, uid: nat, process: string) {
    var id := uid % USER_OFFSET;
    if id >= FIRST_ISOLATED then exists r :: r in list && r.0 == ISOLATED && StartsWith(process, r.1)
    else exists r :: r in list && r.1 == process && AppId(installed, r.0) == id
  }

  // ---------------------------------------------------------------------------------------
  // The code
  // ---------------------------------------------------------------------------------------

  /** The packages that are installed. */
  function Present(installed: map<string, nat>, pkgs: Packages): Packages {
    map p | p in pkgs && AppId(installed, p) != 0 :: pkgs[p]
  }

  function RowsOf(pkgs: Packages): Rows {
    set p, q | p in pkgs && q in pkgs[p] :: (p, q)
  }

  class List {
    const installed: map<string, nat>
    var pkgs: Option<Packages>
    var index: Option<Index>
    var rows: Rows

    constructor (installed: map<string, nat>, rows: Rows)
      ensures Valid() && pkgs.None? && this.installed == installed && this.rows == rows
    {
      this.installed := installed;
      this.rows := rows;
      pkgs, index := None, None;
    }

    ghost predicate Valid()
      reads this
    {
      && (pkgs.Some? <==> index.Some?)
      && (pkgs.Some? ==> IsInverse(installed, pkgs.value, index.value) && IsClean(installed, pkgs.value))
    }

    /** What is in memory is what the database holds. */
    ghost predicate InSync()
      reads this
    {
      pkgs.Some? ==> RowsOf(pkgs.value) == rows
    }

    method UpdateAppId(id: int, pkg: string, remove: bool)
      requires index.Some?
      modifies this`index
      ensures index == Some(if remove then IndexRemove(old(index.value), id, pkg)
                            else IndexAdd(old(index.value), id, pkg))
    {
      if id <= 0 {
        return;
      }
      var m := index.value;
      if remove {
        if id in m {
          m := m[id := m[id] - {pkg}];
          if m[id] == {} {
            m := m - {id};
          }
        }
      } else {
        if id !in m {
          m := m[id := {}];
        }
        m := m[id := m[id] + {pkg}];
      }
      assert m == if remove then IndexRemove(index.value, id, pkg) else IndexAdd(index.value, id, pkg);
      index := Some(m);
    }

    method AddHideSet(pkg: string, proc: string) returns (added: bool)
      requires pkgs.Some?
      modifies this`pkgs
      ensures added == !Listed(old(pkgs.value), pkg, proc)
      ensures pkgs.Some? && pkgs.value == old(pkgs.value)[pkg := ProcsOf(old(pkgs.value), pkg) + {proc}]
    {
      var procs := ProcsOf(pkgs.value, pkg);
      added := proc !in procs;
      pkgs := Some(pkgs.value[pkg := procs + {proc}]);
    }

    /** Rebuild the index; packages that are gone are dropped from memory and deleted from the database. */
    method ScanDenyApps(deleteOk: string -> bool)
      requires pkgs.Some? ==> forall p :: p in pkgs.value ==> pkgs.value[p] != {}
      requires index.Some? ==> pkgs.Some?
      modifies this
      ensures old(index).None? ==> pkgs == old(pkgs) && index == old(index) && rows == old(rows)
      ensures old(index).Some? ==>
        && Valid() && pkgs == Some(Present(installed, old(pkgs.value)))
        && rows == RowsLeft(installed, old(rows), old(pkgs.value).Keys, deleteOk)
    {
      hide AppId, IsInverse, IndexAdd, RowsLeft, Left;
      if index.None? {
        return;
      }
      index := Some(map[]);
      ghost var start := pkgs.value;
      var todo := pkgs.value.Keys;
      ScanStart(installed, start, rows, deleteOk);
      while todo != {}
        invariant todo <= start.Keys
        invariant pkgs == Some(Left(installed, start, todo)) && index.Some?
        invariant IsInverse(installed, pkgs.value - todo, index.value)
        invariant rows == RowsLeft(installed, old(rows), start.Keys - todo, deleteOk)
        decreases todo
      {
        var pkg :| pkg in todo;
        ScanStep(installed, start, old(rows), todo, pkg, deleteOk);
        var id := AppId(installed, pkg);
        if id == 0 {
          if deleteOk(pkg) {
            rows := set r | r in rows && r.0 != pkg;
          }
          pkgs := Some(pkgs.value - {pkg});
        } else {
          IndexAddInverse(installed, pkgs.value - todo, index.value, pkg, start[pkg]);
          UpdateAppId(id, pkg, false);
        }
        todo := todo - {pkg};
      }
      ScanEnd(installed, start);
    }

    /** The list as a plain set of pairs; before it is loaded, the rows of installed packages. */
    ghost function Current(): Rows
      reads this
    {
      if pkgs.Some? then RowsOf(pkgs.value) else InstalledRows(installed, rows)
    }

    /** After every step: the invariant, and what is in memory is in the database if it was and no call failed. */
    twostate predicate Stepped(ok: bool)
      reads this
    {
      Valid() && (ok && old(InSync()) ==> InSync())
    }

    method EnsureData(readOk: bool, deleteOk: string -> bool) returns (ok: bool)
      requires Valid()
      modifies this
      ensures ok == (old(pkgs).Some? || readOk)
      ensures Current() == old(Current()) && (ok <==> pkgs.Some?)
      ensures Stepped(forall p :: deleteOk(p))
      ensures old(pkgs).Some? || !ok ==> unchanged(this)
    {
      hide AppId, IsInverse, RowsLeft, Present, InstalledRows;
      if pkgs.Some? {
        return true;
      }
      if !readOk {
        return false;
      }
      pkgs := Some(map[]);
      var todo := rows;
      while todo != {}
        invariant pkgs.Some? && rows == old(rows) && index.None?
        invariant todo <= rows && RowsOf(pkgs.value) == rows - todo
        invariant forall p :: p in pkgs.value ==> pkgs.value[p] != {}
        decreases todo
      {
        var row :| row in todo;
        ghost var was := pkgs.value;
        var _ := AddHideSet(row.0, row.1);
        RowsOfAdd(was, row.0, row.1);
        todo := todo - {row};
      }
      ghost var all := pkgs.value;
      assert RowsOf(all) == old(rows);
      index := Some(map[]);
      ScanDenyApps(deleteOk);
      RowsOfPresent(installed, all, deleteOk);
      return true;
    }

    method AddList(pkg: string, proc: string, readOk: bool, writeOk: bool, deleteOk: string -> bool)
      returns (r: Response)
      requires Valid()
      modifies this
      ensures Stepped(writeOk && forall p :: deleteOk(p))
      ensures var process := if proc == "" then pkg else proc;
              if !ValidNames(pkg, process) then r == InvalidPkg && unchanged(this)
              else if old(pkgs).None? && !readOk then r == Error && unchanged(this)
              else
                var (answer, list) := AddSpec(installed, old(Current()), pkg, process);
                Current() == list && r == if answer == Ok && !writeOk then Error else answer
    {
      hide AppId, IsInverse, IsClean, RowsOf, InstalledRows, ValidNames;
      var w;
      r, w := AddLocked(pkg, proc, readOk, deleteOk);
      if w.Some? {
        Flush(w.value, writeOk);
        r := if writeOk then Ok else Error;
      }
    }

    /** `add_list` up to the release of the lock, and the write it has yet to make. */
    method AddLocked(pkg: string, proc: string, readOk: bool, deleteOk: string -> bool)
      returns (r: Response, w: Option<Write>)
      requires Valid()
      modifies this
      ensures Valid() && (old(pkgs).Some? ==> pkgs.Some? && rows == old(rows))
      ensures w == if r == Ok then Some(Insert(pkg, if proc == "" then pkg else proc)) else None
      ensures r != Ok ==> Stepped(forall p :: deleteOk(p))
      ensures r == Ok ==> pkgs.Some? && (old(InSync()) && (forall p :: deleteOk(p)) ==> rows == old(Current()))
      ensures var process := if proc == "" then pkg else proc;
              if !ValidNames(pkg, process) then r == InvalidPkg && unchanged(this)
              else if old(pkgs).None? && !readOk then r == Error && unchanged(this)
              else (r, Current()) == AddSpec(installed, old(Current()), pkg, process)
    {
      hide AppId, IsInverse, IsClean, RowsOf, InstalledRows, ValidNames;
      var process := if proc == "" then pkg else proc;
      w := None;
      var valid := Validate(pkg, process);
      if !valid {
        return InvalidPkg, None;
      }
      var loaded := EnsureData(readOk, deleteOk);
      if !loaded {
        return Error, None;
      }
      r := AddLoaded(pkg, process);
      if r == Ok {
        w := Some(Insert(pkg, process));
      }
    }

    /** The database write, made without the lock. */
    method Flush(w: Write, ok: bool)
      modifies this`rows
      ensures rows == if ok then Written(old(rows), w) else old(rows)
      ensures old(Valid()) ==> Valid()
    {
      if ok {
        match w {
          case Insert(pkg, proc) =>
            rows := rows + {(pkg, proc)};
          case Delete(pkg, proc) =>
            rows := set r | r in rows && !Concerns(w, r);
        }
      }
    }

    /** The rest of what `add_list` does under the lock. */
    method AddLoaded(pkg: string, proc: string) returns (r: Response)
      requires Valid() && pkgs.Some?
      modifies this`pkgs, this`index
      ensures Valid() && pkgs.Some?
      ensures (r, RowsOf(pkgs.value)) == AddSpec(installed, old(RowsOf(pkgs.value)), pkg, proc)
    {
      hide AppId, IsInverse, IndexAdd;
      var id := AppId(installed, pkg);
      if id == 0 {
        return InvalidPkg;
      }
      ghost var was := pkgs.value;
      RowsOfAdd(was, pkg, proc);
      IndexAddInverse(installed, was, index.value, pkg, ProcsOf(was, pkg) + {proc});
      var added := AddHideSet(pkg, proc);
      if !added {
        assert was[pkg] + {proc} == was[pkg];
        assert pkgs.value == was;
        return ItemExist;
      }
      UpdateAppId(id, pkg, false);
      return Ok;
    }

    method RmList(pkg: string, proc: string, readOk: bool, writeOk: bool, deleteOk: string -> bool)
      returns (r: Response)
      requires Valid()
      modifies this
      ensures Stepped(writeOk && forall p :: deleteOk(p))
      ensures if old(pkgs).None? && !readOk then r == Error && unchanged(this)
              else
                var (answer, list) := RmSpec(old(Current()), pkg, proc);
                Current() == list && r == if answer == Ok && !writeOk then Error else answer
    {
      hide AppId, IsInverse, IsClean, RowsOf, InstalledRows;
      var w;
      r, w := RmLocked(pkg, proc, readOk, deleteOk);
      if w.Some? {
        Flush(w.value, writeOk);
        r := if writeOk then Ok else Error;
      }
    }

    /** `rm_list` up to the release of the lock, and the write it has yet to make. */
    method RmLocked(pkg: string, proc: string, readOk: bool, deleteOk: string -> bool)
      returns (r: Response, w: Option<Write>)
      requires Valid()
      modifies this
      ensures Valid() && (old(pkgs).Some? ==> pkgs.Some? && rows == old(rows))
      ensures w == if r == Ok then Some(Delete(pkg, proc)) else None
      ensures r != Ok ==> Stepped(forall p :: deleteOk(p))
      ensures r == Ok ==> pkgs.Some? && (old(InSync()) && (forall p :: deleteOk(p)) ==> rows == old(Current()))
      ensures if old(pkgs).None? && !readOk then r == Error && unchanged(this)
              else (r, Current()) == RmSpec(old(Current()), pkg, proc)
    {
      hide AppId, IsInverse, IsClean, RowsOf, InstalledRows;
      w := None;
      var loaded := EnsureData(readOk, deleteOk);
      if !loaded {
        return Error, None;
      }
      r := RmLoaded(pkg, proc);
      if r == Ok {
        w := Some(Delete(pkg, proc));
      }
    }

    /** What `rm_list` does under the lock. */
    method RmLoaded(pkg: string, proc: string) returns (r: Response)
      requires Valid() && pkgs.Some?
      modifies this`pkgs, this`index
      ensures Valid() && pkgs.Some?
      ensures (r, RowsOf(pkgs.value)) == RmSpec(old(RowsOf(pkgs.value)), pkg, proc)
    {
      hide AppId, IsInverse, IndexRemove, RowsOf;
      ghost var was := pkgs.value;
      if pkg !in pkgs.value {
        RmNothing(was, pkg, proc);
        return ItemNotExist;
      }
      var procs := pkgs.value[pkg];
      if proc != "" && proc !in procs {
        RmNothing(was, pkg, proc);
        return ItemNotExist;
      }
      RmSomething(was, pkg, proc);
      var left := if proc == "" then {} else procs - {proc};
      if left == {} {
        IndexRemoveInverse(installed, was, index.value, pkg);
        UpdateAppId(AppId(installed, pkg), pkg, true);
        pkgs := Some(pkgs.value - {pkg});
      } else {
        SameKeysInverse(installed, was, index.value, pkg, left);
        pkgs := Some(pkgs.value[pkg := left]);
      }
      return Ok;
    }

    /** `is_deny_target`: the index gives the answer that a scan of all pairs gives. */
    method IsDenyTarget(uid: nat, process: string, readOk: bool, deleteOk: string -> bool) returns (yes: bool)
      requires Valid()
      modifies this
      ensures old(pkgs).Some? ==> pkgs.Some? && rows == old(rows)
      ensures Stepped(forall p :: deleteOk(p)) && Current() == old(Current())
      ensures yes <==> (old(pkgs).Some? || readOk) && Denied(installed, old(Current()), uid, process)
    {
      hide IsInverse, IsClean, AppId, InstalledRows;
      var loaded := EnsureData(readOk, deleteOk);
      if !loaded {
        return false;
      }
      var id := uid % USER_OFFSET;
      if id >= FIRST_ISOLATED {
        yes := IsIsolatedTarget(process);
      } else {
        yes := IsIndexed(id, process);
      }
    }

    method IsIsolatedTarget(process: string) returns (yes: bool)
      requires pkgs.Some?
      ensures yes <==> exists r :: r in RowsOf(pkgs.value) && r.0 == ISOLATED && StartsWith(process, r.1)
    {
      hide StartsWith;
      if ISOLATED in pkgs.value {
        var todo := pkgs.value[ISOLATED];
        while todo != {}
          invariant todo <= pkgs.value[ISOLATED]
          invariant forall s :: s in pkgs.value[ISOLATED] ==> s in todo || !StartsWith(process, s)
          decreases todo
        {
          var s :| s in todo;
          if StartsWith(process, s) {
            assert (ISOLATED, s) in RowsOf(pkgs.value);
            return true;
          }
          todo := todo - {s};
        }
      }
      return false;
    }

    method IsIndexed(id: nat, process: string) returns (yes: bool)
      requires Valid() && pkgs.Some?
      ensures yes <==> exists r :: r in RowsOf(pkgs.value) && r.1 == process && AppId(installed, r.0) == id
    {
      hide AppId;
      if id in index.value {
        var todo := index.value[id];
        while todo != {}
          invariant todo <= index.value[id]
          invariant forall p :: p in index.value[id] - todo ==> p in pkgs.value && process !in pkgs.value[p]
          decreases todo
        {
          var p :| p in todo;
          if process in pkgs.value[p] {
            assert (p, process) in RowsOf(pkgs.value);
            return true;
          }
          todo := todo - {p};
        }
      }
      return false;
    }

    /** `ls_list`: rescan, then write out every pair; None when the database cannot be read. */
    method LsList(readOk: bool, deleteOk: string -> bool) returns (listed: Option<Rows>)
      requires Valid()
      modifies this
      ensures old(pkgs).Some? ==> pkgs.Some? && rows == old(rows)
      ensures Stepped(forall p :: deleteOk(p)) && Current() == old(Current())
      ensures listed == if old(pkgs).Some? || readOk then Some(old(Current())) else None
    {
      hide IsInverse, AppId, InstalledRows, RowsLeft, Present, RowsOf;
      var loaded := EnsureData(readOk, deleteOk);
      if !loaded {
        return None;
      }
      ghost var was := pkgs.value;
      CleanIsPresent(installed, was);
      CleanKeepsRows(installed, was, rows, deleteOk);
      ScanDenyApps(deleteOk);
      return Some(RowsOf(pkgs.value));
    }

    /** Any run of operations, with a database that answers. */
    method Run(ops: seq<Op>) returns (answers: seq<Answer>)
      requires Valid() && InSync()
      modifies this
      ensures Valid() && InSync()
      ensures (answers, Current()) == RunSpec(installed, old(Current()), ops)
    {
      hide Valid, InSync, RowsOf, InstalledRows;
      answers := [];
      for i := 0 to |ops|
        invariant Valid() && InSync()
        invariant (answers, Current()) == RunSpec(installed, old(Current()), ops[..i])
      {
        var answer;
        match ops[i] {
          case Add(pkg, proc) =>
            var r := AddList(pkg, proc, true, true, p => true);
            answer := Responded(r);
          case Rm(pkg, proc) =>
            var r := RmList(pkg, proc, true, true, p => true);
            answer := Responded(r);
          case Ask(uid, process) =>
            var yes := IsDenyTarget(uid, process, true, p => true);
            answer := IsTarget(yes);
          case Ls =>
            var listed := LsList(true, p => true);
            answer := Pairs(listed.value);
        }
        answers := answers + [answer];
        assert ops[..i + 1][..i] == ops[..i];
      }
      assert ops[..|ops|] == ops;
    }

    /** Threads that interleave: locked parts and writes in any order, each write with its outcome. */
    method RunThreads(events: seq<Event>) returns (pending: seq<Write>)
      requires Valid() && InSync()
      modifies this
      ensures Valid()
      ensures var t := AfterRun(installed, old(Current()), events);
              Current() == t.list && pending == t.pending && t.rows == if pkgs.Some? then rows else Current()
    {
      hide Valid, RowsOf, InstalledRows, Written, StepSpec, WriteOf, AfterRun;
      NoEvents(installed, Current());
      pending := [];
      ghost var start := Current();
      for i := 0 to |events|
        invariant Valid() && (pkgs.None? ==> pending == [])
        invariant var t := AfterRun(installed, start, events[..i]);
                  Current() == t.list && pending == t.pending && t.rows == if pkgs.Some? then rows else Current()
      {
        OneMoreEvent(installed, start, events, i);
        match events[i] {
          case Call(op) =>
            var w := LockedPart(op);
            pending := pending + w;
          case Finish(k, ok) =>
            if k < |pending| {
              Flush(pending[k], ok);
              pending := pending[..k] + pending[k + 1..];
            }
        }
      }
      assert events[..|events|] == events;
    }

    /** The part of an operation that holds the lock; it leaves the rows alone unless it loads the list. */
    method LockedPart(op: Op) returns (w: seq<Write>)
      requires Valid()
      modifies this
      ensures Valid() && (pkgs.None? ==> w == [] && Current() == old(Current()))
      ensures old(pkgs).Some? ==> pkgs.Some? && rows == old(rows)
      ensures old(pkgs).None? && pkgs.Some? ==> rows == old(Current())
      ensures Current() == StepSpec(installed, old(Current()), op).1
      ensures w == WriteOf(installed, old(Current()), op)
    {
      hide Valid, RowsOf, InstalledRows, ValidNames;
      match op {
        case Add(pkg, proc) =>
          var r, pending := AddLocked(pkg, proc, true, p => true);
          w := if pending.Some? then [pending.value] else [];
        case Rm(pkg, proc) =>
          var r, pending := RmLocked(pkg, proc, true, p => true);
          w := if pending.Some? then [pending.value] else [];
        case Ask(uid, process) =>
          var _ := IsDenyTarget(uid, process, true, p => true);
          w := [];
        case Ls =>
          var _ := LsList(true, p => true);
          w := [];
      }
    }
  }

  datatype Op = Add(pkg: string, proc: string) | Rm(pkg: string, proc: string) | Ask(uid: nat, process: string) | Ls

  datatype Answer = Responded(response: Response) | IsTarget(yes: bool) | Pairs(pairs: Rows)

  /** An operation on a plain set of pairs. */
  ghost function StepSpec(installed: map<string, nat>, list: Rows, op: Op): (Answer, Rows) {
    match op
    case Add(pkg, proc) =>
      var process := if proc == "" then pkg else proc;
      if !ValidNames(pkg, process) then (Responded(InvalidPkg), list)
      else
        var (r, next) := AddSpec(installed, list, pkg, process);
        (Responded(r), next)
    case Rm(pkg, proc) =>
      var (r, next) := RmSpec(list, pkg, proc);
      (Responded(r), next)
    case Ask(uid, process) => (IsTarget(Denied(installed, list, uid, process)), list)
    case Ls => (Pairs(list), list)
  }

  ghost function RunSpec(installed: map<string, nat>, list: Rows, ops: seq<Op>): (seq<Answer>, Rows) {
    if ops == [] then ([], list)
    else
      var (answers, now) := RunSpec(installed, list, ops[..|ops| - 1]);
      var (answer, next) := StepSpec(installed, now, ops[|ops| - 1]);
      (answers + [answer], next)
  }

  lemma CleanIsPresent(installed: map<string, nat>, pkgs: Packages)
    requires IsClean(installed, pkgs)
    ensures Present(installed, pkgs) == pkgs
  {
    hide AppId;
  }

  lemma CleanKeepsRows(installed: map<string, nat>, pkgs: Packages, rows: Rows, deleteOk: string -> bool)
    requires IsClean(installed, pkgs)
    ensures RowsLeft(installed, rows, pkgs.Keys, deleteOk) == rows
  {
    hide AppId;
  }

  type Rows = set<(string, string)>

  function InstalledRows(installed: map<string, nat>, rows: Rows): Rows {
    set r | r in rows && AppId(installed, r.0) != 0
  }

  /** Adding to a plain set of pairs. */
  function AddSpec(installed: map<string, nat>, list: Rows, pkg: string, proc: string): (Response, Rows) {
    if AppId(installed, pkg) == 0 then (InvalidPkg, list)
    else if (pkg, proc) in list then (ItemExist, list)
    else (Ok, list + {(pkg, proc)})
  }

  /** Removing from a plain set of pairs: one process of a package, or all of them. */
  function RmSpec(list: Rows, pkg: string, proc: string): (Response, Rows) {
    var gone := set r | r in list && r.0 == pkg && (proc == "" || r.1 == proc);
    if gone == {} then (ItemNotExist, list) else (Ok, list - gone)
  }

  lemma RmNothing(pkgs: Packages, pkg: string, proc: string)
    requires if pkg in pkgs then proc != "" && proc !in pkgs[pkg] else true
    ensures RmSpec(RowsOf(pkgs), pkg, proc) == (ItemNotExist, RowsOf(pkgs))
  {
  }

  lemma RmSomething(pkgs: Packages, pkg: string, proc: string)
    requires pkg in pkgs && pkgs[pkg] != {} && (proc == "" || proc in pkgs[pkg])
    ensures var left := if proc == "" then {} else pkgs[pkg] - {proc};
            RmSpec(RowsOf(pkgs), pkg, proc) ==
              (Ok, RowsOf(if left == {} then pkgs - {pkg} else pkgs[pkg := left]))
  {
    hide RowsOf;
    var some :| some in pkgs[pkg] && (proc == "" || some == proc);
    RowIn(pkgs, (pkg, some));
    var gone := set r | r in RowsOf(pkgs) && r.0 == pkg && (proc == "" || r.1 == proc);
    assert (pkg, some) in gone;
    var left := if proc == "" then {} else pkgs[pkg] - {proc};
    var after := if left == {} then pkgs - {pkg} else pkgs[pkg := left];
    forall r: (string, string) ensures r in RowsOf(pkgs) - gone <==> r in RowsOf(after) {
      RowIn(pkgs, r);
      RowIn(after, r);
      assert proc != "" ==> (r.1 in left <==> r.1 in pkgs[pkg] && r.1 != proc);
      assert r in gone <==> r in RowsOf(pkgs) && r.0 == pkg && (proc == "" || r.1 == proc);
    }
    assert RowsOf(pkgs) - gone == RowsOf(after);
  }

  lemma RowIn(pkgs: Packages, r: (string, string))
    ensures r in RowsOf(pkgs) <==> r.0 in pkgs && r.1 in pkgs[r.0]
  {
    assert r == (r.0, r.1);
  }

  lemma RowsOfAdd(pkgs: Packages, pkg: string, proc: string)
    ensures RowsOf(pkgs[pkg := ProcsOf(pkgs, pkg) + {proc}]) == RowsOf(pkgs) + {(pkg, proc)}
  {
  }

  lemma RowsOfPresent(installed: map<string, nat>, pkgs: Packages, deleteOk: string -> bool)
    ensures RowsOf(Present(installed, pkgs)) == InstalledRows(installed, RowsOf(pkgs))
    ensures (forall p :: deleteOk(p)) ==>
            RowsLeft(installed, RowsOf(pkgs), pkgs.Keys, deleteOk) == InstalledRows(installed, RowsOf(pkgs))
  {
    hide AppId;
  }

  /** The packages while those in `todo` still have to be looked at. */
  function Left(installed: map<string, nat>, start: Packages, todo: set<string>): Packages {
    map p | p in start && (p in todo || AppId(installed, p) != 0) :: start[p]
  }

  function RowsLeft(installed: map<string, nat>, rows: Rows, seen: set<string>, deleteOk: string -> bool): Rows
  {
    set r | r in rows && !(r.0 in seen && AppId(installed, r.0) == 0 && deleteOk(r.0))
  }

  lemma ScanStart(installed: map<string, nat>, start: Packages, rows: Rows, deleteOk: string -> bool)
    ensures start == Left(installed, start, start.Keys)
    ensures IsInverse(installed, start - start.Keys, map[])
    ensures rows == RowsLeft(installed, rows, start.Keys - start.Keys, deleteOk)
  {
  }

  lemma ScanStep(installed: map<string, nat>, start: Packages, rows: Rows, todo: set<string>,
                 pkg: string, deleteOk: string -> bool)
    requires pkg in todo && todo <= start.Keys
    ensures var left, next := Left(installed, start, todo), todo - {pkg};
            if AppId(installed, pkg) == 0
            then Left(installed, start, next) == left - {pkg} && left - {pkg} - next == left - todo
            else Left(installed, start, next) == left && left - next == (left - todo)[pkg := start[pkg]]
    ensures var now, next := RowsLeft(installed, rows, start.Keys - todo, deleteOk),
                             RowsLeft(installed, rows, start.Keys - (todo - {pkg}), deleteOk);
            next == if AppId(installed, pkg) == 0 && deleteOk(pkg) then set r | r in now && r.0 != pkg else now
  {
    hide AppId;
  }

  lemma ScanEnd(installed: map<string, nat>, start: Packages)
    ensures Left(installed, start, {}) == Present(installed, start)
    ensures Left(installed, start, {}) - {} == Left(installed, start, {})
    ensures start.Keys - {} == start.Keys
  {
  }

  function ProcsOf(pkgs: Packages, pkg: string): set<string> { if pkg in pkgs then pkgs[pkg] else {} }

  // ---------------------------------------------------------------------------------------
  // Database writes happen after the lock is released
  // ---------------------------------------------------------------------------------------

  /** The write that follows a successful change of the list. */
  datatype Write = Insert(pkg: string, proc: string) | Delete(pkg: string, proc: string)

  predicate Concerns(w: Write, row: (string, string)) {
    row.0 == w.pkg && ((w.Delete? && w.proc == "") || row.1 == w.proc)
  }

  function Written(rows: Rows, w: Write): Rows {
    match w
    case Insert(pkg, proc) => rows + {(pkg, proc)}
    case Delete(_, _) => set r | r in rows && !Concerns(w, r)
  }

  function AllWritten(rows: Rows, ws: seq<Write>): Rows {
    if ws == [] then rows else Written(AllWritten(rows, ws[..|ws| - 1]), ws[|ws| - 1])
  }

  /** A successful add or remove changes the list as its write changes the rows. */
  lemma WriteFollowsChange(installed: map<string, nat>, list: Rows, pkg: string, proc: string)
    ensures AddSpec(installed, list, pkg, proc).0 == Ok ==>
            AddSpec(installed, list, pkg, proc).1 == Written(list, Insert(pkg, proc))
    ensures RmSpec(list, pkg, proc).0 == Ok ==> RmSpec(list, pkg, proc).1 == Written(list, Delete(pkg, proc))
  {
    hide AppId;
  }

  /** The write an operation has to make after its locked part: only a successful add or remove has one. */
  ghost function WriteOf(installed: map<string, nat>, list: Rows, op: Op): seq<Write> {
    if StepSpec(installed, list, op).0 != Responded(Ok) then []
    else match op
      case Add(pkg, proc) => [Insert(pkg, if proc == "" then pkg else proc)]
      case Rm(pkg, proc) => [Delete(pkg, proc)]
      case _ => []
  }

  /**
   * Threads around the list: what is in memory, what the database holds, the writes still to be
   * made, the writes in the order of the changes, those made in their order, and those that failed.
   */
  datatype Threads = Threads(
    list: Rows, rows: Rows, pending: seq<Write>, changes: seq<Write>, written: seq<Write>, failed: seq<Write>)

  /** The locked part of an operation, or one of the pending writes if there are so many, with its outcome. */
  datatype Event = Call(op: Op) | Finish(k: nat, ok: bool)

  ghost function Next(installed: map<string, nat>, t: Threads, e: Event): Threads {
    match e
    case Call(op) =>
      var w := WriteOf(installed, t.list, op);
      t.(list := StepSpec(installed, t.list, op).1, pending := t.pending + w, changes := t.changes + w)
    case Finish(k, ok) =>
      if k >= |t.pending| then t
      else
        var w, left := t.pending[k], t.pending[..k] + t.pending[k + 1..];
        if ok then t.(rows := Written(t.rows, w), pending := left, written := t.written + [w])
        else t.(pending := left, failed := t.failed + [w])
  }

  function Quiet(rows: Rows): Threads { Threads(rows, rows, [], [], [], []) }

  ghost function AfterRun(installed: map<string, nat>, rows: Rows, events: seq<Event>): Threads {
    if events == [] then Quiet(rows)
    else Next(installed, AfterRun(installed, rows, events[..|events| - 1]), events[|events| - 1])
  }

  lemma NoEvents(installed: map<string, nat>, rows: Rows)
    ensures AfterRun(installed, rows, []) == Quiet(rows)
  {
  }

  lemma OneMoreEvent(installed: map<string, nat>, rows: Rows, events: seq<Event>, i: nat)
    requires i < |events|
    ensures AfterRun(installed, rows, events[..i + 1]) ==
            Next(installed, AfterRun(installed, rows, events[..i]), events[i])
  {
    hide Next;
    assert events[..i + 1][..i] == events[..i];
  }

  /** The list is what the changes made of it, the rows what the writes that were made, and each change
      is a write that was made, failed or is pending. */
  ghost predicate Accounted(rows: Rows, t: Threads) {
    && t.list == AllWritten(rows, t.changes) && t.rows == AllWritten(rows, t.written)
    && multiset(t.changes) == multiset(t.written) + multiset(t.failed) + multiset(t.pending)
  }

  lemma ListFollowsWrite(installed: map<string, nat>, list: Rows, op: Op)
    ensures StepSpec(installed, list, op).1 ==
            (if WriteOf(installed, list, op) == [] then list else Written(list, WriteOf(installed, list, op)[0]))
    ensures |WriteOf(installed, list, op)| <= 1
  {
    hide AppId, ValidNames, Denied, Written;
    if op.Add? {
      WriteFollowsChange(installed, list, op.pkg, if op.proc == "" then op.pkg else op.proc);
    } else if op.Rm? {
      WriteFollowsChange(installed, list, op.pkg, op.proc);
    }
  }

  lemma AllWrittenMore(rows: Rows, ws: seq<Write>, w: Write)
    ensures AllWritten(rows, ws + [w]) == Written(AllWritten(rows, ws), w)
  {
    hide Written;
    assert (ws + [w])[..|ws|] == ws;
  }

  lemma AccountedStep(installed: map<string, nat>, rows: Rows, t: Threads, e: Event)
    requires Accounted(rows, t)
    ensures Accounted(rows, Next(installed, t, e))
  {
    hide AllWritten, Written, StepSpec, WriteOf;
    match e {
      case Call(op) =>
        var w := WriteOf(installed, t.list, op);
        ListFollowsWrite(installed, t.list, op);
        if w == [] {
          assert t.changes + w == t.changes && t.pending + w == t.pending;
        } else {
          assert w == [w[0]];
          AllWrittenMore(rows, t.changes, w[0]);
        }
      case Finish(k, _) =>
        if k < |t.pending| {
          var w := t.pending[k];
          AllWrittenMore(rows, t.written, w);
          assert t.pending == t.pending[..k] + [w] + t.pending[k + 1..];
        }
    }
  }

  /** Over every interleaving of the threads. */
  lemma {:induction false} RunIsAccounted(installed: map<string, nat>, rows: Rows, events: seq<Event>)
    ensures Accounted(rows, AfterRun(installed, rows, events))
    decreases |events|
  {
    hide Accounted, Next;
    if events == [] {
      QuietIsAccounted(rows);
    } else {
      var before := events[..|events| - 1];
      RunIsAccounted(installed, rows, before);
      AccountedStep(installed, rows, AfterRun(installed, rows, before), events[|events| - 1]);
    }
  }

  lemma QuietIsAccounted(rows: Rows)
    ensures Accounted(rows, Quiet(rows))
  {
  }

  /** The last write that concerns a row, if any. */
  function LastWrite(ws: seq<Write>, row: (string, string)): Option<Write> {
    if ws == [] then None
    else if Concerns(ws[|ws| - 1], row) then Some(ws[|ws| - 1])
    else LastWrite(ws[..|ws| - 1], row)
  }

  lemma {:induction false} LastWriteDecides(rows: Rows, ws: seq<Write>, row: (string, string))
    ensures row in AllWritten(rows, ws) <==>
            match LastWrite(ws, row) case None => row in rows case Some(w) => w.Insert?
  {
    if ws != [] {
      LastWriteDecides(rows, ws[..|ws| - 1], row);
    }
  }

  lemma {:induction false} LastWriteFound(ws: seq<Write>, row: (string, string))
    ensures LastWrite(ws, row).None? <==> forall w :: w in ws ==> !Concerns(w, row)
  {
    if ws != [] {
      LastWriteFound(ws[..|ws| - 1], row);
      assert ws == ws[..|ws| - 1] + [ws[|ws| - 1]];
    }
  }

  /**
   * After any run of the threads that has no write pending, the rows are the list exactly when, row by
   * row, the last change is of the kind of the last write that was made, or of what the rows had at
   * first where none was.
   */
  lemma RowsAgreeIff(installed: map<string, nat>, rows: Rows, events: seq<Event>)
    requires AfterRun(installed, rows, events).pending == []
    ensures var t := AfterRun(installed, rows, events);
            t.rows == t.list <==> forall row :: SameEnd(rows, t.changes, t.written, row)
  {
    hide AfterRun, SameEnd, AllWritten;
    RunIsAccounted(installed, rows, events);
    var t := AfterRun(installed, rows, events);
    WritesAgree(rows, t.changes, t.written);
  }

  /** Writes that succeed in the order of the changes: always the oldest first. */
  predicate InOrder(events: seq<Event>) {
    forall i :: 0 <= i < |events| && events[i].Finish? ==> events[i].k == 0 && events[i].ok
  }

  lemma InOrderStep(installed: map<string, nat>, t: Threads, e: Event)
    requires t.changes == t.written + t.pending && (e.Finish? ==> e.k == 0 && e.ok)
    ensures var u := Next(installed, t, e); u.changes == u.written + u.pending
  {
    hide StepSpec, WriteOf, Written;
    if e.Call? {
      var w := WriteOf(installed, t.list, e.op);
      assert t.written + t.pending + w == t.written + (t.pending + w);
    } else if t.pending != [] {
      assert t.pending == [t.pending[0]] + t.pending[1..] && t.pending[..0] + t.pending[1..] == t.pending[1..];
      assert t.written + t.pending == t.written + [t.pending[0]] + t.pending[1..];
    }
  }

  lemma {:induction false} InOrderIsPrefix(installed: map<string, nat>, rows: Rows, events: seq<Event>)
    requires InOrder(events)
    ensures var t := AfterRun(installed, rows, events); t.changes == t.written + t.pending
    decreases |events|
  {
    hide Next;
    if events != [] {
      var before, e := events[..|events| - 1], events[|events| - 1];
      InOrderIsPrefix(installed, rows, before);
      InOrderStep(installed, AfterRun(installed, rows, before), e);
    }
  }

  /** Then the rows end up as the list. */
  lemma InOrderAgrees(installed: map<string, nat>, rows: Rows, events: seq<Event>)
    requires InOrder(events) && AfterRun(installed, rows, events).pending == []
    ensures var t := AfterRun(installed, rows, events); t.rows == t.list
  {
    hide AfterRun, AllWritten;
    RunIsAccounted(installed, rows, events);
    InOrderIsPrefix(installed, rows, events);
    var t := AfterRun(installed, rows, events);
    assert t.written + [] == t.written;
  }

  lemma WritesAgree(rows: Rows, changes: seq<Write>, writes: seq<Write>)
    requires multiset(writes) <= multiset(changes)
    ensures AllWritten(rows, writes) == AllWritten(rows, changes) <==>
            forall row :: SameEnd(rows, changes, writes, row)
  {
    hide SameEnd;
    var a, b := AllWritten(rows, changes), AllWritten(rows, writes);
    forall row: (string, string)
      ensures (row in a <==> row in b) <==> SameEnd(rows, changes, writes, row)
    {
      SameEndDecides(rows, changes, writes, row);
    }
    if a == b {
    } else if forall row :: SameEnd(rows, changes, writes, row) {
      assert forall row :: row in a <==> row in b;
      assert false;
    }
  }

  predicate SameEnd(rows: Rows, changes: seq<Write>, writes: seq<Write>, row: (string, string)) {
    match (LastWrite(changes, row), LastWrite(writes, row))
    case (Some(c), Some(w)) => c.Insert? == w.Insert?
    case (Some(c), None) => c.Insert? == (row in rows)
    case _ => true
  }

  lemma SameEndDecides(rows: Rows, changes: seq<Write>, writes: seq<Write>, row: (string, string))
    requires multiset(writes) <= multiset(changes)
    ensures (row in AllWritten(rows, changes) <==> row in AllWritten(rows, writes)) <==>
            SameEnd(rows, changes, writes, row)
  {
    hide LastWrite, AllWritten, Concerns;
    LastWriteDecides(rows, changes, row);
    LastWriteDecides(rows, writes, row);
    LastWriteFound(changes, row);
    LastWriteFound(writes, row);
    forall w | w in writes
      ensures w in changes
    {
      assert w in multiset(writes);
      assert w in multiset(changes);
    }
  }

  lemma AddThenRm(installed: map<string, nat>, rows: Rows, pkg: string, proc: string)
    requires ValidNames(pkg, proc) && proc != "" && AppId(installed, pkg) != 0 && (pkg, proc) !in rows
    ensures var add, remove, added := Add(pkg, proc), Rm(pkg, proc), rows + {(pkg, proc)};
            && StepSpec(installed, rows, add) == (Responded(Ok), added)
            && WriteOf(installed, rows, add) == [Insert(pkg, proc)]
            && StepSpec(installed, added, remove).0 == Responded(Ok)
            && (pkg, proc) !in StepSpec(installed, added, remove).1
            && WriteOf(installed, added, remove) == [Delete(pkg, proc)]
  {
    hide AppId, ValidNames;
    var added := rows + {(pkg, proc)};
    var gone := set r | r in added && r.0 == pkg && (proc == "" || r.1 == proc);
    assert (pkg, proc) in gone;
    assert RmSpec(added, pkg, proc) == (Ok, added - gone);
  }

  /** An add whose write fails: the pair is denied until the list is loaded again. */
  lemma FailedInsertIsMissing(installed: map<string, nat>, rows: Rows, pkg: string, proc: string)
    requires ValidNames(pkg, proc) && proc != "" && AppId(installed, pkg) != 0 && (pkg, proc) !in rows
    ensures var t := AfterRun(installed, rows, [Call(Add(pkg, proc)), Finish(0, false)]);
            t.pending == [] && t.list == rows + {(pkg, proc)} && t.rows == rows
  {
    hide AppId, ValidNames, StepSpec, WriteOf;
    var e1, e2 := [Call(Add(pkg, proc))], [Call(Add(pkg, proc)), Finish(0, false)];
    assert e2[..1] == e1 && e1[..0] == [];
    AddThenRm(installed, rows, pkg, proc);
    assert AfterRun(installed, rows, []) == Quiet(rows);
    var t1 := Next(installed, Quiet(rows), e1[0]);
    assert AfterRun(installed, rows, e1) == t1 && t1.pending == [Insert(pkg, proc)];
  }

  /**
   * An add and a later remove that both answer Ok, with their writes in the other order, leave a row
   * that the list does not have.
   */
  lemma LateInsertLeavesRow(installed: map<string, nat>, rows: Rows, pkg: string, proc: string)
    requires ValidNames(pkg, proc) && proc != "" && AppId(installed, pkg) != 0 && (pkg, proc) !in rows
    ensures var add, remove := Add(pkg, proc), Rm(pkg, proc);
            var added := StepSpec(installed, rows, add);
            var events := [Call(add), Call(remove), Finish(1, true), Finish(0, true)];
            && added.0 == Responded(Ok) && StepSpec(installed, added.1, remove).0 == Responded(Ok)
            && var t := AfterRun(installed, rows, events);
               t.pending == [] && (pkg, proc) !in t.list && (pkg, proc) in t.rows
  {
    hide AppId, ValidNames, StepSpec, WriteOf;
    var add, remove := Add(pkg, proc), Rm(pkg, proc);
    var e1, e2, e3 := [Call(add)], [Call(add), Call(remove)], [Call(add), Call(remove), Finish(1, true)];
    var e4 := [Call(add), Call(remove), Finish(1, true), Finish(0, true)];
    assert e4[..3] == e3 && e3[..2] == e2 && e2[..1] == e1 && e1[..0] == [];
    var added := rows + {(pkg, proc)};
    AddThenRm(installed, rows, pkg, proc);
    var t1 := Next(installed, Quiet(rows), Call(add));
    assert AfterRun(installed, rows, []) == Quiet(rows) && AfterRun(installed, rows, e1) == t1;
    var t2 := Next(installed, t1, Call(remove));
    assert AfterRun(installed, rows, e2) == t2;
    assert t2.pending == [Insert(pkg, proc), Delete(pkg, proc)];
    var t3 := Next(installed, t2, Finish(1, true));
    assert AfterRun(installed, rows, e3) == t3 && t3.pending == [Insert(pkg, proc)];
    var t4 := Next(installed, t3, Finish(0, true));
    assert AfterRun(installed, rows, e4) == t4 && t4.pending == [];
  }
}

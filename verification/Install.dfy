/** The install and rollback of utils/update.py over a map from paths to bytes, with a fault
    possible at every step. Folders are not modelled. */
module Install {
  import opened Bytes

  type path = string

  type Files = map<path, seq<byte>>

  datatype Member = Member(target: path, data: seq<byte>)

  datatype Op = MakeFolder | Replace | Unpack | Write

  /** An OSError is what the installer handles; a bad archive raises other errors. */
  datatype Fault = Works | OsFault | OtherFault

  /** What the system does: the fault of each member's operation; how much of the data a write that
      fails leaves behind, if it opened the file at all; and whether the rollback of an installed
      entry works. */
  datatype System = System(fault: (nat, Op) -> Fault, written: nat -> Option<nat>, undoes: nat -> bool)

  datatype Entry = Entry(target: path, stale: Option<path>)

  /** An install that meets an OSError is rolled back; another error escapes it. */
  datatype Ended = Installed | RolledBack | Escaped

  /** `target.with_name(target.name + ".old")`. */
  function Old(target: path): path {
    target + ".old"
  }

  function Value(files: Files, p: path): Option<seq<byte>> {
    if p in files then Some(files[p]) else None
  }

  // ----- File operations

  /** `Path.replace`. */
  function Moved(files: Files, from: path, to: path): Files
    requires from in files
  {
    (files - {from})[to := files[from]]
  }

  /** What a write leaves, working or not. */
  function AfterWrite(files: Files, m: Member, fault: Fault, written: Option<nat>): Files {
    if fault.Works? then files[m.target := m.data]
    else
      match written
      case None => files
      case Some(n) => files[m.target := if n <= |m.data| then m.data[..n] else m.data]
  }

  class Disk {
    var files: Files

    constructor (files: Files)
      ensures this.files == files
    {
      this.files := files;
    }

    method ReplaceFile(from: path, to: path, works: bool) returns (done: bool)
      modifies this
      ensures done == (works && from in old(files))
      ensures files == if done then Moved(old(files), from, to) else old(files)
    {
      done := works && from in files;
      if done {
        files := Moved(files, from, to);
      }
    }

    /** `unlink(missing_ok=True)`. */
    method Unlink(p: path, works: bool)
      modifies this
      ensures files == if works then old(files) - {p} else old(files)
    {
      if works {
        files := files - {p};
      }
    }

    method WriteBytes(m: Member, fault: Fault, written: Option<nat>)
      modifies this
      ensures files == AfterWrite(old(files), m, fault, written)
    {
      files := AfterWrite(files, m, fault, written);
    }
  }

  // ----- The algorithm

  /** The files, the entries and the first fault once the members from `k` on are installed. */
  function InstallFrom(system: System, members: seq<Member>, k: nat, files: Files, installed: seq<Entry>)
    : (Files, seq<Entry>, Fault)
    requires k <= |members|
    decreases |members| - k
  {
    if k == |members| then (files, installed, Works)
    else
      var m := members[k];
      if !system.fault(k, MakeFolder).Works? then (files, installed, system.fault(k, MakeFolder))
      else if m.target in files && !system.fault(k, Replace).Works? then (files, installed, system.fault(k, Replace))
      else
        var kept, entries := SetAside(files, m.target), installed + [EntryOf(files, m)];
        if !system.fault(k, Unpack).Works? then (kept, entries, system.fault(k, Unpack))
        else
          var fault := system.fault(k, Write);
          var after := AfterWrite(kept, m, fault, system.written(k));
          if !fault.Works? then (after, entries, fault) else InstallFrom(system, members, k + 1, after, entries)
  }

  /** A target that is there goes to its `.old` name. */
  function SetAside(files: Files, target: path): Files {
    if target in files then Moved(files, target, Old(target)) else files
  }

  function EntryOf(files: Files, m: Member): Entry {
    Entry(m.target, if m.target in files then Some(Old(m.target)) else None)
  }

  /** One step of the rollback. A backup that is gone cannot be moved back. */
  function Undone(files: Files, e: Entry, works: bool): Files {
    match e.stale
    case None => if works then files - {e.target} else files
    case Some(stale) => if works && stale in files then Moved(files, stale, e.target) else files
  }

  function RollBackFrom(system: System, entries: seq<Entry>, j: nat, files: Files): Files
    requires j <= |entries|
    decreases |entries| - j
  {
    if j == |entries| then files
    else RollBackFrom(system, entries, j + 1, Undone(files, entries[j], system.undoes(j)))
  }

  function Install(files: Files, members: seq<Member>, system: System): (Files, Ended) {
    var (after, installed, fault) := InstallFrom(system, members, 0, files, []);
    match fault
    case Works => (after, Installed)
    case OsFault => (RollBackFrom(system, installed, 0, after), RolledBack)
    case OtherFault => (after, Escaped)
  }

  /** `install_bundle`. */
  method InstallBundle(disk: Disk, members: seq<Member>, system: System) returns (ended: Ended)
    modifies disk
    ensures (disk.files, ended) == Install(old(disk.files), members, system)
  {
    hide InstallFrom, RollBackFrom, AfterWrite;
    var installed, fault := InstallAll(disk, members, system);
    ended := Installed;
    if fault.OsFault? {
      RollBack(disk, installed, system);
      ended := RolledBack;
    } else if fault.OtherFault? {
      ended := Escaped;
    }
  }

  /** The body of the `try`, up to its first error. */
  method InstallAll(disk: Disk, members: seq<Member>, system: System) returns (installed: seq<Entry>, fault: Fault)
    modifies disk
    ensures (disk.files, installed, fault) == InstallFrom(system, members, 0, old(disk.files), [])
  {
    hide AfterWrite, Moved;
    installed := [];
    for k := 0 to |members|
      invariant InstallFrom(system, members, k, disk.files, installed)
             == InstallFrom(system, members, 0, old(disk.files), [])
    {
      var m := members[k];
      fault := system.fault(k, MakeFolder);
      if !fault.Works? {
        return;
      }
      var stale := None;
      if m.target in disk.files {
        stale := Some(Old(m.target));
        fault := system.fault(k, Replace);
        if !fault.Works? {
          return;
        }
        var _ := disk.ReplaceFile(m.target, Old(m.target), true);
      }
      installed := installed + [Entry(m.target, stale)];
      fault := system.fault(k, Unpack);
      if !fault.Works? {
        return;
      }
      fault := system.fault(k, Write);
      disk.WriteBytes(m, fault, system.written(k));
      if !fault.Works? {
        return;
      }
    }
    fault := Works;
  }

  /** `roll_back`. */
  method RollBack(disk: Disk, installed: seq<Entry>, system: System)
    modifies disk
    ensures disk.files == RollBackFrom(system, installed, 0, old(disk.files))
  {
    hide Moved;
    for j := 0 to |installed|
      invariant RollBackFrom(system, installed, j, disk.files) == RollBackFrom(system, installed, 0, old(disk.files))
    {
      match installed[j].stale
      case None =>
        disk.Unlink(installed[j].target, system.undoes(j));
      case Some(stale) =>
        var _ := disk.ReplaceFile(stale, installed[j].target, system.undoes(j));
    }
  }

  // ----- Where members go

  ghost predicate IsTarget(members: seq<Member>, n: nat, p: path)
    requires n <= |members|
  {
    exists i :: 0 <= i < n && members[i].target == p
  }

  /** A member before `k` has the same target. */
  ghost predicate Repeated(members: seq<Member>, k: nat)
    requires k < |members|
  {
    IsTarget(members, k, members[k].target)
  }

  /** The backup of a member before `n` that replaces a file. */
  ghost predicate IsBackup(initial: Files, members: seq<Member>, n: nat, p: path)
    requires n <= |members|
  {
    exists i :: 0 <= i < n && members[i].target in initial && Old(members[i].target) == p
  }

  /** Member `i` replaces a file, and no other member before `n` goes to that file or its backup. */
  ghost predicate Alone(members: seq<Member>, n: nat, i: nat)
    requires i < n <= |members|
  {
    && (forall j :: 0 <= j < n && members[j].target == members[i].target ==> j == i)
    && (forall j :: 0 <= j < n ==> members[j].target != Old(members[i].target))
  }

  /** Among the first `n` members, those that replace a file are alone with it. A new target may come
      again, if its backup then goes where a member before put a new file too. */
  ghost predicate Orderly(initial: Files, members: seq<Member>, n: nat)
    requires n <= |members|
  {
    && (forall i :: 0 <= i < n && members[i].target in initial ==> Alone(members, n, i))
    && (forall k :: 0 <= k < n && Repeated(members, k) ==>
          Old(members[k].target) !in initial && IsTarget(members, k, Old(members[k].target)))
  }

  /** And no file stands under the `.old` name of one that is replaced. */
  ghost predicate Safe(initial: Files, members: seq<Member>, n: nat)
    requires n <= |members|
  {
    && Orderly(initial, members, n)
    && forall i :: 0 <= i < n && members[i].target in initial ==> Old(members[i].target) !in initial
  }

  lemma OldIsAnother(p: path, q: path)
    ensures Old(p) != p && Old(Old(p)) != p && (Old(p) == Old(q) <==> p == q)
  {
    assert |Old(p)| == |p| + 4;
    assert Old(p)[..|p|] == p && Old(q)[..|q|] == q;
  }

  lemma OrderlyBefore(initial: Files, members: seq<Member>, k: nat, n: nat)
    requires k <= n <= |members|
    ensures Orderly(initial, members, n) ==> Orderly(initial, members, k)
    ensures Safe(initial, members, n) ==> Safe(initial, members, k)
  {
    hide Old, IsTarget;
  }

  /** What member `k` meets: it comes upon no backup, and if it comes upon a file of another member,
      it repeats that one. */
  lemma MemberMeets(initial: Files, members: seq<Member>, k: nat)
    requires k < |members| && Orderly(initial, members, k + 1)
    ensures !IsBackup(initial, members, k, members[k].target)
    ensures members[k].target in initial ==> !Repeated(members, k) && !IsTarget(members, k, Old(members[k].target))
    ensures Repeated(members, k) ==>
      Old(members[k].target) !in initial && IsTarget(members, k, Old(members[k].target))
  {
    hide Old;
  }

  // ----- What installing leaves

  /** Member `m` replaced a file, and its backup holds that file's bytes. */
  ghost predicate BackedUp(initial: Files, files: Files, m: Member) {
    m.target in initial ==> Value(files, Old(m.target)) == Some(initial[m.target])
  }

  /** Once the members before `n` were touched: every file they replaced is backed up, and no file
      but the targets and backups has changed. */
  ghost predicate Touched(initial: Files, files: Files, members: seq<Member>, n: nat)
    requires n <= |members|
  {
    && (forall i :: 0 <= i < n ==> BackedUp(initial, files, members[i]))
    && (forall p :: !IsTarget(members, n, p) && !IsBackup(initial, members, n, p) ==>
        Value(files, p) == Value(initial, p))
  }

  /** What the members before `n` put at `p`: the bytes of the last one with that target, or those that
      were set aside there since, when a target came again. */
  ghost function Content(members: seq<Member>, n: nat, p: path): Option<seq<byte>>
    requires n <= |members|
  {
    if n == 0 then None
    else
      var last := members[n - 1];
      if last.target == p then Some(last.data)
      else if Repeated(members, n - 1) && Old(last.target) == p then Content(members, n - 1, last.target)
      else Content(members, n - 1, p)
  }

  /** A member after `i` and before `n` has its target, or sets its own aside there. */
  ghost predicate Overwritten(members: seq<Member>, n: nat, i: nat)
    requires n <= |members|
  {
    exists j :: i < j < n && (members[j].target == members[i].target
                              || (Repeated(members, j) && Old(members[j].target) == members[i].target))
  }

  lemma {:induction false} OwnContent(members: seq<Member>, n: nat, i: nat)
    requires i < n <= |members| && !Overwritten(members, n, i)
    ensures Content(members, n, members[i].target) == Some(members[i].data)
    decreases n
  {
    hide Old, Repeated;
    if i < n - 1 {
      OwnContent(members, n - 1, i);
    }
  }

  /** Every target of the members before `n` is there, and holds what they put there. */
  ghost predicate AllNew(files: Files, members: seq<Member>, n: nat)
    requires n <= |members|
  {
    forall i :: 0 <= i < n ==> Holds(files, members, n, members[i].target)
  }

  ghost predicate Holds(files: Files, members: seq<Member>, n: nat, p: path)
    requires n <= |members|
  {
    p in files && Some(files[p]) == Content(members, n, p)
  }

  /** The entry of member `k`, which sets a file or an earlier member's target aside. */
  ghost function EntryAt(initial: Files, members: seq<Member>, k: nat): Entry
    requires k < |members|
  {
    var t := members[k].target;
    Entry(t, if t in initial || Repeated(members, k) then Some(Old(t)) else None)
  }

  /** The entries of the members before `n`. */
  ghost function EntriesOf(initial: Files, members: seq<Member>, n: nat): (entries: seq<Entry>)
    requires n <= |members|
    ensures |entries| == n
  {
    seq(n, i requires 0 <= i < n => EntryAt(initial, members, i))
  }

  lemma NextIsTarget(initial: Files, members: seq<Member>, n: nat, p: path)
    requires n < |members|
    ensures IsTarget(members, n + 1, p) <==> IsTarget(members, n, p) || p == members[n].target
    ensures IsBackup(initial, members, n + 1, p) <==>
      IsBackup(initial, members, n, p) || (members[n].target in initial && p == Old(members[n].target))
  {}

  /** The next member finds a file as it was at first, or what an earlier member left, or nothing. */
  lemma NextFinds(initial: Files, files: Files, members: seq<Member>, n: nat)
    requires n < |members| && Orderly(initial, members, n + 1)
    requires Touched(initial, files, members, n) && AllNew(files, members, n)
    ensures members[n].target in initial ==> Value(files, members[n].target) == Value(initial, members[n].target)
    ensures EntryOf(files, members[n]) == EntryAt(initial, members, n)
    ensures EntriesOf(initial, members, n + 1) == EntriesOf(initial, members, n) + [EntryOf(files, members[n])]
  {
    hide Old, Orderly, IsBackup, IsTarget, AllNew;
    MemberMeets(initial, members, n);
    TargetIsThere(files, members, n, members[n].target);
  }

  lemma TargetIsThere(files: Files, members: seq<Member>, n: nat, p: path)
    requires n <= |members| && AllNew(files, members, n)
    ensures IsTarget(members, n, p) ==> p in files && Holds(files, members, n, p)
  {
    hide Content;
  }

  /** Setting a target aside, and anything done to the target itself after that, keeps the rest. */
  lemma TouchNext(initial: Files, files: Files, members: seq<Member>, n: nat, after: Files)
    requires n < |members| && Orderly(initial, members, n + 1)
    requires Touched(initial, files, members, n) && AllNew(files, members, n)
    requires forall p :: p != members[n].target ==> Value(after, p) == Value(SetAside(files, members[n].target), p)
    ensures Touched(initial, after, members, n + 1)
  {
    hide Old, IsTarget, IsBackup, AllNew, Repeated;
    var t := members[n].target;
    NextFinds(initial, files, members, n);
    MemberMeets(initial, members, n);
    OldIsAnother(t, t);
    forall i | 0 <= i < n + 1 ensures BackedUp(initial, after, members[i]) {
      OldIsAnother(members[i].target, t);
      assert members[i].target in initial ==> Alone(members, n + 1, i);
    }
    forall p | !IsTarget(members, n + 1, p) && !IsBackup(initial, members, n + 1, p)
      ensures Value(after, p) == Value(initial, p)
    {
      NextIsTarget(initial, members, n, p);
    }
  }

  lemma NewNext(initial: Files, files: Files, members: seq<Member>, k: nat, after: Files)
    requires k < |members| && Orderly(initial, members, k + 1)
    requires Touched(initial, files, members, k) && AllNew(files, members, k)
    requires after == SetAside(files, members[k].target)[members[k].target := members[k].data]
    ensures AllNew(after, members, k + 1)
  {
    hide Old, Touched, Orderly, IsTarget;
    NextFinds(initial, files, members, k);
    MemberMeets(initial, members, k);
    var t := members[k].target;
    TargetIsThere(files, members, k, t);
    assert t in files <==> t in initial || Repeated(members, k);
    OldIsAnother(t, t);
    forall i | 0 <= i < k ensures Holds(after, members, k + 1, members[i].target) {
      TargetBefore(members, k, i);
      HoldsNext(files, members, k, members[i].target, after);
    }
  }

  lemma HoldsNext(files: Files, members: seq<Member>, k: nat, p: path, after: Files)
    requires k < |members| && Holds(files, members, k, p)
    requires Repeated(members, k) ==> Holds(files, members, k, members[k].target)
    requires Old(members[k].target) == p ==> (members[k].target in files <==> Repeated(members, k))
    requires after == SetAside(files, members[k].target)[members[k].target := members[k].data]
    ensures Holds(after, members, k + 1, p)
  {
    hide Old, Repeated;
  }

  lemma TargetBefore(members: seq<Member>, k: nat, i: nat)
    requires i < k <= |members|
    ensures IsTarget(members, k, members[i].target)
  {}

  /** Installing from any point on leaves some number of members touched, all of them and new if
      nothing failed. */
  lemma {:induction false} InstallTouches(system: System, members: seq<Member>, k: nat, initial: Files, files: Files)
    returns (n: nat)
    requires k <= |members| && Orderly(initial, members, |members|)
    requires Touched(initial, files, members, k) && AllNew(files, members, k)
    ensures var (after, installed, fault) := InstallFrom(system, members, k, files, EntriesOf(initial, members, k));
      && k <= n <= |members| && installed == EntriesOf(initial, members, n) && Touched(initial, after, members, n)
      && (fault.Works? ==> n == |members| && AllNew(after, members, n))
    decreases |members| - k
  {
    hide Touched, Orderly, SetAside, EntryOf, EntriesOf, AllNew;
    n := k;
    if k < |members| {
      var m := members[k];
      var kept := SetAside(files, m.target);
      OrderlyBefore(initial, members, k + 1, |members|);
      NextFinds(initial, files, members, k);
      if system.fault(k, MakeFolder).Works? && (m.target in files ==> system.fault(k, Replace).Works?) {
        n := k + 1;
        TouchNext(initial, files, members, k, kept);
        if system.fault(k, Unpack).Works? {
          var after := AfterWrite(kept, m, system.fault(k, Write), system.written(k));
          TouchNext(initial, files, members, k, after);
          if system.fault(k, Write).Works? {
            NewNext(initial, files, members, k, after);
            n := InstallTouches(system, members, k + 1, initial, after);
          }
        }
      }
    }
  }

  // ----- What rolling back leaves

  ghost predicate UndoesAll(system: System) {
    forall j :: system.undoes(j)
  }

  /** The entry of `m` was undone: its target is as at first and its backup is gone. */
  ghost predicate PutBack(initial: Files, files: Files, m: Member) {
    Value(files, m.target) == Value(initial, m.target) && (m.target in initial ==> Old(m.target) !in files)
  }

  /** Member `i` brings a file that was not there and that no other member before `n` brings. */
  ghost predicate BringsAlone(initial: Files, members: seq<Member>, n: nat, i: nat)
    requires i < n <= |members|
  {
    && members[i].target !in initial
    && forall j :: 0 <= j < n && members[j].target == members[i].target ==> j == i
  }

  /** Once the entries before `j` were gone through: each of them that replaced a file, or brought one
      alone, was undone if that worked, and every other file replaced is still backed up. */
  ghost predicate GoneBack(initial: Files, files: Files, members: seq<Member>, n: nat, j: nat, system: System)
    requires j <= n <= |members|
  {
    && (forall i :: 0 <= i < n && members[i].target in initial ==>
          if i < j && system.undoes(i) then PutBack(initial, files, members[i])
          else BackedUp(initial, files, members[i]))
    && (forall i :: 0 <= i < j && system.undoes(i) && BringsAlone(initial, members, n, i) ==>
          members[i].target !in files)
    && (forall p :: !IsTarget(members, n, p) && !IsBackup(initial, members, n, p) ==>
        Value(files, p) == Value(initial, p))
  }

  lemma TargetsAndBackups(initial: Files, members: seq<Member>, n: nat, j: nat)
    requires j < n <= |members| && Orderly(initial, members, n)
    ensures IsTarget(members, n, members[j].target)
    ensures members[j].target in initial ==> IsBackup(initial, members, n, Old(members[j].target))
    ensures Repeated(members, j) ==> IsTarget(members, n, Old(members[j].target)) && members[j].target !in initial
    ensures Repeated(members, j) ==> Old(members[j].target) !in initial && !BringsAlone(initial, members, n, j)
  {
    hide Old;
  }

  lemma UndoNext(initial: Files, files: Files, members: seq<Member>, n: nat, j: nat, system: System)
    requires j < n <= |members| && Orderly(initial, members, n) && GoneBack(initial, files, members, n, j, system)
    ensures GoneBack(initial, Undone(files, EntryAt(initial, members, j), system.undoes(j)), members, n, j + 1, system)
  {
    hide Old, IsTarget, IsBackup, Repeated;
    var t := members[j].target;
    var after := Undone(files, EntryAt(initial, members, j), system.undoes(j));
    OldIsAnother(t, t);
    TargetsAndBackups(initial, members, n, j);
    forall i | 0 <= i < n && members[i].target in initial
      ensures if i < j + 1 && system.undoes(i) then PutBack(initial, after, members[i])
              else BackedUp(initial, after, members[i])
    {
      OldIsAnother(members[i].target, t);
      assert Alone(members, n, i) && (t in initial ==> Alone(members, n, j));
    }
    forall i | 0 <= i < j + 1 && system.undoes(i) && BringsAlone(initial, members, n, i)
      ensures members[i].target !in after
    {
      assert t == members[i].target ==> i == j;
    }
  }

  lemma {:induction false} RollBackGoesBack(system: System, members: seq<Member>, n: nat, j: nat, initial: Files,
                                            files: Files)
    requires j <= n <= |members| && Orderly(initial, members, n) && GoneBack(initial, files, members, n, j, system)
    ensures GoneBack(initial, RollBackFrom(system, EntriesOf(initial, members, n), j, files), members, n, n, system)
    decreases n - j
  {
    hide GoneBack, Orderly, Undone, EntryAt;
    if j < n {
      UndoNext(initial, files, members, n, j, system);
      RollBackGoesBack(system, members, n, j + 1, initial,
                       Undone(files, EntryAt(initial, members, j), system.undoes(j)));
    }
  }

  /** No target of the members before `j` is there unless it was at first. */
  ghost predicate NewGone(initial: Files, files: Files, members: seq<Member>, j: nat)
    requires j <= |members|
  {
    forall i :: 0 <= i < j && members[i].target !in initial ==> members[i].target !in files
  }

  /** When every undo works, the rollback leaves no new file, whatever it starts from: a repeated
      target's backup is gone by then, because where it went was a new file before it. */
  lemma {:induction false} NewTargetsGo(system: System, members: seq<Member>, n: nat, j: nat, initial: Files,
                                        files: Files)
    requires j <= n <= |members| && Orderly(initial, members, n) && UndoesAll(system)
    requires NewGone(initial, files, members, j)
    ensures NewGone(initial, RollBackFrom(system, EntriesOf(initial, members, n), j, files), members, n)
    decreases n - j
  {
    hide Orderly, NewGone, Undone, EntryAt;
    if j < n {
      NewStaysGone(initial, members, n, j, files);
      NewTargetsGo(system, members, n, j + 1, initial, Undone(files, EntryAt(initial, members, j), true));
    }
  }

  lemma NewStaysGone(initial: Files, members: seq<Member>, n: nat, j: nat, files: Files)
    requires j < n <= |members| && Orderly(initial, members, n) && NewGone(initial, files, members, j)
    ensures NewGone(initial, Undone(files, EntryAt(initial, members, j), true), members, j + 1)
  {
    hide Old;
    var t := members[j].target;
    if t !in initial && Repeated(members, j) {
      var x :| 0 <= x < j && members[x].target == Old(t);
      var y :| 0 <= y < j && members[y].target == t;
    }
  }

  // ----- The main results

  /** How many members the installer got to before its first error. */
  function Reached(initial: Files, members: seq<Member>, system: System): nat {
    |InstallFrom(system, members, 0, initial, []).1|
  }

  /** The three ways an install ends, for orderly members. */
  lemma InstallEnds(initial: Files, members: seq<Member>, system: System)
    requires Orderly(initial, members, |members|)
    ensures Reached(initial, members, system) <= |members|
    ensures var (files, ended), n := Install(initial, members, system), Reached(initial, members, system);
      && (ended.Installed? ==> n == |members| && AllNew(files, members, n) && Touched(initial, files, members, n))
      && (ended.Escaped? ==> Touched(initial, files, members, n))
      && (ended.RolledBack? ==> GoneBack(initial, files, members, n, n, system))
      && (ended.RolledBack? && UndoesAll(system) ==> NewGone(initial, files, members, n))
  {
    hide Orderly, InstallFrom, RollBackFrom;
    NothingTouched(initial, members);
    var n := InstallTouches(system, members, 0, initial, initial);
    if Install(initial, members, system).1.RolledBack? {
      OrderlyBefore(initial, members, n, |members|);
      var files := InstallFrom(system, members, 0, initial, []).0;
      NothingUndone(initial, files, members, n, system);
      RollBackGoesBack(system, members, n, 0, initial, files);
      if UndoesAll(system) {
        NewTargetsGo(system, members, n, 0, initial, files);
      }
    }
  }

  lemma NothingTouched(initial: Files, members: seq<Member>)
    ensures Touched(initial, initial, members, 0) && AllNew(initial, members, 0) && EntriesOf(initial, members, 0) == []
  {}

  lemma NothingUndone(initial: Files, files: Files, members: seq<Member>, n: nat, system: System)
    requires n <= |members| && Touched(initial, files, members, n)
    ensures GoneBack(initial, files, members, n, 0, system) && NewGone(initial, files, members, 0)
  {
    hide Old;
  }

  /** Whatever fails, rollback included, no file that was there is lost, unless a backup took its
      name: its bytes are under its own name or its `.old` name. */
  lemma NothingIsLost(initial: Files, members: seq<Member>, system: System, p: path)
    requires Orderly(initial, members, |members|) && p in initial
    requires !IsBackup(initial, members, |members|, p)
    ensures var files := Install(initial, members, system).0;
      Value(files, p) == Some(initial[p]) || Value(files, Old(p)) == Some(initial[p])
  {
    hide Orderly, Install, Old;
    InstallEnds(initial, members, system);
    var files, n := Install(initial, members, system).0, Reached(initial, members, system);
    assert !IsBackup(initial, members, n, p);
    if IsTarget(members, n, p) {
      var i :| 0 <= i < n && members[i].target == p;
      assert BackedUp(initial, files, members[i]) || PutBack(initial, files, members[i]);
    }
  }

  /** If nothing fails, every target is there and holds what the members put there, every file replaced
      is under its `.old` name, and no other file has changed. */
  lemma SuccessInstallsAll(initial: Files, members: seq<Member>, system: System)
    requires Orderly(initial, members, |members|) && forall k, op :: system.fault(k, op).Works?
    ensures var (files, ended) := Install(initial, members, system);
      && ended.Installed? && AllNew(files, members, |members|) && Touched(initial, files, members, |members|)
  {
    hide Orderly, InstallFrom, AllNew, Touched;
    NoFault(system, members, 0, initial, []);
    InstallEnds(initial, members, system);
  }

  lemma {:induction false} NoFault(system: System, members: seq<Member>, k: nat, files: Files, installed: seq<Entry>)
    requires k <= |members| && forall k, op :: system.fault(k, op).Works?
    ensures InstallFrom(system, members, k, files, installed).2.Works?
    decreases |members| - k
  {
    if k < |members| {
      var m := members[k];
      NoFault(system, members, k + 1, AfterWrite(SetAside(files, m.target), m, Works, system.written(k)),
              installed + [EntryOf(files, m)]);
    }
  }

  // ----- When a rollback restores everything

  /** After an OSError at any step and a rollback that works, every file is as it was and none is
      new, but for the `.old` names that backups took, which are gone. */
  lemma RollbackLeaves(initial: Files, members: seq<Member>, system: System)
    requires Orderly(initial, members, |members|)
    requires Install(initial, members, system).1.RolledBack? && UndoesAll(system)
    ensures Reached(initial, members, system) <= |members|
    ensures var files, n := Install(initial, members, system).0, Reached(initial, members, system);
      forall p :: Value(files, p) == if IsBackup(initial, members, n, p) then None else Value(initial, p)
  {
    hide Orderly, Install, Old;
    InstallEnds(initial, members, system);
    var files, n := Install(initial, members, system).0, Reached(initial, members, system);
    forall p ensures Value(files, p) == if IsBackup(initial, members, n, p) then None else Value(initial, p) {
      if IsBackup(initial, members, n, p) {
        var i :| 0 <= i < n && members[i].target in initial && Old(members[i].target) == p;
        assert PutBack(initial, files, members[i]);
      } else if IsTarget(members, n, p) {
        var i :| 0 <= i < n && members[i].target == p;
        assert p in initial ==> PutBack(initial, files, members[i]);
      }
    }
  }

  lemma SameValues(a: Files, b: Files)
    ensures a == b <==> forall p :: Value(a, p) == Value(b, p)
  {
    if forall p :: Value(a, p) == Value(b, p) {
      forall p ensures p in a <==> p in b {
        assert Value(a, p) == Value(b, p);
      }
      forall p | p in a ensures a[p] == b[p] {
        assert Value(a, p) == Value(b, p);
      }
    }
  }

  /** Members for the same targets, with whatever bytes. */
  ghost predicate SameTargets(a: seq<Member>, b: seq<Member>) {
    |a| == |b| && forall i :: 0 <= i < |a| ==> a[i].target == b[i].target
  }

  lemma SameOrder(initial: Files, a: seq<Member>, b: seq<Member>, n: nat)
    requires SameTargets(a, b) && n <= |a|
    ensures Orderly(initial, a, n) == Orderly(initial, b, n) && Safe(initial, a, n) == Safe(initial, b, n)
  {
    hide Old;
    forall k | 0 <= k < n ensures Repeated(a, k) == Repeated(b, k) {}
    forall i | 0 <= i < n ensures Alone(a, n, i) == Alone(b, n, i) {}
    forall k, p | 0 <= k < n ensures IsTarget(a, k, p) == IsTarget(b, k, p) {}
  }

  lemma SafeIsRestored(initial: Files, members: seq<Member>, system: System)
    requires Safe(initial, members, |members|) && UndoesAll(system)
    ensures var (files, ended) := Install(initial, members, system); ended.RolledBack? ==> files == initial
  {
    hide Orderly, Install, Old;
    if Install(initial, members, system).1.RolledBack? {
      RollbackLeaves(initial, members, system);
      SameValues(Install(initial, members, system).0, initial);
    }
  }

  // ----- Why nothing less will do

  /** Fails as `fault` at one operation of one member, and rolls back without fault. */
  function FailsAt(k: nat, op: Op, fault: Fault): System {
    System((i, o) => if i == k && o == op then fault else Works, _ => None, _ => true)
  }

  lemma {:induction false} RollBackSnoc(system: System, es: seq<Entry>, e: Entry, j: nat, files: Files)
    requires j <= |es|
    ensures RollBackFrom(system, es + [e], j, files)
         == Undone(RollBackFrom(system, es, j, files), e, system.undoes(|es|))
    decreases |es| - j
  {
    hide Undone;
    if j < |es| {
      RollBackSnoc(system, es, e, j + 1, Undone(files, es[j], system.undoes(j)));
    } else {
      assert RollBackFrom(system, es + [e], j + 1, Undone(files, e, system.undoes(j)))
          == Undone(files, e, system.undoes(j));
    }
  }

  predicate Touches(e: Entry, p: path) {
    e.target == p || e.stale == Some(p)
  }

  lemma {:induction false} StaysPut(system: System, es: seq<Entry>, j: nat, files: Files, p: path)
    requires j <= |es| && forall i :: j <= i < |es| ==> !Touches(es[i], p)
    ensures Value(RollBackFrom(system, es, j, files), p) == Value(files, p)
    decreases |es| - j
  {
    if j < |es| {
      assert !Touches(es[j], p);
      StaysPut(system, es, j + 1, Undone(files, es[j], system.undoes(j)), p);
    }
  }

  lemma {:induction false} IsNotMade(system: System, es: seq<Entry>, j: nat, files: Files, p: path)
    requires j <= |es| && p !in files && forall i :: j <= i < |es| ==> es[i].target != p
    ensures p !in RollBackFrom(system, es, j, files)
    decreases |es| - j
  {
    if j < |es| {
      IsNotMade(system, es, j + 1, Undone(files, es[j], system.undoes(j)), p);
    }
  }

  /** An entry whose file and backup no other touches moves its backup back if it is there. */
  lemma {:induction false} MovesBack(system: System, es: seq<Entry>, j: nat, files: Files, i: nat)
    requires j <= i < |es| && es[i].stale == Some(Old(es[i].target)) && UndoesAll(system)
    requires forall x :: j <= x < |es| && x != i ==> !Touches(es[x], es[i].target) && !Touches(es[x], Old(es[i].target))
    ensures var t, out := es[i].target, RollBackFrom(system, es, j, files);
      Old(t) !in out && Value(out, t) == if Old(t) in files then Value(files, Old(t)) else Value(files, t)
    decreases |es| - j
  {
    hide Old;
    var after := Undone(files, es[j], system.undoes(j));
    OldIsAnother(es[i].target, es[i].target);
    if j < i {
      assert !Touches(es[j], es[i].target) && !Touches(es[j], Old(es[i].target));
      MovesBack(system, es, j + 1, after, i);
    } else {
      StaysPut(system, es, j + 1, after, es[i].target);
      StaysPut(system, es, j + 1, after, Old(es[i].target));
    }
  }

  /** The files when member `k` is the first to fail, at its unpacking, and the run up to there. */
  lemma {:induction false} ReachFault(members: seq<Member>, j: nat, k: nat, initial: Files, files: Files)
    returns (at: Files)
    requires j <= k < |members| && Orderly(initial, members, k)
    requires Touched(initial, files, members, j) && AllNew(files, members, j)
    ensures Touched(initial, at, members, k) && AllNew(at, members, k)
    ensures InstallFrom(FailsAt(k, Unpack, OsFault), members, j, files, EntriesOf(initial, members, j))
         == (SetAside(at, members[k].target), EntriesOf(initial, members, k) + [EntryOf(at, members[k])], OsFault)
    decreases k - j
  {
    hide Touched, Orderly, SetAside, EntryOf, EntriesOf, AllNew;
    if j == k {
      at := files;
    } else {
      var after := SetAside(files, members[j].target)[members[j].target := members[j].data];
      OrderlyBefore(initial, members, j + 1, k);
      NextFinds(initial, files, members, j);
      TouchNext(initial, files, members, j, after);
      NewNext(initial, files, members, j, after);
      at := ReachFault(members, j + 1, k, initial, after);
    }
  }

  /** Bytes that no file had, where there was one. */
  function Marked(initial: Files, members: seq<Member>): (marked: seq<Member>)
    ensures |marked| == |members|
  {
    seq(|members|, i requires 0 <= i < |members| =>
      Member(members[i].target, if members[i].target in initial then initial[members[i].target] + [0] else []))
  }

  /** What is wrong with the first member that is not safe. */
  datatype Offence =
    | TakesOldName      // its backup would take the place of a file
    | SameFile(i: nat)  // it replaces a file that a member before it replaced
    | IsBackupOf(i: nat)// it goes where a member before it put a backup
    | BackupOnNew       // it replaces a file, and its backup goes where a member before it put a new one
    | BackupIsNew       // it repeats a new target, and its backup goes where nothing was

  ghost predicate Commits(initial: Files, members: seq<Member>, k: nat, o: Offence)
    requires k < |members|
  {
    var t := members[k].target;
    match o
    case TakesOldName => (t in initial || Repeated(members, k)) && Old(t) in initial
    case SameFile(i) => i < k && t in initial && members[i].target == t
    case IsBackupOf(i) => i < k && members[i].target in initial && Old(members[i].target) == t
    case BackupOnNew => t in initial && !Repeated(members, k) && IsTarget(members, k, Old(t)) && Old(t) !in initial
    case BackupIsNew =>
      t !in initial && Repeated(members, k) && Old(t) !in initial && !IsTarget(members, k, Old(t))
  }

  lemma FindOffence(initial: Files, members: seq<Member>, k: nat) returns (o: Offence)
    requires k < |members| && Safe(initial, members, k) && !Safe(initial, members, k + 1)
    ensures Commits(initial, members, k, o)
  {
    hide Old;
    var t := members[k].target;
    if i: nat :| i < k && t in initial && members[i].target == t {
      o := SameFile(i);
    } else if i: nat :| i < k && members[i].target in initial && Old(members[i].target) == t {
      o := IsBackupOf(i);
    } else if (t in initial || Repeated(members, k)) && Old(t) in initial {
      o := TakesOldName;
    } else {
      o := if t in initial then BackupOnNew else BackupIsNew;
      if !Commits(initial, members, k, o) {
        StillSafe(initial, members, k);
      }
    }
  }

  lemma StillSafe(initial: Files, members: seq<Member>, k: nat)
    requires k < |members| && Safe(initial, members, k)
    requires forall i :: 0 <= i < k && members[i].target in initial ==>
      members[i].target != members[k].target && Old(members[i].target) != members[k].target
    requires members[k].target in initial || Repeated(members, k) ==> Old(members[k].target) !in initial
    requires members[k].target in initial ==> !IsTarget(members, k, Old(members[k].target))
    requires members[k].target !in initial && Repeated(members, k) ==> IsTarget(members, k, Old(members[k].target))
    ensures Safe(initial, members, k + 1)
  {
    hide Old;
    var t := members[k].target;
    OldIsAnother(t, t);
    forall i | 0 <= i < k + 1 && members[i].target in initial ensures Alone(members, k + 1, i) {
      forall j | 0 <= j < k + 1 && members[j].target == members[i].target ensures j == i {
        assert i < k && j < k ==> Alone(members, k, i);
      }
      forall j | 0 <= j < k + 1 ensures members[j].target != Old(members[i].target) {
        assert i < k && j < k ==> Alone(members, k, i);
        if j < k {
          TargetBefore(members, k, j);
        }
      }
    }
  }

  // What each offence leaves behind, when the member that commits it fails at its unpacking.

  /** The files before the rollback reaches the offender's own entry. */
  ghost function BeforeLast(initial: Files, members: seq<Member>, k: nat, at: Files): Files
    requires k < |members|
  {
    RollBackFrom(FailsAt(k, Unpack, OsFault), EntriesOf(initial, members, k), 0, SetAside(at, members[k].target))
  }

  lemma InstallBreaksAt(initial: Files, members: seq<Member>, k: nat) returns (at: Files)
    requires k < |members| && Orderly(initial, members, k)
    ensures Touched(initial, at, members, k) && AllNew(at, members, k)
    ensures Install(initial, members, FailsAt(k, Unpack, OsFault))
         == (Undone(BeforeLast(initial, members, k, at), EntryOf(at, members[k]), true), RolledBack)
  {
    hide Touched, Orderly, SetAside, EntryOf, EntriesOf, AllNew, Undone, InstallFrom, RollBackFrom;
    NothingTouched(initial, members);
    at := ReachFault(members, 0, k, initial, initial);
    RollBackSnoc(FailsAt(k, Unpack, OsFault), EntriesOf(initial, members, k), EntryOf(at, members[k]), 0,
                 SetAside(at, members[k].target));
  }

  /** A file or an earlier member's target is set aside. */
  lemma OffenderIsThere(initial: Files, members: seq<Member>, k: nat, at: Files, o: Offence)
    requires k < |members| && Safe(initial, members, k) && Touched(initial, at, members, k) && AllNew(at, members, k)
    requires Commits(initial, members, k, o)
    ensures members[k].target in at
  {
    hide Old;
    var t := members[k].target;
    TargetIsThere(at, members, k, t);
    if !Repeated(members, k) && !IsBackup(initial, members, k, t) {
      assert Value(at, t) == Value(initial, t);
    }
  }

  lemma TakenNameIsGone(initial: Files, members: seq<Member>, k: nat, at: Files)
    requires k < |members| && members[k].target in at && Old(members[k].target) in initial
    ensures Undone(BeforeLast(initial, members, k, at), EntryOf(at, members[k]), true) != initial
  {
    hide Old, RollBackFrom, BeforeLast;
    OldIsAnother(members[k].target, members[k].target);
  }

  /** No other entry touches what a lone replacer touches. */
  lemma OthersKeepOff(initial: Files, members: seq<Member>, k: nat, i: nat)
    requires i < k <= |members| && Orderly(initial, members, k) && members[i].target in initial
    ensures var es := EntriesOf(initial, members, k);
      && es[i] == Entry(members[i].target, Some(Old(members[i].target)))
      && forall x :: 0 <= x < k && x != i ==>
           !Touches(es[x], members[i].target) && !Touches(es[x], Old(members[i].target))
  {
    hide Old, IsTarget;
    var t := members[i].target;
    assert Alone(members, k, i);
    forall x | 0 <= x < k && x != i
      ensures !Touches(EntryAt(initial, members, x), t) && !Touches(EntryAt(initial, members, x), Old(t))
    {
      OldIsAnother(members[x].target, t);
      assert members[x].target in initial ==> Alone(members, k, x);
    }
  }

  lemma NotOverwritten(initial: Files, members: seq<Member>, k: nat, i: nat)
    requires i < k <= |members| && Orderly(initial, members, k) && members[i].target in initial
    ensures !Overwritten(members, k, i)
  {
    hide Old;
    assert Alone(members, k, i);
  }

  lemma SameFileIsNotRestored(initial: Files, members: seq<Member>, k: nat, at: Files, i: nat)
    requires k < |members| && Safe(initial, members, k) && AllNew(at, members, k)
    requires Commits(initial, members, k, SameFile(i)) && members[i].data != initial[members[i].target]
    ensures Undone(BeforeLast(initial, members, k, at), EntryOf(at, members[k]), true) != initial
  {
    hide Old, RollBackFrom, EntriesOf, Overwritten, Repeated;
    var t := members[k].target;
    OldIsAnother(t, t);
    NotOverwritten(initial, members, k, i);
    OwnContent(members, k, i);
    OthersKeepOff(initial, members, k, i);
    MovesBack(FailsAt(k, Unpack, OsFault), EntriesOf(initial, members, k), 0, SetAside(at, t), i);
  }

  lemma BackupSetAsideIsNotRestored(initial: Files, members: seq<Member>, k: nat, at: Files, i: nat)
    requires k < |members| && Safe(initial, members, k) && AllNew(at, members, k) && members[k].target in at
    requires Commits(initial, members, k, IsBackupOf(i)) && members[i].data != initial[members[i].target]
    ensures Undone(BeforeLast(initial, members, k, at), EntryOf(at, members[k]), true) != initial
  {
    hide Old, RollBackFrom, EntriesOf, Overwritten, Repeated;
    var t := members[i].target;
    OldIsAnother(t, t);
    OldIsAnother(members[k].target, t);
    NotOverwritten(initial, members, k, i);
    OwnContent(members, k, i);
    OthersKeepOff(initial, members, k, i);
    MovesBack(FailsAt(k, Unpack, OsFault), EntriesOf(initial, members, k), 0, SetAside(at, members[k].target), i);
  }

  lemma BackupOnNewIsNotRestored(initial: Files, members: seq<Member>, k: nat, at: Files)
    requires k < |members| && Safe(initial, members, k) && members[k].target in at
    requires Commits(initial, members, k, BackupOnNew)
    ensures Undone(BeforeLast(initial, members, k, at), EntryOf(at, members[k]), true) != initial
  {
    hide Old, RollBackFrom;
    var t, system := members[k].target, FailsAt(k, Unpack, OsFault);
    OldIsAnother(t, t);
    NewTargetsGo(system, members, k, 0, initial, SetAside(at, t));
    IsNotMade(system, EntriesOf(initial, members, k), 0, SetAside(at, t), t);
  }

  lemma BackupIsNewStays(initial: Files, members: seq<Member>, k: nat, at: Files)
    requires k < |members| && Safe(initial, members, k) && members[k].target in at
    requires Commits(initial, members, k, BackupIsNew)
    ensures Undone(BeforeLast(initial, members, k, at), EntryOf(at, members[k]), true) != initial
  {
    hide Old, RollBackFrom;
    var t, es := members[k].target, EntriesOf(initial, members, k);
    OldIsAnother(t, t);
    forall x | 0 <= x < k ensures !Touches(es[x], Old(t)) {
      OldIsAnother(members[x].target, t);
      TargetBefore(members, k, x);
      TargetsAndBackups(initial, members, k, x);
    }
    StaysPut(FailsAt(k, Unpack, OsFault), es, 0, SetAside(at, t), Old(t));
  }

  lemma OffenceIsNotRestored(initial: Files, members: seq<Member>, k: nat, o: Offence)
    requires k < |members| && Safe(initial, members, k) && Commits(initial, members, k, o)
    requires members == Marked(initial, members)
    ensures var (files, ended) := Install(initial, members, FailsAt(k, Unpack, OsFault));
      ended.RolledBack? && files != initial
  {
    hide Old, Install, Undone, BeforeLast, Safe, Commits;
    assert Orderly(initial, members, k) by { SafeIsOrderly(initial, members, k); }
    var at := InstallBreaksAt(initial, members, k);
    OffenderIsThere(initial, members, k, at, o);
    match o
    case TakesOldName =>
      TakesOldNameMeans(initial, members, k);
      TakenNameIsGone(initial, members, k, at);
    case SameFile(i) =>
      ReplacerMeans(initial, members, k, i);
      SameFileIsNotRestored(initial, members, k, at, i);
    case IsBackupOf(i) =>
      ReplacerMeans(initial, members, k, i);
      BackupSetAsideIsNotRestored(initial, members, k, at, i);
    case BackupOnNew => BackupOnNewIsNotRestored(initial, members, k, at);
    case BackupIsNew => BackupIsNewStays(initial, members, k, at);
  }

  lemma SafeIsOrderly(initial: Files, members: seq<Member>, k: nat)
    requires k <= |members| && Safe(initial, members, k)
    ensures Orderly(initial, members, k)
  {}

  lemma TakesOldNameMeans(initial: Files, members: seq<Member>, k: nat)
    requires k < |members| && Commits(initial, members, k, TakesOldName)
    ensures Old(members[k].target) in initial
  {}

  lemma ReplacerMeans(initial: Files, members: seq<Member>, k: nat, i: nat)
    requires k < |members| && members == Marked(initial, members)
    requires Commits(initial, members, k, SameFile(i)) || Commits(initial, members, k, IsBackupOf(i))
    ensures i < k && members[i].target in initial && members[i].data != initial[members[i].target]
  {
    assert members[i] == Marked(initial, members)[i];
  }

  lemma {:induction false} FirstUnsafe(initial: Files, members: seq<Member>, n: nat) returns (k: nat)
    requires n <= |members| && !Safe(initial, members, n)
    ensures k < n && Safe(initial, members, k) && !Safe(initial, members, k + 1)
  {
    if n == 0 {
      assert Safe(initial, members, 0);
    } else if Safe(initial, members, n - 1) {
      k := n - 1;
    } else {
      k := FirstUnsafe(initial, members, n - 1);
    }
  }

  /** Members for unsafe targets with whatever bytes; some bytes and one OSError show it. */
  lemma UnsafeIsNotRestored(initial: Files, members: seq<Member>) returns (others: seq<Member>, system: System)
    requires !Safe(initial, members, |members|)
    ensures SameTargets(members, others) && UndoesAll(system)
    ensures var (files, ended) := Install(initial, others, system); ended.RolledBack? && files != initial
  {
    hide Install, Safe, Commits;
    others := Marked(initial, members);
    SameOrder(initial, members, others, |members|);
    var k := FirstUnsafe(initial, others, |others|);
    var o := FindOffence(initial, others, k);
    system := FailsAt(k, Unpack, OsFault);
    assert others == Marked(initial, others);
    OffenceIsNotRestored(initial, others, k, o);
  }

  /** A rollback that works restores everything, whatever the members hold and wherever the OSError
      strikes, exactly if the targets are safe: each file that is replaced is replaced by one member
      only, its `.old` name is free and no member's target; and where a new target comes again, its
      `.old` name is free and an earlier member's target. */
  lemma RollbackRestoresIff(initial: Files, members: seq<Member>)
    ensures Safe(initial, members, |members|) <==>
      forall others, system :: SameTargets(members, others) && UndoesAll(system)
                               && Install(initial, others, system).1.RolledBack? ==>
        Install(initial, others, system).0 == initial
  {
    hide Install, Safe;
    if Safe(initial, members, |members|) {
      forall others, system | SameTargets(members, others) && UndoesAll(system)
                              && Install(initial, others, system).1.RolledBack?
        ensures Install(initial, others, system).0 == initial
      {
        SameOrder(initial, members, others, |members|);
        SafeIsRestored(initial, others, system);
      }
    } else {
      var others, system := UnsafeIsNotRestored(initial, members);
    }
  }

  // ----- Cases of both kinds

  /** A new target may even come twice, if its `.old` name is one of the new files before. */
  lemma RepeatedNewTargetIsSafe(t: path, a: seq<byte>, b: seq<byte>, c: seq<byte>)
    ensures Safe(map[], [Member(t, a), Member(Old(t), b), Member(t, c)], 3)
    ensures !Safe(map[], [Member(t, a), Member(t, c)], 2)
  {
    hide Old;
    OldIsAnother(t, t);
    var members := [Member(t, a), Member(Old(t), b), Member(t, c)];
    assert members[1].target == Old(t) && members[0].target == t;
    var twice := [Member(t, a), Member(t, c)];
    assert twice[0].target == twice[1].target;
  }

  /** With one target twice, the second backup overwrites the first, and the rollback brings back
      the first member's bytes in place of the file's own. */
  lemma SameTargetTwiceIsNotRestored(t: path, before: seq<byte>, first: seq<byte>, second: seq<byte>)
    ensures Install(map[t := before], [Member(t, first), Member(t, second)], FailsAt(1, Write, OsFault))
         == (map[t := first], RolledBack)
  {
    hide Old;
    OldIsAnother(t, t);
    var members, system := [Member(t, first), Member(t, second)], FailsAt(1, Write, OsFault);
    var one := map[Old(t) := before, t := first];
    var e := Entry(t, Some(Old(t)));
    assert SetAside(map[t := before], t)[t := first] == one;
    assert SetAside(one, t) == map[Old(t) := first];
    assert members[0] == Member(t, first) && members[1] == Member(t, second) && [] + [e] == [e] && [e] + [e] == [e, e];
    assert EntryOf(map[t := before], members[0]) == e && EntryOf(one, members[1]) == e;
    assert InstallFrom(system, members, 1, one, [e]) == (map[Old(t) := first], [e, e], OsFault);
    assert InstallFrom(system, members, 0, map[t := before], []) == InstallFrom(system, members, 1, one, [e]);
    assert Undone(map[Old(t) := first], e, true) == map[t := first];
    assert RollBackFrom(system, [e, e], 1, map[t := first]) == map[t := first];
  }

  /** With a member under the `.old` name of another, the rollback deletes the backup. */
  lemma MemberNamedOldLosesTheFile(t: path, before: seq<byte>, first: seq<byte>, second: seq<byte>)
    ensures Install(map[t := before], [Member(Old(t), first), Member(t, second)], FailsAt(1, Write, OsFault))
         == (map[], RolledBack)
  {
    hide Old;
    OldIsAnother(t, t);
    var members, system := [Member(Old(t), first), Member(t, second)], FailsAt(1, Write, OsFault);
    var one := map[t := before, Old(t) := first];
    var entries := [Entry(Old(t), None), Entry(t, Some(Old(t)))];
    assert SetAside(one, t) == map[Old(t) := before];
    assert members[0] == Member(Old(t), first) && members[1] == Member(t, second);
    assert [] + [entries[0]] == [entries[0]] && [entries[0]] + [entries[1]] == entries;
    assert EntryOf(map[t := before], members[0]) == entries[0] && EntryOf(one, members[1]) == entries[1];
    assert InstallFrom(system, members, 1, one, [entries[0]]) == (map[Old(t) := before], entries, OsFault);
    assert InstallFrom(system, members, 0, map[t := before], []) == InstallFrom(system, members, 1, one, [entries[0]]);
    assert Undone(map[Old(t) := before], entries[0], true) == map[];
    assert RollBackFrom(system, entries, 1, map[]) == map[];
  }

  /** An error that is no OSError, such as a bad checksum in the archive, escapes the handler: the
      file stays away from its name. */
  lemma BadArchiveEscapes(t: path, before: seq<byte>, data: seq<byte>)
    ensures Install(map[t := before], [Member(t, data)], FailsAt(0, Unpack, OtherFault)) ==
        (map[Old(t) := before], Escaped)
  {
    hide Old;
    OldIsAnother(t, t);
    assert SetAside(map[t := before], t) == map[Old(t) := before];
  }

  // ----- When an error that escapes has done nothing

  /** The first error comes at the first member, before any file was touched. */
  ghost predicate StopsAtOnce(initial: Files, members: seq<Member>, system: System) {
    && members != []
    && var t := members[0].target;
       || !system.fault(0, MakeFolder).Works?
       || (t in initial && !system.fault(0, Replace).Works?)
       || (t !in initial && !system.fault(0, Unpack).Works?)
       || (t !in initial && !system.fault(0, Write).Works? && system.written(0).None?)
  }

  lemma StoppedAtOnce(initial: Files, members: seq<Member>, system: System)
    requires StopsAtOnce(initial, members, system)
    ensures var (after, _, fault) := InstallFrom(system, members, 0, initial, []); after == initial && !fault.Works?
  {}

  // Files that are two bytes longer than their names, and members of one byte, tell a file that was
  // moved or written from one that was not.

  /** No file is more than two bytes longer than its name. */
  ghost predicate Bounded(files: Files) {
    forall p :: p in files ==> |files[p]| <= |p| + 2
  }

  /** And some file is not as long as that. */
  ghost predicate Shows(files: Files) {
    exists p :: p in files && |files[p]| < |p| + 2
  }

  ghost predicate OneByteEach(members: seq<Member>) {
    forall m :: m in members ==> |m.data| == 1
  }

  lemma MoveShows(files: Files, target: path)
    requires Bounded(files)
    ensures Bounded(SetAside(files, target))
    ensures target in files || Shows(files) ==> Shows(SetAside(files, target))
  {
    if target in files {
      assert Old(target) in SetAside(files, target);
    }
  }

  lemma WriteShows(files: Files, m: Member, fault: Fault, written: Option<nat>)
    requires Bounded(files) && |m.data| == 1
    ensures var after := AfterWrite(files, m, fault, written);
      Bounded(after) && (fault.Works? || written.Some? || Shows(files) ==> Shows(after))
  {
    var after := AfterWrite(files, m, fault, written);
    if fault.Works? || written.Some? {
      assert m.target in after && |after[m.target]| <= 1;
    }
  }

  lemma {:induction false} StillShows(system: System, members: seq<Member>, k: nat, files: Files, es: seq<Entry>)
    requires k <= |members| && OneByteEach(members) && Bounded(files) && Shows(files)
    ensures Shows(InstallFrom(system, members, k, files, es).0)
    decreases |members| - k
  {
    hide Shows, Bounded, SetAside, AfterWrite, EntryOf;
    if k < |members| {
      var m := members[k];
      var kept := SetAside(files, m.target);
      var after := AfterWrite(kept, m, system.fault(k, Write), system.written(k));
      MoveShows(files, m.target);
      WriteShows(kept, m, system.fault(k, Write), system.written(k));
      StillShows(system, members, k + 1, after, es + [EntryOf(files, m)]);
    }
  }

  lemma {:induction false} SameFault(system: System, a: seq<Member>, b: seq<Member>, k: nat, files: Files, other: Files,
                                     es: seq<Entry>, fs: seq<Entry>)
    requires SameTargets(a, b) && k <= |a| && files.Keys == other.Keys
    ensures InstallFrom(system, a, k, files, es).2 == InstallFrom(system, b, k, other, fs).2
    decreases |a| - k
  {
    if k < |a| {
      var kept, keptOther := SetAside(files, a[k].target), SetAside(other, b[k].target);
      assert kept.Keys == keptOther.Keys;
      var fault := system.fault(k, Write);
      var after := AfterWrite(kept, a[k], fault, system.written(k));
      var afterOther := AfterWrite(keptOther, b[k], fault, system.written(k));
      assert after.Keys == afterOther.Keys;
      SameFault(system, a, b, k + 1, after, afterOther, es + [EntryOf(files, a[k])], fs + [EntryOf(other, b[k])]);
    }
  }

  lemma EscapeShows(initial: Files, members: seq<Member>, system: System) returns (files: Files, others: seq<Member>)
    requires members != [] && !StopsAtOnce(initial, members, system)
    ensures files.Keys == initial.Keys && SameTargets(members, others) && !Shows(files)
    ensures Shows(InstallFrom(system, others, 0, files, []).0)
  {
    hide Shows, Bounded, AfterWrite, Old;
    files := map p | p in initial :: seq(|p| + 2, _ => 1);
    others := seq(|members|, i requires 0 <= i < |members| => Member(members[i].target, [0]));
    LongFiles(files);
    var m := others[0];
    var kept := SetAside(files, m.target);
    var after := AfterWrite(kept, m, system.fault(0, Write), system.written(0));
    MoveShows(files, m.target);
    WriteShows(kept, m, system.fault(0, Write), system.written(0));
    if system.fault(0, Unpack).Works? && system.fault(0, Write).Works? {
      StillShows(system, others, 1, after, [] + [EntryOf(files, m)]);
    }
  }

  lemma LongFiles(files: Files)
    requires forall p :: p in files ==> |files[p]| == |p| + 2
    ensures Bounded(files) && !Shows(files)
  {}

  /** An install that ends in an escaped error leaves every file as it was, whatever the files and
      members hold, exactly if the error came before the first member touched anything. */
  lemma EscapeLeavesAllIff(initial: Files, members: seq<Member>, system: System)
    requires Install(initial, members, system).1.Escaped?
    ensures StopsAtOnce(initial, members, system) <==>
      forall files: Files, others :: files.Keys == initial.Keys && SameTargets(members, others) ==>
        Install(files, others, system).0 == files
  {
    hide InstallFrom, Shows;
    forall files: Files, others | files.Keys == initial.Keys && SameTargets(members, others)
      ensures InstallFrom(system, others, 0, files, []).2.OtherFault?
      ensures StopsAtOnce(initial, members, system) ==> InstallFrom(system, others, 0, files, []).0 == files
    {
      SameFault(system, members, others, 0, initial, files, [], []);
      if StopsAtOnce(initial, members, system) {
        StoppedAtOnce(files, others, system);
      }
    }
    NoMembersNoError(initial, system);
    if !StopsAtOnce(initial, members, system) {
      var files, others := EscapeShows(initial, members, system);
    }
  }

  lemma NoMembersNoError(initial: Files, system: System)
    ensures InstallFrom(system, [], 0, initial, []).2.Works?
  {}
}

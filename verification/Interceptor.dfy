/** The module's own data (System Calls and Monitoring Processes/interceptor.c): a table entry
    per system call with a flag and a list of pids, and the kernel's call table. Each operation
    is shown to do to the policies of module Monitor what that module says. */
module Interceptor {
  import opened Monitor

  /** What a slot of the call table can hold. */
  datatype Handler = Null | Kernel(address: nat) | ToInterceptor | ToMySyscall | ToMyExitGroup

  ghost predicate NoRepeats(list: seq<int>) {
    forall i, j | 0 <= i < j < |list| :: list[i] != list[j]
  }

  /** monitored == 2 makes the list one of exceptions. */
  datatype Entry = Entry(f: Handler, intercepted: int, monitored: int, listcount: int, list: seq<int>) {
    ghost predicate Valid() {
      && NoRepeats(list) && listcount == |list|
      && intercepted in {0, 1} && monitored in {0, 1, 2}
      && (monitored != 2 ==> (monitored == 0 <==> list == []))
      && (intercepted == 0 ==> monitored == 0 && f == Null)
    }

    ghost function View(): Policy {
      Policy(intercepted == 1, monitored == 2,
             if monitored == 2 then (iset p: int | p !in list) else (iset p: int | p in list))
    }
  }

  const UNUSED := Entry(Null, 0, 0, 0, [])

  ghost function Views(es: seq<Entry>): seq<Policy> {
    seq(|es|, i requires 0 <= i < |es| => es[i].View())
  }

  /** list without the element at i. */
  function Cut(list: seq<int>, i: nat): seq<int>
    requires i < |list|
  {
    list[..i] + list[i + 1..]
  }

  lemma CutOne(list: seq<int>, i: nat)
    requires i < |list| && NoRepeats(list)
    ensures NoRepeats(Cut(list, i)) && forall p :: p in Cut(list, i) <==> p in list && p != list[i]
  {
    var cut := Cut(list, i);
    forall p | p in list && p != list[i] ensures p in cut {
      var k :| 0 <= k < |list| && list[k] == p;
      assert cut[if k < i then k else k - 1] == p;
    }
    forall k | 0 <= k < |cut| ensures cut[k] in list && cut[k] != list[i] {
      assert cut[k] == list[if k < i then k else k + 1];
    }
  }

  /** The entry after the pid at place i has left the list: an emptied list of watched pids ends
      the monitoring. */
  function Unlisted(e: Entry, i: nat): (r: Entry)
    requires i < |e.list|
  {
    var e' := e.(list := Cut(e.list, i), listcount := e.listcount - 1);
    if e'.listcount == 0 && e'.monitored == 1 then e'.(monitored := 0) else e'
  }

  lemma UnlistedView(e: Entry, i: nat)
    requires e.Valid() && i < |e.list|
    ensures Unlisted(e, i).Valid() && Unlisted(e, i).View() == e.View().Forget(e.list[i])
    ensures e.list[i] !in Unlisted(e, i).list
  {
    CutOne(e.list, i);
    assert Unlisted(e, i).View().watched == e.View().Forget(e.list[i]).watched;
  }

  /** A pid that is not on the list is treated like one never named. */
  lemma UnnamedView(e: Entry, pid: int)
    requires pid !in e.list
    ensures e.View().Forget(pid) == e.View()
  {
    assert e.View().Forget(pid).watched == e.View().watched;
  }

  lemma ListedView(e: Entry, pid: int)
    requires e.Valid() && pid !in e.list && e.intercepted == 1
    ensures var e' := e.(list := [pid] + e.list, listcount := e.listcount + 1,
                         monitored := if e.monitored == 2 then 2 else 1);
            && e'.Valid()
            && e'.View() == e.View().(watched :=
                 if e.monitored == 2 then e.View().watched - iset{pid} else e.View().watched + iset{pid})
  {
    var e' := e.(list := [pid] + e.list, listcount := e.listcount + 1, monitored := if e.monitored == 2 then 2 else 1);
    assert e'.View().watched == if e.monitored == 2 then e.View().watched - iset{pid} else e.View().watched + iset{pid};
  }

  class Module {
    /** NR_syscalls and __NR_exit_group. */
    const nr: nat
    const exitGroup: nat
    const calls: array<Handler>
    const table: array<Entry>
    var origCustomSyscall: Handler
    var origExitGroup: Handler
    /** The call table before the module was loaded. */
    ghost const initial: seq<Handler>

    ghost predicate Sizes() {
      && table.Length == calls.Length == |initial| == nr + 1
      && MY_CUSTOM_SYSCALL != exitGroup <= nr
      && forall h | h in initial :: h.Kernel?
    }

    ghost predicate Valid()
      reads this, calls, table
    {
      && Sizes()
      && origCustomSyscall == initial[MY_CUSTOM_SYSCALL] && origExitGroup == initial[exitGroup]
      && table[MY_CUSTOM_SYSCALL] == UNUSED
      && forall s | 0 <= s <= nr :: SlotOk(calls[s], table[s], s)
    }

    /** The handler of call s as the loaded module finds it. */
    ghost function Hooked(s: nat): Handler
      requires s < |initial|
    {
      if s == MY_CUSTOM_SYSCALL then ToMySyscall else if s == exitGroup then ToMyExitGroup else initial[s]
    }

    /** A slot of the call table holds the interceptor exactly when the call is intercepted, and
        then its handler is saved in f. */
    ghost predicate SlotOk(c: Handler, e: Entry, s: nat)
      requires s < |initial|
    {
      e.Valid() && if e.intercepted == 1 then c == ToInterceptor && e.f == Hooked(s) else c == Hooked(s)
    }

    ghost function Policies(): (r: seq<Policy>)
      reads table
    {
      Views(table[..])
    }

    /** init_function: take over two calls and make every list empty. */
    constructor (calls: array<Handler>, nr: nat, exitGroup: nat)
      requires calls.Length == nr + 1 && MY_CUSTOM_SYSCALL != exitGroup <= nr
      requires forall h | h in calls[..] :: h.Kernel?
      modifies calls
      ensures Valid() && fresh(table) && this.calls == calls && this.nr == nr && this.exitGroup == exitGroup
      ensures initial == old(calls[..])
      ensures Policies() == Loaded(nr)
      ensures calls[..] == old(calls[..])[MY_CUSTOM_SYSCALL := ToMySyscall][exitGroup := ToMyExitGroup]
    {
      this.nr, this.exitGroup, this.calls := nr, exitGroup, calls;
      initial := calls[..];
      table := new Entry[nr + 1](_ => UNUSED);
      origCustomSyscall := calls[MY_CUSTOM_SYSCALL];
      origExitGroup := calls[exitGroup];
      new;
      forall s | 0 <= s <= nr ensures initial[s].Kernel? { assert initial[s] in old(calls[..]); }
      calls[MY_CUSTOM_SYSCALL] := ToMySyscall;
      calls[exitGroup] := ToMyExitGroup;
      for i := 0 to nr + 1
        invariant forall s | 0 <= s <= nr :: table[s] == UNUSED
        invariant origCustomSyscall == initial[MY_CUSTOM_SYSCALL] && origExitGroup == initial[exitGroup]
        invariant calls[..] == old(calls[..])[MY_CUSTOM_SYSCALL := ToMySyscall][exitGroup := ToMyExitGroup]
      {
        table[i] := table[i].(list := []);
      }
      assert UNUSED.View().watched == RELEASED.watched;
    }

    /** check_pid_monitored. */
    method CheckPidMonitored(sysc: nat, pid: int) returns (found: bool)
      requires sysc < table.Length
      ensures found <==> pid in table[sysc].list
    {
      var list := table[sysc].list;
      for i := 0 to |list|
        invariant pid !in list[..i]
      {
        if list[i] == pid { return true; }
      }
      return false;
    }

    /** add_pid_sysc: to the head of the list. */
    method AddPidSysc(pid: int, sysc: nat, memory: bool) returns (status: Status)
      requires sysc < table.Length
      modifies table
      ensures forall s | 0 <= s < table.Length && s != sysc :: table[s] == old(table[s])
      ensures status == (if memory then Success else ENOMEM)
      ensures var e := old(table[sysc]);
              table[sysc] == if memory then e.(list := [pid] + e.list, listcount := e.listcount + 1) else e
    {
      if !memory { return ENOMEM; }
      table[sysc] := table[sysc].(list := [pid] + table[sysc].list);
      table[sysc] := table[sysc].(listcount := table[sysc].listcount + 1);
      return Success;
    }

    /** del_pid_sysc. */
    method DelPidSysc(pid: int, sysc: nat) returns (status: Status)
      requires sysc < table.Length && table[sysc].Valid()
      modifies table
      ensures forall s | 0 <= s < table.Length && s != sysc :: table[s] == old(table[s])
      ensures status == if pid in old(table[sysc]).list then Success else EINVAL
      ensures table[sysc].Valid() && table[sysc].View() == old(table[sysc]).View().Forget(pid)
      ensures table[sysc].f == old(table[sysc]).f
    {
      var list := table[sysc].list;
      for i := 0 to |list|
        invariant pid !in list[..i] && table[..] == old(table[..])
      {
        if list[i] == pid {
          UnlistedView(table[sysc], i);
          table[sysc] := table[sysc].(list := Cut(list, i));
          table[sysc] := table[sysc].(listcount := table[sysc].listcount - 1);
          if table[sysc].listcount == 0 && table[sysc].monitored == 1 {
            table[sysc] := table[sysc].(monitored := 0);
          }
          return Success;
        }
      }
      UnnamedView(table[sysc], pid);
      return EINVAL;
    }

    /** One round of del_pid: pid leaves the list of call s. */
    method DelPidFrom(pid: int, s: nat) returns (ispid: bool)
      requires s < table.Length && table[s].Valid()
      modifies table
      ensures forall t | 0 <= t < table.Length && t != s :: table[t] == old(table[t])
      ensures ispid <==> pid in old(table[s]).list
      ensures table[s].Valid() && table[s].View() == old(table[s]).View().Forget(pid)
      ensures table[s].f == old(table[s]).f
    {
      ghost var e := table[s];
      ispid := false;
      var i := 0;
      while i < |table[s].list|
        invariant 0 <= i <= |table[s].list| && pid !in table[s].list[..i]
        invariant forall t | 0 <= t < table.Length && t != s :: table[t] == old(table[t])
        invariant table[s].Valid() && table[s].f == e.f
        invariant ispid <==> pid in e.list && pid !in table[s].list
        invariant if ispid then table[s].View() == e.View().Forget(pid) else table[s] == e
        decreases |table[s].list| - i
      {
        if table[s].list[i] == pid {
          UnlistedView(table[s], i);
          ispid := true;
          table[s] := table[s].(list := Cut(table[s].list, i));
          table[s] := table[s].(listcount := table[s].listcount - 1);
          if table[s].listcount == 0 && table[s].monitored == 1 {
            table[s] := table[s].(monitored := 0);
          }
        } else {
          i := i + 1;
        }
      }
      if !ispid { UnnamedView(e, pid); }
    }

    /** del_pid: every list but that of the last call. */
    method DelPid(pid: int) returns (ispid: bool)
      requires Valid()
      modifies table
      ensures Valid() && Policies() == Step(old(Policies()), Exit(pid))
      ensures ispid <==> exists s :: 1 <= s < nr && pid in old(table[s]).list
    {
      ispid := false;
      ghost var es := table[..];
      for s := 1 to if nr < 1 then 1 else nr
        invariant Valid()
        invariant forall t | 0 <= t <= nr && (t < 1 || s <= t) :: table[t] == es[t]
        invariant forall t | 1 <= t < s && t < nr :: table[t].View() == es[t].View().Forget(pid)
        invariant ispid <==> exists t :: 1 <= t < s && t < nr && pid in es[t].list
      {
        var here := DelPidFrom(pid, s);
        ispid := ispid || here;
      }
      assert Policies() == Step(Views(es), Exit(pid));
    }

    /** destroy_list. */
    method DestroyList(sysc: nat)
      requires sysc < table.Length
      modifies table
      ensures forall s | 0 <= s < table.Length && s != sysc :: table[s] == old(table[s])
      ensures table[sysc] == old(table[sysc]).(list := [], listcount := 0, monitored := 0)
    {
      while table[sysc].list != []
        invariant table[sysc] == old(table[sysc]).(list := table[sysc].list)
        invariant forall s | 0 <= s < table.Length && s != sysc :: table[s] == old(table[s])
        decreases |table[sysc].list|
      {
        table[sysc] := table[sysc].(list := table[sysc].list[1..]);
      }
      table[sysc] := table[sysc].(listcount := 0);
      table[sysc] := table[sysc].(monitored := 0);
    }

    /** my_exit_group, up to the original it goes on to call. */
    method MyExitGroup(pid: int) returns (next: Handler)
      requires Valid()
      modifies table
      ensures Valid() && Policies() == Step(old(Policies()), Exit(pid)) && next == initial[exitGroup]
    {
      var ispid := DelPid(pid);
      next := origExitGroup;
    }

    /** interceptor: log or not, then the saved handler. */
    method Intercept(sysc: nat, pid: int) returns (logged: bool, next: Handler)
      requires Valid() && sysc <= nr
      ensures logged <==> pid in Policies()[sysc].watched
      ensures next == table[sysc].f
    {
      if table[sysc].monitored == 2 {
        var listed := CheckPidMonitored(sysc, pid);
        return !listed, table[sysc].f;
      }
      var listed := CheckPidMonitored(sysc, pid);
      return listed, table[sysc].f;
    }

    /** Whatever is intercepted, a call ends up in the handler it had without interception, and
        it is logged exactly when the call is intercepted and the caller is watched. */
    method Dispatch(sysc: nat, pid: int) returns (logged: bool, target: Handler)
      requires Valid() && sysc <= nr
      ensures logged <==> Policies()[sysc].intercepted && pid in Policies()[sysc].watched
      ensures target == Hooked(sysc)
      ensures sysc != MY_CUSTOM_SYSCALL && sysc != exitGroup ==> target == initial[sysc]
      ensures sysc == exitGroup ==> target == ToMyExitGroup
    {
      assert SlotOk(calls[sysc], table[sysc], sysc) && initial[sysc] in initial;
      if calls[sysc] == ToInterceptor {
        logged, target := Intercept(sysc, pid);
      } else {
        logged, target := false, calls[sysc];
      }
    }

    /** my_syscall_intercept. */
    method SyscallIntercept(syscall: nat)
      requires Valid() && 0 < syscall <= nr && table[syscall].intercepted == 0
      modifies calls, table
      ensures Valid() && Policies() == old(Policies())[syscall := old(Policies())[syscall].(intercepted := true)]
    {
      ghost var es := table[..];
      assert SlotOk(calls[syscall], table[syscall], syscall);
      table[syscall] := table[syscall].(f := calls[syscall]);
      table[syscall] := table[syscall].(intercepted := 1);
      calls[syscall] := ToInterceptor;
      assert Policies() == Views(es)[syscall := es[syscall].View().(intercepted := true)];
    }

    /** my_syscall_intercept_release. */
    method SyscallRelease(syscall: nat)
      requires Valid() && 0 < syscall <= nr && table[syscall].intercepted == 1
      modifies calls, table
      ensures Valid() && Policies() == old(Policies())[syscall := RELEASED]
    {
      ghost var es := table[..];
      assert SlotOk(calls[syscall], table[syscall], syscall);
      DestroyList(syscall);
      calls[syscall] := table[syscall].f;
      table[syscall] := table[syscall].(intercepted := 0);
      table[syscall] := table[syscall].(monitored := 0);
      table[syscall] := table[syscall].(f := Null);
      assert table[syscall].View().watched == RELEASED.watched;
      assert Policies() == Views(es)[syscall := RELEASED];
    }

    /** The REQUEST_START_MONITORING branch of my_syscall. */
    method StartMonitoring(r: Request) returns (status: Status)
      requires Valid() && r.Proper(nr) && r.cmd == REQUEST_START_MONITORING && r.caller in r.owners
      modifies table
      ensures Valid() && Policies() == Step(old(Policies()), Command(r))
      ensures status == Reply(r, old(Policies())[r.syscall]).1
      ensures Answered(r, old(Policies())[r.syscall], Policies()[r.syscall], status)
    {
      hide Answered;
      ghost var e := table[r.syscall];
      ghost var ps := Policies();
      ReplyAnswers(r, ps[r.syscall], nr);
      if table[r.syscall].intercepted == 0 { Same(ps, r); return EINVAL; }
      if r.pid == 0 {
        if r.uid != 0 { Same(ps, r); return EPERM; }
        DestroyList(r.syscall);
        table[r.syscall] := table[r.syscall].(monitored := 2);
        assert table[r.syscall].View().watched == AllBut({});
        status := Success;
      } else {
        if r.owners[r.pid] != r.owners[r.caller] && r.uid != 0 { Same(ps, r); return EPERM; }
        if table[r.syscall].monitored == 2 {
          var listed := CheckPidMonitored(r.syscall, r.pid);
          if !listed { Same(ps, r); return EBUSY; }
          var _ := DelPidSysc(r.pid, r.syscall);
          status := Success;
        } else {
          var listed := CheckPidMonitored(r.syscall, r.pid);
          if listed { Same(ps, r); return EBUSY; }
          var mem := AddPidSysc(r.pid, r.syscall, r.memory);
          if mem != Success { Same(ps, r); return ENOMEM; }
          table[r.syscall] := table[r.syscall].(monitored := 1);
          ListedView(e, r.pid);
          status := Success;
        }
      }
      Changed(ps, r);
    }

    /** The REQUEST_STOP_MONITORING branch of my_syscall. */
    method StopMonitoring(r: Request) returns (status: Status)
      requires Valid() && r.Proper(nr) && r.cmd == REQUEST_STOP_MONITORING && r.caller in r.owners
      modifies table
      ensures Valid() && Policies() == Step(old(Policies()), Command(r))
      ensures status == Reply(r, old(Policies())[r.syscall]).1
      ensures Answered(r, old(Policies())[r.syscall], Policies()[r.syscall], status)
    {
      hide Answered;
      ghost var e := table[r.syscall];
      ghost var ps := Policies();
      ReplyAnswers(r, ps[r.syscall], nr);
      if table[r.syscall].intercepted == 0 { Same(ps, r); return EINVAL; }
      if r.pid == 0 {
        if r.uid != 0 { Same(ps, r); return EPERM; }
        table[r.syscall] := table[r.syscall].(monitored := 0);
        DestroyList(r.syscall);
        assert table[r.syscall].View().watched == iset{};
        status := Success;
      } else {
        if r.owners[r.pid] != r.owners[r.caller] && r.uid != 0 { Same(ps, r); return EPERM; }
        if table[r.syscall].monitored == 2 {
          var listed := CheckPidMonitored(r.syscall, r.pid);
          if listed { Same(ps, r); return EINVAL; }
          var _ := AddPidSysc(r.pid, r.syscall, r.memory); // its failure is ignored
          if r.memory { ListedView(e, r.pid); }
          status := Success;
        } else {
          var listed := CheckPidMonitored(r.syscall, r.pid);
          if !listed { Same(ps, r); return EINVAL; }
          var _ := DelPidSysc(r.pid, r.syscall);
          status := Success;
        }
      }
      Changed(ps, r);
    }

    /** Commands that are turned down leave the policies alone. */
    lemma Same(ps: seq<Policy>, r: Request)
      requires |ps| == nr + 1 && r.Proper(nr) && Reply(r, ps[r.syscall]).0 == ps[r.syscall]
      ensures Step(ps, Command(r)) == ps
    {
    }

    /** A change of one entry is a change of one policy. */
    lemma Changed(ps: seq<Policy>, r: Request)
      requires |ps| == nr + 1 == table.Length && r.Proper(nr)
      requires forall s | 0 <= s <= nr && s != r.syscall :: table[s].View() == ps[s]
      requires table[r.syscall].View() == Reply(r, ps[r.syscall]).0
      ensures Policies() == Step(ps, Command(r))
    {
      assert Policies() == Step(ps, Command(r));
    }

    /** my_syscall. */
    method MySyscall(r: Request) returns (status: Status)
      requires Valid() && r.caller in r.owners
      modifies calls, table
      ensures Valid() && Policies() == Step(old(Policies()), Command(r))
      ensures status == if r.Proper(nr) then Reply(r, old(Policies())[r.syscall]).1 else EINVAL
      ensures var proper := 0 < r.syscall <= nr && 1 <= r.cmd <= 4 && (r.pid == 0 || (0 < r.pid && r.pid in r.owners));
              if proper then
                && Answered(r, old(Policies())[r.syscall], Policies()[r.syscall], status)
                && forall s | 0 <= s <= nr && s != r.syscall :: Policies()[s] == old(Policies())[s]
              else status == EINVAL && Policies() == old(Policies())
    {
      if r.Proper(nr) { ReplyAnswers(r, Policies()[r.syscall], nr); }
      if r.syscall < 0 || r.syscall > nr || r.syscall == MY_CUSTOM_SYSCALL { return EINVAL; }
      if r.cmd != REQUEST_SYSCALL_INTERCEPT && r.cmd != REQUEST_SYSCALL_RELEASE
         && r.cmd != REQUEST_START_MONITORING && r.cmd != REQUEST_STOP_MONITORING { return EINVAL; }
      if r.pid < 0 { return EINVAL; }
      if r.pid !in r.owners && r.pid != 0 { return EINVAL; }
      assert table[r.syscall].Valid();
      if r.cmd == REQUEST_SYSCALL_INTERCEPT {
        if r.uid != 0 { Same(Policies(), r); return EPERM; }
        if table[r.syscall].intercepted == 1 { Same(Policies(), r); return EBUSY; }
        SyscallIntercept(r.syscall);
        status := Success;
      } else if r.cmd == REQUEST_SYSCALL_RELEASE {
        if r.uid != 0 { Same(Policies(), r); return EPERM; }
        if table[r.syscall].intercepted == 0 { Same(Policies(), r); return EINVAL; }
        SyscallRelease(r.syscall);
        status := Success;
      } else if r.cmd == REQUEST_START_MONITORING {
        status := StartMonitoring(r);
      } else {
        status := StopMonitoring(r);
      }
    }

    /** Every list is emptied. */
    method DestroyLists()
      requires Sizes()
      modifies table
      ensures forall s | 0 <= s <= nr :: table[s].list == []
    {
      for i := 0 to nr + 1
        invariant forall s | 0 <= s < i :: table[s].list == []
      {
        DestroyList(i);
      }
    }

    lemma Saved(s: nat)
      requires Valid() && s <= nr
      ensures calls[s] == (if Policies()[s].intercepted then ToInterceptor else Hooked(s)) && initial[s].Kernel?
      ensures s == MY_CUSTOM_SYSCALL ==> !Policies()[s].intercepted
    {
      assert SlotOk(calls[s], table[s], s) && initial[s] in initial;
    }

    /** A call table in which the calls still intercepted have not got their handlers back. */
    lemma Left(cs: seq<Handler>, ps: seq<Policy>)
      requires Sizes() && |cs| == |ps| == nr + 1
      requires forall s | 0 <= s <= nr :: cs[s] == if s != exitGroup && ps[s].intercepted
               then ToInterceptor else initial[s]
      ensures cs == initial <==> forall s | 0 <= s <= nr && s != exitGroup :: !ps[s].intercepted
    {
      if s :| 0 <= s <= nr && s != exitGroup && ps[s].intercepted {
        assert initial[s] in initial && cs[s] != initial[s];
      }
    }

    /** exit_function: the initial call table is back exactly when every intercepted call, other
        than exit_group, has been released. */
    method ExitFunction()
      requires Valid()
      modifies calls, table
      ensures calls[..] == initial <==> forall s | 0 <= s <= nr && s != exitGroup :: !old(Policies())[s].intercepted
      ensures forall s | 0 <= s <= nr ::
                calls[s] == if s != exitGroup && old(Policies())[s].intercepted then ToInterceptor else initial[s]
      ensures forall s | 0 <= s <= nr :: table[s].list == [] && calls[s] != ToMySyscall && calls[s] != ToMyExitGroup
    {
      hide SlotOk, Entry.Valid, Entry.View;
      ghost var ps := Policies();
      forall s: nat | s <= nr
        ensures calls[s] == (if ps[s].intercepted then ToInterceptor else Hooked(s))
        ensures (s == MY_CUSTOM_SYSCALL ==> !ps[s].intercepted) && initial[s].Kernel?
      {
        Saved(s);
      }
      calls[MY_CUSTOM_SYSCALL] := origCustomSyscall;
      calls[exitGroup] := origExitGroup;
      Left(calls[..], ps);
      DestroyLists();
    }
  }

  /** Loading the module, intercepting a call and unloading the module without a release: the call
      table is left with the interceptor of a module that is gone. */
  method UnloadedWhileIntercepting(calls: array<Handler>, nr: nat, exitGroup: nat, r: Request) returns (status: Status)
    requires calls.Length == nr + 1 && MY_CUSTOM_SYSCALL != exitGroup <= nr
    requires forall h | h in calls[..] :: h.Kernel?
    requires r.Proper(nr) && r.Root() && r.cmd == REQUEST_SYSCALL_INTERCEPT
             && r.syscall != exitGroup && r.caller in r.owners
    modifies calls
    ensures status == Success && calls[..] == old(calls[..])[r.syscall := ToInterceptor]
  {
    var m := new Module(calls, nr, exitGroup);
    ghost var ps := m.Policies();
    status := m.MySyscall(r);
    m.ExitFunction();
  }

  /** Once root has stopped the monitoring of everybody at a call, no caller of it is logged. */
  method StopSilences(m: Module, stop: Request, pid: int) returns (status: Status, logged: bool, target: Handler)
    requires m.Valid() && stop.Proper(m.nr) && stop.caller in stop.owners && stop.uid == 0
    requires stop.cmd == REQUEST_STOP_MONITORING && stop.pid == 0 && m.Policies()[stop.syscall].intercepted
    modifies m.calls, m.table
    ensures m.Valid() && status == Success && !logged && target == m.Hooked(stop.syscall)
  {
    status := m.MySyscall(stop);
    logged, target := m.Dispatch(stop.syscall, pid);
  }

  /** And once root has started it, every caller is. */
  method StartLogs(m: Module, start: Request, pid: int) returns (status: Status, logged: bool, target: Handler)
    requires m.Valid() && start.Proper(m.nr) && start.caller in start.owners && start.uid == 0
    requires start.cmd == REQUEST_START_MONITORING && start.pid == 0 && m.Policies()[start.syscall].intercepted
    modifies m.calls, m.table
    ensures m.Valid() && status == Success && logged && target == m.Hooked(start.syscall)
  {
    status := m.MySyscall(start);
    logged, target := m.Dispatch(start.syscall, pid);
  }
}

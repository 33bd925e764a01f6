/** What the system-call monitor promises (System Calls and Monitoring Processes/interceptor.c),
    stated over sets of processes: which calls are intercepted, and whose use of them is logged. */
module Monitor {

  const MY_CUSTOM_SYSCALL := 0
  const REQUEST_SYSCALL_INTERCEPT := 1
  const REQUEST_SYSCALL_RELEASE := 2
  const REQUEST_START_MONITORING := 3
  const REQUEST_STOP_MONITORING := 4

  datatype Status = Success | EINVAL | EPERM | EBUSY | ENOMEM

  /** A command to the monitor. owners maps each live process to its user; memory says whether
      an allocation made now succeeds. */
  datatype Request = Request(cmd: int, syscall: int, pid: int, caller: int, uid: int, owners: map<int, int>,
                             memory: bool) {
    predicate Proper(nr: nat) {
      && 0 <= syscall <= nr && syscall != MY_CUSTOM_SYSCALL
      && REQUEST_SYSCALL_INTERCEPT <= cmd <= REQUEST_STOP_MONITORING
      && (pid == 0 || (pid > 0 && pid in owners))
    }

    predicate Root() { uid == 0 }

    predicate Owns() { pid in owners && caller in owners && owners[pid] == owners[caller] }

    /** Everything but monitoring one's own processes is for root. */
    predicate Permitted() {
      Root() || (cmd in {REQUEST_START_MONITORING, REQUEST_STOP_MONITORING} && pid != 0 && Owns())
    }
  }

  /** One call: is it intercepted, is a process never named watched, and who is watched. */
  datatype Policy = Policy(intercepted: bool, byDefault: bool, watched: iset<int>) {
    /** pid goes back to being a process never named. */
    ghost function Forget(pid: int): Policy {
      this.(watched := if byDefault then watched + iset{pid} else watched - iset{pid})
    }
  }

  ghost function AllBut(named: set<int>): iset<int> { iset p: int | p !in named }

  ghost const RELEASED := Policy(false, false, iset{})

  /** The effect of a proper request on the call it names. */
  ghost function Reply(r: Request, p: Policy): (Policy, Status) {
    if r.cmd == REQUEST_SYSCALL_INTERCEPT then
      if !r.Permitted() then (p, EPERM)
      else if p.intercepted then (p, EBUSY)
      else (p.(intercepted := true), Success)
    else if r.cmd == REQUEST_SYSCALL_RELEASE then
      if !r.Permitted() then (p, EPERM)
      else if !p.intercepted then (p, EINVAL)
      else (RELEASED, Success)
    else if !p.intercepted then (p, EINVAL)
    else if !r.Permitted() then (p, EPERM)
    else if r.cmd == REQUEST_START_MONITORING then
      if r.pid == 0 then (p.(byDefault := true, watched := AllBut({})), Success)
      else if r.pid in p.watched then (p, EBUSY)
      else if !p.byDefault && !r.memory then (p, ENOMEM)
      else (p.(watched := p.watched + iset{r.pid}), Success)
    else
      if r.pid == 0 then (p.(byDefault := false, watched := iset{}), Success)
      else if r.pid !in p.watched then (p, EINVAL)
      else if p.byDefault && !r.memory then (p, Success) // the failed allocation goes unreported
      else (p.(watched := p.watched - iset{r.pid}), Success)
  }

  /** What the answer to a proper request has to be and do, said of the policy before it, p, and
      after it, q. */
  ghost predicate Answered(r: Request, p: Policy, q: Policy, status: Status) {
    var single := r.pid != 0;
    var may := r.uid == 0 ||
               (r.cmd in {REQUEST_START_MONITORING, REQUEST_STOP_MONITORING} && single && r.pid in r.owners
                && r.caller in r.owners && r.owners[r.pid] == r.owners[r.caller]);
    var monitoring := r.cmd in {REQUEST_START_MONITORING, REQUEST_STOP_MONITORING};
    // the status
    && (status == EPERM <==> !may && (monitoring ==> p.intercepted))
    && (status == EBUSY <==>
          may && p.intercepted &&
          (r.cmd == REQUEST_SYSCALL_INTERCEPT || (r.cmd == REQUEST_START_MONITORING && single && r.pid in p.watched)))
    && (status == EINVAL <==>
          (!p.intercepted && (monitoring || (r.cmd == REQUEST_SYSCALL_RELEASE && may)))
          || (p.intercepted && may && r.cmd == REQUEST_STOP_MONITORING && single && r.pid !in p.watched))
    && (status == ENOMEM <==>
          p.intercepted && may && r.cmd == REQUEST_START_MONITORING && single && r.pid !in p.watched
          && !p.byDefault && !r.memory)
    // the effect
    && (status != Success ==> q == p)
    && (status == Success ==>
          && (q.intercepted <==> r.cmd != REQUEST_SYSCALL_RELEASE)
          && (r.cmd == REQUEST_SYSCALL_INTERCEPT ==> q.byDefault == p.byDefault && q.watched == p.watched)
          && (r.cmd == REQUEST_SYSCALL_RELEASE ==> !q.byDefault && forall pid :: pid !in q.watched)
          && (r.cmd == REQUEST_START_MONITORING && !single ==> q.byDefault && forall pid :: pid in q.watched)
          && (r.cmd == REQUEST_STOP_MONITORING && !single ==> !q.byDefault && forall pid :: pid !in q.watched)
          && (monitoring && single ==>
                q.byDefault == p.byDefault && forall pid | pid != r.pid :: pid in q.watched <==> pid in p.watched)
          && (r.cmd == REQUEST_START_MONITORING && single ==> r.pid in q.watched)
          && (r.cmd == REQUEST_STOP_MONITORING && single ==> (r.pid !in q.watched <==> !p.byDefault || r.memory)))
  }

  /** Each status is given exactly when it should be, and each command does what it is for. */
  lemma ReplyAnswers(r: Request, p: Policy, nr: nat)
    requires r.Proper(nr)
    ensures Answered(r, p, Reply(r, p).0, Reply(r, p).1)
  {
    assert r.pid != 0 ==> r.pid in r.owners;
  }

  datatype Event = Command(request: Request) | Exit(pid: int)

  ghost function Step(ps: seq<Policy>, e: Event): (r: seq<Policy>)
    requires 0 < |ps|
    ensures |r| == |ps|
  {
    match e
    case Command(q) =>
      if q.Proper(|ps| - 1) then ps[q.syscall := Reply(q, ps[q.syscall]).0] else ps
    case Exit(pid) => // the last call is passed over
      seq(|ps|, s requires 0 <= s < |ps| => if 1 <= s < |ps| - 1 then ps[s].Forget(pid) else ps[s])
  }

  ghost function After(ps: seq<Policy>, es: seq<Event>): (r: seq<Policy>)
    requires 0 < |ps|
    ensures |r| == |ps|
  {
    if es == [] then ps else Step(After(ps, es[..|es| - 1]), es[|es| - 1])
  }

  /** What watching pid's use of a call depends on. */
  ghost function Cell(p: Policy, pid: int): (bool, bool, bool) {
    (p.intercepted, p.byDefault, pid in p.watched)
  }

  /** The events that can bear on whether pid is watched at call s. */
  ghost predicate Concerns(e: Event, s: int, pid: int) {
    match e
    case Command(q) =>
      q.syscall == s && (q.cmd in {REQUEST_SYSCALL_INTERCEPT, REQUEST_SYSCALL_RELEASE} || q.pid == 0 || q.pid == pid)
    case Exit(p) => p == pid
  }

  ghost function Concerning(es: seq<Event>, s: int, pid: int): seq<Event> {
    if es == [] then []
    else Concerning(es[..|es| - 1], s, pid) + (if Concerns(es[|es| - 1], s, pid) then [es[|es| - 1]] else [])
  }

  lemma StepCell(ps: seq<Policy>, qs: seq<Policy>, e: Event, s: int, pid: int)
    requires 0 <= s < |ps| == |qs| && Cell(ps[s], pid) == Cell(qs[s], pid)
    ensures Concerns(e, s, pid) ==> Cell(Step(ps, e)[s], pid) == Cell(Step(qs, e)[s], pid)
    ensures !Concerns(e, s, pid) ==> Cell(Step(ps, e)[s], pid) == Cell(ps[s], pid)
  {
  }

  /** Whether pid is watched at call s, after any run, is decided by the events about pid, about
      everyone, and about intercepting s: no command for another call or another process matters. */
  lemma {:induction false} Independent(ps: seq<Policy>, es: seq<Event>, s: int, pid: int)
    requires 0 <= s < |ps|
    ensures Cell(After(ps, es)[s], pid) == Cell(After(ps, Concerning(es, s, pid))[s], pid)
  {
    if es != [] {
      var front, e := es[..|es| - 1], es[|es| - 1];
      var kept := Concerning(front, s, pid);
      Independent(ps, front, s, pid);
      StepCell(After(ps, front), After(ps, kept), e, s, pid);
      if Concerns(e, s, pid) {
        var es' := kept + [e];
        assert Concerning(es, s, pid) == es' && es'[..|es'| - 1] == kept && es'[|es'| - 1] == e;
        assert After(ps, es') == Step(After(ps, kept), e);
      } else {
        assert Concerning(es, s, pid) == kept;
      }
    }
  }

  /** A command by a user other than root that is not about a process of theirs called pid, or
      the exit of another process. */
  ghost predicate Stranger(e: Event, pid: int) {
    match e
    case Command(q) => !q.Root() && !(q.pid == pid && q.Owns())
    case Exit(p) => p != pid
  }

  /** Users other than root can only watch or stop watching their own processes: after any run
      of their commands and of exits, nothing else about any call has changed. */
  lemma {:induction false} UsersConfined(ps: seq<Policy>, es: seq<Event>, s: int, pid: int)
    requires 0 <= s < |ps|
    requires forall e | e in es :: Stranger(e, pid)
    ensures Cell(After(ps, es)[s], pid) == Cell(ps[s], pid)
  {
    if es != [] {
      var front, e := es[..|es| - 1], es[|es| - 1];
      assert es == front + [e];
      UsersConfined(ps, front, s, pid);
      assert Stranger(e, pid);
      assert After(ps, es) == Step(After(ps, front), e);
    }
  }

  /** Starting and then stopping, or stopping and then starting, puts the policy back. */
  lemma StartStop(start: Request, stop: Request, p: Policy)
    requires start.cmd == REQUEST_START_MONITORING && stop.cmd == REQUEST_STOP_MONITORING
    requires start.pid == stop.pid != 0 && start.memory && stop.memory && stop.Permitted() && start.Permitted()
    ensures Reply(start, p).1 == Success ==> Reply(stop, Reply(start, p).0) == (p, Success)
    ensures Reply(stop, p).1 == Success ==> Reply(start, Reply(stop, p).0) == (p, Success)
  {
    if Reply(start, p).1 == Success {
      assert p.watched + iset{start.pid} - iset{start.pid} == p.watched;
    }
    if Reply(stop, p).1 == Success {
      assert p.watched - iset{start.pid} + iset{start.pid} == p.watched;
    }
  }

  /** After a call is released it is as it was before it was ever intercepted, over any run that
      ends with a granted release. */
  lemma ReleaseForgets(ps: seq<Policy>, es: seq<Event>, release: Request)
    requires 0 < |ps| && release.Proper(|ps| - 1) && release.cmd == REQUEST_SYSCALL_RELEASE
    requires Reply(release, After(ps, es)[release.syscall]).1 == Success
    ensures After(ps, es + [Command(release)])[release.syscall] == RELEASED
  {
    assert (es + [Command(release)])[..|es + [Command(release)]| - 1] == es;
  }

  /** pid has been named in a command for this call and the naming still counts. */
  ghost predicate Named(p: Policy, pid: int) { (pid in p.watched) != p.byDefault }

  /** An exit is meant to take the process out of every list. It does so exactly when the last
      call, which the loop passes over, does not name it. */
  lemma ExitForgets(ps: seq<Policy>, pid: int)
    requires 2 <= |ps| && !Named(ps[MY_CUSTOM_SYSCALL], pid)
    ensures (forall s | 0 <= s < |ps| :: !Named(Step(ps, Exit(pid))[s], pid)) <==> !Named(ps[|ps| - 1], pid)
  {
    var ps' := Step(ps, Exit(pid));
    assert ps'[|ps| - 1] == ps[|ps| - 1];
    forall s | 1 <= s < |ps| - 1 ensures !Named(ps'[s], pid) {
      assert ps'[s] == ps[s].Forget(pid);
    }
  }

  /** The policies once the module is loaded. */
  ghost function Loaded(nr: nat): (ps: seq<Policy>)
    ensures |ps| == nr + 1
  {
    seq(nr + 1, _ => RELEASED)
  }

  lemma AfterOne(ps: seq<Policy>, e: Event)
    requires 0 < |ps|
    ensures After(ps, [e]) == Step(ps, e)
  {
    assert [e][..0] == [] && After(ps, []) == ps;
  }

  lemma AfterTwo(ps: seq<Policy>, e: Event, f: Event)
    requires 0 < |ps|
    ensures After(ps, [e, f]) == Step(Step(ps, e), f)
  {
    hide Step, After;
    AfterOne(ps, e);
    AfterSnoc(ps, [e], f);
    assert [e] + [f] == [e, f];
  }

  /** After a run that ends in root stopping the monitoring of everybody at an intercepted call,
      nobody is watched there, and nobody by default. */
  lemma StopEndsAll(ps: seq<Policy>, es: seq<Event>, stop: Request)
    requires 0 < |ps| && stop.Proper(|ps| - 1) && After(ps, es)[stop.syscall].intercepted
    requires stop.cmd == REQUEST_STOP_MONITORING && stop.pid == 0 && stop.uid == 0
    ensures var p := After(ps, es + [Command(stop)])[stop.syscall];
            p.intercepted && !p.byDefault && forall pid :: pid !in p.watched
  {
    hide After, Step, Reply;
    AfterSnoc(ps, es, Command(stop));
    StepAnswers(After(ps, es), stop);
  }

  /** And after one that ends in root starting it, everybody is watched, those not yet born too. */
  lemma StartWatchesAll(ps: seq<Policy>, es: seq<Event>, start: Request)
    requires 0 < |ps| && start.Proper(|ps| - 1) && After(ps, es)[start.syscall].intercepted
    requires start.cmd == REQUEST_START_MONITORING && start.pid == 0 && start.uid == 0
    ensures var p := After(ps, es + [Command(start)])[start.syscall];
            p.intercepted && p.byDefault && forall pid :: pid in p.watched
  {
    hide After, Step, Reply;
    AfterSnoc(ps, es, Command(start));
    StepAnswers(After(ps, es), start);
  }

  lemma StepAnswers(ps: seq<Policy>, r: Request)
    requires 0 < |ps| && r.Proper(|ps| - 1)
    ensures exists status :: Answered(r, ps[r.syscall], Step(ps, Command(r))[r.syscall], status)
  {
    hide Reply, Answered;
    ReplyAnswers(r, ps[r.syscall], |ps| - 1);
    assert Step(ps, Command(r))[r.syscall] == Reply(r, ps[r.syscall]).0;
    assert Answered(r, ps[r.syscall], Step(ps, Command(r))[r.syscall], Reply(r, ps[r.syscall]).1);
  }

  lemma AfterSnoc(ps: seq<Policy>, es: seq<Event>, e: Event)
    requires 0 < |ps|
    ensures After(ps, es + [e]) == Step(After(ps, es), e)
  {
    assert (es + [e])[..|es + [e]| - 1] == es;
  }

  /** Root intercepts the last call and watches a process there; once that has exited it is still
      named, and so a later process that is given its pid is watched. */
  lemma LastCallKeepsExited(nr: nat, pid: int, owners: map<int, int>)
    requires 1 <= nr && 0 < pid && pid in owners
    ensures var intercept := Request(REQUEST_SYSCALL_INTERCEPT, nr, 0, pid, 0, owners, true);
            var start := Request(REQUEST_START_MONITORING, nr, pid, pid, 0, owners, true);
            var ps := After(Loaded(nr), [Command(intercept), Command(start)]);
            intercept.Proper(nr) && start.Proper(nr) && Named(Step(ps, Exit(pid))[nr], pid)
  {
    var intercept := Request(REQUEST_SYSCALL_INTERCEPT, nr, 0, pid, 0, owners, true);
    var start := Request(REQUEST_START_MONITORING, nr, pid, pid, 0, owners, true);
    AfterTwo(Loaded(nr), Command(intercept), Command(start));
  }

  /** Success of a stop is meant to end the watching of that process. It does exactly when either
      the watched are listed, so that nothing has to be allocated, or the allocation succeeds. */
  lemma StopTakesEffect(r: Request, p: Policy)
    requires r.cmd == REQUEST_STOP_MONITORING && r.pid != 0 && Reply(r, p).1 == Success
    ensures r.pid !in Reply(r, p).0.watched <==> !p.byDefault || r.memory
  {
  }

  /** Root intercepts a call and watches everyone there; a process that then stops the watching of
      itself, with no memory left, is told that it has, and has not. */
  lemma UnreportedStop(nr: nat, s: int, pid: int, owners: map<int, int>)
    requires 1 <= s <= nr && 0 < pid && pid in owners
    ensures var intercept := Request(REQUEST_SYSCALL_INTERCEPT, s, 0, pid, 0, owners, true);
            var start := Request(REQUEST_START_MONITORING, s, 0, pid, 0, owners, true);
            var stop := Request(REQUEST_STOP_MONITORING, s, pid, pid, owners[pid], owners, false);
            var p := After(Loaded(nr), [Command(intercept), Command(start)])[s];
            && intercept.Proper(nr) && start.Proper(nr) && stop.Proper(nr)
            && Reply(stop, p).1 == Success && pid in Reply(stop, p).0.watched
  {
    var intercept := Request(REQUEST_SYSCALL_INTERCEPT, s, 0, pid, 0, owners, true);
    var start := Request(REQUEST_START_MONITORING, s, 0, pid, 0, owners, true);
    AfterTwo(Loaded(nr), Command(intercept), Command(start));
  }
}

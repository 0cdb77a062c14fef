/** Objects on the JSON-RPC stack and the collector that closes them when nobody touches them. */
module ObjectStack {
  import opened Wrappers

  /** Times are microseconds. */
  const SECOND := 1_000_000
  const TEN_MINUTES := 600 * SECOND
  const GRACE := 59 * SECOND

  datatype Error = RefNotFound | NotOwner | PropertyNotFound

  /** `last` is 'last_interaction', `mark` 'mark_for_deletion', `job` the id of 'countdown_job'. */
  datatype Item = Item(user: string, uuid: Option<string>, properties: seq<string>, created: int,
                       last: Option<int>, mark: Option<int>, job: Option<int>)

  /** An ObjectCloseAnnouncement, with the time it was sent; `idleSince` is the last interaction at that time. */
  datatype Notice = Closing(at: int) | ClosingAborted(at: int) | Closed(at: int, idleSince: int)

  function LastTouched(i: Item): int {
    if i.last.Some? then i.last.value else i.created
  }

  predicate Idle(i: Item, now: int) {
    LastTouched(i) < now - TEN_MINUTES
  }

  /** A mark says that the object had been idle for ten minutes when it was set. */
  predicate Untouched(i: Item) {
    i.mark.Some? ==> LastTouched(i) < i.mark.value - GRACE - TEN_MINUTES
  }

  // ----- whose objects -----

  type Stack = map<string, Item>

  /** `__check_user` looks whether the user owns any object on the stack, not this one. */
  predicate CheckUser(stack: Stack, user: string) {
    exists ref | ref in stack :: stack[ref].user == user
  }

  function Refused(stack: Stack, user: string, ref: string): Option<Error> {
    if ref !in stack then Some(RefNotFound) else if !CheckUser(stack, user) then Some(NotOwner) else None
  }

  /** So another user's object is refused if and only if the user has no object open at all. */
  lemma StrangerAcceptedIff(stack: Stack, user: string, ref: string)
    requires ref in stack && stack[ref].user != user
    ensures Refused(stack, user, ref).None? <==> exists r :: r in stack && r != ref && stack[r].user == user
  {
  }

  // ----- the protocol, per reference -----

  /** `Warned` remembers when the user was told. */
  datatype Phase = Quiet | Warned(at: int) | Gone | Broken

  /** The allowed notices. An object may be closed only 59 seconds after a warning that has not been withdrawn,
      and only if it had already been idle for ten minutes when the warning was sent. */
  function Next(p: Phase, n: Notice): Phase {
    match (p, n)
    case (Quiet, Closing(at)) => Warned(at)
    case (Warned(_), ClosingAborted(_)) => Quiet
    case (Warned(w), Closed(at, idleSince)) => if w + GRACE <= at && idleSince < w - TEN_MINUTES then Gone else Broken
    case _ => Broken
  }

  function PhaseOf(h: seq<Notice>): Phase {
    if h == [] then Quiet else Next(PhaseOf(h[..|h| - 1]), h[|h| - 1])
  }

  lemma PhaseStep(h: seq<Notice>, n: Notice)
    ensures PhaseOf(h + [n]) == Next(PhaseOf(h), n)
  {
    assert (h + [n])[..|h|] == h;
  }

  /** What the phase says about the notices: they alternate between warning and withdrawal, and only a warning
      that was at least 59 seconds old can be followed, at the very end, by the closing of an object untouched
      for more than 10 minutes and 59 seconds. */
  lemma {:induction false} NoticesAlternate(h: seq<Notice>)
    requires PhaseOf(h) != Broken
    ensures forall i :: 0 <= i < |h| && i % 2 == 0 ==> h[i].Closing?
    ensures forall i :: 0 <= i < |h| && i % 2 == 1 ==> h[i].ClosingAborted? || (h[i].Closed? && i == |h| - 1)
    ensures forall i :: 0 < i < |h| && h[i].Closed? ==>
              h[i - 1].Closing? && h[i - 1].at + GRACE <= h[i].at && h[i].idleSince < h[i].at - TEN_MINUTES - GRACE
    ensures match PhaseOf(h)
      case Quiet => |h| % 2 == 0 && (h == [] || h[|h| - 1].ClosingAborted?)
      case Warned(at) => |h| % 2 == 1 && h[|h| - 1] == Closing(at)
      case Gone => |h| % 2 == 0 && h != [] && h[|h| - 1].Closed?
      case Broken => false
    decreases h
  {
    if h != [] {
      var init, last := h[..|h| - 1], h[|h| - 1];
      assert PhaseOf(init) != Broken;
      NoticesAlternate(init);
      assert forall i :: 0 <= i < |init| ==> h[i] == init[i];
    }
  }

  // ----- one item under the collector -----

  predicate Closes(i: Item, now: int) {
    i.uuid.Some? && Idle(i, now) && i.mark.Some? && i.mark.value <= now
  }

  predicate Warns(i: Item, now: int) {
    i.uuid.Some? && Idle(i, now) && i.mark.None?
  }

  predicate Withdraws(i: Item, now: int) {
    i.uuid.Some? && !Idle(i, now) && i.mark.Some?
  }

  function Sent(i: Item, now: int): seq<Notice> {
    if Closes(i, now) then [Closed(now, LastTouched(i))]
    else if Warns(i, now) then [Closing(now)]
    else if Withdraws(i, now) then [ClosingAborted(now)]
    else []
  }

  /** The item afterwards, apart from the id of its countdown job. */
  function Collected(i: Item, now: int): Item {
    if Warns(i, now) then i.(mark := Some(now + GRACE))
    else if Withdraws(i, now) then i.(mark := None)
    else i
  }

  // ----- the whole stack -----

  type Notices = map<string, seq<Notice>>

  /** An item agrees with the notices sent for it, and a marked one carries a countdown job of its own that is
      scheduled for one second after the mark. */
  predicate Coupled(ref: string, i: Item, sent: Notices, jobs: map<int, int>, owners: map<int, string>) {
    && ref in sent
    && PhaseOf(sent[ref]) == (if i.mark.Some? then Warned(i.mark.value - GRACE) else Quiet)
    && (i.mark.Some? <==> i.job.Some?)
    && (i.mark.Some? ==>
          && i.uuid.Some?
          && i.job.value in jobs && jobs[i.job.value] == i.mark.value + SECOND
          && i.job.value in owners && owners[i.job.value] == ref)
  }

  ghost predicate AreCoupled(stack: Stack, notices: Notices, jobs: map<int, int>, owners: map<int, string>,
                             nextJob: int)
  {
    && (forall ref :: ref in stack ==> Coupled(ref, stack[ref], notices, jobs, owners))
    && (forall ref :: ref in notices ==> PhaseOf(notices[ref]) != Broken)
    && (forall j :: j in jobs || j in owners ==> j < nextJob)
  }

  /** A quiet reference is warned, and a new job waits for it. */
  lemma WarningKeepsCoupled(stack: Stack, notices: Notices, jobs: map<int, int>, owners: map<int, string>, next: int,
                            ref: string, now: int)
    requires AreCoupled(stack, notices, jobs, owners, next) && ref in stack && Warns(stack[ref], now)
    ensures ref in notices && stack[ref].job == None
    ensures AreCoupled(stack[ref := stack[ref].(mark := Some(now + GRACE), job := Some(next))],
                       notices[ref := notices[ref] + [Closing(now)]],
                       jobs[next := now + 60 * SECOND], owners[next := ref], next + 1)
  {
    assert Coupled(ref, stack[ref], notices, jobs, owners);
    PhaseStep(notices[ref], Closing(now));
  }

  /** What a collection does about one reference. */
  predicate SweptAt(r: string, before: Stack, sent: Notices, stack: Stack, notices: Notices, now: int) {
    && (r in stack <==> r in before && !Closes(before[r], now))
    && (r in stack ==> stack[r].(job := None) == Collected(before[r], now).(job := None))
    && (r in notices <==> r in sent)
    && (r in notices ==> notices[r] == if r in before then sent[r] + Sent(before[r], now) else sent[r])
  }

  ghost predicate Swept(before: Stack, sent: Notices, stack: Stack, notices: Notices, now: int) {
    forall r :: SweptAt(r, before, sent, stack, notices, now)
  }

  /** What a collection does to an object with a UUID, in seconds: ten minutes after it was touched last, or created, it
      is marked for deletion in 59 seconds; once the mark has passed it is closed; and touched in between it loses the
      mark. Its owner is told each of these things. */
  lemma CollectedInSeconds(r: string, before: Stack, sent: Notices, stack: Stack, notices: Notices, now: int)
    requires SweptAt(r, before, sent, stack, notices, now) && r in before && r in sent && before[r].uuid.Some?
    ensures var i := before[r];
      var touched := match i.last case Some(t) => t case None => i.created;
      var idle := touched < now - 600_000_000;
      && (r !in stack <==> idle && i.mark.Some? && i.mark.value <= now)
      && (r in stack ==>
            stack[r].mark == if !idle then None else if i.mark.None? then Some(now + 59_000_000) else i.mark)
      && (r in stack ==> stack[r].(mark := i.mark, job := i.job) == i)
      && notices[r] == sent[r] + (if r !in stack then [Closed(now, touched)]
                                  else if idle && i.mark.None? then [Closing(now)]
                                  else if !idle && i.mark.Some? then [ClosingAborted(now)] else [])
  {
    if r in stack {
      var after := Collected(before[r], now);
      assert stack[r].(job := None) == after.(job := None);
      assert stack[r] == after.(job := stack[r].job);
    }
  }

  /** Objects without a UUID are left alone. */
  lemma NothingCollected(r: string, before: Stack, sent: Notices, stack: Stack, notices: Notices, now: int)
    requires SweptAt(r, before, sent, stack, notices, now) && r in before && r in sent && before[r].uuid.None?
    ensures r in stack && stack[r].(job := None) == before[r].(job := None) && notices[r] == sent[r]
  {
  }

  /** Afterwards idle objects are marked, marks lie in the future, and nobody has touched a marked object. */
  lemma SettledAt(r: string, before: Stack, sent: Notices, stack: Stack, notices: Notices, now: int)
    requires SweptAt(r, before, sent, stack, notices, now) && r in stack
    requires Untouched(before[r]) || !Idle(before[r], now)
    requires before[r].mark.Some? ==> before[r].uuid.Some?
    ensures Untouched(stack[r])
    ensures stack[r].uuid.Some? && Idle(stack[r], now) ==> stack[r].mark.Some?
    ensures stack[r].mark.Some? ==> stack[r].mark.value > now
  {
    var after := Collected(before[r], now);
    assert stack[r].(job := None).mark == after.mark && stack[r].(job := None).last == after.last;
    assert stack[r].(job := None).created == after.created && stack[r].(job := None).uuid == after.uuid;
  }

  predicate SameAt(r: string, before: Stack, sent: Notices, stack: Stack, notices: Notices) {
    && (r in stack <==> r in before)
    && (r in stack ==> stack[r] == before[r])
    && (r in notices <==> r in sent)
    && (r in notices ==> notices[r] == sent[r])
  }

  /** The collector has still to visit `todo`. */
  ghost predicate SweptBut(todo: set<string>, before: Stack, sent: Notices, stack: Stack, notices: Notices, now: int) {
    && (forall r :: r in todo ==> SameAt(r, before, sent, stack, notices))
    && (forall r :: r !in todo ==> SweptAt(r, before, sent, stack, notices, now))
  }

  lemma OneMore(todo: set<string>, ref: string, before: Stack, sent: Notices, s0: Stack, n0: Notices,
                s1: Stack, n1: Notices, now: int)
    requires SweptBut(todo + {ref}, before, sent, s0, n0, now)
    requires SweptAt(ref, s0, n0, s1, n1, now) && ref in s0 && ref !in todo
    requires forall r :: r != ref ==> SameAt(r, s0, n0, s1, n1)
    ensures SweptBut(todo, before, sent, s1, n1, now)
  {
    assert SameAt(ref, before, sent, s0, n0);
    forall r | r != ref
      ensures if r in todo then SameAt(r, before, sent, s1, n1) else SweptAt(r, before, sent, s1, n1, now)
    {
      assert SameAt(r, s0, n0, s1, n1);
    }
  }

  /** What touching `ref` does: the mark goes, its owner is told so exactly if there was one, and in that case
      the collector also visits every other object. */
  ghost predicate Touched(before: Stack, sent: Notices, stack: Stack, notices: Notices, ref: string, now: int)
  {
    && ref in before && ref in sent && ref in stack && ref in notices
    && stack[ref].(job := None) == before[ref].(last := Some(now), mark := None, job := None)
    && notices[ref] == sent[ref] + (if before[ref].mark.Some? then [ClosingAborted(now)] else [])
    && forall r :: r != ref ==>
         if before[ref].mark.Some? then SweptAt(r, before, sent, stack, notices, now)
         else SameAt(r, before, sent, stack, notices)
  }

  class JSONRPCObjectMapper {
    var stack: Stack
    /** Countdown jobs waiting in the scheduler, with the time they are due. */
    var jobs: map<int, int>
    var nextJob: int
    /** The notices sent so far, for every reference ever handed out. */
    ghost var notices: Notices
    /** The reference every job was scheduled for. */
    ghost var owners: map<int, string>

    ghost predicate AllCoupled()
      reads this
    {
      AreCoupled(stack, notices, jobs, owners, nextJob)
    }

    /** Between operations a marked item has moreover not been touched since it was marked. */
    ghost predicate Valid()
      reads this
    {
      AllCoupled() && forall ref :: ref in stack ==> Untouched(stack[ref])
    }

    constructor ()
      ensures Valid() && stack == map[] && notices == map[]
    {
      stack, jobs, nextJob, notices, owners := map[], map[], 0, map[], map[];
    }

    /** `openObject`; the reference is a new UUID. */
    method OpenObject(ref: string, user: string, uuid: Option<string>, properties: seq<string>, now: int)
      requires Valid() && ref !in notices
      modifies this
      ensures Valid()
      ensures stack == old(stack)[ref := Item(user, uuid, properties, now, None, None, None)]
      ensures notices == old(notices)[ref := []] && jobs == old(jobs)
    {
      stack := stack[ref := Item(user, uuid, properties, now, None, None, None)];
      notices := notices[ref := []];
    }

    method CloseObject(user: string, ref: string) returns (e: Option<Error>)
      requires Valid()
      modifies this
      ensures Valid() && notices == old(notices) && jobs == old(jobs)
      ensures e == None || e == Some(RefNotFound) || e == Some(NotOwner)
      ensures e == Some(RefNotFound) <==> ref !in old(stack)
      ensures e == Some(NotOwner) <==> ref in old(stack) && forall r :: r in old(stack) ==> old(stack)[r].user != user
      ensures ref in old(stack) && old(stack)[ref].user == user ==> e == None
      ensures stack == if e.None? then old(stack) - {ref} else old(stack)
    {
      e := Refused(stack, user, ref);
      if e.None? {
        stack := stack - {ref};
      }
    }

    method ContinueObjectEditing(user: string, ref: string, now: int) returns (e: Option<Error>)
      requires Valid()
      modifies this
      ensures Valid()
      ensures e == None || e == Some(RefNotFound) || e == Some(NotOwner)
      ensures e == Some(RefNotFound) <==> ref !in old(stack)
      ensures e == Some(NotOwner) <==> ref in old(stack) && forall r :: r in old(stack) ==> old(stack)[r].user != user
      ensures ref in old(stack) && old(stack)[ref].user == user ==> e == None
      ensures e.Some? ==> stack == old(stack) && notices == old(notices)
      ensures e.None? ==> Touched(old(stack), old(notices), stack, notices, ref, now)
    {
      e := Refused(stack, user, ref);
      if e.None? {
        Touch(ref, now);
      }
    }

    method SetObjectProperty(user: string, ref: string, name: string, now: int) returns (e: Option<Error>)
      requires Valid()
      modifies this
      ensures Valid()
      ensures e == Some(RefNotFound) <==> ref !in old(stack)
      ensures e == Some(PropertyNotFound) <==> ref in old(stack) && name !in old(stack)[ref].properties
      ensures e == Some(NotOwner) <==> && ref in old(stack) && name in old(stack)[ref].properties
                                       && forall r :: r in old(stack) ==> old(stack)[r].user != user
      ensures ref in old(stack) && name in old(stack)[ref].properties && old(stack)[ref].user == user ==> e == None
      ensures e.Some? ==> stack == old(stack) && notices == old(notices)
      ensures e.None? ==> Touched(old(stack), old(notices), stack, notices, ref, now)
    {
      if ref in stack && name !in stack[ref].properties { return Some(PropertyNotFound); }
      e := Refused(stack, user, ref);
      if e.None? {
        Touch(ref, now);
      }
    }

    method Touch(ref: string, now: int)
      requires Valid() && ref in stack
      modifies this
      ensures Valid() && Touched(old(stack), old(notices), stack, notices, ref, now)
    {
      var marked := stack[ref].mark.Some?;
      stack := stack[ref := stack[ref].(last := Some(now))];
      ghost var before := stack;
      if marked {
        Gc(now);
        assert SweptAt(ref, before, old(notices), stack, notices, now);
        forall r | r != ref
          ensures SweptAt(r, old(stack), old(notices), stack, notices, now)
        {
          assert SweptAt(r, before, old(notices), stack, notices, now);
        }
      }
    }

    /** `__gc`. The touched object may still carry its mark when it starts. */
    method Gc(now: int)
      requires AllCoupled() && forall ref :: ref in stack ==> Untouched(stack[ref]) || !Idle(stack[ref], now)
      modifies this
      ensures Valid() && Swept(old(stack), old(notices), stack, notices, now)
      ensures forall r :: r in stack && stack[r].uuid.Some? && Idle(stack[r], now) ==> stack[r].mark.Some?
      ensures forall r :: r in stack && stack[r].mark.Some? ==> stack[r].mark.value > now
      ensures forall j :: j in jobs ==> (j in old(jobs) && jobs[j] == old(jobs[j])) || j >= old(nextJob)
    {
      var todo := stack.Keys;
      while todo != {}
        invariant AllCoupled() && todo <= old(stack).Keys
        invariant SweptBut(todo, old(stack), old(notices), stack, notices, now)
        invariant forall j :: j in jobs ==> (j in old(jobs) && jobs[j] == old(jobs[j])) || j >= old(nextJob)
        invariant old(nextJob) <= nextJob
        decreases |todo|
      {
        var ref :| ref in todo;
        assert SameAt(ref, old(stack), old(notices), stack, notices);
        todo := todo - {ref};
        ghost var before, sent := stack, notices;
        CollectOne(ref, now);
        OneMore(todo, ref, old(stack), old(notices), before, sent, stack, notices, now);
      }
      forall r | r in stack
        ensures Untouched(stack[r]) && (stack[r].mark.Some? ==> stack[r].mark.value > now)
        ensures stack[r].uuid.Some? && Idle(stack[r], now) ==> stack[r].mark.Some?
      {
        SettledAt(r, old(stack), old(notices), stack, notices, now);
      }
    }

    /** One round of the collector's loop. */
    method CollectOne(ref: string, now: int)
      requires AllCoupled() && ref in stack && (Untouched(stack[ref]) || !Idle(stack[ref], now))
      modifies this
      ensures AllCoupled()
      ensures SweptAt(ref, old(stack), old(notices), stack, notices, now)
      ensures forall r :: r != ref ==> SameAt(r, old(stack), old(notices), stack, notices)
      ensures forall j :: j in jobs ==> (j in old(jobs) && jobs[j] == old(jobs[j])) || j >= old(nextJob)
      ensures old(nextJob) <= nextJob
    {
      var item := stack[ref];
      assert notices[ref] + [] == notices[ref];
      if item.uuid.None? { return; }
      if Idle(item, now) {
        if item.mark.Some? {
          if item.mark.value <= now {
            Expire(ref, now);
          }
        } else {
          Warn(ref, now);
        }
      } else if item.mark.Some? {
        Withdraw(ref, now);
      }
    }

    method Expire(ref: string, now: int)
      requires AllCoupled() && ref in stack && Closes(stack[ref], now) && Untouched(stack[ref])
      modifies `stack, `jobs, `notices
      ensures AllCoupled()
      ensures stack == old(stack) - {ref} && jobs == old(jobs) - {old(stack)[ref].job.value}
      ensures notices == old(notices)[ref := old(notices)[ref] + [Closed(now, LastTouched(old(stack)[ref]))]]
    {
      var item := stack[ref];
      Unschedule(item.job);
      stack := stack - {ref};
      Send(ref, Closed(now, LastTouched(item)));
    }

    method Warn(ref: string, now: int)
      requires AllCoupled() && ref in stack && Warns(stack[ref], now)
      modifies this
      ensures AllCoupled() && nextJob == old(nextJob) + 1
      ensures stack == old(stack)[ref := old(stack)[ref].(mark := Some(now + GRACE), job := Some(old(nextJob)))]
      ensures jobs == old(jobs)[old(nextJob) := now + 60 * SECOND]
      ensures notices == old(notices)[ref := old(notices)[ref] + [Closing(now)]]
    {
      var item := stack[ref];
      WarningKeepsCoupled(stack, notices, jobs, owners, nextJob, ref, now);
      Send(ref, Closing(now));
      Unschedule(item.job);
      var id := Schedule(ref, now + 60 * SECOND);
      stack := stack[ref := item.(mark := Some(now + GRACE), job := Some(id))];
    }

    method Withdraw(ref: string, now: int)
      requires AllCoupled() && ref in stack && Withdraws(stack[ref], now)
      modifies `stack, `jobs, `notices
      ensures AllCoupled()
      ensures stack == old(stack)[ref := old(stack)[ref].(mark := None, job := None)]
      ensures jobs == old(jobs) - {old(stack)[ref].job.value}
      ensures notices == old(notices)[ref := old(notices)[ref] + [ClosingAborted(now)]]
    {
      var item := stack[ref];
      stack := stack[ref := item.(mark := None)];
      Send(ref, ClosingAborted(now));
      Unschedule(item.job);
      stack := stack[ref := item.(mark := None, job := None)];
    }

    ghost method Send(ref: string, n: Notice)
      requires ref in notices
      modifies `notices
      ensures notices == old(notices)[ref := old(notices)[ref] + [n]]
      ensures PhaseOf(notices[ref]) == Next(PhaseOf(old(notices)[ref]), n)
    {
      PhaseStep(notices[ref], n);
      notices := notices[ref := notices[ref] + [n]];
    }

    method Schedule(ref: string, due: int) returns (id: int)
      modifies `jobs, `nextJob, `owners
      ensures id == old(nextJob) && nextJob == id + 1
      ensures jobs == old(jobs)[id := due] && owners == old(owners)[id := ref]
    {
      id := nextJob;
      jobs, owners, nextJob := jobs[id := due], owners[id := ref], nextJob + 1;
    }

    /** A job that ran already is no longer known to the scheduler, which does no harm. */
    method Unschedule(job: Option<int>)
      modifies `jobs
      ensures jobs == if job.Some? then old(jobs) - {job.value} else old(jobs)
    {
      if job.Some? {
        jobs := jobs - {job.value};
      }
    }

    /** The scheduler runs a countdown job that is due; the job is gone afterwards, and no object misses it. */
    method RunCountdown(id: int, now: int)
      requires Valid() && id in jobs && jobs[id] <= now
      modifies this
      ensures Valid() && id !in jobs && Swept(old(stack), old(notices), stack, notices, now)
    {
      Gc(now);
      jobs := jobs - {id};
    }
  }

  /** It happens: a user with some object open closes one that belongs to somebody else. */
  method StrangerCloses(owner: string, stranger: string, now: int) returns (m: JSONRPCObjectMapper, e: Option<Error>)
    requires owner != stranger
    ensures fresh(m) && m.Valid() && e == None && "theirs" !in m.stack && "own" in m.stack
  {
    m := new JSONRPCObjectMapper();
    m.OpenObject("theirs", owner, Some("1"), [], now);
    m.OpenObject("own", stranger, Some("2"), [], now);
    assert m.stack["own"].user == stranger && m.stack["theirs"].user == owner;
    e := m.CloseObject(stranger, "theirs");
  }
}

/** The concurrent part of a health round (cmd/app/health.go, cmd/app/limiter.go): one worker per
    network, each passing through the bounded channel its network is assigned to. */
module Limiter {
  import opened Common

  /** A worker blocks in `acquire`, then runs its check, stores the result, releases and is done. */
  datatype Phase = Waiting | Checking | Storing | Releasing | Done

  /** A limiter is a buffered channel: `size` slots, `used` of them filled. */
  datatype Channel = Channel(size: nat, used: nat)

  datatype Worker = Worker(limiter: string, phase: Phase)

  datatype Round = Round(channels: map<string, Channel>, workers: seq<Worker>)

  /** Between a worker's `acquire` and its `release`. */
  predicate Inside(w: Worker) {
    w.phase.Checking? || w.phase.Storing? || w.phase.Releasing?
  }

  /** `pickLimiter`: the limiter of some domain contained in the first URL, in whatever order the map
      iteration tries the domains, or the default when there is none. */
  predicate MayPick(limits: set<string>, default: string, firstUrl: Option<string>, choice: string) {
    || (choice == default && (firstUrl.None? || forall d :: d in limits ==> !Contains(firstUrl.value, d)))
    || (firstUrl.Some? && choice in limits && Contains(firstUrl.value, choice))
  }

  predicate OccursAt(s: string, sub: string, i: int) {
    0 <= i <= |s| - |sub| && s[i..i + |sub|] == sub
  }

  predicate Contains(s: string, sub: string) {
    exists i :: 0 <= i <= |s| - |sub| && OccursAt(s, sub, i)
  }

  /** A string contains another exactly when it is that one between a start and an end. */
  lemma ContainsIff(s: string, sub: string)
    ensures Contains(s, sub) <==> exists before: string, after: string :: s == before + sub + after
  {
    if Contains(s, sub) {
      var i :| 0 <= i <= |s| - |sub| && OccursAt(s, sub, i);
      assert s == s[..i] + sub + s[i + |sub|..];
    }
    if before: string, after: string :| s == before + sub + after {
      assert OccursAt(s, sub, |before|);
    }
  }

  method PickLimiter(limits: set<string>, default: string, firstUrl: Option<string>) returns (choice: string)
    ensures MayPick(limits, default, firstUrl, choice)
    ensures choice in limits + {default}
  {
    choice := default;
    if firstUrl.Some? {
      var todo := limits;
      while todo != {}
        invariant todo <= limits
        invariant forall d :: d in limits && d !in todo ==> !Contains(firstUrl.value, d)
        decreases todo
      {
        var domain :| domain in todo;
        if Contains(firstUrl.value, domain) {
          return domain;
        }
        todo := todo - {domain};
      }
    }
  }

  /** The channel operations of one limiter; `Acquire` blocks until its precondition holds. */
  class Semaphore {
    const size: nat
    var used: nat

    constructor (n: nat)
      ensures size == n && used == 0
    {
      size, used := n, 0;
    }

    method Acquire()
      requires used < size
      modifies this
      ensures used == old(used) + 1 <= size
    {
      used := used + 1;
    }

    method Release()
      requires 0 < used <= size
      modifies this
      ensures used == old(used) - 1 < size
    {
      used := used - 1;
    }
  }

  /** How many workers are inside the limiter `l`. */
  function InsideCount(ws: seq<Worker>, l: string): nat {
    if ws == [] then 0
    else
      var w := ws[|ws| - 1];
      InsideCount(ws[..|ws| - 1], l) + if w.limiter == l && Inside(w) then 1 else 0
  }

  predicate WellFormed(r: Round) {
    && (forall i :: 0 <= i < |r.workers| ==> r.workers[i].limiter in r.channels)
    && (forall l :: l in r.channels ==> r.channels[l].size >= 1)
  }

  /** The start of a round: nobody has acquired anything. */
  predicate Fresh(r: Round) {
    && WellFormed(r)
    && (forall i :: 0 <= i < |r.workers| ==> r.workers[i].phase == Waiting)
    && (forall l :: l in r.channels ==> r.channels[l].used == 0)
  }

  predicate CanStep(r: Round, i: nat) {
    && i < |r.workers| && r.workers[i].limiter in r.channels
    && var ch := r.channels[r.workers[i].limiter];
       match r.workers[i].phase
       case Waiting => ch.used < ch.size
       case Releasing => ch.used > 0
       case Done => false
       case _ => true
  }

  function Step(r: Round, i: nat): Round
    requires CanStep(r, i)
  {
    var w := r.workers[i];
    var ch := r.channels[w.limiter];
    match w.phase
    case Waiting =>
      Round(r.channels[w.limiter := ch.(used := ch.used + 1)], r.workers[i := w.(phase := Checking)])
    case Checking => r.(workers := r.workers[i := w.(phase := Storing)])
    case Storing => r.(workers := r.workers[i := w.(phase := Releasing)])
    case Releasing =>
      Round(r.channels[w.limiter := ch.(used := ch.used - 1)], r.workers[i := w.(phase := Done)])
    case Done => r
  }

  // ----- Occupancy is the number of workers inside, never above capacity -----

  predicate Accounted(r: Round) {
    && WellFormed(r)
    && forall l :: l in r.channels ==> r.channels[l].used == InsideCount(r.workers, l) <= r.channels[l].size
  }

  lemma {:induction false} CountUpdate(ws: seq<Worker>, i: nat, w: Worker, l: string)
    requires i < |ws|
    ensures InsideCount(ws[i := w], l) ==
            InsideCount(ws, l) - (if ws[i].limiter == l && Inside(ws[i]) then 1 else 0)
            + if w.limiter == l && Inside(w) then 1 else 0
  {
    var n := |ws| - 1;
    if i == n {
      assert ws[i := w][..n] == ws[..n];
    } else {
      assert ws[i := w][..n] == ws[..n][i := w];
      CountUpdate(ws[..n], i, w, l);
    }
  }

  lemma AccountedStep(r: Round, i: nat)
    requires Accounted(r) && CanStep(r, i)
    ensures Accounted(Step(r, i))
  {
    forall l | l in r.channels
      ensures Step(r, i).channels[l].used == InsideCount(Step(r, i).workers, l) <= r.channels[l].size
    {
      CountUpdate(r.workers, i, Step(r, i).workers[i], l);
    }
  }

  lemma {:induction false} NobodyInside(ws: seq<Worker>, l: string)
    requires forall i :: 0 <= i < |ws| ==> ws[i].phase == Waiting
    ensures InsideCount(ws, l) == 0
  {
    if ws != [] {
      NobodyInside(ws[..|ws| - 1], l);
    }
  }

  /** A schedule names the worker that moves next. */
  predicate Schedules(r: Round, who: seq<nat>)
    decreases |who|
  {
    who == [] || (CanStep(r, who[0]) && Schedules(Step(r, who[0]), who[1..]))
  }

  function Run(r: Round, who: seq<nat>): Round
    requires Schedules(r, who)
    decreases |who|
  {
    if who == [] then r else Run(Step(r, who[0]), who[1..])
  }

  lemma {:induction false} AccountedRun(r: Round, who: seq<nat>)
    requires Accounted(r) && Schedules(r, who)
    ensures Accounted(Run(r, who))
    decreases |who|
  {
    if who != [] {
      AccountedStep(r, who[0]);
      AccountedRun(Step(r, who[0]), who[1..]);
    }
  }

  /** Under every interleaving and every choice of limiters, the workers between acquire and release are
      as many as the channel's occupied slots, and never more than its capacity. */
  lemma AlwaysAccounted(r: Round, who: seq<nat>)
    requires Fresh(r) && Schedules(r, who)
    ensures Accounted(Run(r, who))
  {
    forall l | l in r.channels ensures InsideCount(r.workers, l) == 0 {
      NobodyInside(r.workers, l);
    }
    AccountedRun(r, who);
  }

  // ----- No deadlock, and every schedule ends with all workers done -----

  predicate Finished(r: Round) {
    forall i :: 0 <= i < |r.workers| ==> r.workers[i].phase == Done
  }

  lemma {:induction false} SomebodyInside(ws: seq<Worker>, l: string) returns (i: nat)
    requires InsideCount(ws, l) > 0
    ensures i < |ws| && ws[i].limiter == l && Inside(ws[i])
  {
    var n := |ws| - 1;
    if ws[n].limiter == l && Inside(ws[n]) {
      i := n;
    } else {
      i := SomebodyInside(ws[..n], l);
    }
  }

  lemma {:induction false} InsideCounts(ws: seq<Worker>, i: nat)
    requires i < |ws| && Inside(ws[i])
    ensures InsideCount(ws, ws[i].limiter) > 0
  {
    if i < |ws| - 1 {
      InsideCounts(ws[..|ws| - 1], i);
    }
  }

  /** While a worker is unfinished, some worker can move: a worker inside can always go on, and a full
      channel has a worker inside. */
  lemma SomeoneCanStep(r: Round) returns (i: nat)
    requires Accounted(r) && !Finished(r)
    ensures CanStep(r, i)
  {
    i :| 0 <= i < |r.workers| && r.workers[i].phase != Done;
    var l := r.workers[i].limiter;
    if r.workers[i].phase == Waiting && r.channels[l].used >= r.channels[l].size {
      i := SomebodyInside(r.workers, l);
    }
    if Inside(r.workers[i]) {
      InsideCounts(r.workers, i);
    }
  }

  function ToGo(p: Phase): nat {
    match p
    case Waiting => 4
    case Checking => 3
    case Storing => 2
    case Releasing => 1
    case Done => 0
  }

  /** The steps the workers still have to take. */
  function Work(ws: seq<Worker>): nat {
    if ws == [] then 0 else Work(ws[..|ws| - 1]) + ToGo(ws[|ws| - 1].phase)
  }

  lemma {:induction false} WorkUpdate(ws: seq<Worker>, i: nat, w: Worker)
    requires i < |ws|
    ensures Work(ws[i := w]) == Work(ws) - ToGo(ws[i].phase) + ToGo(w.phase)
  {
    var n := |ws| - 1;
    if i == n {
      assert ws[i := w][..n] == ws[..n];
    } else {
      assert ws[i := w][..n] == ws[..n][i := w];
      WorkUpdate(ws[..n], i, w);
    }
  }

  lemma {:induction false} NoWork(ws: seq<Worker>)
    ensures Work(ws) <= 4 * |ws|
    ensures Work(ws) == 0 <==> forall i :: 0 <= i < |ws| ==> ws[i].phase == Done
  {
    if ws != [] {
      NoWork(ws[..|ws| - 1]);
    }
  }

  /** Every step does one unit of work, so a schedule's length is the work it has done. */
  lemma {:induction false} WorkRun(r: Round, who: seq<nat>)
    requires Schedules(r, who)
    ensures |who| + Work(Run(r, who).workers) == Work(r.workers)
    decreases |who|
  {
    if who != [] {
      WorkUpdate(r.workers, who[0], Step(r, who[0]).workers[who[0]]);
      WorkRun(Step(r, who[0]), who[1..]);
    }
  }

  /** `wg.Wait` returns: no schedule is longer than four steps per worker, and one that cannot be
      continued has finished every worker. */
  lemma WaitReturns(r: Round, who: seq<nat>)
    requires Fresh(r) && Schedules(r, who)
    ensures |who| <= 4 * |r.workers|
    ensures (forall i: nat :: !CanStep(Run(r, who), i)) <==> Finished(Run(r, who))
  {
    WorkRun(r, who);
    NoWork(r.workers);
    AlwaysAccounted(r, who);
    if !Finished(Run(r, who)) {
      var i := SomeoneCanStep(Run(r, who));
    }
  }

  // ----- The same on the channels themselves -----

  /** The workers of one round and the channels they share. */
  class Workers {
    const limiters: map<string, Semaphore>
    const choice: seq<string>
    var phases: seq<Phase>

    /** One limiter per name, and every worker is assigned to one of them. */
    ghost predicate Valid()
      reads this
    {
      && |phases| == |choice|
      && (forall i :: 0 <= i < |choice| ==> choice[i] in limiters)
      && (forall a, b :: a in limiters && b in limiters && a != b ==> limiters[a] != limiters[b])
    }

    function Now(): Round
      reads this, limiters.Values
      requires Valid()
    {
      var ps := phases;
      Round(map l | l in limiters :: Channel(limiters[l].size, limiters[l].used),
            seq(|ps|, i requires 0 <= i < |ps| && |ps| == |choice| => Worker(choice[i], ps[i])))
    }

    /** One worker per entry of `choice`, all of them still before `acquire`. */
    constructor (limiters: map<string, Semaphore>, choice: seq<string>)
      requires forall i :: 0 <= i < |choice| ==> choice[i] in limiters
      requires forall a, b :: a in limiters && b in limiters && a != b ==> limiters[a] != limiters[b]
      requires forall l :: l in limiters ==> limiters[l].size >= 1 && limiters[l].used == 0
      ensures Valid() && Fresh(Now()) && this.limiters == limiters && this.choice == choice
    {
      this.limiters, this.choice := limiters, choice;
      phases := seq(|choice|, i => Waiting);
    }

    /** The next thing worker `i` does. */
    method Advance(i: nat)
      requires Valid() && Accounted(Now()) && CanStep(Now(), i)
      modifies this, limiters[choice[i]]
      ensures Valid() && Now() == Step(old(Now()), i)
    {
      var lim := limiters[choice[i]];
      ghost var r := Now();
      assert r.workers[i] == Worker(choice[i], phases[i]);
      assert r.channels[choice[i]] == Channel(lim.size, lim.used);
      match phases[i]
      case Waiting =>
        lim.Acquire();
        phases := phases[i := Checking];
      case Checking => phases := phases[i := Storing];
      case Storing => phases := phases[i := Releasing];
      case Releasing =>
        lim.Release();
        phases := phases[i := Done];
      case Done => assert false;
    }

    /** Lets the workers run, whichever can move next, until none can: then all are done, and every limiter
        is free again. */
    method Wait()
      requires Valid() && Fresh(Now())
      modifies this, limiters.Values
      ensures Valid() && Finished(Now())
      ensures forall l :: l in limiters ==> limiters[l].used == 0
    {
      var r := Now();
      AlwaysAccounted(r, []);
      while !Finished(r)
        invariant Valid() && r == Now() && Accounted(r)
        decreases Work(r.workers)
      {
        ghost var who := SomeoneCanStep(r);
        var i: nat :| i < |r.workers| && CanStep(r, i);
        StepWorks(r, i);
        Advance(i);
        r := Now();
      }
      AllFree(r);
      assert forall l :: l in limiters ==> l in r.channels && r.channels[l].used == limiters[l].used;
    }
  }

  lemma StepWorks(r: Round, i: nat)
    requires Accounted(r) && CanStep(r, i)
    ensures Accounted(Step(r, i)) && Work(Step(r, i).workers) < Work(r.workers)
  {
    AccountedStep(r, i);
    WorkUpdate(r.workers, i, Step(r, i).workers[i]);
  }

  lemma AllFree(r: Round)
    requires Accounted(r) && Finished(r)
    ensures forall l :: l in r.channels ==> r.channels[l].used == 0
  {
    forall l | l in r.channels ensures InsideCount(r.workers, l) == 0 {
      NobodyLeft(r.workers, l);
    }
  }

  lemma {:induction false} NobodyLeft(ws: seq<Worker>, l: string)
    requires forall i :: 0 <= i < |ws| ==> ws[i].phase == Done
    ensures InsideCount(ws, l) == 0
  {
    if ws != [] {
      NobodyLeft(ws[..|ws| - 1], l);
    }
  }
}

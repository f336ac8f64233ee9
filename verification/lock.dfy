/** Any number of processes on one home.  Every command that changes the home takes the home lock, then
    loads, computes, stores its secret, compares the file with what it loaded, publishes, and deletes what
    became stale, or withdraws its secret; it may stop anywhere, which frees the lock.  A writer that
    ignores the lock may replace the file between any two of these steps. */
module Processes {
  import opened Wrappers
  import opened CredentialKeys
  import opened Configuration
  import opened HomeState
  import opened Ledger
  import opened ServerCommands
  import opened Sessions

  datatype Job = Job(command: Command, answers: Answers, generation: string)

  /** A command with what it loaded and what it aims at. */
  datatype Work = Work(job: Job, base: Option<Doc>, next: Config)

  datatype Phase =
    | Outside
    | Holding(job: Job)
    | Loaded(job: Job, base: Option<Doc>)
    | Computed(work: Work)
    | Ready(work: Work)
    | Checked(work: Work)
    | Unsaved(work: Work)
    | Published(work: Work)
    | Stopped

  datatype Event =
    | Acquire(p: nat, job: Job)
    | LoadFile(p: nat)
    | Compute(p: nat, next: Config)
    | StoreSecret(p: nat, password: string, confirmed: bool, happened: bool)
    | Check(p: nat)
    | Publish(p: nat, told: bool)
    | GiveUp(p: nat)
    | Withdraw(p: nat, happened: bool)
    | DeleteStale(p: nat, entry: Entry, happened: bool)
    | Leave(p: nat)
    | Foreign(doc: Option<Doc>)

  /** `truthful` as in a home: only if it is false, a publication may be reported as a failure. */
  datatype State = State(disk: Option<Doc>, store: Store, truthful: bool, holder: Option<nat>, phases: seq<Phase>) {
    function At(p: nat): Phase { if p < |phases| then phases[p] else Outside }

    function Put(p: nat, phase: Phase): State
      requires p < |phases|
    {
      this.(phases := phases[p := phase])
    }
  }

  function IssuedBy(namespace: string, work: Work): Option<Issue> {
    IssueOf(namespace, ConfigOf(work.base), work.job.command, work.job.generation)
  }

  /** The configuration that a command may aim at, and the secret it may store, when and where it computes. */
  ghost predicate MayCompute(namespace: string, s: State, work: Work) {
    && Loads(namespace, work.base)
    && Accepts(ConfigOf(work.base), work.job.command, work.job.answers)
    && Aims(namespace, ConfigOf(work.base), work.job.command, work.job.generation, work.next)
    && IsHex(work.job.generation)
    && UnusedGeneration(namespace, ConfigOf(work.base), s.store, work.job.generation)
    && UnusedGeneration(namespace, ConfigOf(s.disk), s.store, work.job.generation)
  }

  ghost predicate IsStale(work: Work, entry: Entry) {
    Refers(ConfigOf(work.base), entry) && !Refers(work.next, entry)
  }

  ghost predicate Step(namespace: string, s: State, e: Event, t: State) {
    match e
    case Acquire(p, job) =>
      p < |s.phases| && s.At(p) == Outside && s.holder == None && t == s.Put(p, Holding(job)).(holder := Some(p))
    case LoadFile(p) =>
      p < |s.phases| && s.At(p).Holding? && s.disk != Some(Torn) && t == s.Put(p, Loaded(s.At(p).job, s.disk))
    case Compute(p, next) =>
      && p < |s.phases| && s.At(p).Loaded?
      && var work := Work(s.At(p).job, s.At(p).base, next);
      && MayCompute(namespace, s, work)
      && t == s.Put(p, if IssuedBy(namespace, work).Some? then Computed(work) else Ready(work))
    case StoreSecret(p, password, confirmed, happened) =>
      && p < |s.phases| && s.At(p).Computed? && IssuedBy(namespace, s.At(p).work).Some?
      && var entry := IssuedBy(namespace, s.At(p).work).value.entry;
      t == s.Put(p, if confirmed then Ready(s.At(p).work) else Stopped)
            .(store := if confirmed || happened then s.store[entry := password] else s.store)
    case Check(p) =>
      p < |s.phases| && s.At(p).Ready? && s.disk == s.At(p).work.base && t == s.Put(p, Checked(s.At(p).work))
    case Publish(p, told) =>
      && p < |s.phases| && s.At(p).Checked? && (told || !s.truthful)
      && t == s.Put(p, if told then Published(s.At(p).work) else Unsaved(s.At(p).work))
               .(disk := Some(Whole(s.At(p).work.next)))
    case GiveUp(p) => p < |s.phases| && (s.At(p).Ready? || s.At(p).Checked?) && t == s.Put(p, Unsaved(s.At(p).work))
    case Withdraw(p, happened) =>
      && p < |s.phases| && s.At(p).Unsaved? && IssuedBy(namespace, s.At(p).work).Some?
      && var entry := IssuedBy(namespace, s.At(p).work).value.entry;
      t == s.Put(p, Stopped).(store := if happened then s.store - {entry} else s.store)
    case DeleteStale(p, entry, happened) =>
      && p < |s.phases| && s.At(p).Published? && IsStale(s.At(p).work, entry)
      && t == s.(store := if happened then s.store - {entry} else s.store)
    case Leave(p) => p < |s.phases| && s.At(p) != Outside && t == s.Put(p, Outside).(holder := None)
    case Foreign(doc) => t == s.(disk := doc)
  }

  ghost predicate Initial(s: State) {
    s.holder == None && forall p | 0 <= p < |s.phases| :: s.phases[p] == Outside
  }

  ghost predicate IsRun(namespace: string, states: seq<State>, events: seq<Event>) {
    && |states| == |events| + 1
    && Initial(states[0])
    && forall i | 0 <= i < |events| :: Step(namespace, states[i], events[i], states[i + 1])
  }

  lemma StepAt(namespace: string, states: seq<State>, events: seq<Event>, i: nat)
    requires IsRun(namespace, states, events) && i < |events|
    ensures Step(namespace, states[i], events[i], states[i + 1])
  {
  }

  lemma RunStart(namespace: string, states: seq<State>, events: seq<Event>)
    requires IsRun(namespace, states, events)
    ensures |states| == |events| + 1 && Initial(states[0]) && forall p: nat :: states[0].At(p) == Outside
  {
    hide Step;
  }

  /** The lock is held by exactly the process that is inside. */
  ghost predicate Exclusive(s: State) {
    forall p: nat :: s.At(p) != Outside <==> s.holder == Some(p)
  }

  lemma ExclusiveStep(namespace: string, s: State, e: Event, t: State)
    requires Exclusive(s) && Step(namespace, s, e, t)
    ensures Exclusive(t)
  {
    hide MayCompute, IssuedBy, IsStale;
  }

  lemma StartsExclusive(s: State)
    requires Initial(s)
    ensures Exclusive(s)
  {
  }

  lemma {:induction false} MutualExclusion(namespace: string, states: seq<State>, events: seq<Event>, i: nat)
    requires IsRun(namespace, states, events) && i <= |events|
    ensures Exclusive(states[i])
  {
    hide *;
    RunStart(namespace, states, events);
    if i == 0 {
      StartsExclusive(states[0]);
    } else {
      MutualExclusion(namespace, states, events, i - 1);
      StepAt(namespace, states, events, i - 1);
      ExclusiveStep(namespace, states[i - 1], events[i - 1], states[i]);
    }
  }

  predicate Prepares(phase: Phase) { phase.Loaded? || phase.Computed? || phase.Ready? }

  function BaseOf(phase: Phase): Option<Doc>
    requires Prepares(phase)
  {
    if phase.Loaded? then phase.base else phase.work.base
  }

  ghost predicate AimsAt(namespace: string, work: Work) {
    Aims(namespace, ConfigOf(work.base), work.job.command, work.job.generation, work.next)
  }

  /** What a step does to the file, and to one process. */
  lemma StepFacts(namespace: string, s: State, e: Event, t: State, p: nat)
    requires Step(namespace, s, e, t)
    ensures e.Publish? ==> s.At(e.p).Checked? && t.disk == Some(Whole(s.At(e.p).work.next))
    ensures t.disk != s.disk ==> e.Publish? || e.Foreign?
    ensures Prepares(t.At(p)) && !Prepares(s.At(p)) ==>
      e == LoadFile(p) && t.At(p).Loaded? && t.At(p).base == s.disk && s.disk != Some(Torn)
    ensures Prepares(t.At(p)) && Prepares(s.At(p)) ==>
      && BaseOf(t.At(p)) == BaseOf(s.At(p))
      && (!t.At(p).Loaded? ==> AimsAt(namespace, t.At(p).work) || (!s.At(p).Loaded? && t.At(p).work == s.At(p).work))
  {
    hide IssuedBy, IsStale, Aims, UnusedGeneration, Accepts, Loads;
  }

  // ---------- What a publication replaces ----------

  /** The state of a process from one moment up to another. */
  ghost predicate Stays(states: seq<State>, p: nat, phase: Phase, from: nat, to: nat)
    requires to < |states|
  {
    forall k: nat | from <= k <= to :: states[k].At(p) == phase
  }

  lemma StaysMore(states: seq<State>, p: nat, phase: Phase, from: nat, to: nat)
    requires 0 < to < |states| && states[to].At(p) == phase
    requires from < to ==> Stays(states, p, phase, from, to - 1)
    ensures Stays(states, p, phase, from, to)
  {
  }

  lemma CheckedStep(namespace: string, s: State, e: Event, t: State, p: nat)
    requires Step(namespace, s, e, t) && t.At(p).Checked? && !s.At(p).Checked?
    ensures e == Check(p) && s.At(p) == Ready(t.At(p).work) && s.disk == t.At(p).work.base
  {
    hide MayCompute, IssuedBy, IsStale;
  }

  lemma CheckedStays(namespace: string, s: State, e: Event, t: State, p: nat)
    requires Step(namespace, s, e, t) && t.At(p).Checked? && s.At(p).Checked?
    ensures t.At(p) == s.At(p) && !Publishes(e, p)
  {
    hide MayCompute, IssuedBy, IsStale;
  }

  /** A process that has passed its check did so at some moment at which the file was what it had loaded. */
  lemma {:induction false} CheckedOnce(namespace: string, states: seq<State>, events: seq<Event>, p: nat, i: nat)
    returns (c: nat)
    requires IsRun(namespace, states, events) && i <= |events| && states[i].At(p).Checked?
    ensures c < i && events[c] == Check(p)
    ensures states[c].At(p) == Ready(states[i].At(p).work) && states[c].disk == states[i].At(p).work.base
    ensures Stays(states, p, states[i].At(p), c + 1, i)
  {
    hide *;
    RunStart(namespace, states, events);
    assert i > 0;
    StepAt(namespace, states, events, i - 1);
    if states[i - 1].At(p).Checked? {
      c := CheckedOnce(namespace, states, events, p, i - 1);
      CheckedStays(namespace, states[i - 1], events[i - 1], states[i], p);
    } else {
      c := i - 1;
      CheckedStep(namespace, states[i - 1], events[i - 1], states[i], p);
    }
    StaysMore(states, p, states[i].At(p), c + 1, i);
  }

  /** The process is inside from one moment up to another. */
  ghost predicate Inside(states: seq<State>, p: nat, from: nat, to: nat)
    requires to < |states|
  {
    forall k: nat | from <= k <= to :: states[k].At(p) != Outside
  }

  lemma InsideMore(states: seq<State>, p: nat, from: nat, to: nat)
    requires 0 < to < |states| && states[to].At(p) != Outside && (from < to ==> Inside(states, p, from, to - 1))
    ensures Inside(states, p, from, to)
  {
  }

  lemma PreparesInside(phase: Phase)
    ensures Prepares(phase) ==> phase != Outside
    ensures phase.Holding? || phase.Ready? || phase.Checked? ==> phase != Outside
  {
  }

  lemma LoadsInside(namespace: string, s: State, p: nat, t: State)
    requires Step(namespace, s, LoadFile(p), t)
    ensures s.At(p) != Outside
  {
    hide MayCompute, IssuedBy, IsStale;
  }

  /** A process that is about to check computed from what it loaded, while it held the lock. */
  lemma {:induction false} LoadedOnce(namespace: string, states: seq<State>, events: seq<Event>, p: nat, i: nat)
    returns (l: nat)
    requires IsRun(namespace, states, events) && i <= |events| && Prepares(states[i].At(p))
    ensures l < i && events[l] == LoadFile(p) && states[l].disk == BaseOf(states[i].At(p))
    ensures states[l].disk != Some(Torn)
    ensures !states[i].At(p).Loaded? ==> AimsAt(namespace, states[i].At(p).work)
    ensures Inside(states, p, l, i)
  {
    hide *;
    RunStart(namespace, states, events);
    PreparesInside(states[i].At(p));
    assert i > 0;
    StepAt(namespace, states, events, i - 1);
    StepFacts(namespace, states[i - 1], events[i - 1], states[i], p);
    if Prepares(states[i - 1].At(p)) {
      l := LoadedOnce(namespace, states, events, p, i - 1);
    } else {
      l := i - 1;
      BaseOfLoaded(states[i].At(p));
      LoadsInside(namespace, states[l], p, states[i]);
      InsideAt(states, p, l);
    }
    InsideMore(states, p, l, i);
  }

  lemma BaseOfLoaded(phase: Phase)
    requires Prepares(phase) && phase.Loaded?
    ensures BaseOf(phase) == phase.base
  {
  }

  lemma InsideAt(states: seq<State>, p: nat, i: nat)
    requires i < |states| && states[i].At(p) != Outside
    ensures Inside(states, p, i, i)
  {
  }

  /** The process publishes in this event. */
  predicate Publishes(e: Event, p: nat) { e.Publish? && e.p == p }

  lemma QuietStep(namespace: string, s: State, e: Event, t: State, p: nat)
    requires Exclusive(s) && Step(namespace, s, e, t) && s.At(p) != Outside
    ensures t.disk == s.disk || Publishes(e, p) || e.Foreign?
  {
    hide MayCompute, IssuedBy, IsStale;
  }

  lemma InsideEarlier(states: seq<State>, p: nat, from: nat, to: nat)
    requires from < to < |states| && Inside(states, p, from, to)
    ensures Inside(states, p, from, to - 1) && states[to - 1].At(p) != Outside
  {
  }

  /** While one process is inside, the file is changed by that process or by a foreign writer. */
  lemma {:induction false} QuietWhileInside(namespace: string, states: seq<State>, events: seq<Event>, p: nat,
                                            from: nat, to: nat)
    requires IsRun(namespace, states, events) && from <= to <= |events|
    requires Inside(states, p, from, to)
    requires forall k: nat | from <= k < to :: !Publishes(events[k], p) && !events[k].Foreign?
    ensures states[to].disk == states[from].disk
  {
    hide *;
    RunStart(namespace, states, events);
    if from < to {
      InsideEarlier(states, p, from, to);
      QuietWhileInside(namespace, states, events, p, from, to - 1);
      MutualExclusion(namespace, states, events, to - 1);
      StepAt(namespace, states, events, to - 1);
      QuietStep(namespace, states[to - 1], events[to - 1], states[to], p);
    }
  }

  /** What a publication replaces: what its command was computed from, unless a foreign write fell after
      the command's own check.  A foreign change that was there at the check is never overwritten. */
  lemma PublicationReplacesItsBase(namespace: string, states: seq<State>, events: seq<Event>, p: nat, i: nat)
    returns (l: nat, c: nat)
    requires IsRun(namespace, states, events) && i < |events| && Publishes(events[i], p)
    ensures l < c < i && events[l] == LoadFile(p) && events[c] == Check(p)
    ensures states[c].disk == states[l].disk
    ensures states[i].At(p).Checked? && states[i + 1].disk == Some(Whole(states[i].At(p).work.next))
    ensures states[i].At(p).work.base == states[l].disk && AimsAt(namespace, states[i].At(p).work)
    ensures states[i].disk == states[l].disk || exists j: nat | c < j < i :: events[j].Foreign?
    ensures forall k: nat | l <= k <= i :: states[k].holder == Some(p)
  {
    RunStart(namespace, states, events);
    hide Step, IsRun, AimsAt, Publishes, Prepares, BaseOf, Stays, Inside;
    StepAt(namespace, states, events, i);
    PublisherChecked(namespace, states[i], events[i], states[i + 1], p);
    c := CheckedOnce(namespace, states, events, p, i);
    ReadyPrepares(states[c].At(p));
    l := LoadedOnce(namespace, states, events, p, c);
    StepAt(namespace, states, events, c);
    InsideThrough(states, p, l, c, i);
    HoldsThrough(namespace, states, events, p, l, i);
    CheckKeepsDisk(namespace, states[c], p, states[c + 1]);
    if forall j: nat | c < j < i :: !events[j].Foreign? {
      NoSecondPublish(namespace, states, events, p, c, i);
      InsideLater(states, p, l, c + 1, i);
      QuietWhileInside(namespace, states, events, p, c + 1, i);
    }
  }

  lemma PublisherChecked(namespace: string, s: State, e: Event, t: State, p: nat)
    requires Step(namespace, s, e, t)
    ensures Publishes(e, p) ==> s.At(p).Checked? && t.disk == Some(Whole(s.At(p).work.next))
  {
    hide MayCompute, IssuedBy, IsStale;
  }

  lemma ReadyPrepares(phase: Phase)
    requires phase.Ready?
    ensures Prepares(phase) && BaseOf(phase) == phase.work.base
  {
  }

  lemma InsideThrough(states: seq<State>, p: nat, l: nat, c: nat, i: nat)
    requires l <= c < i < |states| && Inside(states, p, l, c)
    requires states[i].At(p) != Outside && Stays(states, p, states[i].At(p), c + 1, i)
    ensures Inside(states, p, l, i)
  {
  }

  lemma InsideLater(states: seq<State>, p: nat, l: nat, from: nat, i: nat)
    requires l <= from <= i < |states| && Inside(states, p, l, i)
    ensures Inside(states, p, from, i)
  {
  }

  lemma HoldsThrough(namespace: string, states: seq<State>, events: seq<Event>, p: nat, l: nat, i: nat)
    requires IsRun(namespace, states, events) && i <= |events| && |states| == |events| + 1 && Inside(states, p, l, i)
    ensures forall k: nat | l <= k <= i :: states[k].holder == Some(p)
  {
    hide Step, IsRun;
    forall k: nat | l <= k <= i ensures states[k].holder == Some(p) {
      assert states[k].At(p) != Outside;
      MutualExclusion(namespace, states, events, k);
    }
  }

  lemma CheckKeepsDisk(namespace: string, s: State, p: nat, t: State)
    requires Step(namespace, s, Check(p), t)
    ensures t.disk == s.disk
  {
  }

  lemma NoSecondPublish(namespace: string, states: seq<State>, events: seq<Event>, p: nat, c: nat, i: nat)
    requires IsRun(namespace, states, events) && c < i <= |events| && |states| == |events| + 1
    requires states[i].At(p).Checked? && Stays(states, p, states[i].At(p), c + 1, i)
    ensures forall k: nat | c < k < i :: !Publishes(events[k], p)
  {
    hide Step, IsRun, Publishes;
    forall k: nat | c < k < i ensures !Publishes(events[k], p) {
      StepAt(namespace, states, events, k);
      assert states[k].At(p) == states[k + 1].At(p);
      CheckedStays(namespace, states[k], events[k], states[k + 1], p);
    }
  }

  /** The process has not published its work, and cannot without loading again. */
  predicate Blocked(phase: Phase, work: Work) { phase in {Ready(work), Unsaved(work), Stopped} }

  /** A process that finds the file changed since it loaded it does not publish in this turn. */
  lemma {:induction false} StaleCheckBlocks(namespace: string, states: seq<State>, events: seq<Event>, p: nat, i: nat,
                                            k: nat, work: Work)
    requires IsRun(namespace, states, events) && i <= k < |events|
    requires states[i].At(p) == Ready(work)
    requires forall j | i <= j <= k :: states[j].disk != work.base
    requires forall j | i <= j < k :: events[j] != Leave(p)
    ensures !Publishes(events[k], p) && Blocked(states[k].At(p), work)
  {
    hide *;
    RunStart(namespace, states, events);
    StartsBlocked(work);
    if k > i {
      StaleCheckBlocks(namespace, states, events, p, i, k - 1, work);
      StepAt(namespace, states, events, k - 1);
      StaleStep(namespace, states[k - 1], events[k - 1], states[k], p, work);
    }
    StepAt(namespace, states, events, k);
    BlockedStep(namespace, states[k], events[k], states[k + 1], p, work);
  }

  lemma StartsBlocked(work: Work)
    ensures Blocked(Ready(work), work)
  {
  }

  lemma BlockedStep(namespace: string, s: State, e: Event, t: State, p: nat, work: Work)
    requires Step(namespace, s, e, t) && Blocked(s.At(p), work)
    ensures !Publishes(e, p)
  {
    hide MayCompute, IssuedBy, IsStale;
  }

  lemma StaleStep(namespace: string, s: State, e: Event, t: State, p: nat, work: Work)
    requires Step(namespace, s, e, t) && Blocked(s.At(p), work)
    requires s.disk != work.base && e != Leave(p)
    ensures Blocked(t.At(p), work)
  {
    hide MayCompute, IssuedBy, IsStale;
  }

  // ---------- Serial equivalence ----------

  /** The published commands, in order. */
  function Publications(states: seq<State>, events: seq<Event>, n: nat): seq<Work>
    requires n <= |events| && |states| == |events| + 1
  {
    if n == 0 then []
    else
      var earlier := Publications(states, events, n - 1);
      var e := events[n - 1];
      if e.Publish? && states[n - 1].At(e.p).Checked? then earlier + [states[n - 1].At(e.p).work] else earlier
  }

  /** These commands run one after the other lead from one document to another. */
  ghost predicate Serial(namespace: string, first: Option<Doc>, done: seq<Work>, last: Option<Doc>)
    decreases |done|
  {
    if done == [] then first == last
    else
      var final := done[|done| - 1];
      last == Some(Whole(final.next)) && AimsAt(namespace, final)
      && Serial(namespace, first, done[..|done| - 1], final.base)
  }

  /** No lost update: without foreign writers, any interleaving of any number of processes, each of which
      may stop anywhere, leaves what its published commands leave when run one after the other. */
  lemma {:induction false} NoLostUpdate(namespace: string, states: seq<State>, events: seq<Event>, n: nat)
    requires IsRun(namespace, states, events) && n <= |events|
    requires forall k: nat | k < n :: !events[k].Foreign?
    ensures Serial(namespace, states[0].disk, Publications(states, events, n), states[n].disk)
  {
    hide *;
    RunStart(namespace, states, events);
    if n == 0 {
      NothingPublished(namespace, states, events);
    } else {
      NoLostUpdate(namespace, states, events, n - 1);
      StepAt(namespace, states, events, n - 1);
      StepFacts(namespace, states[n - 1], events[n - 1], states[n], 0);
      PublicationsStep(states, events, n);
      if events[n - 1].Publish? {
        var p := events[n - 1].p;
        Publisher(events[n - 1]);
        var l, c := PublicationReplacesItsBase(namespace, states, events, p, n - 1);
        SerialMore(namespace, states[0].disk, Publications(states, events, n - 1), states[n - 1].At(p).work);
      }
    }
  }

  lemma NothingPublished(namespace: string, states: seq<State>, events: seq<Event>)
    requires |states| == |events| + 1
    ensures Publications(states, events, 0) == [] && Serial(namespace, states[0].disk, [], states[0].disk)
  {
  }

  lemma Publisher(e: Event)
    requires e.Publish?
    ensures Publishes(e, e.p)
  {
  }

  lemma PublicationsStep(states: seq<State>, events: seq<Event>, n: nat)
    requires 0 < n <= |events| && |states| == |events| + 1
    ensures Publications(states, events, n) ==
      if events[n - 1].Publish? && states[n - 1].At(events[n - 1].p).Checked?
      then Publications(states, events, n - 1) + [states[n - 1].At(events[n - 1].p).work]
      else Publications(states, events, n - 1)
  {
  }

  lemma SerialMore(namespace: string, first: Option<Doc>, done: seq<Work>, work: Work)
    requires Serial(namespace, first, done, work.base) && AimsAt(namespace, work)
    ensures Serial(namespace, first, done + [work], Some(Whole(work.next)))
  {
    hide AimsAt;
    assert (done + [work])[..|done|] == done;
  }

  // ---------- No dangling reference at any moment ----------

  ghost predicate DocRefers(doc: Option<Doc>, entry: Entry) {
    doc.Some? && doc.value.Whole? && Refers(doc.value.config, entry)
  }

  /** The document does not refer to the secret that the command issues. */
  ghost predicate Spares(namespace: string, doc: Option<Doc>, work: Work) {
    IssuedBy(namespace, work).Some? ==> !DocRefers(doc, IssuedBy(namespace, work).value.entry)
  }

  ghost predicate SparesStale(doc: Option<Doc>, work: Work) {
    forall e :: IsStale(work, e) ==> !DocRefers(doc, e)
  }

  /** Nothing that the process may still delete is referred to. */
  ghost predicate Untouched(namespace: string, doc: Option<Doc>, phase: Phase) {
    match phase
    case Computed(work) => Spares(namespace, doc, work)
    case Ready(work) => Spares(namespace, doc, work)
    case Checked(work) => Spares(namespace, doc, work)
    case Unsaved(work) => Spares(namespace, doc, work)
    case Published(work) => SparesStale(doc, work)
    case _ => true
  }

  /** What the process goes by is in the store, and what it aims at can be published. */
  ghost predicate Backed(namespace: string, store: Store, phase: Phase) {
    match phase
    case Loaded(_, base) => base != Some(Torn) && Covered(ConfigOf(base), store)
    case Computed(work) => Workable(namespace, store, work)
    case Ready(work) => Workable(namespace, store, work) && HasIssued(namespace, store, work)
    case Checked(work) => Workable(namespace, store, work) && HasIssued(namespace, store, work)
    case _ => true
  }

  ghost predicate Workable(namespace: string, store: Store, work: Work) {
    && Covered(ConfigOf(work.base), store) && Loadable(namespace, work.next)
    && Derived(ConfigOf(work.base), work.next, IssuedBy(namespace, work))
    && IssuedFor(namespace, ConfigOf(work.base), IssuedBy(namespace, work))
  }

  ghost predicate HasIssued(namespace: string, store: Store, work: Work) {
    IssuedBy(namespace, work).Some? ==> IssuedBy(namespace, work).value.entry in store
  }

  /** What holds of the home at every moment. */
  ghost predicate Sound(namespace: string, s: State) {
    && Consistent(namespace, s.disk, s.store)
    && forall p: nat :: Untouched(namespace, s.disk, s.At(p)) && Backed(namespace, s.store, s.At(p))
  }

  /** A foreign write that may be borne: it loads, refers to nothing missing, and to nothing that the process
      inside has issued or is about to delete. */
  ghost predicate Harmless(namespace: string, s: State, doc: Option<Doc>) {
    Consistent(namespace, doc, s.store) && forall p: nat :: Untouched(namespace, doc, s.At(p))
  }

  /** The event keeps to what can be relied on: a publication that goes unseen has no secret behind it, and
      foreign writes are harmless. */
  ghost predicate Reliable(namespace: string, s: State, e: Event) {
    && (e.Publish? && !e.told && s.At(e.p).Checked? ==> IssuedBy(namespace, s.At(e.p).work).None?)
    && (e.Foreign? ==> Harmless(namespace, s, e.doc))
  }

  lemma ComputedIsBacked(namespace: string, s: State, work: Work)
    requires MayCompute(namespace, s, work) && Covered(ConfigOf(work.base), s.store)
    ensures Workable(namespace, s.store, work) && Spares(namespace, s.disk, work)
  {
    AcceptedIsPlanned(namespace, ConfigOf(work.base), s.disk, s.store, work.job.command, work.job.answers,
                      work.job.generation, work.next);
    hide EntryAt, Aims, Accepts, UnusedGeneration, IssueOf, Loadable, Derived, IssuedFor;
  }

  /** What is published is covered, and its successor keeps what it needs. */
  lemma PublishedIsCovered(namespace: string, store: Store, work: Work)
    requires Workable(namespace, store, work) && HasIssued(namespace, store, work)
    ensures Consistent(namespace, Some(Whole(work.next)), store)
    ensures SparesStale(Some(Whole(work.next)), work)
    ensures IssuedBy(namespace, work).None? ==> Spares(namespace, Some(Whole(work.next)), work)
  {
    hide EntryAt, IssueOf, Loadable, Owned;
  }

  lemma MoreStored(namespace: string, store: Store, entry: Entry, password: string, doc: Option<Doc>, phase: Phase)
    ensures Safe(doc, store) ==> Safe(doc, store[entry := password])
    ensures Backed(namespace, store, phase) ==> Backed(namespace, store[entry := password], phase)
  {
    hide EntryAt, Loadable, Derived, IssuedFor, IssueOf;
  }

  lemma LessStored(doc: Option<Doc>, store: Store, entry: Entry)
    requires Safe(doc, store) && !DocRefers(doc, entry)
    ensures Safe(doc, store - {entry})
  {
    hide EntryAt;
  }

  /** With store effects as steps of their own: at every moment of every run in which each event is reliable,
      the published file loads, refers to nothing missing, and nothing that is about to be deleted. */
  lemma {:induction false} SafeAtEveryMoment(namespace: string, states: seq<State>, events: seq<Event>, i: nat)
    requires IsRun(namespace, states, events) && i <= |events|
    requires Consistent(namespace, states[0].disk, states[0].store)
    requires forall k | 0 <= k < i :: Reliable(namespace, states[k], events[k])
    ensures Sound(namespace, states[i])
  {
    hide Sound, Consistent, Step, Reliable, Exclusive;
    if i == 0 {
      StartsSound(namespace, states[0]);
    } else {
      SafeAtEveryMoment(namespace, states, events, i - 1);
      MutualExclusion(namespace, states, events, i - 1);
      StepAt(namespace, states, events, i - 1);
      StepKeepsSound(namespace, states[i - 1], events[i - 1], states[i]);
    }
  }

  lemma StartsSound(namespace: string, s: State)
    requires Initial(s) && Consistent(namespace, s.disk, s.store)
    ensures Sound(namespace, s)
  {
    hide Consistent;
    assert forall p: nat :: s.At(p) == Outside;
  }

  /** A change at one process, the others being outside. */
  lemma OnlyInside(namespace: string, s: State, p: nat, t: State)
    requires Exclusive(s) && (s.holder == None || s.holder == Some(p))
    requires forall q: nat | q != p :: t.At(q) == s.At(q)
    requires Consistent(namespace, t.disk, t.store) && Untouched(namespace, t.disk, t.At(p))
    requires Backed(namespace, t.store, t.At(p))
    ensures Sound(namespace, t)
  {
    hide Consistent;
    assert forall q: nat | q != p :: t.At(q) == Outside;
  }

  lemma SafeIsCovered(doc: Option<Doc>, store: Store)
    requires Safe(doc, store)
    ensures doc != Some(Torn) && Covered(ConfigOf(doc), store)
  {
  }

  lemma ComputeKeepsSound(namespace: string, s: State, p: nat, next: Config, t: State)
    requires Sound(namespace, s) && Exclusive(s) && Step(namespace, s, Compute(p, next), t)
    ensures Sound(namespace, t)
  {
    hide IssuedBy, MayCompute, Workable, Spares, Consistent;
    ComputedIsBacked(namespace, s, Work(s.At(p).job, s.At(p).base, next));
    NothingIssued(namespace, s.store, Work(s.At(p).job, s.At(p).base, next));
    OnlyInside(namespace, s, p, t);
  }

  lemma NothingIssued(namespace: string, store: Store, work: Work)
    ensures IssuedBy(namespace, work).None? ==> HasIssued(namespace, store, work)
  {
  }

  lemma StoreKeepsSound(namespace: string, s: State, p: nat, password: string, confirmed: bool, happened: bool,
                        t: State)
    requires Sound(namespace, s) && Exclusive(s) && Step(namespace, s, StoreSecret(p, password, confirmed, happened), t)
    ensures Sound(namespace, t)
  {
    hide IssuedBy, Workable, Spares, Safe, Loads;
    var work := s.At(p).work;
    MoreStored(namespace, s.store, IssuedBy(namespace, work).value.entry, password, s.disk, s.At(p));
    OnlyInside(namespace, s, p, t);
  }

  lemma PublishKeepsSound(namespace: string, s: State, p: nat, told: bool, t: State)
    requires Sound(namespace, s) && Exclusive(s) && Step(namespace, s, Publish(p, told), t)
    requires Reliable(namespace, s, Publish(p, told))
    ensures Sound(namespace, t)
  {
    hide IssuedBy, Workable, HasIssued, Spares, SparesStale, Consistent;
    PublishedIsCovered(namespace, s.store, s.At(p).work);
    OnlyInside(namespace, s, p, t);
  }

  lemma DeleteKeepsSound(namespace: string, s: State, e: Event, t: State)
    requires Sound(namespace, s) && Exclusive(s) && Step(namespace, s, e, t) && (e.Withdraw? || e.DeleteStale?)
    ensures Sound(namespace, t)
  {
    hide IssuedBy, Workable, HasIssued, Safe, Loads, DocRefers, IsStale;
    LessStored(s.disk, s.store, if e.Withdraw? then IssuedBy(namespace, s.At(e.p).work).value.entry else e.entry);
    OnlyInside(namespace, s, e.p, t);
  }

  lemma ForeignKeepsSound(namespace: string, s: State, doc: Option<Doc>, t: State)
    requires Sound(namespace, s) && t == s.(disk := doc) && Harmless(namespace, s, doc)
    ensures Sound(namespace, t)
  {
    hide Consistent, Untouched, Backed;
    assert forall p: nat :: t.At(p) == s.At(p);
  }

  lemma StepKeepsSound(namespace: string, s: State, e: Event, t: State)
    requires Sound(namespace, s) && Exclusive(s) && Step(namespace, s, e, t) && Reliable(namespace, s, e)
    ensures Sound(namespace, t)
  {
    match e {
      case Compute(p, next) => hide *; ComputeKeepsSound(namespace, s, p, next, t);
      case StoreSecret(p, password, confirmed, happened) =>
        hide *;
        StoreKeepsSound(namespace, s, p, password, confirmed, happened, t);
      case Publish(p, told) => hide *; PublishKeepsSound(namespace, s, p, told, t);
      case Withdraw(_, _) => hide *; DeleteKeepsSound(namespace, s, e, t);
      case DeleteStale(_, _, _) => hide *; DeleteKeepsSound(namespace, s, e, t);
      case Foreign(doc) => ForeignKeepsSound(namespace, s, doc, t);
      case _ => hide *; OtherKeepsSound(namespace, s, e, t);
    }
  }

  lemma OtherKeepsSound(namespace: string, s: State, e: Event, t: State)
    requires Sound(namespace, s) && Exclusive(s) && Step(namespace, s, e, t)
    requires e.Acquire? || e.LoadFile? || e.Check? || e.GiveUp? || e.Leave?
    ensures Sound(namespace, t)
  {
    hide MayCompute, IssuedBy, IsStale, Covered, Safe, Loads, Workable, HasIssued, Spares;
    SafeIsCovered(s.disk, s.store);
    OnlyInside(namespace, s, e.p, t);
  }

  lemma {:induction false} StaysTruthful(namespace: string, states: seq<State>, events: seq<Event>, i: nat)
    requires IsRun(namespace, states, events) && i <= |events|
    ensures states[i].truthful == states[0].truthful
  {
    if i > 0 {
      StaysTruthful(namespace, states, events, i - 1);
      TruthfulStep(namespace, states[i - 1], events[i - 1], states[i]);
    }
  }

  lemma TruthfulStep(namespace: string, s: State, e: Event, t: State)
    ensures Step(namespace, s, e, t) ==> t.truthful == s.truthful
    ensures Step(namespace, s, e, t) && e.Publish? ==> e.told || !s.truthful
  {
    hide MayCompute, IssuedBy, IsStale;
  }

  /** With truthful renames and no foreign writers: at every moment of every run of any number of processes,
      whatever fails and wherever they stop, the published file loads and refers to nothing missing. */
  lemma ConsistentAtEveryMoment(namespace: string, states: seq<State>, events: seq<Event>, i: nat)
    requires IsRun(namespace, states, events) && i <= |events| && states[0].truthful
    requires Consistent(namespace, states[0].disk, states[0].store)
    requires forall k | 0 <= k < i :: !events[k].Foreign?
    ensures Consistent(namespace, states[i].disk, states[i].store)
  {
    hide Step, Consistent, IssuedBy;
    forall k | 0 <= k < i ensures Reliable(namespace, states[k], events[k]) {
      StepAt(namespace, states, events, k);
      StaysTruthful(namespace, states, events, k);
      TruthfulStep(namespace, states[k], events[k], states[k + 1]);
    }
    SafeAtEveryMoment(namespace, states, events, i);
  }

  // ---------- A dangling reference ----------

  /** Where a rename took effect and is reported as failed, withdrawing the secret leaves a reference to it. */
  lemma UnseenThenWithdrawn(namespace: string, s: State, p: nat) returns (t: State, u: State)
    requires p < |s.phases| && s.At(p).Checked? && !s.truthful && IssuedBy(namespace, s.At(p).work).Some?
    requires var issue := IssuedBy(namespace, s.At(p).work).value;
      EntryAt(s.At(p).work.next, issue.slot) == Some(issue.entry)
    ensures Step(namespace, s, Publish(p, false), t) && Step(namespace, t, Withdraw(p, true), u)
    ensures u.disk == Some(Whole(s.At(p).work.next))
    ensures u.store == s.store - {IssuedBy(namespace, s.At(p).work).value.entry}
    ensures !Consistent(namespace, u.disk, u.store)
  {
    hide IssuedBy, EntryAt, Loads;
    var work := s.At(p).work;
    t := s.Put(p, Unsaved(work)).(disk := Some(Whole(work.next)));
    u := t.Put(p, Stopped).(store := t.store - {IssuedBy(namespace, work).value.entry});
    assert EntryAt(work.next, IssuedBy(namespace, work).value.slot).value !in u.store;
  }

  /** The steps of a command up to its check, in a home where nothing else happens. */
  lemma StepsToCheck(namespace: string, s: State, work: Work, password: string) returns (states: seq<State>)
    requires Initial(s) && |s.phases| > 0 && MayCompute(namespace, s, work) && IssuedBy(namespace, work).Some?
    requires s.disk == work.base
    ensures |states| == 6 && states[0] == s
    ensures Step(namespace, states[0], Acquire(0, work.job), states[1])
    ensures Step(namespace, states[1], LoadFile(0), states[2])
    ensures Step(namespace, states[2], Compute(0, work.next), states[3])
    ensures Step(namespace, states[3], StoreSecret(0, password, true, true), states[4])
    ensures Step(namespace, states[4], Check(0), states[5])
    ensures var entry := IssuedBy(namespace, work).value.entry;
      states[5] == s.Put(0, Checked(work)).(holder := Some(0), store := s.store[entry := password])
  {
    hide IssuedBy, Aims, Accepts, Loadable, UnusedGeneration;
    var a := s.Put(0, Holding(work.job)).(holder := Some(0));
    var b := a.Put(0, Loaded(work.job, s.disk));
    var c := b.Put(0, Computed(work));
    var d := c.Put(0, Ready(work)).(store := s.store[IssuedBy(namespace, work).value.entry := password]);
    states := [s, a, b, c, d, d.Put(0, Checked(work))];
  }

  lemma WorkIsPlanned(namespace: string, s: State, work: Work)
    requires MayCompute(namespace, s, work) && IssuesSecret(work.job.command)
    ensures IssuedBy(namespace, work).Some?
    ensures var issue := IssuedBy(namespace, work).value;
      EntryAt(work.next, issue.slot) == Some(issue.entry) && issue.entry !in s.store
  {
    AcceptedIsPlanned(namespace, ConfigOf(work.base), s.disk, s.store, work.job.command, work.job.answers,
                      work.job.generation, work.next);
    hide Aims, Accepts, UnusedGeneration, IssueOf, EntryAt, Loadable, Derived, IssuedFor, Unshared, IssuesSecret;
  }

  /** A run from this state without foreign writers. */
  ghost predicate LocalRun(namespace: string, s: State, states: seq<State>, events: seq<Event>) {
    IsRun(namespace, states, events) && states[0] == s && forall e | e in events :: !e.Foreign?
  }

  lemma LocalRunBounds(namespace: string, s: State, states: seq<State>, events: seq<Event>)
    requires LocalRun(namespace, s, states, events)
    ensures IsRun(namespace, states, events) && |states| == |events| + 1 && states[0] == s
    ensures forall k | 0 <= k < |events| :: !events[k].Foreign?
  {
    hide Step, Initial;
    assert forall k | 0 <= k < |events| :: events[k] in events;
  }

  lemma EmptyRun(namespace: string, s: State)
    requires Initial(s)
    ensures LocalRun(namespace, s, [s], [])
  {
  }

  lemma RunOneMore(namespace: string, s: State, states: seq<State>, events: seq<Event>, e: Event, t: State)
    requires LocalRun(namespace, s, states, events) && |states| > 0 && Step(namespace, states[|states| - 1], e, t)
    requires !e.Foreign?
    ensures LocalRun(namespace, s, states + [t], events + [e])
  {
    hide Step, Initial;
  }

  lemma RunToCheck(namespace: string, s: State, work: Work, password: string)
    returns (states: seq<State>, events: seq<Event>)
    requires Initial(s) && |s.phases| > 0 && MayCompute(namespace, s, work) && IssuedBy(namespace, work).Some?
    requires s.disk == work.base
    ensures LocalRun(namespace, s, states, events) && |states| == 6 && |events| == 5
    ensures var entry := IssuedBy(namespace, work).value.entry;
      states[5] == s.Put(0, Checked(work)).(holder := Some(0), store := s.store[entry := password])
  {
    hide MayCompute, IssuedBy, Step, Initial, LocalRun;
    var steps := StepsToCheck(namespace, s, work, password);
    events := [];
    EmptyRun(namespace, s);
    var next := [Acquire(0, work.job), LoadFile(0), Compute(0, work.next), StoreSecret(0, password, true, true),
                 Check(0)];
    states := [s];
    for i := 0 to 5
      invariant LocalRun(namespace, s, states, events)
      invariant states == steps[..i + 1] && events == next[..i]
    {
      RunOneMore(namespace, s, states, events, next[i], steps[i + 1]);
      states, events := states + [steps[i + 1]], events + [next[i]];
    }
  }

  /** Every accepted command that stores a secret has a run, without foreign writers and with nothing but an
      unseen rename going wrong, that leaves the store as it was and a reference to nothing in the file. */
  lemma UnseenPublicationDangles(namespace: string, s: State, work: Work, password: string)
    returns (states: seq<State>, events: seq<Event>)
    requires Initial(s) && |s.phases| > 0 && !s.truthful && MayCompute(namespace, s, work) && s.disk == work.base
    requires IssuesSecret(work.job.command)
    ensures LocalRun(namespace, s, states, events) && |events| == 7 && |states| == 8
    ensures states[7].disk == Some(Whole(work.next)) && states[7].store == s.store
    ensures !Consistent(namespace, states[7].disk, states[7].store)
    ensures UnsavedLeaves(false, s.disk, s.store, work.next, IssuedBy(namespace, work), password,
                          states[7].disk, states[7].store)
  {
    WorkIsPlanned(namespace, s, work);
    hide MayCompute, IssuedBy, EntryAt, Consistent, Step, Initial, LocalRun, IssuesSecret;
    states, events := RunToCheck(namespace, s, work, password);
    var t, u := UnseenThenWithdrawn(namespace, states[5], 0);
    RunOneMore(namespace, s, states, events, Publish(0, false), t);
    RunOneMore(namespace, s, states + [t], events + [Publish(0, false)], Withdraw(0, true), u);
    WithdrawnStore(s.store, IssuedBy(namespace, work).value.entry, password);
    states, events := states + [t] + [u], events + [Publish(0, false)] + [Withdraw(0, true)];
    assert IssuedBy(namespace, work).Some? && u.store == s.store;
    UnseenLeaves(s.disk, s.store, work.next, IssuedBy(namespace, work), password);
  }

  lemma WithdrawnStore(store: Store, entry: Entry, password: string)
    requires entry !in store
    ensures store[entry := password] - {entry} == store
  {
  }

  lemma UnseenLeaves(doc: Option<Doc>, store: Store, after: Config, issued: Option<Issue>, password: string)
    ensures UnsavedLeaves(false, doc, store, after, issued, password, Some(Whole(after)), store)
  {
  }

  /** Every state of every run from here without foreign writers is consistent. */
  ghost predicate AlwaysConsistent(namespace: string, s: State) {
    forall states: seq<State>, events: seq<Event>, i: nat |
      LocalRun(namespace, s, states, events) && i < |states| :: Consistent(namespace, states[i].disk, states[i].store)
  }

  /** In a home where some command that stores a secret can be carried out: all runs without foreign writers
      are consistent throughout exactly when renames are truthful. */
  lemma AlwaysConsistentExactlyWhen(namespace: string, s: State, work: Work)
    requires Initial(s) && |s.phases| > 0 && Consistent(namespace, s.disk, s.store)
    requires MayCompute(namespace, s, work) && s.disk == work.base && IssuesSecret(work.job.command)
    ensures AlwaysConsistent(namespace, s) <==> s.truthful
  {
    hide Initial, Consistent, MayCompute, IssuedBy, IsRun, IssuesSecret, UnsavedLeaves, LocalRun;
    if s.truthful {
      forall states: seq<State>, events: seq<Event>, i: nat |
        LocalRun(namespace, s, states, events) && i < |states|
        ensures Consistent(namespace, states[i].disk, states[i].store)
      {
        LocalRunBounds(namespace, s, states, events);
        ConsistentAtEveryMoment(namespace, states, events, i);
      }
    } else {
      var states, events := UnseenPublicationDangles(namespace, s, work, "");
    }
  }

  lemma FirstAddComputes(namespace: string, s: State, work: Work)
    requires s.disk == None && s.store == map[] && work.base == None
    requires work.job == Job(Add(FIRST_ADD), Answers(None, Some("pw")), "0")
    requires work.next == AddedServer(EMPTY, FIRST_ADD, AddAuth(namespace, FIRST_ADD, "0"))
    ensures MayCompute(namespace, s, work)
  {
    FirstAddIsAddable();
    hide AddedServer, Addable, KeyV3, Owned;
  }

  /** The first `add` in an empty home has such a run. */
  lemma FirstAddDangles(namespace: string) returns (states: seq<State>, events: seq<Event>)
    ensures LocalRun(namespace, State(None, map[], false, None, [Outside]), states, events)
    ensures |events| == 7 && |states| == 8 && !Consistent(namespace, states[7].disk, states[7].store)
  {
    hide AddedServer, Addable, KeyV3, EntryAt, Consistent, LocalRun, MayCompute;
    var s := State(None, map[], false, None, [Outside]);
    var next := AddedServer(EMPTY, FIRST_ADD, AddAuth(namespace, FIRST_ADD, "0"));
    var work := Work(Job(Add(FIRST_ADD), Answers(None, Some("pw")), "0"), None, next);
    FirstAddComputes(namespace, s, work);
    states, events := UnseenPublicationDangles(namespace, s, work, "pw");
  }
}

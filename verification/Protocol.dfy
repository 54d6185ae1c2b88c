/** Many hosts announcing and discovering at the same time, one module visit at a time. Over
    every run, what a host publishes was reported by its own local modules. */
module Protocol {
  import opened Bits
  import opened Text
  import opened Records
  import opened Dedup
  import opened Store
  import opened Codec
  import opened RoundTrip
  import opened DnsSd
  import opened Registry

  /** What a process is in the middle of: a discovery over the module list, which has
      visited the modules before a position and found some records. */
  datatype Task = Idle | Walking(announce: bool, session: string, position: nat, found: seq<Info>)

  /** What was discovered for one announcement, and the session it was made for. */
  type Announcement = (string, seq<Info>)

  /** The state of one host. The store belongs to the DNS-SD module and `history` to the
      store: the announcements since that module was registered. The last two fields record
      the whole past: all announcements, and all records the local modules ever answered. */
  datatype HostState = HostState(
    id: Id,
    live: seq<Library>,
    answers: map<Library, seq<Info>>,
    announcing: bool,
    task: Task,
    store: Texts,
    history: seq<Announcement>,
    log: seq<Announcement>,
    reported: set<Info>)

  type State = map<string, HostState>

  datatype Step =
    | Report(host: string, library: Library, records: seq<Info>)
    | Change(host: string, op: Op)
    | Start(host: string, announce: bool, session: string)
    | Visit(host: string, all: seq<string>, here: seq<string>)
    | Finish(host: string)

  function StoresIn(s: State): map<string, Texts> {
    map h | h in s :: s[h].store
  }

  function Members(xs: seq<Info>): set<Info> {
    set x | x in xs
  }

  /** What a module of a host answers when it is visited. */
  function AnswerOf(ids: IdText, f: Family, s: State, h: HostState, l: Library, all: seq<string>, here: seq<string>):
      seq<Info> {
    if l == Remote then Discovered(ids, f, h.announcing, Browse(all, StoresIn(s)), Browse(here, StoresIn(s)))
    else if l in h.answers then h.answers[l] else []
  }

  /** Use and dispose between discoveries. Disposing of the DNS-SD module destroys its
      service, and with it the store; the next one starts with an empty store. */
  function ChangeLibraries(h: HostState, op: Op): HostState {
    if !h.task.Idle? then h
    else if op == Dispose(Remote) then h.(live := Apply(h.live, op), store := map[], history := [])
    else h.(live := Apply(h.live, op))
  }

  /** A discovery begins; one for an announcement is begun by a listed DNS-SD module. */
  function StartWalk(h: HostState, announce: bool, session: string): HostState {
    if h.task.Idle? && (announce ==> Remote in h.live)
    then h.(announcing := announce, task := Walking(announce, session, 0, []))
    else h
  }

  /** The next module of the list is asked for its records. */
  function VisitNext(ids: IdText, f: Family, s: State, h: HostState, all: seq<string>, here: seq<string>): HostState {
    if h.task.Walking? && h.task.position < |h.live| then
      var l := h.live[h.task.position];
      var answer := AnswerOf(ids, f, s, h, l, all, here);
      h.(task := h.task.(position := h.task.position + 1, found := h.task.found + answer),
         reported := if l == Remote then h.reported else h.reported + Members(answer))
    else h
  }

  /** The discovery ends, and an announcement writes what it found. */
  function FinishWalk(ids: IdText, f: Family, h: HostState): HostState {
    if h.task.Walking? && h.task.position == |h.live| then
      if h.task.announce then
        var made := (h.task.session, h.task.found);
        h.(announcing := false, task := Idle,
           store := StoreAfter(ids, f, h.store, h.id, h.task.session, Dedupe(h.task.found)),
           history := h.history + [made], log := h.log + [made])
      else h.(task := Idle)
    else h
  }

  /** The next state of the host a step concerns. */
  function NextHost(ids: IdText, f: Family, s: State, h: HostState, step: Step): HostState {
    match step
    case Report(_, l, records) =>
      if l == Remote || exists i :: 0 <= i < |records| && !BelongsTo(records[i], f) then h
      else h.(answers := h.answers[l := records])
    case Change(_, op) => ChangeLibraries(h, op)
    case Start(_, announce, session) => StartWalk(h, announce, session)
    case Visit(_, all, here) => VisitNext(ids, f, s, h, all, here)
    case Finish(_) => FinishWalk(ids, f, h)
  }

  function Next(ids: IdText, f: Family, s: State, step: Step): State {
    if step.host in s then s[step.host := NextHost(ids, f, s, s[step.host], step)] else s
  }

  function After(ids: IdText, f: Family, s: State, steps: seq<Step>): State {
    if steps == [] then s else Next(ids, f, After(ids, f, s, steps[..|steps| - 1]), steps[|steps| - 1])
  }

  /** A host that has not done anything yet. */
  predicate Fresh(h: HostState) {
    && h.live == [] && h.answers == map[] && !h.announcing && h.task.Idle?
    && h.store == map[] && h.history == [] && h.log == [] && h.reported == {}
  }

  predicate AllFresh(s: State) {
    forall name :: name in s ==> Fresh(s[name])
  }

  // ---------- the invariant ----------

  /** An announcement history with the duplicates dropped. */
  function Deduped(history: seq<Announcement>): (r: seq<Announcement>)
    ensures |r| == |history|
  {
    seq(|history|, i requires 0 <= i < |history| => (history[i].0, Dedupe(history[i].1)))
  }

  /** All announced candidates are among the given records. */
  ghost predicate From(history: seq<Announcement>, reported: set<Info>) {
    forall i, x :: 0 <= i < |history| && x in history[i].1 ==> x in reported
  }

  predicate EndsWith(log: seq<Announcement>, history: seq<Announcement>) {
    |history| <= |log| && log[|log| - |history|..] == history
  }

  ghost predicate HostInvariant(ids: IdText, f: Family, h: HostState) {
    && (h.announcing <==> h.task.Walking? && h.task.announce)
    && (h.announcing ==> Remote in h.live)
    && (Remote !in h.live ==> h.store == map[] && h.history == [])
    && (h.announcing ==> forall x :: x in h.task.found ==> x in h.reported)
    && From(h.log, h.reported) && From(h.history, h.reported)
    && EndsWith(h.log, h.history)
    && (forall l :: l in h.answers ==> AllBelongTo(h.answers[l], f))
    && (forall x :: x in h.reported ==> BelongsTo(x, f))
    && h.store == StoreOf(ids, f, h.id, Deduped(h.history))
  }

  ghost predicate Invariant(ids: IdText, f: Family, s: State) {
    forall name :: name in s ==> HostInvariant(ids, f, s[name])
  }

  lemma DedupedSnoc(history: seq<Announcement>, session: string, found: seq<Info>)
    ensures Deduped(history + [(session, found)]) == Deduped(history) + [(session, Dedupe(found))]
  {
  }

  lemma StoreOfSnoc(ids: IdText, f: Family, id: Id, history: seq<Announcement>, session: string, found: seq<Info>)
    ensures StoreOf(ids, f, id, history + [(session, found)])
         == StoreAfter(ids, f, StoreOf(ids, f, id, history), id, session, found)
  {
    assert (history + [(session, found)])[..|history|] == history;
  }

  lemma ChangeKeepsInvariant(ids: IdText, f: Family, h: HostState, op: Op)
    requires HostInvariant(ids, f, h)
    ensures HostInvariant(ids, f, ChangeLibraries(h, op))
  {
    hide StoreAfter;
    assert Deduped([]) == [];
    if op.Dispose? {
      WithoutMember(h.live, op.library, Remote);
    }
  }

  lemma VisitKeepsInvariant(ids: IdText, f: Family, s: State, h: HostState, all: seq<string>, here: seq<string>)
    requires HostInvariant(ids, f, h)
    ensures HostInvariant(ids, f, VisitNext(ids, f, s, h, all, here))
  {
    hide StoreOf;
  }

  lemma FinishKeepsInvariant(ids: IdText, f: Family, h: HostState)
    requires HostInvariant(ids, f, h)
    ensures HostInvariant(ids, f, FinishWalk(ids, f, h))
  {
    hide StoreOf, StoreAfter, Dedupe;
    if h.task.Walking? && h.task.announce {
      DedupedSnoc(h.history, h.task.session, h.task.found);
      StoreOfSnoc(ids, f, h.id, Deduped(h.history), h.task.session, Dedupe(h.task.found));
    }
  }

  /** Every step keeps flag, records, store and history of its host in agreement. */
  lemma StepKeepsInvariant(ids: IdText, f: Family, s: State, h: HostState, step: Step)
    requires HostInvariant(ids, f, h)
    ensures HostInvariant(ids, f, NextHost(ids, f, s, h, step))
  {
    hide StoreOf, FinishWalk, VisitNext, ChangeLibraries, Dedupe, From;
    match step
    case Change(_, op) => ChangeKeepsInvariant(ids, f, h, op);
    case Visit(_, all, here) => VisitKeepsInvariant(ids, f, s, h, all, here);
    case Finish(_) => FinishKeepsInvariant(ids, f, h);
    case _ =>
  }

  lemma NextKeepsInvariant(ids: IdText, f: Family, s: State, step: Step)
    requires Invariant(ids, f, s)
    ensures Next(ids, f, s, step).Keys == s.Keys && Invariant(ids, f, Next(ids, f, s, step))
  {
    hide HostInvariant, NextHost;
    if step.host in s {
      StepKeepsInvariant(ids, f, s, s[step.host], step);
    }
  }

  lemma FreshInvariant(ids: IdText, f: Family, h: HostState)
    requires Fresh(h)
    ensures HostInvariant(ids, f, h)
  {
    assert Deduped(h.history) == [];
  }

  /** No echo: in every run every record a host ever announced was answered by one of its own
      local modules, whatever other hosts publish in between; its store is that of the
      last announcements, those since its DNS-SD module was registered, and empty without one;
      and the re-entrancy flag is set only during an announcement. */
  lemma {:induction false} NoEcho(ids: IdText, f: Family, s: State, steps: seq<Step>)
    requires AllFresh(s)
    ensures After(ids, f, s, steps).Keys == s.Keys && Invariant(ids, f, After(ids, f, s, steps))
  {
    hide HostInvariant, Next, Fresh;
    if steps == [] {
      forall name | name in s ensures HostInvariant(ids, f, s[name]) {
        FreshInvariant(ids, f, s[name]);
      }
    } else {
      NoEcho(ids, f, s, steps[..|steps| - 1]);
      NextKeepsInvariant(ids, f, After(ids, f, s, steps[..|steps| - 1]), steps[|steps| - 1]);
    }
  }

  // ---------- what is announced ----------

  /** What the first n listed modules but the DNS-SD one answer. */
  function LocalAnswers(h: HostState, n: nat): seq<Info>
    requires n <= |h.live|
  {
    if n == 0 then [] else
      var l := h.live[n - 1];
      LocalAnswers(h, n - 1) + if l != Remote && l in h.answers then h.answers[l] else []
  }

  /** The host does nothing but visit modules; other hosts do anything. */
  predicate OnlyVisits(steps: seq<Step>, host: string) {
    forall i :: 0 <= i < |steps| && steps[i].host == host ==> steps[i].Visit?
  }

  function Visits(steps: seq<Step>, host: string): nat {
    if steps == [] then 0 else
      Visits(steps[..|steps| - 1], host) + if steps[|steps| - 1].host == host then 1 else 0
  }

  /** How many of a host's modules the visits reached. */
  function Visited(steps: seq<Step>, s: State, host: string): (n: nat)
    requires host in s
    ensures n <= |s[host].live|
  {
    if Visits(steps, host) < |s[host].live| then Visits(steps, host) else |s[host].live|
  }

  /** The host after n visits of a discovery that it began as h and that found these records. */
  function WalkedBy(h: HostState, announce: bool, session: string, n: nat, found: seq<Info>): HostState
    requires n <= |h.live|
  {
    h.(announcing := announce, task := Walking(announce, session, n, found),
       reported := h.reported + Members(LocalAnswers(h, n)))
  }

  lemma LocalStep(h: HostState, n: nat)
    requires n < |h.live|
    ensures var l := h.live[n];
      var local := if l != Remote && l in h.answers then h.answers[l] else [];
      && LocalAnswers(h, n + 1) == LocalAnswers(h, n) + local
      && Members(LocalAnswers(h, n + 1)) == Members(LocalAnswers(h, n)) + Members(local)
  {
  }

  lemma AnswerToVisit(ids: IdText, f: Family, s: State, h: HostState, l: Library, all: seq<string>, here: seq<string>)
    ensures l != Remote ==> AnswerOf(ids, f, s, h, l, all, here) == if l in h.answers then h.answers[l] else []
    ensures l == Remote && h.announcing ==> AnswerOf(ids, f, s, h, l, all, here) == []
  {
  }

  lemma VisitedNext(ids: IdText, f: Family, s: State, h: HostState, announce: bool, session: string, n: nat,
                    found: seq<Info>, all: seq<string>, here: seq<string>)
    requires n < |h.live|
    ensures var now := WalkedBy(h, announce, session, n, found);
      VisitNext(ids, f, s, now, all, here)
      == WalkedBy(h, announce, session, n + 1, found + AnswerOf(ids, f, s, now, h.live[n], all, here))
  {
    AnswerToVisit(ids, f, s, WalkedBy(h, announce, session, n, found), h.live[n], all, here);
    LocalStep(h, n);
    NoMembers();
    hide LocalAnswers, Members, AnswerOf;
  }

  lemma OneVisit(ids: IdText, f: Family, s: State, h: HostState, announce: bool, session: string, n: nat,
                 found: seq<Info>, step: Step)
    requires n <= |h.live| && step.Visit?
    ensures var now := WalkedBy(h, announce, session, n, found);
      NextHost(ids, f, s, now, step)
      == if n < |h.live|
         then WalkedBy(h, announce, session, n + 1, found + AnswerOf(ids, f, s, now, h.live[n], step.all, step.here))
         else now
  {
    hide AnswerOf, LocalAnswers, Members;
    if n < |h.live| {
      VisitedNext(ids, f, s, h, announce, session, n, found, step.all, step.here);
      hide VisitNext, WalkedBy;
    }
  }

  lemma NoMembers()
    ensures Members([]) == {}
  {
  }

  lemma VisitedSnoc(steps: seq<Step>, s: State, host: string)
    requires host in s && steps != []
    ensures var n := Visited(steps[..|steps| - 1], s, host);
      Visited(steps, s, host) == if steps[|steps| - 1].host == host && n < |s[host].live| then n + 1 else n
  {
  }

  /** During an announcement the visits collect what the local modules answer, in list order,
      whatever other hosts do in between. */
  lemma {:induction false} WalkCollects(ids: IdText, f: Family, s: State, host: string, session: string,
                                       steps: seq<Step>)
    requires host in s && s[host].task.Idle? && Remote in s[host].live && OnlyVisits(steps, host)
    ensures var now := After(ids, f, Next(ids, f, s, Start(host, true, session)), steps);
      var h, n := s[host], Visited(steps, s, host);
      host in now && now[host] == WalkedBy(h, true, session, n, LocalAnswers(h, n))
  {
    hide NextHost, LocalAnswers, WalkedBy, AnswerOf;
    if steps == [] {
      WalkStarts(ids, f, s, s[host], true, session, host);
    } else {
      var most, step := steps[..|steps| - 1], steps[|steps| - 1];
      WalkCollects(ids, f, s, host, session, most);
      if step.host == host {
        var h, n := s[host], Visited(most, s, host);
        var state := After(ids, f, Next(ids, f, s, Start(host, true, session)), most);
        OneVisit(ids, f, state, h, true, session, n, LocalAnswers(h, n), step);
        if n < |h.live| {
          LocalStep(h, n);
          Announcing(h, true, session, n, LocalAnswers(h, n));
          AnswerToVisit(ids, f, state, WalkedBy(h, true, session, n, LocalAnswers(h, n)), h.live[n],
                        step.all, step.here);
        }
      }
    }
  }

  lemma Announcing(h: HostState, announce: bool, session: string, n: nat, found: seq<Info>)
    requires n <= |h.live|
    ensures WalkedBy(h, announce, session, n, found).announcing == announce
    ensures WalkedBy(h, announce, session, n, found).answers == h.answers
  {
  }

  lemma WalkStarts(ids: IdText, f: Family, s: State, h: HostState, announce: bool, session: string, host: string)
    requires h.task.Idle? && (announce ==> Remote in h.live)
    ensures NextHost(ids, f, s, h, Start(host, announce, session)) == WalkedBy(h, announce, session, 0, [])
    ensures LocalAnswers(h, 0) == []
  {
    assert h.reported + Members([]) == h.reported;
  }

  /** The announcement that then ends publishes exactly this, without duplicates, and is the
      host's latest; nothing else of the host changed. */
  lemma AnnouncementIsComplete(ids: IdText, f: Family, s: State, host: string, session: string, steps: seq<Step>)
    requires host in s && s[host].task.Idle? && Remote in s[host].live && OnlyVisits(steps, host)
    requires Visits(steps, host) >= |s[host].live|
    ensures var h := s[host];
      var found := LocalAnswers(h, |h.live|);
      var now := Next(ids, f, After(ids, f, Next(ids, f, s, Start(host, true, session)), steps), Finish(host));
      host in now && now[host] == h.(
        announcing := false,
        reported := h.reported + Members(found),
        store := StoreAfter(ids, f, h.store, h.id, session, Dedupe(found)),
        history := h.history + [(session, found)],
        log := h.log + [(session, found)])
  {
    hide StoreAfter, Dedupe, LocalAnswers;
    WalkCollects(ids, f, s, host, session, steps);
    hide After, Visits;
  }

  /** now is h after n visits of a discovery it began: nothing changed but what is recorded
      as reported, and all that local modules answered is among the records found. */
  ghost predicate DiscoveredBy(now: HostState, h: HostState, session: string, n: nat)
    requires n <= |h.live|
  {
    && now.task.Walking? && now == WalkedBy(h, false, session, n, now.task.found)
    && Members(LocalAnswers(h, n)) <= Members(now.task.found)
  }

  lemma OneDiscoveryVisit(ids: IdText, f: Family, s: State, now: HostState, h: HostState, session: string, n: nat,
                          step: Step)
    requires n <= |h.live| && step.Visit? && DiscoveredBy(now, h, session, n)
    ensures DiscoveredBy(NextHost(ids, f, s, now, step), h, session, if n < |h.live| then n + 1 else n)
  {
    var found := now.task.found;
    hide NextHost, LocalAnswers, AnswerOf;
    OneVisit(ids, f, s, h, false, session, n, found, step);
    if n < |h.live| {
      LocalStep(h, n);
      AnswerToVisit(ids, f, s, now, h.live[n], step.all, step.here);
    }
  }

  lemma DiscoveryStarts(ids: IdText, f: Family, s: State, h: HostState, session: string, host: string)
    requires h.task.Idle?
    ensures DiscoveredBy(NextHost(ids, f, s, h, Start(host, false, session)), h, session, 0)
  {
    hide NextHost;
    WalkStarts(ids, f, s, h, false, session, host);
  }

  lemma DiscoveryStep(ids: IdText, f: Family, state: State, step: Step, host: string, h: HostState, session: string,
                      n: nat)
    requires n <= |h.live| && host in state && DiscoveredBy(state[host], h, session, n)
    requires step.host == host ==> step.Visit?
    ensures var next := Next(ids, f, state, step);
      host in next && DiscoveredBy(next[host], h, session, if step.host == host && n < |h.live| then n + 1 else n)
  {
    hide NextHost, DiscoveredBy;
    if step.host == host {
      OneDiscoveryVisit(ids, f, state, state[host], h, session, n, step);
    }
  }

  /** A discovery finds what every listed local module answers, whatever other hosts do. */
  lemma {:induction false} DiscoveryCollects(ids: IdText, f: Family, s: State, host: string, session: string,
                                            steps: seq<Step>)
    requires host in s && s[host].task.Idle? && OnlyVisits(steps, host)
    ensures var now := After(ids, f, Next(ids, f, s, Start(host, false, session)), steps);
      host in now && DiscoveredBy(now[host], s[host], session, Visited(steps, s, host))
  {
    hide NextHost, LocalAnswers, DiscoveredBy;
    if steps == [] {
      DiscoveryStarts(ids, f, s, s[host], session, host);
    } else {
      var most, step := steps[..|steps| - 1], steps[|steps| - 1];
      DiscoveryCollects(ids, f, s, host, session, most);
      VisitedSnoc(steps, s, host);
      var started := Next(ids, f, s, Start(host, false, session));
      hide Next, Visited;
      DiscoveryStep(ids, f, After(ids, f, started, most), step, host, s[host], session, Visited(most, s, host));
    }
  }

  /** And when it ends the host is idle again, with its store and history untouched. */
  lemma DiscoveryEnds(ids: IdText, f: Family, s: State, host: string, session: string, steps: seq<Step>)
    requires host in s && s[host].task.Idle? && OnlyVisits(steps, host)
    requires Visits(steps, host) >= |s[host].live|
    ensures var h := s[host];
      var now := Next(ids, f, After(ids, f, Next(ids, f, s, Start(host, false, session)), steps), Finish(host));
      host in now && now[host] == h.(announcing := false,
                                     reported := h.reported + Members(LocalAnswers(h, |h.live|)))
  {
    DiscoveryCollects(ids, f, s, host, session, steps);
    hide After, Visits, LocalAnswers;
  }

  /** Reports and registrations between discoveries do what they say. */
  lemma StepsTakeEffect(ids: IdText, f: Family, s: State, h: HostState, host: string)
    ensures forall l, xs :: l != Remote && AllBelongTo(xs, f) ==>
      NextHost(ids, f, s, h, Report(host, l, xs)) == h.(answers := h.answers[l := xs])
    ensures h.task.Idle? ==> forall l ::
      NextHost(ids, f, s, h, Change(host, Use(l))) == h.(live := if l in h.live then h.live else h.live + [l])
    ensures h.task.Idle? ==> forall l ::
      var h' := NextHost(ids, f, s, h, Change(host, Dispose(l)));
      && h'.live == Without(h.live, l)
      && h' == h.(live := h'.live, store := if l == Remote then map[] else h.store,
                  history := if l == Remote then [] else h.history)
  {
  }

  // ---------- the fields every announcement writes ----------

  /** r carries the fields of x that every announcement writes, and the node of its host. */
  predicate Traces(r: Info, x: Info, id: Id, host: string) {
    && r.node.id == id && r.node.nodeName == host
    && match x
       case Gpu(_, code, port, device, _, _) =>
         r.Gpu? && r.code == ReadCode(code) && r.port == port && r.device == device
       case Net(_, kind, _, _, _, _, _, _, up) =>
         r.Net? && r.kind == (if IsTunnel(kind) then Unknown else kind) && r.up == up
  }

  lemma DedupedBelong(found: seq<Info>, f: Family)
    requires AllBelongTo(found, f)
    ensures AllBelongTo(Dedupe(found), f) && (Dedupe(found) == [] <==> found == [])
    ensures forall d :: d in Dedupe(found) ==> MergedFrom(found, d)
  {
    DedupeConservesFlags(found);
    if found != [] {
      assert Holds(found, found[0]);
      assert Holds(Dedupe(found), found[0]);
    }
    hide Dedupe, FlagsOf;
    forall d | d in Dedupe(found) ensures BelongsTo(d, f) {
      assert MergedFrom(found, d);
    }
  }

  /** r is read from the last announcement: it traces to a candidate, under its session. */
  ghost predicate FromLast(r: Info, made: Announcement, id: Id, host: string) {
    r.node.session == ReadText(made.0, LOCAL_SESSION) && exists x :: x in made.1 && Traces(r, x, id, host)
  }

  lemma LastTraces(ids: IdText, f: Family, st: Texts, id: Id, session: string, found: seq<Info>, host: string, r: Info)
    requires ids.RoundTrips() && found != [] && AllBelongTo(found, f)
    requires r in ReadHost(ids, f, StoreAfter(ids, f, st, id, session, Dedupe(found)), host)
    ensures FromLast(r, (session, found), id, host)
  {
    var ds := Dedupe(found);
    hide ReadHost, StoreAfter, Published, FlagsOf, ReadCode, CellsOf, Dedupe;
    DedupedBelong(found, f);
    ReadBack(ids, f, st, id, session, ds, host);
    PublishedMembers(f, ds);
    var list := Published(f, ds);
    var rs := ReadHost(ids, f, StoreAfter(ids, f, st, id, session, ds), host);
    var i :| 0 <= i < |rs| && rs[i] == r;
    assert list[i] in list;
    assert MergedFrom(found, list[i]);
    var x :| x in found && list[i] == WithFlags(x, FlagsOf(found, list[i]));
    assert Traces(r, x, id, host);
  }

  ghost predicate FromSome(r: Info, history: seq<Announcement>, id: Id, host: string) {
    exists i :: 0 <= i < |history| && FromLast(r, history[i], id, host)
  }

  /** Whatever a store's history, each record read from it traces to an announced candidate. */
  lemma {:induction false} StoreTraces(ids: IdText, f: Family, id: Id, history: seq<Announcement>, host: string)
    requires ids.RoundTrips()
    requires forall i :: 0 <= i < |history| ==> AllBelongTo(history[i].1, f)
    ensures forall r :: r in ReadHost(ids, f, StoreOf(ids, f, id, Deduped(history)), host) ==>
      FromSome(r, history, id, host)
  {
    if history == [] {
      assert Deduped(history) == [];
      EmptyStoreReads(ids, f, host);
    } else {
      var most, last := history[..|history| - 1], history[|history| - 1];
      assert history == most + [last];
      assert last == history[|most|];
      hide ReadHost, AllBelongTo, FromSome, Deduped, StoreAfter, FromLast;
      StoreTraces(ids, f, id, most, host);
      DedupedSnoc(most, last.0, last.1);
      StoreOfSnoc(ids, f, id, Deduped(most), last.0, Dedupe(last.1));
      hide StoreOf;
      var st := StoreOf(ids, f, id, Deduped(most));
      forall r | r in ReadHost(ids, f, StoreOf(ids, f, id, Deduped(history)), host)
        ensures FromSome(r, history, id, host)
      {
        FromOneMore(ids, f, st, id, most, last, host, r);
      }
    }
  }

  lemma FromOneMore(ids: IdText, f: Family, st: Texts, id: Id, most: seq<Announcement>, last: Announcement,
                    host: string, r: Info)
    requires ids.RoundTrips() && AllBelongTo(last.1, f)
    requires r in ReadHost(ids, f, StoreAfter(ids, f, st, id, last.0, Dedupe(last.1)), host)
    requires r in ReadHost(ids, f, st, host) ==> FromSome(r, most, id, host)
    ensures FromSome(r, most + [last], id, host)
  {
    var history := most + [last];
    if last.1 != [] {
      hide ReadHost, StoreAfter, FromLast;
      LastTraces(ids, f, st, id, last.0, last.1, host, r);
      assert FromLast(r, history[|most|], id, host);
    } else {
      hide ReadHost, FromLast;
      var i :| 0 <= i < |most| && FromLast(r, most[i], id, host);
      assert FromLast(r, history[i], id, host);
    }
  }

  // ---------- the optional fields ----------

  ghost predicate TextFrom(t: string, texts: set<string>) {
    t == "" || exists s :: s in texts && t == Token(s)
  }

  ghost predicate ViewportFrom(v: Viewport, reported: set<Info>) {
    v == INVALID_VIEWPORT || exists y :: y in reported && y.Gpu? && Drawn(y.pvp) && y.pvp == v
  }

  ghost predicate FlagsFrom(flags: uint32, reported: set<Info>) {
    forall b: nat :: Bit(flags, b) ==> exists y :: y in reported && y.Gpu? && Bit(y.flags, b)
  }

  ghost predicate SpeedFrom(speed: uint32, reported: set<Info>) {
    speed == UINT_MAX || exists y :: y in reported && y.Net? && y.linkspeed == speed
  }

  /** Each optional field has its default or the value of a reported record, possibly an
      earlier one; each flag was reported. */
  ghost predicate OptionalFrom(r: Info, reported: set<Info>) {
    match r
    case Gpu(_, _, _, _, pvp, flags) => ViewportFrom(pvp, reported) && FlagsFrom(flags, reported)
    case Net(_, _, name, hostname, hwAddress, inetAddress, inet6Address, linkspeed, _) =>
      && TextFrom(name, set y | y in reported && y.Net? :: y.name)
      && TextFrom(hostname, set y | y in reported && y.Net? :: y.hostname)
      && TextFrom(hwAddress, set y | y in reported && y.Net? :: y.hwAddress)
      && TextFrom(inetAddress, set y | y in reported && y.Net? :: y.inetAddress)
      && TextFrom(inet6Address, set y | y in reported && y.Net? :: y.inet6Address)
      && SpeedFrom(linkspeed, reported)
  }

  /** x is a reported record with only reported flags. */
  ghost predicate Reported(x: Info, reported: set<Info>) {
    (exists y :: y in reported && NoFlags(y) == NoFlags(x)) && FlagsFrom(Flags(x), reported)
  }

  lemma NothingRead(f: Family, node: NodeInfo, reported: set<Info>, i: nat)
    ensures OptionalFrom(ReadRecord(f, node, CellsOf(f, map[], i)), reported)
  {
    forall b: nat ensures !Bit(0, b) {
      BitOfZero(b);
    }
    var cells := CellsOf(f, map[], i);
    assert forall a :: cells(a) == "";
    assert ReadViewport(cells) == INVALID_VIEWPORT;
  }

  lemma ReturnedText0(s: string, prior: string, texts: set<string>)
    requires s in texts && TextFrom(ReadText(prior, ""), texts)
    ensures TextFrom(ReturnedText(s, prior), texts)
  {
    hide Token;
  }

  /** What is written over traceable cells, or left of them, is traceable. */
  lemma ReturnedGpuFrom(f: Family, node: NodeInfo, x: Info, prior: Cells, reported: set<Info>)
    requires f.GpuFamily? && x.Gpu? && Reported(x, reported)
    requires OptionalFrom(ReadRecord(f, node, prior), reported)
    ensures OptionalFrom(Returned(node, x, prior), reported)
  {
    hide ReadViewport, ReadUnsigned, ReadCode, FlagsFrom;
    if Drawn(x.pvp) {
      var y :| y in reported && NoFlags(y) == NoFlags(x);
      assert y.Gpu? && y.pvp == x.pvp;
    }
  }

  lemma ReturnedNetFrom(f: Family, node: NodeInfo, x: Info, prior: Cells, reported: set<Info>)
    requires f.NetFamily? && x.Net? && Reported(x, reported)
    requires OptionalFrom(ReadRecord(f, node, prior), reported)
    ensures OptionalFrom(Returned(node, x, prior), reported)
  {
    var y :| y in reported && NoFlags(y) == NoFlags(x);
    assert y == x;
    hide ReadUnsigned, ReadBool, ReadText, TextFrom, ReturnedText, TypeOfName, NoFlags;
    ReturnedText0(x.name, prior(Name), set y | y in reported && y.Net? :: y.name);
    ReturnedText0(x.hostname, prior(Hostname), set y | y in reported && y.Net? :: y.hostname);
    ReturnedText0(x.hwAddress, prior(Mac), set y | y in reported && y.Net? :: y.hwAddress);
    ReturnedText0(x.inetAddress, prior(IPv4), set y | y in reported && y.Net? :: y.inetAddress);
    ReturnedText0(x.inet6Address, prior(IPv6), set y | y in reported && y.Net? :: y.inet6Address);
  }

  lemma DedupedReported(found: seq<Info>, d: Info, reported: set<Info>)
    requires d in Dedupe(found) && forall x :: x in found ==> x in reported
    ensures Reported(d, reported)
  {
    DedupeConservesFlags(found);
    assert MergedFrom(found, d);
    hide Dedupe, Same, Bit;
    var x :| x in found && d == WithFlags(x, FlagsOf(found, d));
    forall b: nat | Bit(Flags(d), b) ensures exists y :: y in reported && y.Gpu? && Bit(y.flags, b) {
      BitOfZero(b);
      BitOfFlags(found, d, b);
      var y :| y in found && Same(y, d) && Bit(Flags(y), b);
    }
    hide FlagsOf;
    assert NoFlags(x) == NoFlags(d);
  }

  lemma CellsFrom(ids: IdText, f: Family, st: Texts, id: Id, made: Announcement,
                  reported: set<Info>, node: NodeInfo, i: nat)
    requires ids.RoundTrips() && AllBelongTo(made.1, f) && forall x :: x in made.1 ==> x in reported
    requires OptionalFrom(ReadRecord(f, node, CellsOf(f, st, i)), reported)
    ensures var st' := StoreAfter(ids, f, st, id, made.0, Dedupe(made.1));
      OptionalFrom(ReadRecord(f, node, CellsOf(f, st', i)), reported)
  {
    var ds := Dedupe(made.1);
    var st', list := StoreAfter(ids, f, st, id, made.0, ds), Published(f, ds);
    DedupedBelong(made.1, f);
    if ds != [] {
      StoreAfterLookup(ids, f, st, id, made.0, ds, i);
      PublishedMembers(f, ds);
      hide StoreAfter, CellsOf, OptionalFrom, ReadRecord, Returned, WrittenOver, Dedupe, Published, ReadNode, Reported;
      if i < |list| {
        var x := list[i];
        assert x in list;
        DedupedReported(made.1, x, reported);
        if f.GpuFamily? {
          ReadBackGpu(f, node, x, CellsOf(f, st, i), CellsOf(f, st', i));
          ReturnedGpuFrom(f, node, x, CellsOf(f, st, i), reported);
        } else {
          ReadBackNet(f, node, x, CellsOf(f, st, i), CellsOf(f, st', i));
          ReturnedNetFrom(f, node, x, CellsOf(f, st, i), reported);
        }
      } else {
        SameCellsRead(f, node, CellsOf(f, st, i), CellsOf(f, st', i));
      }
    }
  }

  lemma SameCellsRead(f: Family, node: NodeInfo, c: Cells, d: Cells)
    requires forall a :: d(a) == c(a)
    ensures ReadRecord(f, node, d) == ReadRecord(f, node, c)
  {
    assert d(Type) == c(Type) && d(Port) == c(Port) && d(Device) == c(Device) && d(FlagBits) == c(FlagBits);
    assert d(X) == c(X) && d(Y) == c(Y) && d(Width) == c(Width) && d(Height) == c(Height);
    assert d(Name) == c(Name) && d(Hostname) == c(Hostname) && d(Mac) == c(Mac) && d(IPv4) == c(IPv4);
    assert d(IPv6) == c(IPv6) && d(Linkspeed) == c(Linkspeed) && d(Up) == c(Up);
  }

  /** Whatever a store's history, the optional fields read from it were reported. */
  lemma {:induction false} OptionalTraces(ids: IdText, f: Family, id: Id, history: seq<Announcement>,
                                         reported: set<Info>, node: NodeInfo, i: nat)
    requires ids.RoundTrips() && From(history, reported)
    requires forall i :: 0 <= i < |history| ==> AllBelongTo(history[i].1, f)
    ensures OptionalFrom(ReadRecord(f, node, CellsOf(f, StoreOf(ids, f, id, Deduped(history)), i)), reported)
  {
    hide OptionalFrom, ReadRecord, CellsOf, AllBelongTo;
    if history == [] {
      assert Deduped(history) == [];
      NothingRead(f, node, reported, i);
    } else {
      var most, last := history[..|history| - 1], history[|history| - 1];
      assert history == most + [last];
      OptionalTraces(ids, f, id, most, reported, node, i);
      DedupedSnoc(most, last.0, last.1);
      StoreOfSnoc(ids, f, id, Deduped(most), last.0, Dedupe(last.1));
      hide StoreOf, Deduped, Dedupe;
      CellsFrom(ids, f, StoreOf(ids, f, id, Deduped(most)), id, last, reported, node, i);
    }
  }

  // ---------- what clients see ----------

  lemma {:induction false} HostsAreRead(ids: IdText, f: Family, from: Browse, n: nat, k: nat)
    requires k < n <= |from.hosts|
    ensures forall r :: r in ReadHost(ids, f, from.Of(from.hosts[k]), from.hosts[k]) ==> r in ReadHosts(ids, f, from, n)
  {
    hide ReadHost;
    if k < n - 1 {
      HostsAreRead(ids, f, from, n - 1, k);
    }
  }

  lemma AnswerHoldsAll(ids: IdText, f: Family, s: State, h: HostState, all: seq<string>, here: seq<string>,
                       host: string, r: Info) returns (x: Info)
    requires !h.announcing && host in all && host in s && r in ReadHost(ids, f, s[host].store, host)
    ensures x in AnswerOf(ids, f, s, h, Remote, all, here)
    ensures x == r || (x == WithNodeName(r, "") && here != [])
  {
    var from, local := Browse(all, StoresIn(s)), Browse(here, StoresIn(s));
    var k :| 0 <= k < |all| && all[k] == host;
    hide ReadHost, ReadHosts, WithNodeName, Holds, Mark;
    HostsAreRead(ids, f, from, |all|, k);
    assert from.Of(host) == s[host].store;
    NothingHere(ids, f, local, r);
    x := MarkKeeps(ReadBrowse(ids, f, from), ReadBrowse(ids, f, local), r);
  }

  /** A client that is not announcing misses nothing: visiting its DNS-SD module adds what can
      be read of every host of the browse, but for the names of hosts also found locally. */
  lemma ClientsSeeAllRecords(ids: IdText, f: Family, s: State, h: HostState, all: seq<string>, here: seq<string>,
                             host: string, r: Info)
    requires h.task.Walking? && !h.announcing && h.task.position < |h.live| && h.live[h.task.position] == Remote
    requires host in all && host in s && r in ReadHost(ids, f, s[host].store, host)
    ensures var now := VisitNext(ids, f, s, h, all, here);
      && now.task.Walking? && h.task.found <= now.task.found
      && exists x :: x in now.task.found && (x == r || (x == WithNodeName(r, "") && here != []))
  {
    hide AnswerOf, ReadHost, WithNodeName;
    var x := AnswerHoldsAll(ids, f, s, h, all, here, host, r);
    assert x in h.task.found + AnswerOf(ids, f, s, h, Remote, all, here);
  }

  lemma MarkKeeps(rows: seq<Info>, here: seq<Info>, r: Info) returns (x: Info)
    requires r in rows
    ensures x in Mark(rows, here) && (x == r || (x == WithNodeName(r, "") && Holds(here, r)))
  {
    var i :| 0 <= i < |rows| && rows[i] == r;
    x := Mark(rows, here)[i];
  }

  lemma NothingHere(ids: IdText, f: Family, from: Browse, r: Info)
    ensures from.hosts == [] ==> !Holds(ReadBrowse(ids, f, from), r)
  {
  }

  lemma {:induction false} ReadFromCells(ids: IdText, f: Family, st: Texts, host: string, n: nat, r: Info)
    requires r in ReadUpTo(ids, f, st, host, n)
    ensures exists i: nat :: r == ReadRecord(f, ReadNode(ids, st, host), CellsOf(f, st, i))
  {
    hide ReadRecord, ReadNode, ReadAt, CellsOf;
    if n > 0 {
      if r in ReadUpTo(ids, f, st, host, n - 1) {
        ReadFromCells(ids, f, st, host, n - 1, r);
      } else {
        ReadAtMember(f, ReadNode(ids, st, host), CellsOf(f, st, n - 1), r);
      }
    }
  }

  lemma ReadAtMember(f: Family, node: NodeInfo, cells: Cells, r: Info)
    requires r in ReadAt(f, node, cells)
    ensures r == ReadRecord(f, node, cells)
  {
  }

  /** Everything in r was reported by the local modules of a host: the always-written fields
      by one record announced under r's session, the optional ones by some record each. */
  ghost predicate ReportedBy(r: Info, h: HostState, host: string) {
    FromSome(r, h.history, h.id, host) && OptionalFrom(r, h.reported)
  }

  lemma HostReadsReported(ids: IdText, f: Family, h: HostState, host: string, r: Info)
    requires ids.RoundTrips() && HostInvariant(ids, f, h)
    requires r in ReadHost(ids, f, h.store, host)
    ensures ReportedBy(r, h, host)
  {
    assert forall i :: 0 <= i < |h.history| ==> AllBelongTo(h.history[i].1, f);
    StoreTraces(ids, f, h.id, h.history, host);
    ReadFromCells(ids, f, h.store, host, ReadCount(f, h.store), r);
    hide ReadRecord, ReadNode, CellsOf, OptionalFrom, FromSome, AllBelongTo;
    var i: nat :| r == ReadRecord(f, ReadNode(ids, h.store, host), CellsOf(f, h.store, i));
    OptionalTraces(ids, f, h.id, h.history, h.reported, ReadNode(ids, h.store, host), i);
  }

  lemma {:induction false} BrowseReads(ids: IdText, f: Family, from: Browse, n: nat, r: Info) returns (host: string)
    requires n <= |from.hosts| && r in ReadHosts(ids, f, from, n)
    ensures host in from.hosts && r in ReadHost(ids, f, from.Of(host), host)
  {
    hide ReadHost;
    if r in ReadHosts(ids, f, from, n - 1) {
      host := BrowseReads(ids, f, from, n - 1, r);
    } else {
      host := from.hosts[n - 1];
    }
  }

  lemma StateBrowse(ids: IdText, f: Family, s: State, hosts: seq<string>, r: Info) returns (host: string)
    requires ids.RoundTrips() && Invariant(ids, f, s)
    requires r in ReadBrowse(ids, f, Browse(hosts, StoresIn(s)))
    ensures host in hosts && host in s && ReportedBy(r, s[host], host) && r.node.nodeName == host
  {
    host := BrowseReads(ids, f, Browse(hosts, StoresIn(s)), |hosts|, r);
    EmptyStoreReads(ids, f, host);
    hide ReadHost, Traces;
    assert host in s;
    assert HostInvariant(ids, f, s[host]);
    HostReadsReported(ids, f, s[host], host, r);
    hide HostInvariant, OptionalFrom;
    NameOfReported(r, s[host], host);
  }

  lemma NameOfReported(r: Info, h: HostState, host: string)
    requires ReportedBy(r, h, host)
    ensures r.node.nodeName == host && r.node.id == h.id
  {
    hide OptionalFrom;
  }

  /** The record as its host announced it, before localhost marking. */
  ghost predicate SeenFrom(r: Info, s: State, host: string, here: seq<string>) {
    && host in s
    && ReportedBy(WithNodeName(r, host), s[host], host)
    && (r.node.nodeName == host || (r.node.nodeName == "" && host in here))
  }

  /** In every run, whatever hosts a client browses, every record it discovers comes from a
      host of the browse: all its fields were reported by that host's own local modules, it
      carries the host's id and announced session, and its name is the host's, or empty for a
      host that is also found locally. */
  lemma ClientsSeeLocalRecords(ids: IdText, f: Family, s: State, steps: seq<Step>, client: HostState,
                               all: seq<string>, here: seq<string>, r: Info)
    requires ids.RoundTrips() && AllFresh(s)
    requires r in AnswerOf(ids, f, After(ids, f, s, steps), client, Remote, all, here)
    ensures exists host :: host in all && SeenFrom(r, After(ids, f, s, steps), host, here)
  {
    NoEcho(ids, f, s, steps);
    hide After, Invariant, ReadBrowse, ReportedBy;
    var now := After(ids, f, s, steps);
    var xs, locals := ReadBrowse(ids, f, Browse(all, StoresIn(now))), ReadBrowse(ids, f, Browse(here, StoresIn(now)));
    var marked := Mark(xs, locals);
    var i :| 0 <= i < |marked| && marked[i] == r;
    var x := xs[i];
    var host := StateBrowse(ids, f, now, all, x);
    assert WithNodeName(r, host) == x;
    if Holds(locals, x) {
      var k :| 0 <= k < |locals| && Same(locals[k], x);
      var other := StateBrowse(ids, f, now, here, locals[k]);
      assert other == host;
    }
    assert SeenFrom(r, now, host, here);
  }
}

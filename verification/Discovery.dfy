/** Discovery and announcement over the module list. */
module Discovery {
  import opened Records
  import opened Store
  import opened Chains
  import opened Dedup
  import opened Filters
  import opened Codec
  import opened DnsSd
  import opened Registry

  /** What the modules of a list answer, one list of records for each. */
  ghost function Answers(nodes: seq<Module>): (lists: seq<seq<Info>>)
    reads nodes, set m | m in nodes :: m.impl
    ensures |lists| == |nodes| && forall i :: 0 <= i < |nodes| ==> lists[i] == nodes[i].Answer()
    ensures forall i :: 0 <= i < |nodes| && nodes[i].impl == null ==> lists[i] == nodes[i].answer
    ensures forall i :: 0 <= i < |nodes| && nodes[i].impl != null ==>
      var impl := nodes[i].impl;
      lists[i] == Discovered(impl.ids, impl.family, impl.announcing, impl.all, impl.here)
  {
    seq(|nodes|, i requires 0 <= i < |nodes| reads nodes, set m | m in nodes :: m.impl => nodes[i].Answer())
  }

  function Concat(lists: seq<seq<Info>>): seq<Info> {
    if lists == [] then [] else Concat(lists[..|lists| - 1]) + lists[|lists| - 1]
  }

  /** The candidates of a discovery over a list of modules. */
  ghost function Candidates(nodes: seq<Module>): seq<Info>
    reads nodes, set m | m in nodes :: m.impl
  {
    Concat(Answers(nodes))
  }

  /** What the operating system reports to each module of a list. */
  ghost function Reports(nodes: seq<Module>): (lists: seq<seq<Info>>)
    reads nodes
    ensures |lists| == |nodes| && forall i :: 0 <= i < |nodes| ==> lists[i] == nodes[i].answer
  {
    seq(|nodes|, i requires 0 <= i < |nodes| reads nodes => nodes[i].answer)
  }

  /** Local modules contribute what is reported to them, in list order. */
  lemma LocalCandidates(nodes: seq<Module>)
    requires forall m :: m in nodes ==> m.impl == null
    ensures Candidates(nodes) == Concat(Reports(nodes))
  {
    hide Concat, Module.Answer;
    forall i | 0 <= i < |nodes| ensures Answers(nodes)[i] == Reports(nodes)[i] {
      assert nodes[i] in nodes;
    }
    assert Answers(nodes) == Reports(nodes);
  }

  /** The chain a filter stands for; no filter accepts everything. */
  ghost function ChainOf(filter: Filter?, g: Graph): seq<Kind>
    requires filter != null ==> g.Acyclic() && filter in g.next
  {
    if filter == null then [] else g.Flatten(filter)
  }

  /** One turn of the loop: the filter decides whether the record is added. */
  method Offer(result: InfoList, filter: Filter?, ghost g: Graph, info: Info, ghost before: seq<Info>)
    requires filter != null ==> g.Describes() && g.Acyclic() && filter in g.next
    requires result.items == Collect(ChainOf(filter, g), before)
    modifies result
    ensures result.items == Collect(ChainOf(filter, g), before + [info])
  {
    hide Run, Collect, Graph.Flatten, Graph.Acyclic, Graph.Describes;
    ghost var accepted := result.items;
    var ok := true;
    if filter != null {
      ok := filter.Accept(g, result, info);
    } else {
      EmptyChain(accepted, info);
    }
    if ok {
      result.items := result.items + [info];
    }
    CollectSnoc(ChainOf(filter, g), before, info);
  }

  /** The inner loop of discovery: offers the records of one module to the filter. */
  method OfferAll(result: InfoList, filter: Filter?, ghost g: Graph, infos: seq<Info>, ghost before: seq<Info>)
    requires filter != null ==> g.Describes() && g.Acyclic() && filter in g.next
    requires result.items == Collect(ChainOf(filter, g), before)
    modifies result
    ensures result.items == Collect(ChainOf(filter, g), before + infos)
  {
    hide Collect, ChainOf, Graph.Flatten, Graph.Acyclic, Graph.Describes;
    ghost var ks := ChainOf(filter, g);
    assert before + infos[..0] == before;
    var i := 0;
    while i < |infos|
      invariant 0 <= i <= |infos|
      invariant result.items == Collect(ks, before + infos[..i])
    {
      Offer(result, filter, g, infos[i], before + infos[..i]);
      assert before + infos[..i + 1] == (before + infos[..i]) + [infos[i]];
      i := i + 1;
    }
    assert infos[..i] == infos;
  }

  lemma EmptyChain(current: seq<Info>, x: Info)
    ensures Run([], current, x) == (true, current)
  {
  }

  /** Offers what one module answers now. */
  method VisitModule(m: Module, result: InfoList, filter: Filter?, ghost g: Graph, localId: Id, ghost before: seq<Info>)
    requires filter != null ==> g.Describes() && g.Acyclic() && filter in g.next
    requires result.items == Collect(ChainOf(filter, g), before)
    modifies result
    ensures result.items == Collect(ChainOf(filter, g), before + old(m.Answer()))
  {
    hide Collect, ChainOf, Graph.Flatten, Graph.Acyclic, Graph.Describes;
    var infos := m.Discover(localId);
    OfferAll(result, filter, g, infos, before);
  }

  lemma ConcatSnoc(lists: seq<seq<Info>>, n: nat)
    requires n < |lists|
    ensures Concat(lists[..n + 1]) == Concat(lists[..n]) + lists[n]
  {
    assert lists[..n + 1][..n] == lists[..n];
  }

  lemma NothingCollected(ks: seq<Kind>)
    ensures Collect(ks, Concat([])) == []
  {
  }

  /** discoverGPUInfos and discoverNetInfos. */
  method DiscoverInfos(stack: Stack, filter: Filter?, ghost g: Graph, localId: Id) returns (result: InfoList)
    requires stack.Valid()
    requires filter != null ==> g.Describes() && g.Acyclic() && filter in g.next
    ensures fresh(result) && result.items == Collect(ChainOf(filter, g), old(Candidates(stack.nodes)))
  {
    NothingCollected(ChainOf(filter, g));
    hide Concat, Run, Collect, ChainOf, Graph.Flatten, Graph.Acyclic, Graph.Describes, Module.Answer;
    ghost var lists := Answers(stack.nodes);
    result := new InfoList();
    var m := stack.head;
    ghost var n := 0;
    while m != null
      invariant 0 <= n <= |stack.nodes| && m == stack.At(n)
      invariant result.items == Collect(ChainOf(filter, g), Concat(lists[..n]))
      decreases |stack.nodes| - n
    {
      assert m.Answer() == old(m.Answer()) == lists[n];
      VisitModule(m, result, filter, g, localId, Concat(lists[..n]));
      ConcatSnoc(lists, n);
      m := m.next;
      n := n + 1;
    }
    assert lists[..n] == lists;
  }

  /** Discovery with the default argument, a fresh duplicate filter. */
  method DiscoverDefault(stack: Stack, localId: Id) returns (result: InfoList)
    requires stack.Valid()
    ensures fresh(result) && result.items == Dedupe(old(Candidates(stack.nodes)))
  {
    var filter := new Filter(Duplicate);
    ghost var g := Graph(map[filter := []], map[filter := 0]);
    assert g.Flatten(filter) == [Duplicate];
    assert Answers(stack.nodes) == old(Answers(stack.nodes));
    result := DiscoverInfos(stack, filter, g, localId);
  }

  // ---------- announcement ----------

  lemma {:induction false} ConcatAppend(a: seq<seq<Info>>, b: seq<seq<Info>>)
    ensures Concat(a + b) == Concat(a) + Concat(b)
  {
    if b == [] {
      assert a + b == a;
    } else {
      ConcatAppend(a, b[..|b| - 1]);
      assert (a + b)[..|a + b| - 1] == a + b[..|b| - 1];
    }
  }

  lemma CandidatesConcat(a: seq<Module>, b: seq<Module>)
    ensures Candidates(a + b) == Candidates(a) + Candidates(b)
  {
    hide Concat, Module.Answer, Discovered;
    ConcatAppend(Answers(a), Answers(b));
    assert Answers(a + b) == Answers(a) + Answers(b);
  }

  lemma OneCandidate(m: Module)
    ensures Candidates([m]) == m.Answer()
  {
    hide Module.Answer, Discovered;
    var lists := Answers([m]);
    assert lists == [m.Answer()] && lists[..0] == [];
    assert Concat(lists) == Concat(lists[..0]) + lists[0];
  }

  lemma CandidatesAround(a: seq<Module>, m: Module, b: seq<Module>)
    ensures Candidates(a + [m] + b) == Candidates(a) + m.Answer() + Candidates(b)
  {
    hide Candidates, Module.Answer;
    CandidatesConcat(a + [m], b);
    CandidatesConcat(a, [m]);
    OneCandidate(m);
  }

  lemma AtOnePlace(nodes: seq<Module>, k: nat)
    requires forall i, j :: 0 <= i < j < |nodes| ==> nodes[i] != nodes[j]
    requires k < |nodes|
    ensures nodes == nodes[..k] + [nodes[k]] + nodes[k + 1..]
    ensures nodes[k] !in nodes[..k] && nodes[k] !in nodes[k + 1..]
  {
  }

  /** A module that answers nothing might as well not be in the list. */
  lemma SilentModule(nodes: seq<Module>, silent: Module)
    requires forall i, j :: 0 <= i < j < |nodes| ==> nodes[i] != nodes[j]
    requires silent.Answer() == []
    ensures Candidates(nodes) == Candidates(Without(nodes, silent))
  {
    hide Candidates, Module.Answer, Without;
    if silent in nodes {
      var k :| 0 <= k < |nodes| && nodes[k] == silent;
      var a, b := nodes[..k], nodes[k + 1..];
      AtOnePlace(nodes, k);
      WithoutAt(nodes, silent, k);
      CandidatesAround(a, silent, b);
      CandidatesConcat(a, b);
    } else {
      WithoutAbsent(nodes, silent);
    }
  }

  /** The modules of the list but one. */
  ghost function Others(stack: Stack, self: Module): seq<Module>
    reads stack
  {
    Without(stack.nodes, self)
  }

  /** The state an announcement leaves a module in, given what the store held and what the
      other modules answered before. */
  ghost predicate Announced(m: Module, prior: Texts, candidates: seq<Info>, localId: Id, session: string)
    requires m.impl != null
    reads m.impl
  {
    && !m.impl.announcing
    && m.impl.store == StoreAfter(m.impl.ids, m.impl.family, prior, localId, session, Dedupe(candidates))
  }

  /** The announcement of a DNS-SD module: it publishes what discovery finds in the other
      modules of the list, and its own discovery is enabled again afterwards. */
  method Announce(self: Module, stack: Stack, localId: Id, session: string) returns (ok: bool)
    requires stack.Valid() && self.impl != null
    requires forall m :: m in stack.nodes && m != self ==> m.impl != self.impl
    modifies self.impl
    ensures Announced(self, old(self.impl.store), old(Candidates(Others(stack, self))), localId, session)
    ensures ok <==> old(Candidates(Others(stack, self))) == [] || self.impl.reachable
    ensures self.impl.reachable == old(self.impl.reachable)
  {
    hide Without, Concat, StoreAfter, Dedupe;
    var impl := self.impl;
    ghost var others := Others(stack, self);
    ghost var lists := Answers(others);
    impl.announcing := true;
    forall i | 0 <= i < |others| ensures others[i].Answer() == lists[i] {
      WithoutMember(stack.nodes, self, others[i]);
      assert others[i] in others;
    }
    assert Answers(others) == lists;
    SilentModule(stack.nodes, self);
    var found := DiscoverDefault(stack, localId);
    impl.announcing := false;
    DedupeIsEmpty(Concat(lists));
    impl.Publish(found.items, localId, session);
    ok := found.items == [] || impl.reachable;
  }

  lemma DedupeIsEmpty(xs: seq<Info>)
    ensures Dedupe(xs) == [] <==> xs == []
  {
    DedupeKeepsKeys(xs);
    if xs != [] {
      assert Holds(xs, xs[0]);
      assert Holds(Dedupe(xs), xs[0]);
    }
  }

  /** The single DNS-SD module of a list, if it has one. */
  ghost predicate OnlyRemote(nodes: seq<Module>, remote: Module?) {
    && (forall m :: m in nodes && m != remote ==> m.impl == null)
    && (remote != null ==> remote in nodes && remote.impl != null)
  }

  /** The list of a process has at most one DNS-SD module, its singleton. */
  lemma ProcessHasOneRemote(nodes: seq<Module>, instances: map<Library, Module>)
    requires Hold(nodes, instances)
    ensures OnlyRemote(nodes, if Remote in instances then instances[Remote] else null)
  {
  }

  /** announceGPUInfos and announceNetInfos: every module announces in turn, up to the first
      failure. Local modules only print, so that the one DNS-SD module of the list decides. */
  method AnnounceAll(stack: Stack, ghost remote: Module?, localId: Id, session: string) returns (ok: bool)
    requires stack.Valid() && OnlyRemote(stack.nodes, remote)
    modifies if remote == null then {} else {remote.impl}
    ensures remote == null ==> ok
    ensures remote != null ==>
      Announced(remote, old(remote.impl.store), old(Candidates(Others(stack, remote))), localId, session)
    ensures remote != null ==> (ok <==> old(Candidates(Others(stack, remote))) == [] || old(remote.impl.reachable))
  {
    hide Others, Announced, Candidates, Module.Answer;
    ghost var candidates := if remote == null then [] else Candidates(Others(stack, remote));
    ghost var k := |stack.nodes|;
    if remote != null {
      k :| 0 <= k < |stack.nodes| && stack.nodes[k] == remote;
    }
    ok := true;
    var m := stack.head;
    ghost var n := 0;
    while m != null
      invariant 0 <= n <= |stack.nodes| && m == stack.At(n) && ok
      invariant n <= k && remote != null ==> unchanged(remote.impl) && Candidates(Others(stack, remote)) == candidates
      invariant n > k ==> Announced(remote, old(remote.impl.store), candidates, localId, session)
      invariant n > k ==> candidates == [] || old(remote.impl.reachable)
      decreases |stack.nodes| - n
    {
      assert n != k ==> m.impl == null;
      if m.impl != null {
        ok := Announce(m, stack, localId, session);
        if !ok {
          return;
        }
      }
      m := m.next;
      n := n + 1;
    }
  }

  lemma OthersAreLocal(stack: Stack, remote: Module)
    requires OnlyRemote(stack.nodes, remote)
    ensures Candidates(Others(stack, remote)) == Concat(Reports(Others(stack, remote)))
  {
    forall m | m in Others(stack, remote) ensures m.impl == null {
      WithoutMember(stack.nodes, remote, m);
    }
    LocalCandidates(Others(stack, remote));
  }

  /** The same for a process: its singleton, if in use, announces what is reported to the
      other modules. */
  method AnnounceProcess(process: Process, localId: Id, session: string) returns (ok: bool)
    requires process.Valid()
    modifies if Remote in process.instances then {process.instances[Remote].impl} else {}
    ensures process.Valid()
    ensures Remote !in process.instances ==> ok
    ensures Remote in process.instances ==>
      var remote := process.instances[Remote];
      var candidates := old(Concat(Reports(Others(process.stack, remote))));
      && Announced(remote, old(remote.impl.store), candidates, localId, session)
      && (ok <==> candidates == [] || old(remote.impl.reachable))
  {
    ghost var remote := if Remote in process.instances then process.instances[Remote] else null;
    ProcessHasOneRemote(process.stack.nodes, process.instances);
    if remote != null {
      OthersAreLocal(process.stack, remote);
    }
    hide Others, StoreAfter, Dedupe, Candidates, Hold;
    ok := AnnounceAll(process.stack, remote, localId, session);
  }
}

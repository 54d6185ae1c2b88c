/** What the filters that look at the candidate alone let through, in terms of the records. */
module Selection {
  import opened Text
  import opened Records
  import opened Chains
  import opened Dedup

  /** The records of a list that satisfy a condition, in order. */
  function Where(xs: seq<Info>, p: Info -> bool): seq<Info> {
    if xs == [] then [] else
      var ys, x := xs[..|xs| - 1], xs[|xs| - 1];
      if p(x) then Where(ys, p) + [x] else Where(ys, p)
  }

  /** A filter wants a record: SessionFilter the records of its session, GPUFilter the GPUs
      whose `node:port.device` matches, NetFilter the interfaces of its types and subnets. An
      empty session, expression or prefix list wants all, and so does a filter class for
      records of the other type. */
  predicate Wants(k: Kind, x: Info) {
    match k
    case Session(name) => name != "" ==> x.node.session == name
    case GpuMatch(Some(accepts)) =>
      x.Gpu? ==> accepts(x.node.nodeName + ":" + Print(x.port) + "." + Print(x.device))
    case NetMatch(types, None) => x.Net? ==> x.kind in types
    case NetMatch(types, Some(inSubnet)) =>
      x.Net? ==> x.kind in types && inSubnet(x.inetAddress, x.inet6Address)
    case _ => true
  }

  ghost predicate WantedByAll(ks: seq<Kind>, x: Info) {
    forall k :: k in ks ==> Wants(k, x)
  }

  lemma {:induction false} PassesIsWanted(ps: seq<Kind>, x: Info)
    requires ArePredicates(ps)
    ensures Passes(ps, x) <==> WantedByAll(ps, x)
  {
    if ps != [] {
      assert forall k :: k in ps <==> k == ps[0] || k in ps[1..];
      TestIsWanted(ps[0], x);
      RunPredicates(ps[1..], [], x);
      PassesIsWanted(ps[1..], x);
      hide Wants, Test;
    }
  }

  lemma TestIsWanted(k: Kind, x: Info)
    requires IsPredicate(k)
    ensures Test(k, [], x) <==> Wants(k, x)
  {
  }

  lemma {:induction false} SelectIsWhere(ps: seq<Kind>, xs: seq<Info>, p: Info -> bool)
    requires ArePredicates(ps) && forall x :: p(x) <==> WantedByAll(ps, x)
    ensures Select(ps, xs) == Where(xs, p)
  {
    if xs != [] {
      hide Passes, WantedByAll;
      SelectIsWhere(ps, xs[..|xs| - 1], p);
      PassesIsWanted(ps, xs[|xs| - 1]);
    }
  }

  lemma {:induction false} CollectIsSelect(ps: seq<Kind>, xs: seq<Info>)
    requires ArePredicates(ps)
    ensures Collect(ps, xs) == Select(ps, xs)
  {
    if xs != [] {
      var ys, x := xs[..|xs| - 1], xs[|xs| - 1];
      CollectIsSelect(ps, ys);
      RunPredicates(ps, Collect(ps, ys), x);
    }
  }

  /** Discovery through these filters is every candidate all of them want, in order, and with
      the duplicate filter among them the deduplication of that. */
  lemma ChainSelects(ps: seq<Kind>, qs: seq<Kind>, xs: seq<Info>, p: Info -> bool)
    requires ArePredicates(ps) && ArePredicates(qs) && forall x :: p(x) <==> WantedByAll(ps + qs, x)
    ensures Collect(ps + qs, xs) == Where(xs, p)
    ensures Collect(ps + [Duplicate] + qs, xs) == Dedupe(Where(xs, p))
  {
    CollectIsSelect(ps + qs, xs);
    SelectIsWhere(ps + qs, xs, p);
    DuplicateCommutes(ps, qs, xs);
  }

  lemma OneFilterSelects(k: Kind, xs: seq<Info>, p: Info -> bool)
    requires IsPredicate(k) && forall x :: p(x) <==> Wants(k, x)
    ensures Collect([k], xs) == Where(xs, p)
  {
    assert k in [k];
    assert forall x :: WantedByAll([k], x) <==> Wants(k, x);
    ChainSelects([k], [], xs, p);
    assert [k] + [] == [k];
  }

  /** The session filter keeps the records of its session, all of them if it is empty. */
  lemma SessionSelects(name: string, xs: seq<Info>, p: Info -> bool)
    requires forall x: Info :: p(x) <==> name == "" || x.node.session == name
    ensures Collect([Session(name)], xs) == Where(xs, p)
  {
    OneFilterSelects(Session(name), xs, p);
  }

  /** The GPU filter keeps the GPUs whose name, port and device it accepts, and all
      interfaces; without an expression it keeps everything. */
  lemma GpuMatchSelects(accepts: string -> bool, xs: seq<Info>, all: Info -> bool, p: Info -> bool)
    requires forall x: Info :: all(x)
    requires forall x: Info :: p(x) <==>
      x.Net? || accepts(x.node.nodeName + ":" + Print(x.port) + "." + Print(x.device))
    ensures Collect([GpuMatch(None)], xs) == Where(xs, all)
    ensures Collect([GpuMatch(Some(accepts))], xs) == Where(xs, p)
  {
    OneFilterSelects(GpuMatch(None), xs, all);
    OneFilterSelects(GpuMatch(Some(accepts)), xs, p);
  }

  /** The network filter keeps the interfaces of its types whose addresses are in a subnet,
      and all GPUs; without prefixes only the type counts. */
  lemma NetMatchSelects(types: set<NetType>, inSubnet: (string, string) -> bool, xs: seq<Info>,
                        p: Info -> bool, q: Info -> bool)
    requires forall x: Info :: p(x) <==> x.Gpu? || x.kind in types
    requires forall x: Info :: q(x) <==> x.Gpu? || (x.kind in types && inSubnet(x.inetAddress, x.inet6Address))
    ensures Collect([NetMatch(types, None)], xs) == Where(xs, p)
    ensures Collect([NetMatch(types, Some(inSubnet))], xs) == Where(xs, q)
  {
    OneFilterSelects(NetMatch(types, None), xs, p);
    OneFilterSelects(NetMatch(types, Some(inSubnet)), xs, q);
  }

  /** What Where leaves: every record that satisfies the condition, and no other. */
  lemma {:induction false} WhereMembers(xs: seq<Info>, p: Info -> bool)
    ensures forall x :: x in Where(xs, p) <==> x in xs && p(x)
    ensures (forall x :: x in xs ==> p(x)) ==> Where(xs, p) == xs
  {
    if xs != [] {
      var ys, x := xs[..|xs| - 1], xs[|xs| - 1];
      assert xs == ys + [x];
      WhereMembers(ys, p);
    }
  }

  // ---------- any chain ----------

  /** Whatever else is in the chain, all results are wanted by each of its filters. */
  lemma {:induction false} ResultsAreWanted(ks: seq<Kind>, k: Kind, xs: seq<Info>)
    requires k in ks
    ensures forall r :: r in Collect(ks, xs) ==> Wants(k, r)
  {
    if xs != [] {
      var ys, x := xs[..|xs| - 1], xs[|xs| - 1];
      var rs, qs := Collect(ks, ys), Collect(ks, xs);
      ResultsAreWanted(ks, k, ys);
      assert xs == ys + [x];
      CollectSnoc(ks, ys, x);
      PushKeeps(ks, rs, x);
      RunVerdict(ks, rs, x);
      hide Collect, Push, Run, Wants;
      forall i | 0 <= i < |qs| ensures Wants(k, qs[i]) {
        if i < |rs| {
          assert rs[i] in rs;
          StillWanted(k, rs[i], qs[i]);
        } else {
          WantedNow(ks, k, rs, x);
        }
      }
    }
  }

  lemma StillWanted(k: Kind, x: Info, y: Info)
    requires Wants(k, x) && NoFlags(x) == NoFlags(y)
    ensures Wants(k, y)
  {
    assert x.node == NoFlags(x).node == y.node;
  }

  lemma WantedNow(ks: seq<Kind>, k: Kind, rs: seq<Info>, x: Info)
    requires k in ks && forall i :: 0 <= i < |ks| ==> Test(ks[i], rs, x)
    ensures Wants(k, x)
  {
    var i :| 0 <= i < |ks| && ks[i] == k;
    assert Test(k, rs, x);
  }
}

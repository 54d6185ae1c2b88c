/** Filter chains as values: what a short-circuit sequence of filters does to the list of
    accepted records and a candidate, and what discovery through a chain returns. */
module Chains {
  import opened Text
  import opened Records

  /** The filter classes. The regular expression and the subnets are known only by what
      they accept; None stands for an empty expression or an empty list of prefixes. */
  datatype Kind =
    | Base
    | Duplicate
    | Mirror
    | Session(name: string)
    | GpuMatch(accepts: Option<string -> bool>)
    | NetMatch(types: set<NetType>, inSubnet: Option<(string, string) -> bool>)

  /** The `node:port.device` text GPUFilter matches. */
  function MatchName(x: Info): string
    requires x.Gpu?
  {
    x.node.nodeName + ":" + Print(x.port) + "." + Print(x.device)
  }

  /** std::find: the index of the first equal record, or the length. */
  function Find(xs: seq<Info>, c: Info): (i: nat)
    ensures i <= |xs|
    ensures i < |xs| ==> Same(xs[i], c)
    ensures forall j :: 0 <= j < i ==> !Same(xs[j], c)
  {
    if xs == [] || Same(xs[0], c) then 0 else
      var i := Find(xs[1..], c);
      assert forall j :: 1 <= j < i + 1 ==> xs[j] == xs[1..][j - 1];
      i + 1
  }

  predicate HasMirror(xs: seq<Info>, c: Info) {
    exists i :: 0 <= i < |xs| && Mirrors(xs[i], c)
  }

  /** The test a filter makes itself, before it asks the filters chained to it. A filter
      class without an overload for the candidate's record type passes it on. */
  predicate Test(k: Kind, current: seq<Info>, c: Info) {
    match k
    case Base => true
    case Duplicate => Find(current, c) == |current|
    case Mirror => c.Net? || !HasMirror(current, c)
    case Session(name) => name == "" || c.node.session == name
    case GpuMatch(accepts) => c.Net? || accepts.None? || accepts.value(MatchName(c))
    case NetMatch(types, inSubnet) =>
      c.Gpu? || (c.kind in types && (inSubnet.None? || inSubnet.value(c.inetAddress, c.inet6Address)))
  }

  /** What a filter that rejects the candidate does to the accepted records. */
  function Reject(k: Kind, current: seq<Info>, c: Info): (r: seq<Info>)
    requires !Test(k, current, c)
    ensures |r| == |current|
  {
    if k.Duplicate? then
      var i := Find(current, c);
      current[i := Merge(current[i], c)]
    else current
  }

  /** Short-circuit evaluation of a sequence of filters. */
  function Run(ks: seq<Kind>, current: seq<Info>, c: Info): (r: (bool, seq<Info>))
    ensures |r.1| == |current|
  {
    if ks == [] then (true, current)
    else if Test(ks[0], current, c) then Run(ks[1..], current, c)
    else (false, Reject(ks[0], current, c))
  }

  /** One turn of the discovery loop. */
  function Push(ks: seq<Kind>, current: seq<Info>, c: Info): seq<Info> {
    var (ok, after) := Run(ks, current, c);
    if ok then after + [c] else after
  }

  /** Discovery of a sequence of candidates through a chain. */
  function Collect(ks: seq<Kind>, xs: seq<Info>): seq<Info> {
    if xs == [] then [] else Push(ks, Collect(ks, xs[..|xs| - 1]), xs[|xs| - 1])
  }

  lemma CollectSnoc(ks: seq<Kind>, xs: seq<Info>, x: Info)
    ensures Collect(ks, xs + [x]) == Push(ks, Collect(ks, xs), x)
  {
    assert (xs + [x])[..|xs|] == xs;
  }

  lemma {:induction false} RunAppend(ks: seq<Kind>, ls: seq<Kind>, current: seq<Info>, c: Info)
    ensures Run(ks + ls, current, c)
         == if Run(ks, current, c).0 then Run(ls, current, c) else Run(ks, current, c)
    ensures Run(ks, current, c).0 ==> Run(ks, current, c).1 == current
  {
    if ks == [] {
      assert ks + ls == ls;
    } else {
      assert (ks + ls)[1..] == ks[1..] + ls;
      RunAppend(ks[1..], ls, current, c);
    }
  }

  /** A chain changes at most one accepted record, in its flags only, and only when it
      rejects the candidate, which then equals that record. */
  lemma {:induction false} RunChangesOneRecord(ks: seq<Kind>, current: seq<Info>, c: Info)
    ensures var (ok, after) := Run(ks, current, c);
            after == current ||
            var i := Find(current, c);
            !ok && i < |current| && after == current[i := Merge(current[i], c)]
  {
    if ks != [] {
      if Test(ks[0], current, c) {
        RunChangesOneRecord(ks[1..], current, c);
      }
    }
  }

  // ---------- the verdict does not depend on the order of the chain ----------

  function WithoutFlags(xs: seq<Info>): (r: seq<Info>)
    ensures |r| == |xs| && forall i :: 0 <= i < |r| ==> r[i] == NoFlags(xs[i])
  {
    seq(|xs|, i requires 0 <= i < |xs| => NoFlags(xs[i]))
  }

  lemma TestIgnoresFlags(k: Kind, a: seq<Info>, b: seq<Info>, c: Info)
    requires WithoutFlags(a) == WithoutFlags(b)
    ensures Test(k, a, c) == Test(k, b, c)
  {
    assert |a| == |WithoutFlags(a)| == |b|;
    forall i | 0 <= i < |a|
      ensures Same(a[i], c) <==> Same(b[i], c)
      ensures Mirrors(a[i], c) <==> Mirrors(b[i], c)
    {
      assert NoFlags(a[i]) == WithoutFlags(a)[i] == NoFlags(b[i]);
    }
  }

  lemma {:induction false} RunVerdict(ks: seq<Kind>, current: seq<Info>, c: Info)
    ensures Run(ks, current, c).0 <==> forall i :: 0 <= i < |ks| ==> Test(ks[i], current, c)
    ensures WithoutFlags(Run(ks, current, c).1) == WithoutFlags(current)
  {
    RunChangesOneRecord(ks, current, c);
    if ks != [] {
      RunVerdict(ks[1..], current, c);
      assert forall i :: 1 <= i < |ks| ==> ks[i] == ks[1..][i - 1];
      assert forall i :: 0 <= i < |ks| - 1 ==> ks[1..][i] == ks[i + 1];
    }
  }

  ghost predicate PartOf(ks: seq<Kind>, ls: seq<Kind>) {
    forall i :: 0 <= i < |ks| ==> exists j :: 0 <= j < |ls| && ls[j] == ks[i]
  }

  lemma VerdictIsShared(ks: seq<Kind>, ls: seq<Kind>, a: seq<Info>, b: seq<Info>, c: Info)
    requires PartOf(ks, ls) && WithoutFlags(a) == WithoutFlags(b)
    ensures Run(ls, b, c).0 ==> Run(ks, a, c).0
  {
    RunVerdict(ks, a, c);
    RunVerdict(ls, b, c);
    forall i | 0 <= i < |ks| ensures Test(ks[i], a, c) == Test(ks[i], b, c) {
      TestIgnoresFlags(ks[i], a, b, c);
    }
  }

  lemma PushModuloFlags(ks: seq<Kind>, a: seq<Info>, x: Info)
    ensures WithoutFlags(Push(ks, a, x)) == WithoutFlags(a) + if Run(ks, a, x).0 then [NoFlags(x)] else []
  {
    RunVerdict(ks, a, x);
  }

  /** Chaining the same filters in another order accepts the same records, in the same
      order; only the merged flags can differ. */
  lemma {:induction false} ChainOrderOnlyMovesFlags(ks: seq<Kind>, ls: seq<Kind>, xs: seq<Info>)
    requires PartOf(ks, ls) && PartOf(ls, ks)
    ensures WithoutFlags(Collect(ks, xs)) == WithoutFlags(Collect(ls, xs))
  {
    if xs != [] {
      var ys, x := xs[..|xs| - 1], xs[|xs| - 1];
      var a, b := Collect(ks, ys), Collect(ls, ys);
      ChainOrderOnlyMovesFlags(ks, ls, ys);
      VerdictIsShared(ks, ls, a, b, x);
      VerdictIsShared(ls, ks, b, a, x);
      PushModuloFlags(ks, a, x);
      PushModuloFlags(ls, b, x);
    }
  }

  lemma PushPair(k: Kind, l: Kind, current: seq<Info>, x: Info)
    ensures Push([k, l], current, x)
         == if !Test(k, current, x) then Reject(k, current, x)
            else if !Test(l, current, x) then Reject(l, current, x)
            else current + [x]
  {
    assert Run([k, l][1..], current, x) == Run([l], current, x);
    assert Run([l][1..], current, x) == (true, current);
  }

  /** The flags do depend on the order: a mirror filter in front of the duplicate filter
      keeps it from seeing, and so from merging, a record both would drop. */
  lemma MirrorFirstLosesFlags(g: Info, x: Info)
    requires Same(g, x) && Mirrors(g, x)
    ensures Collect([Duplicate, Mirror], [g, x]) == [Merge(g, x)]
    ensures Collect([Mirror, Duplicate], [g, x]) == [g]
  {
    FirstRecordPasses(g);
    EqualIsRejected(g, x);
    MirrorIsRejected(g, x);
    SecondIsRejected(Duplicate, Mirror, g, x);
    SecondIsRejected(Mirror, Duplicate, g, x);
  }

  lemma SecondIsRejected(k: Kind, l: Kind, g: Info, x: Info)
    requires Test(k, [], g) && Test(l, [], g) && !Test(k, [g], x)
    ensures Collect([k, l], [g, x]) == Reject(k, [g], x)
  {
    CollectPair([k, l], g, x);
    PushPair(k, l, [], g);
    assert [] + [g] == [g];
    PushPair(k, l, [g], x);
  }

  lemma FirstRecordPasses(g: Info)
    ensures Test(Duplicate, [], g) && Test(Mirror, [], g)
  {
  }

  lemma EqualIsRejected(g: Info, x: Info)
    requires Same(g, x)
    ensures !Test(Duplicate, [g], x) && Reject(Duplicate, [g], x) == [Merge(g, x)]
  {
    assert Find([g], x) == 0;
  }

  lemma MirrorIsRejected(g: Info, x: Info)
    requires Mirrors(g, x)
    ensures !Test(Mirror, [g], x)
  {
    assert Mirrors([g][0], x);
  }

  lemma CollectPair(ks: seq<Kind>, x: Info, y: Info)
    ensures Collect(ks, [x, y]) == Push(ks, Push(ks, [], x), y)
  {
    CollectSnoc(ks, [], x);
    assert [] + [x] == [x];
    CollectSnoc(ks, [x], y);
    assert [x] + [y] == [x, y];
  }

  // ---------- filters without an overload ----------

  /** The filter class overrides the call operator for the record type. */
  predicate Overloads(k: Kind, f: Family) {
    match k
    case Base => false
    case Duplicate => true
    case Session(_) => true
    case Mirror => f.GpuFamily?
    case GpuMatch(_) => f.GpuFamily?
    case NetMatch(_, _) => f.NetFamily?
  }

  function Relevant(ks: seq<Kind>, f: Family): seq<Kind> {
    if ks == [] then [] else
      (if Overloads(ks[0], f) then [ks[0]] else []) + Relevant(ks[1..], f)
  }

  lemma {:induction false} RunRelevant(ks: seq<Kind>, f: Family, current: seq<Info>, c: Info)
    requires BelongsTo(c, f)
    ensures Run(ks, current, c) == Run(Relevant(ks, f), current, c)
  {
    hide Reject;
    if ks != [] {
      RunRelevant(ks[1..], f, current, c);
      assert ks == [ks[0]] + ks[1..];
      if Overloads(ks[0], f) {
        assert Relevant(ks, f)[1..] == Relevant(ks[1..], f);
      } else {
        assert Relevant(ks, f) == Relevant(ks[1..], f);
      }
    }
  }

  /** Filters without an overload for a record type are neutral for lists of it. */
  lemma {:induction false} OtherFiltersAreNeutral(ks: seq<Kind>, f: Family, xs: seq<Info>)
    requires forall x :: x in xs ==> BelongsTo(x, f)
    ensures Collect(ks, xs) == Collect(Relevant(ks, f), xs)
  {
    if xs != [] {
      var ys, x := xs[..|xs| - 1], xs[|xs| - 1];
      assert xs == ys + [x];
      OtherFiltersAreNeutral(ks, f, ys);
      RunRelevant(ks, f, Collect(ks, ys), x);
      hide Run, Relevant;
    }
  }
}

/** Filters as the library builds them: objects chained through mutable lists, evaluated by
    recursion over the objects they reach. Evaluation means running the flattened chain. */
module Filters {
  import opened Records
  import opened Chains

  /** The vector of accepted records that discovery fills and DuplicateFilter updates. */
  class InfoList {
    var items: seq<Info>

    constructor ()
      ensures items == []
    {
      items := [];
    }
  }

  class Filter {
    const kind: Kind
    var next: seq<Filter>

    constructor (kind: Kind)
      ensures this.kind == kind && next == []
    {
      this.kind := kind;
      next := [];
    }

    /** operator| and operator|=: chains another filter behind this one. */
    method Chain(rhs: Filter) returns (chain: Filter)
      modifies this
      ensures chain == this && next == old(next) + [rhs]
    {
      next := next + [rhs];
      chain := this;
    }

    /** The call operator: this filter's own test, then the filters chained to it. */
    method Accept(ghost g: Graph, current: InfoList, candidate: Info) returns (ok: bool)
      requires g.Describes() && g.Acyclic() && this in g.next
      modifies current
      ensures (ok, current.items) == Run(g.Flatten(this), old(current.items), candidate)
      decreases g.rank[this], 1
    {
      if Test(kind, current.items, candidate) {
        ok := AcceptNext(g, current, candidate);
      } else {
        current.items := Reject(kind, current.items, candidate);
        ok := false;
      }
      assert g.Flatten(this)[1..] == g.FlattenBelow(next, g.rank[this]);
    }

    /** The call operator of the base class: asks the chained filters in order, up to the
        first that rejects. */
    method AcceptNext(ghost g: Graph, current: InfoList, candidate: Info) returns (ok: bool)
      requires g.Describes() && g.Acyclic() && this in g.next
      modifies current
      ensures (ok, current.items) == Run(g.FlattenBelow(next, g.rank[this]), old(current.items), candidate)
      decreases g.rank[this], 0
    {
      var i := 0;
      ghost var bound := g.rank[this];
      while i < |next|
        invariant 0 <= i <= |next|
        invariant Run(g.FlattenBelow(next, bound), old(current.items), candidate)
               == Run(g.FlattenBelow(next[i..], bound), current.items, candidate)
      {
        var head, rest := next[i], next[i + 1..];
        assert next[i..] == [head] + rest;
        RunAppend(g.Flatten(head), g.FlattenBelow(rest, bound), current.items, candidate);
        var passed := head.Accept(g, current, candidate);
        if !passed {
          return false;
        }
        i := i + 1;
      }
      ok := true;
    }
  }

  // ---------- acyclic graphs and their flattening ----------

  /** The links between some filters, and a number for each that every link decreases. */
  datatype Graph = Graph(next: map<Filter, seq<Filter>>, rank: map<Filter, nat>) {
    ghost predicate Describes()
      reads next.Keys
    {
      forall f :: f in next ==> f.next == next[f]
    }

    ghost predicate Acyclic() {
      && rank.Keys == next.Keys
      && forall f :: f in next ==> Below(next[f], rank[f])
    }

    ghost predicate Below(fs: seq<Filter>, bound: nat) {
      forall i :: 0 <= i < |fs| ==> fs[i] in rank && rank[fs[i]] < bound
    }

    /** The filters reached from f, in preorder. */
    ghost function Flatten(f: Filter): seq<Kind>
      requires Acyclic() && f in next
      decreases rank[f], 1, 0
    {
      [f.kind] + FlattenBelow(next[f], rank[f])
    }

    ghost function FlattenBelow(fs: seq<Filter>, bound: nat): seq<Kind>
      requires Acyclic() && Below(fs, bound)
      decreases bound, 0, |fs|
    {
      if fs == [] then [] else Flatten(fs[0]) + FlattenBelow(fs[1..], bound)
    }

    /** The filters an evaluation of f can call. */
    ghost function Reached(f: Filter): (r: set<Filter>)
      requires Acyclic() && f in next
      ensures f in r && forall h :: h in r ==> h in rank && rank[h] <= rank[f]
      decreases rank[f], 1, 0
    {
      {f} + ReachedBelow(next[f], rank[f])
    }

    ghost function ReachedBelow(fs: seq<Filter>, bound: nat): (r: set<Filter>)
      requires Acyclic() && Below(fs, bound)
      ensures forall h :: h in r ==> h in rank && rank[h] < bound
      decreases bound, 0, |fs|
    {
      if fs == [] then {} else Reached(fs[0]) + ReachedBelow(fs[1..], bound)
    }

    /** The graph with b chained behind a; the new numbering fits when b does not reach a. */
    ghost function Link(a: Filter, b: Filter): (g: Graph)
      requires Acyclic() && a in next && b in next
    {
      Graph(next[a := next[a] + [b]],
            map f | f in next :: rank[f] + if a in Reached(f) then rank[b] + 1 else 0)
    }
  }

  lemma {:induction false} ReachedMember(g: Graph, fs: seq<Filter>, i: nat, bound: nat)
    requires g.Acyclic() && g.Below(fs, bound) && i < |fs|
    ensures g.Reached(fs[i]) <= g.ReachedBelow(fs, bound)
    decreases |fs|
  {
    if i > 0 {
      ReachedMember(g, fs[1..], i - 1, bound);
    }
  }

  /** h is the acyclic graph g with b chained behind a. */
  ghost predicate Extends(g: Graph, h: Graph, a: Filter, b: Filter) {
    && g.Acyclic() && h.Acyclic() && h.next.Keys == g.next.Keys
    && a in g.next && b in g.next
    && h.next[a] == g.next[a] + [b]
    && forall f :: f in g.next && f != a ==> h.next[f] == g.next[f]
  }

  lemma LinkDecreases(g: Graph, a: Filter, b: Filter, f: Filter, i: nat)
    requires g.Acyclic() && a in g.next && b in g.next && a !in g.Reached(b) && f in g.next
    requires i < |g.Link(a, b).next[f]|
    ensures var h := g.Link(a, b); h.next[f][i] in h.rank && h.rank[h.next[f][i]] < h.rank[f]
  {
    if i < |g.next[f]| {
      ReachedMember(g, g.next[f], i, g.rank[f]);
    }
  }

  lemma LinkBelow(g: Graph, a: Filter, b: Filter, f: Filter)
    requires g.Acyclic() && a in g.next && b in g.next && a !in g.Reached(b) && f in g.next
    ensures var h := g.Link(a, b); h.next.Keys == h.rank.Keys == g.next.Keys && h.Below(h.next[f], h.rank[f])
  {
    var h := g.Link(a, b);
    hide Graph.Reached, Graph.Acyclic;
    forall i | 0 <= i < |h.next[f]| ensures h.next[f][i] in h.rank && h.rank[h.next[f][i]] < h.rank[f] {
      LinkDecreases(g, a, b, f, i);
    }
  }

  lemma LinkExtends(g: Graph, a: Filter, b: Filter)
    requires g.Acyclic() && a in g.next && b in g.next && a !in g.Reached(b)
    ensures Extends(g, g.Link(a, b), a, b)
  {
    var h := g.Link(a, b);
    hide Graph.Reached, Graph.Below;
    LinkBelow(g, a, b, a);
    forall f | f in h.next ensures h.Below(h.next[f], h.rank[f]) {
      LinkBelow(g, a, b, f);
    }
  }

  /** What a filter that does not reach a means is untouched by a change of a. */
  lemma {:induction false} Untouched(g: Graph, h: Graph, a: Filter, f: Filter)
    requires g.Acyclic() && h.Acyclic() && h.next.Keys == g.next.Keys && f in g.next
    requires forall f :: f in g.next && f != a ==> h.next[f] == g.next[f]
    requires a !in g.Reached(f)
    ensures h.Flatten(f) == g.Flatten(f) && h.Reached(f) == g.Reached(f)
    decreases g.rank[f], 1, 0
  {
    UntouchedBelow(g, h, a, g.next[f], g.rank[f], h.rank[f]);
  }

  lemma {:induction false} UntouchedBelow(g: Graph, h: Graph, a: Filter, fs: seq<Filter>, low: nat, high: nat)
    requires g.Acyclic() && h.Acyclic() && h.next.Keys == g.next.Keys
    requires forall f :: f in g.next && f != a ==> h.next[f] == g.next[f]
    requires g.Below(fs, low) && h.Below(fs, high)
    requires a !in g.ReachedBelow(fs, low)
    ensures h.FlattenBelow(fs, high) == g.FlattenBelow(fs, low)
    ensures h.ReachedBelow(fs, high) == g.ReachedBelow(fs, low)
    decreases low, 0, |fs|
  {
    if fs != [] {
      Untouched(g, h, a, fs[0]);
      UntouchedBelow(g, h, a, fs[1..], low, high);
    }
  }

  lemma {:induction false} BelowSnoc(g: Graph, fs: seq<Filter>, f: Filter, bound: nat)
    requires g.Acyclic() && g.Below(fs, bound) && g.Below(fs + [f], bound)
    requires f in g.next && g.rank[f] < bound
    ensures g.FlattenBelow(fs + [f], bound) == g.FlattenBelow(fs, bound) + g.Flatten(f)
    ensures g.ReachedBelow(fs + [f], bound) == g.ReachedBelow(fs, bound) + g.Reached(f)
    decreases |fs|
  {
    if fs == [] {
      assert [] + [f] == [f] && [f][1..] == [];
    } else {
      assert (fs + [f])[1..] == fs[1..] + [f];
      BelowSnoc(g, fs[1..], f, bound);
    }
  }

  lemma ExtendBelow(g: Graph, h: Graph, a: Filter, b: Filter)
    requires Extends(g, h, a, b) && a !in g.Reached(b)
    ensures var fs, low, high := g.next[a], g.rank[a], h.rank[a];
      && h.Below(fs, high) && b in h.rank && h.rank[b] < high
      && h.FlattenBelow(fs, high) == g.FlattenBelow(fs, low)
      && h.ReachedBelow(fs, high) == g.ReachedBelow(fs, low)
      && h.FlattenBelow(fs + [b], high) == h.FlattenBelow(fs, high) + h.Flatten(b)
      && h.ReachedBelow(fs + [b], high) == h.ReachedBelow(fs, high) + h.Reached(b)
  {
    var fs := g.next[a];
    BelowPrefix(h, fs, b, h.rank[a]);
    UntouchedBelow(g, h, a, fs, g.rank[a], h.rank[a]);
    BelowSnoc(h, fs, b, h.rank[a]);
  }

  /** Chaining b behind a, which b does not reach, appends b's flattening to a's. */
  lemma ExtendFlattens(g: Graph, h: Graph, a: Filter, b: Filter)
    requires Extends(g, h, a, b) && a !in g.Reached(b)
    ensures h.Flatten(a) == g.Flatten(a) + g.Flatten(b)
  {
    ExtendBelow(g, h, a, b);
    Untouched(g, h, a, b);
  }

  lemma ExtendReaches(g: Graph, h: Graph, a: Filter, b: Filter)
    requires Extends(g, h, a, b) && a !in g.Reached(b)
    ensures h.Reached(a) == g.Reached(a) + g.Reached(b)
  {
    ExtendBelow(g, h, a, b);
    Untouched(g, h, a, b);
  }

  lemma BelowPrefix(g: Graph, fs: seq<Filter>, f: Filter, bound: nat)
    requires g.Below(fs + [f], bound)
    ensures g.Below(fs, bound) && f in g.rank && g.rank[f] < bound
  {
    assert (fs + [f])[|fs|] == f;
    assert forall i :: 0 <= i < |fs| ==> (fs + [f])[i] == fs[i];
  }

  /** The free operator|. */
  method Pipe(a: Filter, b: Filter, ghost g: Graph) returns (chain: Filter, ghost h: Graph)
    requires g.Describes() && g.Acyclic() && a in g.next && b in g.next && a !in g.Reached(b)
    modifies a
    ensures chain == a && Extends(g, h, a, b) && h.Describes()
    ensures h.Flatten(a) == g.Flatten(a) + g.Flatten(b)
    ensures h.Reached(a) == g.Reached(a) + g.Reached(b)
  {
    h := g.Link(a, b);
    LinkExtends(g, a, b);
    ExtendFlattens(g, h, a, b);
    ExtendReaches(g, h, a, b);
    chain := a.Chain(b);
  }

  /** (a | b) | c. */
  method PipeLeft(a: Filter, b: Filter, c: Filter, ghost g: Graph) returns (chain: Filter, ghost h: Graph)
    requires g.Describes() && g.Acyclic() && a in g.next && b in g.next && c in g.next
    requires a !in g.Reached(b) && a !in g.Reached(c)
    modifies a
    ensures h.Describes() && h.Acyclic() && chain in h.next
    ensures h.Flatten(chain) == g.Flatten(a) + g.Flatten(b) + g.Flatten(c)
  {
    ghost var m;
    chain, m := Pipe(a, b, g);
    Untouched(g, m, a, c);
    chain, h := Pipe(chain, c, m);
  }

  lemma ConcatAssociates(a: seq<Kind>, b: seq<Kind>, c: seq<Kind>)
    ensures a + (b + c) == a + b + c
  {
  }

  /** a | (b | c): from filters that do not reach each other the same chain as (a | b) | c. */
  method PipeRight(a: Filter, b: Filter, c: Filter, ghost g: Graph) returns (chain: Filter, ghost h: Graph)
    requires g.Describes() && g.Acyclic() && a in g.next && b in g.next && c in g.next
    requires a !in g.Reached(b) && a !in g.Reached(c)
    requires b !in g.Reached(c) && b !in g.Reached(a)
    modifies a, b
    ensures h.Describes() && h.Acyclic() && chain in h.next
    ensures h.Flatten(chain) == g.Flatten(a) + g.Flatten(b) + g.Flatten(c)
  {
    ghost var m;
    var tail;
    tail, m := Pipe(b, c, g);
    Untouched(g, m, b, a);
    chain, h := Pipe(a, tail, m);
    ConcatAssociates(g.Flatten(a), g.Flatten(b), g.Flatten(c));
  }
}

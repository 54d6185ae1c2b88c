/** The module registry: an intrusive linked list that modules join when constructed and
    leave when destroyed, and the singletons that use and dispose keep in it. */
module Registry {
  import opened Records
  import opened Codec
  import opened DnsSd

  /** The module libraries; each keeps at most one instance. */
  datatype Library = Cgl | Glx | Wgl | Sys | Remote

  /** The modules of the list, newest last. The list is reached from head through next. */
  class Stack {
    var head: Module?
    ghost var nodes: seq<Module>

    constructor ()
      ensures Valid() && nodes == []
    {
      head := null;
      nodes := [];
    }

    ghost predicate Valid()
      reads this, nodes
    {
      && (forall i, j :: 0 <= i < j < |nodes| ==> nodes[i] != nodes[j])
      && head == At(0)
      && forall i, j :: 0 <= i < |nodes| && j == i + 1 ==> nodes[i].next == At(j)
    }

    /** The node at position i, or null behind the last one. */
    ghost function At(i: nat): Module?
      reads this
    {
      if i < |nodes| then nodes[i] else null
    }

    /** The last node, found by walking the list. */
    method Last() returns (last: Module?)
      requires Valid()
      ensures last == if nodes == [] then null else nodes[|nodes| - 1]
    {
      last := null;
      var m := head;
      ghost var i := 0;
      while m != null
        invariant 0 <= i <= |nodes| && m == At(i)
        invariant last == if i == 0 then null else nodes[i - 1]
        decreases |nodes| - i
      {
        last, m := m, m.next;
        i := i + 1;
      }
    }
  }

  /** A registered module. A local module answers with what the operating system reports;
      the DNS-SD modules own an implementation object. */
  class Module {
    const library: Library
    const impl: DnsSd?
    var next: Module?
    var answer: seq<Info>

    /** Appends the new module to the list. */
    constructor (stack: Stack, library: Library, impl: DnsSd?)
      requires stack.Valid()
      modifies stack, stack.nodes
      ensures this.library == library && this.impl == impl && answer == []
      ensures stack.Valid() && stack.nodes == old(stack.nodes) + [this]
    {
      this.library := library;
      this.impl := impl;
      this.next := null;
      this.answer := [];
      new;
      var last := stack.Last();
      if last == null {
        stack.head := this;
      } else {
        last.next := this;
      }
      stack.nodes := stack.nodes + [this];
      forall i | 0 <= i < |stack.nodes| ensures stack.nodes[i].next == stack.At(i + 1) {
        assert i < |old(stack.nodes)| ==> old(stack.nodes[i].next) == old(stack.At(i + 1));
      }
    }

    /** The destructor: unlinks the module. */
    method Destroy(stack: Stack)
      requires stack.Valid()
      modifies stack, stack.nodes
      ensures stack.Valid() && stack.nodes == Without(old(stack.nodes), this)
      ensures this !in stack.nodes
    {
      var previous: Module? := null;
      var m := stack.head;
      ghost var i := 0;
      while m != null
        invariant 0 <= i <= |stack.nodes| && m == stack.At(i)
        invariant previous == if i == 0 then null else stack.nodes[i - 1]
        invariant this !in stack.nodes[..i]
        invariant stack.Valid() && stack.nodes == old(stack.nodes)
        decreases |stack.nodes| - i
      {
        if m == this {
          Unlink(stack, previous, i);
          WithoutAt(old(stack.nodes), this, i);
          return;
        }
        previous, m := m, m.next;
        i := i + 1;
      }
      WithoutAbsent(stack.nodes, this);
    }

    method Unlink(stack: Stack, previous: Module?, ghost i: nat)
      requires stack.Valid() && i < |stack.nodes| && stack.nodes[i] == this
      requires previous == if i == 0 then null else stack.nodes[i - 1]
      modifies stack, stack.nodes
      ensures stack.Valid() && stack.nodes == Removed(old(stack.nodes), i)
    {
      ghost var before := stack.nodes;
      if previous != null {
        previous.next := next;
      } else {
        stack.head := next;
      }
      hide Removed;
      assert next == old(stack.At(i + 1));
      ghost var rest := Removed(before, i);
      stack.nodes := rest;
      forall k | 0 <= k < |rest| ensures rest[k].next == stack.At(k + 1) {
        ghost var j := if k < i then k else k + 1;
        assert old(before[j].next) == old(stack.At(j + 1));
      }
    }

    /** What discover returns now. */
    function Answer(): seq<Info>
      reads this, impl
    {
      if impl == null then answer else impl.Found()
    }

    method Discover(localId: Id) returns (infos: seq<Info>)
      ensures infos == Answer()
    {
      if impl == null {
        infos := answer;
      } else {
        infos := impl.Discover(localId);
      }
    }
  }

  function Removed<T>(xs: seq<T>, i: nat): (rest: seq<T>)
    requires i < |xs|
    ensures |rest| == |xs| - 1
    ensures forall k :: 0 <= k < |rest| ==> rest[k] == if k < i then xs[k] else xs[k + 1]
  {
    xs[..i] + xs[i + 1..]
  }

  /** A sequence without the elements equal to x. */
  function Without<T(==)>(xs: seq<T>, x: T): (r: seq<T>)
    ensures x !in r
  {
    if xs == [] then [] else if xs[0] == x then Without(xs[1..], x) else [xs[0]] + Without(xs[1..], x)
  }

  lemma {:induction false} WithoutMember<T>(xs: seq<T>, x: T, y: T)
    ensures y in Without(xs, x) <==> y in xs && y != x
  {
    if xs != [] {
      WithoutMember(xs[1..], x, y);
      assert xs == [xs[0]] + xs[1..];
    }
  }

  lemma {:induction false} WithoutAbsent<T>(xs: seq<T>, x: T)
    requires x !in xs
    ensures Without(xs, x) == xs
  {
    if xs != [] {
      WithoutAbsent(xs[1..], x);
    }
  }

  lemma {:induction false} WithoutAt<T>(xs: seq<T>, x: T, i: nat)
    requires i < |xs| && xs[i] == x && x !in xs[..i] && x !in xs[i + 1..]
    ensures Without(xs, x) == xs[..i] + xs[i + 1..]
  {
    if i == 0 {
      WithoutAbsent(xs[1..], x);
    } else {
      assert xs[1..][..i - 1] == xs[..i][1..];
      assert xs[0] in xs[..i];
      WithoutAt(xs[1..], x, i - 1);
      assert xs[..i] == [xs[0]] + xs[1..][..i - 1];
    }
  }

  // ---------- use and dispose ----------

  datatype Op = Use(library: Library) | Dispose(library: Library)

  /** The libraries with an instance, in list order, after one more operation. */
  function Apply(live: seq<Library>, op: Op): seq<Library> {
    match op
    case Use(l) => if l in live then live else live + [l]
    case Dispose(l) => Without(live, l)
  }

  function Replay(ops: seq<Op>): seq<Library> {
    if ops == [] then [] else Apply(Replay(ops[..|ops| - 1]), ops[|ops| - 1])
  }

  /** The module singletons of a process and the list they are in. */
  class Process {
    const stack: Stack
    const family: Family
    const ids: IdText
    var instances: map<Library, Module>

    constructor (family: Family, ids: IdText)
      ensures Valid() && stack.nodes == [] && fresh(stack)
    {
      this.stack := new Stack();
      this.family := family;
      this.ids := ids;
      this.instances := map[];
    }

    ghost predicate Valid()
      reads this, stack, stack.nodes
    {
      stack.Valid() && Hold(stack.nodes, instances) && Serve(stack.nodes, family, ids)
    }

    ghost function Live(): (ls: seq<Library>)
      reads this, stack
    {
      Libraries(stack.nodes)
    }

    method UseLibrary(l: Library)
      requires Valid()
      modifies this, stack, stack.nodes
      ensures Valid() && Live() == Apply(old(Live()), Use(l))
      ensures forall m :: m in stack.nodes ==> m in old(stack.nodes) || fresh(m)
      ensures l in old(instances) ==> instances == old(instances) && stack.nodes == old(stack.nodes)
      ensures l !in old(instances) ==> l in instances && fresh(instances[l]) && instances[l].answer == []
      ensures l !in old(instances) && l == Remote ==>
        var impl := instances[l].impl;
        impl != null && fresh(impl) && !impl.announcing && impl.store == map[]
    {
      hide Hold, Libraries, Without, Stack.Valid;
      HeldLibraries(stack.nodes, instances, l);
      if l !in instances {
        ghost var nodes, before := stack.nodes, instances;
        var impl: DnsSd? := null;
        if l == Remote {
          impl := new DnsSd(family, ids);
        }
        var m := new Module(stack, l, impl);
        instances := instances[l := m];
        HoldAdd(nodes, before, m);
      }
    }

    method DisposeLibrary(l: Library)
      requires Valid()
      modifies this, stack, stack.nodes
      ensures Valid() && Live() == Apply(old(Live()), Dispose(l))
      ensures forall m :: m in stack.nodes ==> m in old(stack.nodes)
    {
      hide Hold, Libraries, Without, Stack.Valid;
      HeldLibraries(stack.nodes, instances, l);
      if l in instances {
        var m := instances[l];
        HoldRemove(stack.nodes, instances, m);
        m.Destroy(stack);
        instances := instances - {l};
      } else {
        WithoutAbsent(Live(), l);
      }
    }

    /** After any sequence of use and dispose the list is the replay of the sequence. */
    method Execute(ops: seq<Op>)
      requires Valid() && stack.nodes == []
      modifies this, stack
      ensures Valid() && Live() == Replay(ops)
    {
      assert Live() == [];
      hide Hold, Libraries, Apply, Stack.Valid;
      var i := 0;
      while i < |ops|
        invariant 0 <= i <= |ops|
        invariant Valid() && Live() == Replay(ops[..i])
        invariant forall m :: m in stack.nodes ==> fresh(m)
      {
        Perform(ops[i]);
        assert ops[..i + 1][..i] == ops[..i];
        i := i + 1;
      }
      assert ops[..i] == ops;
    }

    method Perform(op: Op)
      requires Valid()
      modifies this, stack, stack.nodes
      ensures Valid() && Live() == Apply(old(Live()), op)
      ensures forall m :: m in stack.nodes ==> m in old(stack.nodes) || fresh(m)
    {
      hide Hold, Libraries, Apply, Stack.Valid;
      match op {
        case Use(l) => UseLibrary(l);
        case Dispose(l) => DisposeLibrary(l);
      }
    }
  }

  /** The list holds exactly the instances: a library's instance pointer is set exactly when
      its module is in the list. */
  ghost predicate Hold(nodes: seq<Module>, instances: map<Library, Module>) {
    && (forall l :: l in instances ==> instances[l].library == l && instances[l] in nodes)
    && (forall m :: m in nodes ==> m.library in instances && instances[m.library] == m)
    && forall m :: m in nodes ==> (m.impl != null <==> m.library == Remote)
  }

  /** The DNS-SD modules are of the given family. */
  ghost predicate Serve(nodes: seq<Module>, family: Family, ids: IdText) {
    forall m :: m in nodes && m.impl != null ==> m.impl.family == family && m.impl.ids == ids
  }

  ghost function Libraries(nodes: seq<Module>): (ls: seq<Library>)
    ensures |ls| == |nodes| && forall i :: 0 <= i < |ls| ==> ls[i] == nodes[i].library
  {
    seq(|nodes|, i requires 0 <= i < |nodes| => nodes[i].library)
  }

  lemma HeldLibraries(nodes: seq<Module>, instances: map<Library, Module>, l: Library)
    requires Hold(nodes, instances)
    ensures l in Libraries(nodes) <==> l in instances
    ensures l in instances ==> instances[l] in nodes && instances[l].library == l
  {
    if l in instances {
      var i :| 0 <= i < |nodes| && nodes[i] == instances[l];
      assert Libraries(nodes)[i] == l;
    }
    if l in Libraries(nodes) {
      var i :| 0 <= i < |nodes| && Libraries(nodes)[i] == l;
      assert nodes[i] in nodes;
    }
  }

  lemma HoldAdd(nodes: seq<Module>, instances: map<Library, Module>, m: Module)
    requires Hold(nodes, instances) && m.library !in instances && (m.impl != null <==> m.library == Remote)
    ensures Hold(nodes + [m], instances[m.library := m])
    ensures Libraries(nodes + [m]) == Libraries(nodes) + [m.library]
  {
    assert forall n :: n in nodes + [m] ==> n in nodes || n == m;
  }

  lemma HoldRemove(nodes: seq<Module>, instances: map<Library, Module>, m: Module)
    requires Hold(nodes, instances) && m in nodes
    ensures Hold(Without(nodes, m), instances - {m.library})
    ensures Libraries(Without(nodes, m)) == Without(Libraries(nodes), m.library)
    ensures forall n :: n in Without(nodes, m) ==> n in nodes
  {
    forall n | n in nodes && n != m ensures n.library != m.library {
      assert instances[n.library] == n && instances[m.library] == m;
    }
    var rest := instances - {m.library};
    forall n | n in Without(nodes, m) ensures n in nodes && n.library in rest && rest[n.library] == n {
      WithoutMember(nodes, m, n);
    }
    forall l | l in rest ensures rest[l] in Without(nodes, m) {
      WithoutMember(nodes, m, rest[l]);
    }
    LibrariesWithout(nodes, m);
  }

  lemma {:induction false} LibrariesWithout(nodes: seq<Module>, m: Module)
    requires forall i :: 0 <= i < |nodes| && nodes[i] != m ==> nodes[i].library != m.library
    ensures Libraries(Without(nodes, m)) == Without(Libraries(nodes), m.library)
  {
    if nodes != [] {
      LibrariesWithout(nodes[1..], m);
      assert Libraries(nodes)[1..] == Libraries(nodes[1..]);
    }
  }

  // ---------- what the replay is ----------

  /** The last operation on l is a use. */
  predicate EndsInUse(ops: seq<Op>, l: Library) {
    if ops == [] then false else
      var op := ops[|ops| - 1];
      if op.library == l then op.Use? else EndsInUse(ops[..|ops| - 1], l)
  }

  /** i is the use that registered l: the first one after its last dispose. */
  ghost predicate Registers(ops: seq<Op>, l: Library, i: nat) {
    && i < |ops| && ops[i] == Use(l)
    && (forall k :: i < k < |ops| ==> ops[k] != Dispose(l))
    && Disposed(ops, l, i)
  }

  /** Where l was registered, if it is live. */
  function Registration(ops: seq<Op>, l: Library): nat {
    if ops == [] then 0 else
      var n := |ops| - 1;
      if ops[n] == Use(l) && l !in Replay(ops[..n]) then n else Registration(ops[..n], l)
  }

  lemma {:induction false} WithoutOrder<T>(xs: seq<T>, x: T, rank: T -> int)
    requires forall i, j :: 0 <= i < j < |xs| ==> rank(xs[i]) < rank(xs[j])
    ensures forall i, j :: 0 <= i < j < |Without(xs, x)| ==> rank(Without(xs, x)[i]) < rank(Without(xs, x)[j])
  {
    if xs != [] {
      WithoutOrder(xs[1..], x, rank);
      forall y | y in Without(xs[1..], x) ensures rank(xs[0]) < rank(y) {
        WithoutMember(xs[1..], x, y);
        var j :| 0 <= j < |xs[1..]| && xs[1..][j] == y;
        assert rank(xs[0]) < rank(xs[j + 1]);
      }
    }
  }

  lemma {:induction false} Registered(ops: seq<Op>)
    ensures forall l :: l in Replay(ops) <==> EndsInUse(ops, l)
    ensures forall l :: Registration(ops, l) < |ops| || ops == []
    ensures forall i, j :: 0 <= i < j < |Replay(ops)| ==>
      Registration(ops, Replay(ops)[i]) < Registration(ops, Replay(ops)[j])
  {
    if ops != [] {
      var n := |ops| - 1;
      var before, op := ops[..n], ops[n];
      var live := Replay(before);
      Registered(before);
      WithoutOrder(live, op.library, l => Registration(before, l));
      forall l ensures l in Without(live, op.library) <==> l in live && l != op.library {
        WithoutMember(live, op.library, l);
      }
      if op.Use? && op.library !in live {
        assert forall i :: 0 <= i < |live| ==> live[i] in live;
      }
    }
  }

  /** Every use of l below n is followed by a dispose of l below n. */
  ghost predicate Disposed(ops: seq<Op>, l: Library, n: nat)
    requires n <= |ops|
  {
    forall k :: 0 <= k < n && ops[k] == Use(l) ==> exists m :: k < m < n && ops[m] == Dispose(l)
  }

  lemma DisposedPrefix(ops: seq<Op>, l: Library, n: nat, m: nat)
    requires n <= m <= |ops|
    ensures Disposed(ops[..m], l, n) <==> Disposed(ops, l, n)
  {
    if Disposed(ops[..m], l, n) {
      forall k | 0 <= k < n && ops[k] == Use(l) ensures exists d :: k < d < n && ops[d] == Dispose(l) {
        assert ops[..m][k] == Use(l);
        var d :| k < d < n && ops[..m][d] == Dispose(l);
        assert ops[d] == Dispose(l);
      }
    }
    if Disposed(ops, l, n) {
      forall k | 0 <= k < n && ops[..m][k] == Use(l) ensures exists d :: k < d < n && ops[..m][d] == Dispose(l) {
        assert ops[k] == Use(l);
        var d :| k < d < n && ops[d] == Dispose(l);
        assert ops[..m][d] == Dispose(l);
      }
    }
  }

  /** A live library's registration is the first use after its last dispose. */
  lemma {:induction false} RegistrationRegisters(ops: seq<Op>, l: Library)
    ensures l in Replay(ops) ==> Registers(ops, l, Registration(ops, l))
    ensures l !in Replay(ops) ==> Disposed(ops, l, |ops|)
  {
    if ops != [] {
      var n := |ops| - 1;
      var before, i := ops[..n], Registration(ops[..n], l);
      RegistrationRegisters(before, l);
      WithoutMember(Replay(before), ops[n].library, l);
      hide Without, Disposed;
      assert ops == before + [ops[n]];
      if l !in Replay(before) {
        DisposedPrefix(ops, l, n, n);
        if ops[n] != Use(l) {
          DisposedByOther(ops, l);
        }
      } else if ops[n] == Dispose(l) {
        DisposedAtEnd(ops, l);
      } else {
        DisposedPrefix(ops, l, i, n);
      }
    }
  }

  lemma DisposedAtEnd(ops: seq<Op>, l: Library)
    requires ops != [] && ops[|ops| - 1] == Dispose(l)
    ensures Disposed(ops, l, |ops|)
  {
  }

  lemma DisposedByOther(ops: seq<Op>, l: Library)
    requires ops != [] && Disposed(ops, l, |ops| - 1) && ops[|ops| - 1] != Use(l)
    ensures Disposed(ops, l, |ops|)
  {
    forall k | 0 <= k < |ops| && ops[k] == Use(l) ensures exists m :: k < m < |ops| && ops[m] == Dispose(l) {
      var m :| k < m < |ops| - 1 && ops[m] == Dispose(l);
    }
  }

  /** After any operations the list is in the order of the latest registrations, which are
      those of exactly the libraries whose last operation is a use. */
  lemma ReplayIsRegistrationOrder(ops: seq<Op>)
    ensures forall l :: l in Replay(ops) <==> EndsInUse(ops, l)
    ensures forall l :: l in Replay(ops) ==> Registers(ops, l, Registration(ops, l))
    ensures forall i, j :: 0 <= i < j < |Replay(ops)| ==>
      Registration(ops, Replay(ops)[i]) < Registration(ops, Replay(ops)[j])
  {
    Registered(ops);
    forall l | l in Replay(ops) ensures Registers(ops, l, Registration(ops, l)) {
      RegistrationRegisters(ops, l);
    }
  }
}

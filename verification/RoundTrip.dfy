/** Reading back what was announced: over any earlier contents of the store, and exactly
    when the records come back unchanged. */
module RoundTrip {
  import opened Text
  import opened Records
  import opened Store
  import opened Codec

  ghost predicate AllBelongTo(xs: seq<Info>, f: Family) {
    forall x :: x in xs ==> BelongsTo(x, f)
  }

  /** The records of a list as they come back from a store that held st before. */
  ghost function ReturnedList(f: Family, node: NodeInfo, list: seq<Info>, st: Texts, n: nat): (rs: seq<Info>)
    requires n <= |list|
    ensures |rs| == n && forall i :: 0 <= i < n ==> rs[i] == Returned(node, list[i], CellsOf(f, st, i))
  {
    seq(n, i requires 0 <= i < n => Returned(node, list[i], CellsOf(f, st, i)))
  }

  lemma ReadAtWritten(f: Family, node: NodeInfo, x: Info, prior: Cells, cells: Cells)
    requires BelongsTo(x, f) && WrittenOver(x, prior, cells)
    ensures ReadAt(f, node, cells) == [Returned(node, x, prior)]
  {
    if x.Gpu? {
      ReadBackGpu(f, node, x, prior, cells);
    } else {
      ReadBackNet(f, node, x, prior, cells);
    }
  }

  lemma {:induction false} ReadUpToWritten(ids: IdText, f: Family, st: Texts, st': Texts, list: seq<Info>,
      host: string, n: nat)
    requires AllBelongTo(list, f) && n <= |list|
    requires forall i :: 0 <= i < n ==> WrittenOver(list[i], CellsOf(f, st, i), CellsOf(f, st', i))
    ensures ReadUpTo(ids, f, st', host, n) == ReturnedList(f, ReadNode(ids, st', host), list, st, n)
  {
    hide CellsOf, ReadNode, Returned, ReadAt, WrittenOver;
    if n > 0 {
      ReadUpToWritten(ids, f, st, st', list, host, n - 1);
      ReadAtWritten(f, ReadNode(ids, st', host), list[n - 1], CellsOf(f, st, n - 1), CellsOf(f, st', n - 1));
    }
  }

  /** What a client reads from a host that announced over any store: the published records
      in order, as far as an unsigned can count them, each with the fields it did not write
      taken from the earlier contents. An empty discovery leaves what was there. */
  lemma ReadBack(ids: IdText, f: Family, st: Texts, id: Id, session: string, found: seq<Info>, host: string)
    requires ids.RoundTrips() && AllBelongTo(found, f)
    ensures var list := Published(f, found);
      ReadHost(ids, f, StoreAfter(ids, f, st, id, session, found), host)
      == if found == [] then ReadHost(ids, f, st, host)
         else ReturnedList(f, ReturnedNode(id, session, host), list, st, Cap(|list|))
  {
    if found != [] {
      var st', list := StoreAfter(ids, f, st, id, session, found), Published(f, found);
      PublishedMembers(f, found);
      forall i | 0 <= i < |list| ensures WrittenOver(list[i], CellsOf(f, st, i), CellsOf(f, st', i)) {
        StoreAfterLookup(ids, f, st, id, session, found, i);
      }
      StoreAfterLookup(ids, f, st, id, session, found, 0);
      hide StoreAfter, ReadNode, Returned, WrittenOver, CellsOf, ReadUpTo;
      ReadUpToWritten(ids, f, st, st', list, host, Cap(|list|));
    }
  }

  // ---------- exactness ----------

  /** A text comes back: it holds no whitespace, or it is empty and nothing stale is read
      in its place. */
  predicate TextSurvives(s: string, prior: string) {
    if s != "" then SpaceFree(s) else Token(prior) == ""
  }

  /** A record comes back over the given earlier cells: its texts are single tokens, and each
      field whose writing is skipped is read as the value that made announce skip it. */
  predicate Survives(x: Info, prior: Cells) {
    match x
    case Gpu(_, code, port, device, pvp, flags) =>
      && SpaceFree(code) && Padded(code)
      && (Drawn(pvp) || pvp == ReadViewport(prior))
      && (flags != 0 || ReadUnsigned(prior(FlagBits), 0) == 0)
    case Net(_, kind, name, hostname, hwAddress, inetAddress, inet6Address, linkspeed, up) =>
      && !IsTunnel(kind)
      && TextSurvives(name, prior(Name)) && TextSurvives(hostname, prior(Hostname))
      && TextSurvives(hwAddress, prior(Mac)) && TextSurvives(inetAddress, prior(IPv4))
      && TextSurvives(inet6Address, prior(IPv6))
      && (linkspeed != UINT_MAX || ReadUnsigned(prior(Linkspeed), UINT_MAX) == UINT_MAX)
  }

  function WithNode(x: Info, node: NodeInfo): Info {
    x.(node := node)
  }

  lemma TextSurvivesExactly(s: string, prior: string)
    ensures ReturnedText(s, prior) == s <==> TextSurvives(s, prior)
  {
    TokenExact(s);
    TokenExact(prior);
  }

  lemma SurvivesExactly(node: NodeInfo, x: Info, prior: Cells)
    ensures Returned(node, x, prior) == WithNode(x, node) <==> Survives(x, prior)
  {
    match x
    case Gpu(_, code, _, _, _, _) =>
      ReadCodeExact(code);
    case Net(_, _, name, hostname, hwAddress, inetAddress, inet6Address, _, _) =>
      TextSurvivesExactly(name, prior(Name));
      TextSurvivesExactly(hostname, prior(Hostname));
      TextSurvivesExactly(hwAddress, prior(Mac));
      TextSurvivesExactly(inetAddress, prior(IPv4));
      TextSurvivesExactly(inet6Address, prior(IPv6));
      hide ReadUnsigned, ReturnedText, TextSurvives;
  }

  ghost function WithNodes(list: seq<Info>, node: NodeInfo): (rs: seq<Info>)
    ensures |rs| == |list| && forall i :: 0 <= i < |rs| ==> rs[i] == WithNode(list[i], node)
  {
    seq(|list|, i requires 0 <= i < |list| => WithNode(list[i], node))
  }

  /** No record is read from the store: a network record always is, a GPU needs a type. */
  ghost predicate ReadsNothing(f: Family, st: Texts) {
    forall i :: 0 <= i < ReadCount(f, st) ==> f.GpuFamily? && CellsOf(f, st, i)(Type) == ""
  }

  lemma {:induction false} ReadsNothingBelow(ids: IdText, f: Family, st: Texts, host: string, n: nat)
    ensures ReadUpTo(ids, f, st, host, n) == [] <==>
      forall i :: 0 <= i < n ==> f.GpuFamily? && CellsOf(f, st, i)(Type) == ""
  {
    hide CellsOf, ReadRecord, ReadNode;
    if n > 0 {
      ReadsNothingBelow(ids, f, st, host, n - 1);
    }
  }

  /** What an announcement of these records over a store gives back unchanged. */
  ghost predicate Returns(f: Family, st: Texts, found: seq<Info>) {
    var list := Published(f, found);
    if found == [] then ReadsNothing(f, st)
    else |list| <= UINT_MAX && forall i :: 0 <= i < |list| ==> Survives(list[i], CellsOf(f, st, i))
  }

  lemma FoundReturns(ids: IdText, f: Family, st: Texts, id: Id, session: string, found: seq<Info>, host: string)
    requires ids.RoundTrips() && found != [] && AllBelongTo(found, f)
    ensures var list := Published(f, found);
      ReadHost(ids, f, StoreAfter(ids, f, st, id, session, found), host)
          == WithNodes(list, ReturnedNode(id, session, host))
      <==> |list| <= UINT_MAX && forall i :: 0 <= i < |list| ==> Survives(list[i], CellsOf(f, st, i))
  {
    hide ReadHost, StoreAfter, Returned, WithNode, Survives, CellsOf, ReturnedNode, Published;
    var node, list := ReturnedNode(id, session, host), Published(f, found);
    ReadBack(ids, f, st, id, session, found, host);
    forall i | 0 <= i < |list|
      ensures Returned(node, list[i], CellsOf(f, st, i)) == WithNode(list[i], node) <==>
          Survives(list[i], CellsOf(f, st, i))
    {
      SurvivesExactly(node, list[i], CellsOf(f, st, i));
    }
  }

  /** An announcement over any store is read back unchanged, but for the node fields, exactly
      when every record survives and there are no more than an unsigned can count; an empty
      one exactly when nothing is read from the store already. */
  lemma RoundTripExactly(ids: IdText, f: Family, st: Texts, id: Id, session: string, found: seq<Info>, host: string)
    requires ids.RoundTrips() && AllBelongTo(found, f)
    ensures ReadHost(ids, f, StoreAfter(ids, f, st, id, session, found), host)
         == WithNodes(Published(f, found), ReturnedNode(id, session, host))
      <==> Returns(f, st, found)
  {
    if found == [] {
      ReadsNothingBelow(ids, f, st, host, ReadCount(f, st));
    } else {
      FoundReturns(ids, f, st, id, session, found, host);
    }
    hide ReadUpTo, Survives, CellsOf, ReturnedNode, ReadCount;
  }

  // ---------- the loopback interface ----------

  predicate IsLoopback(x: Info) {
    x.Net? && x.kind == Loopback
  }

  predicate NoLoopback(xs: seq<Info>) {
    forall i :: 0 <= i < |xs| ==> !IsLoopback(xs[i])
  }

  lemma EraseHead(x: Info, xs: seq<Info>)
    ensures WithoutFirstLoopback([x] + xs) == if IsLoopback(x) then xs else [x] + WithoutFirstLoopback(xs)
  {
    assert ([x] + xs)[1..] == xs;
  }

  lemma {:induction false} ErasedExactly(a: seq<Info>, lo: Info, b: seq<Info>)
    requires NoLoopback(a) && IsLoopback(lo)
    ensures WithoutFirstLoopback(a) == a && WithoutFirstLoopback(a + [lo] + b) == a + b
  {
    hide WithoutFirstLoopback, IsLoopback;
    if a == [] {
      NothingErased();
      EraseHead(lo, b);
      assert [] + [lo] + b == [lo] + b && [] + b == b;
    } else {
      var x, rest := a[0], a[1..];
      ErasedExactly(rest, lo, b);
      EraseHead(x, rest);
      EraseHead(x, rest + [lo] + b);
      assert a == [x] + rest && a + [lo] + b == [x] + (rest + [lo] + b) && a + b == [x] + (rest + b);
    }
  }

  lemma NothingErased()
    ensures WithoutFirstLoopback([]) == []
  {
  }

  /** The network announcement drops the first loopback interface and no other record; that
      of GPUs drops nothing. */
  lemma PublishedExactly(f: Family, a: seq<Info>, lo: Info, b: seq<Info>)
    requires NoLoopback(a) && IsLoopback(lo)
    ensures Published(f, a) == a
    ensures Published(f, a + [lo] + b) == if f.NetFamily? then a + b else a + [lo] + b
  {
    ErasedExactly(a, lo, b);
    hide WithoutFirstLoopback, IsLoopback;
  }

  /** A client reads of announced interfaces all but the first loopback one, in order. */
  lemma LoopbackIsNotRead(ids: IdText, st: Texts, id: Id, session: string, a: seq<Info>, lo: Info, b: seq<Info>,
                          host: string)
    requires ids.RoundTrips() && NoLoopback(a) && IsLoopback(lo) && AllBelongTo(a + b, NetFamily)
    requires |a + b| <= UINT_MAX
    requires forall i :: 0 <= i < |a + b| ==> Survives((a + b)[i], CellsOf(NetFamily, st, i))
    ensures ReadHost(ids, NetFamily, StoreAfter(ids, NetFamily, st, id, session, a + [lo] + b), host)
         == WithNodes(a + b, ReturnedNode(id, session, host))
  {
    var found := a + [lo] + b;
    PublishedExactly(NetFamily, a, lo, b);
    forall x | x in found ensures BelongsTo(x, NetFamily) {
      assert x in a + b || x == lo;
    }
    assert found[|a|] == lo;
    hide ReadHost, StoreAfter, WithNode, Survives, CellsOf, ReturnedNode, Published;
    FoundReturns(ids, NetFamily, st, id, session, found, host);
  }

  /** A session name comes back exactly when it is one token. */
  lemma SessionExactly(session: string)
    ensures ReadText(session, LOCAL_SESSION) == session <==> session != "" && SpaceFree(session)
  {
    TokenExact(session);
  }

  // ---------- an empty store ----------

  lemma EmptyStoreReads(ids: IdText, f: Family, host: string)
    ensures ReadHost(ids, f, map[], host) == []
  {
  }

  /** The records that survive an empty store. */
  predicate Canonical(x: Info) {
    match x
    case Gpu(_, code, _, _, pvp, _) =>
      SpaceFree(code) && Padded(code) && (Drawn(pvp) || pvp == INVALID_VIEWPORT)
    case Net(_, kind, name, hostname, hwAddress, inetAddress, inet6Address, _, _) =>
      && !IsTunnel(kind) && SpaceFree(name) && SpaceFree(hostname)
      && SpaceFree(hwAddress) && SpaceFree(inetAddress) && SpaceFree(inet6Address)
  }

  lemma CanonicalSurvives(f: Family, x: Info, i: nat)
    ensures Survives(x, CellsOf(f, map[], i)) <==> Canonical(x)
  {
    var cells := CellsOf(f, map[], i);
    assert forall a :: cells(a) == "";
  }

  // ---------- re-announcement ----------

  /** The record writes all its optional fields. */
  predicate Complete(x: Info) {
    match x
    case Gpu(_, _, _, _, pvp, flags) => Drawn(pvp) && flags != 0
    case Net(_, _, name, hostname, hwAddress, inetAddress, inet6Address, linkspeed, _) =>
      && name != "" && hostname != "" && hwAddress != "" && inetAddress != "" && inet6Address != ""
      && linkspeed != UINT_MAX
  }

  /** The store a host is left with after a history of announcements. */
  function StoreOf(ids: IdText, f: Family, id: Id, history: seq<(string, seq<Info>)>): Texts {
    if history == [] then map[] else
      var n := |history| - 1;
      StoreAfter(ids, f, StoreOf(ids, f, id, history[..n]), id, history[n].0, history[n].1)
  }

  /** The text last written to a field of record i: that of the last announcement that had
      more than i records and whose record i writes the field. */
  function LastText(f: Family, history: seq<(string, seq<Info>)>, i: nat, a: Field): string {
    if history == [] then "" else
      var n := |history| - 1;
      var list := Published(f, history[n].1);
      if i < |list| && Written(list[i], a).Some? then Written(list[i], a).value
      else LastText(f, history[..n], i, a)
  }

  lemma CellAfter(ids: IdText, f: Family, st: Texts, id: Id, session: string, found: seq<Info>, i: nat, a: Field)
    requires ids.RoundTrips()
    ensures var list := Published(f, found);
      CellsOf(f, StoreAfter(ids, f, st, id, session, found), i)(a)
      == if i < |list| && Written(list[i], a).Some? then Written(list[i], a).value else CellsOf(f, st, i)(a)
  {
    if found == [] {
      PublishedMembers(f, found);
    } else {
      StoreAfterLookup(ids, f, st, id, session, found, i);
    }
    hide CellsOf, Written, PutRows, PutHeader, Published;
  }

  /** After any history every field of every record reads as the text last written to it. */
  lemma {:induction false} CellAfterHistory(ids: IdText, f: Family, id: Id, history: seq<(string, seq<Info>)>,
                                           i: nat, a: Field)
    requires ids.RoundTrips()
    ensures CellsOf(f, StoreOf(ids, f, id, history), i)(a) == LastText(f, history, i, a)
  {
    hide StoreAfter, Published, Written, CellsOf;
    if history == [] {
      EmptyCell(f, i, a);
    } else {
      var n := |history| - 1;
      CellAfterHistory(ids, f, id, history[..n], i, a);
      CellAfter(ids, f, StoreOf(ids, f, id, history[..n]), id, history[n].0, history[n].1, i, a);
    }
  }

  lemma EmptyCell(f: Family, i: nat, a: Field)
    ensures CellsOf(f, map[], i)(a) == ""
  {
  }

  /** The cells of record i after a history. */
  function LastCells(f: Family, history: seq<(string, seq<Info>)>, i: nat): Cells {
    a => LastText(f, history, i, a)
  }

  lemma CellsAfterHistory(ids: IdText, f: Family, id: Id, history: seq<(string, seq<Info>)>, i: nat)
    requires ids.RoundTrips()
    ensures forall a :: LastCells(f, history, i)(a) == CellsOf(f, StoreOf(ids, f, id, history), i)(a)
  {
    forall a ensures LastCells(f, history, i)(a) == CellsOf(f, StoreOf(ids, f, id, history), i)(a) {
      CellAfterHistory(ids, f, id, history, i, a);
    }
  }

  /** The session of the last announcement that discovered something. */
  function LastSession(history: seq<(string, seq<Info>)>): string {
    if history == [] then "" else
      var n := |history| - 1;
      if history[n].1 != [] then history[n].0 else LastSession(history[..n])
  }

  /** The records that announcement published; none without one. */
  function LastList(f: Family, history: seq<(string, seq<Info>)>): seq<Info> {
    if history == [] then [] else
      var n := |history| - 1;
      if history[n].1 != [] then Published(f, history[n].1) else LastList(f, history[..n])
  }

  /** No announcement discovered anything. */
  predicate Silent(history: seq<(string, seq<Info>)>) {
    forall i :: 0 <= i < |history| ==> history[i].1 == []
  }

  /** Count and node after any history are those of the last announcement that discovered
      something; without one the store is empty. */
  lemma {:induction false} HeaderAfterHistory(ids: IdText, f: Family, id: Id, history: seq<(string, seq<Info>)>,
                                             host: string)
    requires ids.RoundTrips()
    ensures var st := StoreOf(ids, f, id, history);
      && ReadCount(f, st) == Cap(|LastList(f, history)|)
      && if Silent(history) then st == map[]
         else ReadNode(ids, st, host) == ReturnedNode(id, LastSession(history), host)
  {
    if history == [] {
      assert Get(map[], CountKey(f)) == "";
    } else {
      var n := |history| - 1;
      var most, session, found := history[..n], history[n].0, history[n].1;
      HeaderAfterHistory(ids, f, id, most, host);
      SilentSnoc(history);
      var st := StoreOf(ids, f, id, most);
      if found != [] {
        StoreAfterLookup(ids, f, st, id, session, found, 0);
      }
      hide ReadCount, ReadNode, Published, PutRows, PutHeader, Cap, Silent;
    }
  }

  lemma SilentSnoc(history: seq<(string, seq<Info>)>)
    requires history != []
    ensures var n := |history| - 1;
      Silent(history) <==> Silent(history[..n]) && history[n].1 == []
  {
  }

  /** Every record of the last list has a type text. */
  lemma {:induction false} TypeIsWritten(f: Family, history: seq<(string, seq<Info>)>, i: nat)
    requires f.GpuFamily? && AllBelongTo(LastList(f, history), f) && i < |LastList(f, history)|
    ensures LastText(f, history, i, Type) != ""
  {
    var n := |history| - 1;
    var list := LastList(f, history);
    if history[n].1 == [] {
      TypeIsWritten(f, history[..n], i);
    } else {
      assert list[i] in list;
    }
  }

  /** The records read after a history: their cells hold the texts last written to them. */
  function LastRecords(f: Family, node: NodeInfo, history: seq<(string, seq<Info>)>, n: nat): (rs: seq<Info>)
    ensures |rs| == n && forall i :: 0 <= i < n ==> rs[i] == ReadRecord(f, node, LastCells(f, history, i))
  {
    seq(n, i requires 0 <= i < n => ReadRecord(f, node, LastCells(f, history, i)))
  }

  lemma LastCellsRead(ids: IdText, f: Family, id: Id, history: seq<(string, seq<Info>)>, node: NodeInfo, i: nat)
    requires ids.RoundTrips() && AllBelongTo(LastList(f, history), f) && i < |LastList(f, history)|
    ensures ReadAt(f, node, CellsOf(f, StoreOf(ids, f, id, history), i))
         == [ReadRecord(f, node, LastCells(f, history, i))]
  {
    var cells, last := CellsOf(f, StoreOf(ids, f, id, history), i), LastCells(f, history, i);
    CellsAfterHistory(ids, f, id, history, i);
    if f.GpuFamily? {
      TypeIsWritten(f, history, i);
    }
    hide CellsOf, ReadRecord, AllBelongTo, LastList, StoreOf;
    ReadAtDependsOn(f, node, cells, last);
  }

  lemma {:induction false} LastReadUpTo(ids: IdText, f: Family, id: Id, history: seq<(string, seq<Info>)>,
                                       host: string, n: nat)
    requires ids.RoundTrips() && AllBelongTo(LastList(f, history), f) && n <= |LastList(f, history)|
    ensures var st := StoreOf(ids, f, id, history);
      ReadUpTo(ids, f, st, host, n) == LastRecords(f, ReadNode(ids, st, host), history, n)
  {
    hide StoreOf, LastList, AllBelongTo, ReadNode, ReadAt, ReadRecord, CellsOf, LastCells;
    if n > 0 {
      LastReadUpTo(ids, f, id, history, host, n - 1);
      LastCellsRead(ids, f, id, history, ReadNode(ids, StoreOf(ids, f, id, history), host), n - 1);
    }
  }

  /** What a client reads from a host after any history: as many records as the last
      announcement that discovered something published, under its session, each field with
      the text last written to it. */
  lemma ReadAfterHistory(ids: IdText, f: Family, id: Id, history: seq<(string, seq<Info>)>, host: string)
    requires ids.RoundTrips() && AllBelongTo(LastList(f, history), f)
    ensures ReadHost(ids, f, StoreOf(ids, f, id, history), host)
         == LastRecords(f, ReturnedNode(id, LastSession(history), host), history, Cap(|LastList(f, history)|))
  {
    var n := Cap(|LastList(f, history)|);
    HeaderAfterHistory(ids, f, id, history, host);
    LastReadUpTo(ids, f, id, history, host, n);
    if Silent(history) {
      EmptyStoreReads(ids, f, host);
      assert n == 0 by { assert ReadCount(f, map[]) == 0; }
    }
    hide StoreOf, LastList, ReadNode, ReadUpTo, ReturnedNode, ReadCount;
  }

  /** After any history, a last announcement of complete canonical records is read back
      exactly, whatever longer lists came before it. */
  lemma LastAnnouncementWins(ids: IdText, f: Family, id: Id, history: seq<(string, seq<Info>)>, host: string)
    requires ids.RoundTrips() && history != []
    requires var (_, found) := history[|history| - 1];
      && found != [] && AllBelongTo(found, f) && |found| <= UINT_MAX
      && forall x :: x in found ==> Complete(x) && Canonical(x)
    ensures var (session, found) := history[|history| - 1];
      ReadHost(ids, f, StoreOf(ids, f, id, history), host)
      == WithNodes(Published(f, found), ReturnedNode(id, session, host))
  {
    var n := |history| - 1;
    var st := StoreOf(ids, f, id, history[..n]);
    var (session, found) := history[n];
    var list := Published(f, found);
    RoundTripExactly(ids, f, st, id, session, found, host);
    PublishedMembers(f, found);
    forall i | 0 <= i < |list| ensures Survives(list[i], CellsOf(f, st, i)) {
      assert list[i] in list;
    }
    assert Returns(f, st, found);
  }

  /** Without that, stale fields show through: flags that went away are still discovered. */
  lemma StaleFlagsShowThrough(ids: IdText, id: Id, session: string, g: Info, host: string)
    requires ids.RoundTrips() && g.Gpu? && g.flags != 0
    ensures var st := StoreOf(ids, GpuFamily, id, [(session, [g]), (session, [NoFlags(g)])]);
      var rs := ReadHost(ids, GpuFamily, st, host);
      |rs| == 1 && rs[0].Gpu? && rs[0].flags == g.flags
  {
    var f, h := GpuFamily, NoFlags(g);
    StoreOfTwo(ids, f, id, session, [g], [h]);
    var st1 := StoreAfter(ids, f, map[], id, session, [g]);
    ReadBack(ids, f, st1, id, session, [h], host);
    StoreAfterLookup(ids, f, map[], id, session, [g], 0);
    ReadBackNumbers(g, CellsOf(f, map[], 0), CellsOf(f, st1, 0));
  }

  lemma StoreOfTwo(ids: IdText, f: Family, id: Id, session: string, first: seq<Info>, second: seq<Info>)
    ensures StoreOf(ids, f, id, [(session, first), (session, second)])
         == StoreAfter(ids, f, StoreAfter(ids, f, map[], id, session, first), id, session, second)
  {
    var history := [(session, first), (session, second)];
    assert history[..1] == [(session, first)] && history[..1][..0] == [];
    assert StoreOf(ids, f, id, history[..1]) == StoreAfter(ids, f, map[], id, session, first);
  }

  /** Records that went away altogether are still discovered, all of them. */
  lemma EmptyAnnouncementKeepsTheOld(ids: IdText, id: Id, session: string, g: Info, host: string)
    requires ids.RoundTrips() && g.Gpu? && Canonical(g)
    ensures var st := StoreOf(ids, GpuFamily, id, [(session, [g]), (session, [])]);
      ReadHost(ids, GpuFamily, st, host) == [WithNode(g, ReturnedNode(id, session, host))]
  {
    var f := GpuFamily;
    StoreOfTwo(ids, f, id, session, [g], []);
    RoundTripExactly(ids, f, map[], id, session, [g], host);
    CanonicalSurvives(f, g, 0);
    assert Returns(f, map[], [g]);
  }
}

/** From the records the hosts discover locally to the list a client gets: announcement,
    store, discovery, localhost marking and the duplicate filter together. */
module EndToEnd {
  import opened Text
  import opened Records
  import opened Chains
  import opened Dedup
  import opened Store
  import opened Codec
  import opened RoundTrip
  import opened DnsSd
  import opened Discovery

  /** What one host announces: its identifier, the sessions and discoveries of its earlier
      announcements, and the session and what its modules answered for the last one. */
  datatype Host = Host(id: Id, earlier: seq<(string, seq<Info>)>, session: string, candidates: seq<Info>)

  /** The records the host publishes. */
  function Sent(f: Family, h: Host): seq<Info> {
    Published(f, Dedupe(h.candidates))
  }

  function StoreOfHost(ids: IdText, f: Family, h: Host): Texts {
    StoreAfter(ids, f, StoreOf(ids, f, h.id, h.earlier), h.id, h.session, Dedupe(h.candidates))
  }

  /** The stores of the hosts after all their announcements. */
  function StoresOf(ids: IdText, f: Family, net: map<string, Host>): map<string, Texts> {
    map name | name in net :: StoreOfHost(ids, f, net[name])
  }

  /** The last announcement comes back over what the earlier ones left: every record survives
      the texts last written to its cells, and if it discovers nothing, neither did they. */
  ghost predicate Intact(f: Family, h: Host) {
    if h.candidates == [] then LastList(f, h.earlier) == [] else (
      && |Sent(f, h)| <= UINT_MAX
      && forall i :: 0 <= i < |Sent(f, h)| ==> Survives(Sent(f, h)[i], LastCells(f, h.earlier, i)))
  }

  /** The host's records are local ones that come back, and its session is a token. */
  ghost predicate Announceable(f: Family, h: Host) {
    && AllBelongTo(h.candidates, f)
    && (forall x :: x in h.candidates ==> x.node.nodeName == "" && x.node.session == LOCAL_SESSION)
    && Intact(f, h)
    && h.session != "" && SpaceFree(h.session)
  }

  ghost predicate AllAnnounceable(f: Family, net: map<string, Host>) {
    forall name :: name in net ==> Announceable(f, net[name])
  }

  /** The published records of a host under the given node name. */
  ghost function Shown(f: Family, net: map<string, Host>, host: string, name: string): seq<Info> {
    if host in net then WithNodes(Sent(f, net[host]), NodeInfo(net[host].id, name, net[host].session)) else []
  }

  /** The names of a list that are not in a given set, without repetitions. */
  function Once(hosts: seq<string>, but: set<string>): seq<string> {
    if hosts == [] then [] else
      var most, last := hosts[..|hosts| - 1], hosts[|hosts| - 1];
      if last in most || last in but then Once(most, but) else Once(most, but) + [last]
  }

  function NameOf(host: string, locals: seq<string>): string {
    if host in locals then "" else host
  }

  /** The records of each host in turn, local ones without a node name. */
  ghost function ShownAll(f: Family, net: map<string, Host>, hosts: seq<string>, locals: seq<string>): seq<Info> {
    if hosts == [] then [] else
      var n := |hosts| - 1;
      ShownAll(f, net, hosts[..n], locals) + Shown(f, net, hosts[n], NameOf(hosts[n], locals))
  }

  // ---------- one host ----------

  lemma {:induction false} ErasedIsDistinct(xs: seq<Info>)
    requires Distinct(xs)
    ensures Distinct(WithoutFirstLoopback(xs))
  {
    if xs != [] && !(xs[0].Net? && xs[0].kind == Loopback) {
      ErasedIsDistinct(xs[1..]);
      PublishedMembers(NetFamily, xs[1..]);
      var rest := WithoutFirstLoopback(xs[1..]);
      forall j | 0 <= j < |rest| ensures !Same(xs[0], rest[j]) {
        assert rest[j] in xs[1..];
      }
    }
  }

  /** What a host sends is pairwise unequal and has the local node fields. */
  lemma SentIsLocal(f: Family, h: Host)
    requires Announceable(f, h)
    ensures Distinct(Sent(f, h)) && AllBelongTo(Dedupe(h.candidates), f)
    ensures forall x :: x in Sent(f, h) ==> x.node.nodeName == "" && x.node.session == LOCAL_SESSION
  {
    var found := Dedupe(h.candidates);
    DedupeConservesFlags(h.candidates);
    hide Intact;
    forall r | r in found ensures BelongsTo(r, f) && r.node.nodeName == "" && r.node.session == LOCAL_SESSION {
      assert MergedFrom(h.candidates, r);
    }
    ErasedIsDistinct(found);
    PublishedMembers(f, found);
  }

  /** A first announcement comes back if its records are canonical. */
  lemma FirstIsIntact(f: Family, h: Host)
    requires h.earlier == [] && |Sent(f, h)| <= UINT_MAX
    requires forall x :: x in h.candidates ==> Canonical(x)
    ensures Intact(f, h)
  {
    var found, list := Dedupe(h.candidates), Sent(f, h);
    DedupeConservesFlags(h.candidates);
    PublishedMembers(f, found);
    forall i | 0 <= i < |list| ensures Survives(list[i], LastCells(f, h.earlier, i)) {
      assert list[i] in list;
      assert MergedFrom(h.candidates, list[i]);
      CanonicalSurvives(f, list[i], i);
      SurvivesDependsOn(list[i], CellsOf(f, map[], i), LastCells(f, h.earlier, i));
    }
  }

  lemma SurvivesDependsOn(x: Info, c: Cells, d: Cells)
    requires forall a :: c(a) == d(a)
    ensures Survives(x, c) <==> Survives(x, d)
  {
    hide ReadUnsigned, ReadSigned, TextSurvives;
    assert ReadViewport(c) == ReadViewport(d);
  }

  lemma ShownIsDistinct(f: Family, net: map<string, Host>, host: string, name: string)
    requires AllAnnounceable(f, net)
    ensures Distinct(Shown(f, net, host, name))
  {
    if host in net {
      var h := net[host];
      SentIsLocal(f, h);
      hide Sent, AllAnnounceable;
      var list, rows := Sent(f, h), Shown(f, net, host, name);
      hide Same, WithNode;
      forall i, j | 0 <= i < j < |rows| ensures !Same(rows[i], rows[j]) {
        assert list[i] in list && list[j] in list;
        SameShown(list[i], list[j], rows[i].node, rows[j].node);
      }
    }
  }

  /** What a client reads from one host. */
  lemma HostIsShown(ids: IdText, f: Family, net: map<string, Host>, host: string)
    requires ids.RoundTrips() && AllAnnounceable(f, net)
    ensures ReadHost(ids, f, Browse([], StoresOf(ids, f, net)).Of(host), host) == Shown(f, net, host, host)
  {
    if host in net {
      var h := net[host];
      assert Announceable(f, h);
      DedupeIsEmpty(h.candidates);
      if h.candidates == [] {
        NothingIsShown(ids, f, h, host);
      } else {
        IntactIsRead(ids, f, h, host);
      }
      hide Announceable, StoreOfHost, ReadHost;
    } else {
      EmptyStoreReads(ids, f, host);
    }
  }

  lemma NothingIsShown(ids: IdText, f: Family, h: Host, host: string)
    requires ids.RoundTrips() && Announceable(f, h) && h.candidates == []
    ensures ReadHost(ids, f, StoreOfHost(ids, f, h), host) == [] && Sent(f, h) == []
  {
    assert Dedupe(h.candidates) == [];
    hide ReadHost, Dedupe;
    assert StoreOfHost(ids, f, h) == StoreOf(ids, f, h.id, h.earlier);
    ReadAfterHistory(ids, f, h.id, h.earlier, host);
  }

  lemma IntactIsRead(ids: IdText, f: Family, h: Host, host: string)
    requires ids.RoundTrips() && Announceable(f, h) && Dedupe(h.candidates) != []
    ensures ReadHost(ids, f, StoreOfHost(ids, f, h), host)
         == WithNodes(Sent(f, h), NodeInfo(h.id, host, h.session))
  {
    var st, found, list := StoreOf(ids, f, h.id, h.earlier), Dedupe(h.candidates), Sent(f, h);
    assert h.candidates != [] by { assert Dedupe([]) == []; }
    SentIsLocal(f, h);
    SessionExactly(h.session);
    hide Dedupe, ReadHost, StoreAfter, StoreOf, Survives, SpaceFree, LastCells, CellsOf;
    RoundTripExactly(ids, f, st, h.id, h.session, found, host);
    forall i | 0 <= i < |list| ensures Survives(list[i], CellsOf(f, st, i)) {
      CellsAfterHistory(ids, f, h.id, h.earlier, i);
      SurvivesDependsOn(list[i], LastCells(f, h.earlier, i), CellsOf(f, st, i));
    }
    assert Returns(f, st, found);
  }

  // ---------- the browses ----------

  lemma {:induction false} BrowseIsShown(ids: IdText, f: Family, net: map<string, Host>, hosts: seq<string>, n: nat)
    requires ids.RoundTrips() && AllAnnounceable(f, net) && n <= |hosts|
    ensures ReadHosts(ids, f, Browse(hosts, StoresOf(ids, f, net)), n) == ShownAll(f, net, hosts[..n], [])
  {
    hide ReadHost, Shown, AllAnnounceable, StoresOf;
    if n > 0 {
      BrowseIsShown(ids, f, net, hosts, n - 1);
      HostIsShown(ids, f, net, hosts[n - 1]);
      assert hosts[..n][..n - 1] == hosts[..n - 1];
    }
  }

  lemma MarkAppend(a: seq<Info>, b: seq<Info>, here: seq<Info>)
    ensures Mark(a + b, here) == Mark(a, here) + Mark(b, here)
  {
  }

  lemma LastOf(hosts: seq<string>)
    requires hosts != []
    ensures forall h :: h in hosts <==> h in hosts[..|hosts| - 1] || h == hosts[|hosts| - 1]
  {
    assert hosts == hosts[..|hosts| - 1] + [hosts[|hosts| - 1]];
  }

  /** The records of a host are found among those of other hosts exactly when the host is
      one of them. */
  lemma {:induction false} HeldByItsHost(f: Family, net: map<string, Host>, host: string, r: Info, others: seq<string>)
    requires r in Shown(f, net, host, host)
    ensures Holds(ShownAll(f, net, others, []), r) <==> host in others
  {
    if others != [] {
      hide Shown, Holds, Same;
      var most, last := others[..|others| - 1], others[|others| - 1];
      LastOf(others);
      HeldByName(f, net, host, r, last);
      HeldByItsHost(f, net, host, r, most);
      HoldsConcat(ShownAll(f, net, most, []), Shown(f, net, last, last), r);
    }
  }

  lemma HeldByName(f: Family, net: map<string, Host>, host: string, r: Info, other: string)
    requires r in Shown(f, net, host, host)
    ensures Holds(Shown(f, net, other, other), r) <==> other == host
  {
    ShownNames(f, net, host, host);
    ShownNames(f, net, other, other);
    hide Shown;
    if other == host {
      var rows := Shown(f, net, host, host);
      var i :| 0 <= i < |rows| && rows[i] == r;
      assert Same(rows[i], r);
    }
  }

  lemma ShownNames(f: Family, net: map<string, Host>, host: string, name: string)
    ensures forall i :: 0 <= i < |Shown(f, net, host, name)| ==> Shown(f, net, host, name)[i].node.nodeName == name
  {
  }

  lemma MarkOfHost(f: Family, net: map<string, Host>, host: string, locals: seq<string>)
    ensures Mark(Shown(f, net, host, host), ShownAll(f, net, locals, [])) == Shown(f, net, host, NameOf(host, locals))
  {
    var rows := Shown(f, net, host, host);
    forall i | 0 <= i < |rows| ensures Holds(ShownAll(f, net, locals, []), rows[i]) <==> host in locals {
      HeldByItsHost(f, net, host, rows[i], locals);
    }
  }

  lemma {:induction false} MarkIsShown(f: Family, net: map<string, Host>, hosts: seq<string>, locals: seq<string>)
    ensures Mark(ShownAll(f, net, hosts, []), ShownAll(f, net, locals, [])) == ShownAll(f, net, hosts, locals)
  {
    hide Shown, Mark;
    if hosts == [] {
      assert Mark([], ShownAll(f, net, locals, [])) == [];
    } else {
      var n := |hosts| - 1;
      MarkIsShown(f, net, hosts[..n], locals);
      MarkOfHost(f, net, hosts[n], locals);
      MarkAppend(ShownAll(f, net, hosts[..n], []), Shown(f, net, hosts[n], hosts[n]), ShownAll(f, net, locals, []));
    }
  }

  // ---------- when records of different hosts are equal ----------

  /** No record of the one list equals one of the other. */
  ghost predicate Apart(xs: seq<Info>, ys: seq<Info>) {
    forall i, j :: 0 <= i < |xs| && 0 <= j < |ys| ==> !Same(xs[i], ys[j])
  }

  lemma ApartByHolds(xs: seq<Info>, ys: seq<Info>)
    ensures Apart(xs, ys) <==> forall j :: 0 <= j < |ys| ==> !Holds(xs, ys[j])
  {
  }

  lemma ApartConcat(xs: seq<Info>, ys: seq<Info>, zs: seq<Info>)
    ensures Apart(xs + ys, zs) <==> Apart(xs, zs) && Apart(ys, zs)
  {
    hide Same;
    var all := xs + ys;
    assert forall i :: 0 <= i < |xs| ==> all[i] == xs[i];
    assert forall i :: 0 <= i < |ys| ==> all[|xs| + i] == ys[i];
    assert forall i :: |xs| <= i < |all| ==> all[i] == ys[i - |xs|];
  }

  lemma DistinctConcat(xs: seq<Info>, ys: seq<Info>)
    ensures Distinct(xs + ys) <==> Distinct(xs) && Distinct(ys) && Apart(xs, ys)
  {
    hide Same;
    var all := xs + ys;
    assert forall i :: 0 <= i < |xs| ==> all[i] == xs[i];
    assert forall i :: 0 <= i < |ys| ==> all[|xs| + i] == ys[i];
    assert forall i :: |xs| <= i < |all| ==> all[i] == ys[i - |xs|];
  }

  /** Two hosts a client cannot tell apart, by the name it shows for them and the session they
      announced, and that publish equal records it does not hold itself. */
  ghost predicate Clash(f: Family, net: map<string, Host>, g: string, h: string, locals: seq<string>,
                        mine: seq<Info>) {
    && g in net && h in net
    && NameOf(g, locals) == NameOf(h, locals) && net[g].session == net[h].session
    && exists i, j :: 0 <= i < |Sent(f, net[g])| && 0 <= j < |Sent(f, net[h])|
        && Same(Sent(f, net[g])[i], Sent(f, net[h])[j])
        && !Holds(mine, Shown(f, net, g, NameOf(g, locals))[i])
  }

  ghost predicate NoClash(f: Family, net: map<string, Host>, hosts: seq<string>, locals: seq<string>,
                          mine: seq<Info>) {
    forall g, h :: g in hosts && h in hosts && g != h ==> !Clash(f, net, g, h, locals, mine)
  }

  /** The records of a host, as they are shown, that a client does not hold itself. */
  ghost function News(f: Family, net: map<string, Host>, host: string, locals: seq<string>, mine: seq<Info>):
      seq<Info> {
    Beyond(Shown(f, net, host, NameOf(host, locals)), mine)
  }

  ghost function AllNews(f: Family, net: map<string, Host>, hosts: seq<string>, locals: seq<string>,
                         mine: seq<Info>): seq<Info> {
    if hosts == [] then [] else
      var n := |hosts| - 1;
      AllNews(f, net, hosts[..n], locals, mine) + News(f, net, hosts[n], locals, mine)
  }

  lemma {:induction false} AllNewsAreBeyond(f: Family, net: map<string, Host>, hosts: seq<string>,
      locals: seq<string>, mine: seq<Info>)
    ensures AllNews(f, net, hosts, locals, mine) == Beyond(ShownAll(f, net, hosts, locals), mine)
  {
    hide Shown, NameOf;
    if hosts != [] {
      var n := |hosts| - 1;
      AllNewsAreBeyond(f, net, hosts[..n], locals, mine);
      BeyondConcat(ShownAll(f, net, hosts[..n], locals), Shown(f, net, hosts[n], NameOf(hosts[n], locals)), mine);
    }
  }

  lemma {:induction false} BeyondNothing(ys: seq<Info>)
    ensures Beyond(ys, []) == ys
  {
    if ys != [] {
      BeyondNothing(ys[..|ys| - 1]);
    }
  }

  lemma {:induction false} BeyondIsDistinct(ys: seq<Info>, mine: seq<Info>)
    requires Distinct(ys)
    ensures Distinct(Beyond(ys, mine))
  {
    if ys != [] {
      hide Same;
      var zs, y := ys[..|ys| - 1], ys[|ys| - 1];
      BeyondIsDistinct(zs, mine);
      BeyondMembers(zs, mine);
      var rest := Beyond(zs, mine);
      forall i | 0 <= i < |rest| ensures !Same(rest[i], y) {
        assert rest[i] in rest;
      }
    }
  }

  lemma SameShown(x: Info, y: Info, n: NodeInfo, m: NodeInfo)
    requires SameNode(x.node, y.node)
    ensures Same(WithNode(x, n), WithNode(y, m)) <==> Same(x, y) && SameNode(n, m)
  {
  }

  lemma ApartBeyond(xs: seq<Info>, ys: seq<Info>, mine: seq<Info>)
    ensures Apart(Beyond(xs, mine), Beyond(ys, mine)) <==>
      forall i, j :: 0 <= i < |xs| && 0 <= j < |ys| && Same(xs[i], ys[j]) ==> Holds(mine, xs[i])
  {
    BeyondMembers(xs, mine);
    BeyondMembers(ys, mine);
    hide Beyond, Same;
    var rs, bs := Beyond(xs, mine), Beyond(ys, mine);
    if Apart(rs, bs) {
      forall i, j | 0 <= i < |xs| && 0 <= j < |ys| && Same(xs[i], ys[j]) ensures Holds(mine, xs[i]) {
        SameIsHeld(mine, xs[i], ys[j]);
        assert xs[i] in rs || Holds(mine, xs[i]);
        assert ys[j] in bs || Holds(mine, ys[j]);
      }
    }
    if forall i, j :: 0 <= i < |xs| && 0 <= j < |ys| && Same(xs[i], ys[j]) ==> Holds(mine, xs[i]) {
      forall i, j | 0 <= i < |rs| && 0 <= j < |bs| ensures !Same(rs[i], bs[j]) {
        assert rs[i] in rs && bs[j] in bs;
      }
    }
  }

  lemma SameIsHeld(mine: seq<Info>, x: Info, y: Info)
    requires Same(x, y)
    ensures Holds(mine, x) <==> Holds(mine, y)
  {
    forall i | 0 <= i < |mine| ensures Same(mine[i], x) <==> Same(mine[i], y) {
    }
    hide Same;
  }

  /** The news of two hosts are unequal exactly when the hosts do not clash. */
  lemma NewsApart(f: Family, net: map<string, Host>, g: string, h: string, locals: seq<string>, mine: seq<Info>)
    requires AllAnnounceable(f, net)
    ensures Apart(News(f, net, g, locals, mine), News(f, net, h, locals, mine))
      <==> !Clash(f, net, g, h, locals, mine)
  {
    var rs, bs := Shown(f, net, g, NameOf(g, locals)), Shown(f, net, h, NameOf(h, locals));
    hide Same, WithNode, Sent, Announceable, NameOf, Beyond, Apart, Holds, Distinct;
    ApartBeyond(rs, bs, mine);
    if g in net && h in net {
      SentIsLocal(f, net[g]);
      SentIsLocal(f, net[h]);
      var xs, ys := Sent(f, net[g]), Sent(f, net[h]);
      var alike := NameOf(g, locals) == NameOf(h, locals) && net[g].session == net[h].session;
      forall i, j | 0 <= i < |xs| && 0 <= j < |ys| ensures Same(rs[i], bs[j]) <==> Same(xs[i], ys[j]) && alike {
        assert xs[i] in xs && ys[j] in ys;
        ShownAt(f, net, g, NameOf(g, locals), i);
        ShownAt(f, net, h, NameOf(h, locals), j);
        SameShown(xs[i], ys[j], rs[i].node, bs[j].node);
      }
      assert |rs| == |xs| && |bs| == |ys|;
      if !Clash(f, net, g, h, locals, mine) {
        forall i, j | 0 <= i < |rs| && 0 <= j < |bs| && Same(rs[i], bs[j]) ensures Holds(mine, rs[i]) {
          assert Same(xs[i], ys[j]);
        }
      } else {
        var i, j :| 0 <= i < |xs| && 0 <= j < |ys| && Same(xs[i], ys[j]) && !Holds(mine, rs[i]);
        assert Same(rs[i], bs[j]);
      }
    }
  }

  lemma ShownAt(f: Family, net: map<string, Host>, h: string, name: string, i: nat)
    requires h in net && i < |Sent(f, net[h])|
    ensures Shown(f, net, h, name)[i]
         == WithNode(Sent(f, net[h])[i], NodeInfo(net[h].id, name, net[h].session))
    ensures Shown(f, net, h, name)[i].node == NodeInfo(net[h].id, name, net[h].session)
  {
  }

  lemma {:induction false} AllNewsApart(f: Family, net: map<string, Host>, hosts: seq<string>, h: string,
      locals: seq<string>, mine: seq<Info>)
    requires AllAnnounceable(f, net)
    ensures Apart(AllNews(f, net, hosts, locals, mine), News(f, net, h, locals, mine))
      <==> forall g :: g in hosts ==> !Clash(f, net, g, h, locals, mine)
  {
    if hosts != [] {
      hide News, AllAnnounceable, Clash, Apart;
      var most, g := hosts[..|hosts| - 1], hosts[|hosts| - 1];
      LastOf(hosts);
      AllNewsApart(f, net, most, h, locals, mine);
      NewsApart(f, net, g, h, locals, mine);
      ApartConcat(AllNews(f, net, most, locals, mine), News(f, net, g, locals, mine), News(f, net, h, locals, mine));
    }
  }

  lemma ClashIsSymmetric(f: Family, net: map<string, Host>, g: string, h: string, locals: seq<string>,
                         mine: seq<Info>)
    requires AllAnnounceable(f, net)
    ensures Clash(f, net, g, h, locals, mine) <==> Clash(f, net, h, g, locals, mine)
  {
    hide AllAnnounceable, Clash, News;
    NewsApart(f, net, g, h, locals, mine);
    NewsApart(f, net, h, g, locals, mine);
    ApartIsSymmetric(News(f, net, g, locals, mine), News(f, net, h, locals, mine));
  }

  lemma ApartIsSymmetric(xs: seq<Info>, ys: seq<Info>)
    ensures Apart(xs, ys) <==> Apart(ys, xs)
  {
    assert forall x, y :: Same(x, y) <==> Same(y, x);
  }

  lemma NoClashSnoc(f: Family, net: map<string, Host>, most: seq<string>, h: string, locals: seq<string>,
                    mine: seq<Info>)
    requires AllAnnounceable(f, net) && h !in most
    ensures NoClash(f, net, most + [h], locals, mine)
      <==> NoClash(f, net, most, locals, mine) && forall g :: g in most ==> !Clash(f, net, g, h, locals, mine)
  {
    hide Clash, AllAnnounceable;
    var hosts := most + [h];
    assert forall g :: g in hosts <==> g in most || g == h;
    forall g | g in most ensures Clash(f, net, h, g, locals, mine) <==> Clash(f, net, g, h, locals, mine) {
      ClashIsSymmetric(f, net, g, h, locals, mine);
    }
  }

  lemma NewsAreDistinct(f: Family, net: map<string, Host>, h: string, locals: seq<string>, mine: seq<Info>)
    requires AllAnnounceable(f, net)
    ensures Distinct(News(f, net, h, locals, mine))
  {
    ShownIsDistinct(f, net, h, NameOf(h, locals));
    BeyondIsDistinct(Shown(f, net, h, NameOf(h, locals)), mine);
  }

  /** The news of different hosts are pairwise unequal exactly when no two clash. */
  lemma {:induction false} DistinctExactly(f: Family, net: map<string, Host>, hosts: seq<string>,
      locals: seq<string>, mine: seq<Info>)
    requires AllAnnounceable(f, net)
    requires forall i, j :: 0 <= i < j < |hosts| ==> hosts[i] != hosts[j]
    ensures Distinct(AllNews(f, net, hosts, locals, mine)) <==> NoClash(f, net, hosts, locals, mine)
  {
    if hosts != [] {
      hide News, AllAnnounceable, Clash, Distinct, NoClash, Apart;
      var most, h := hosts[..|hosts| - 1], hosts[|hosts| - 1];
      assert hosts == most + [h];
      DistinctExactly(f, net, most, locals, mine);
      AllNewsApart(f, net, most, h, locals, mine);
      NewsAreDistinct(f, net, h, locals, mine);
      DistinctConcat(AllNews(f, net, most, locals, mine), News(f, net, h, locals, mine));
      NoClashSnoc(f, net, most, h, locals, mine);
    }
  }

  // ---------- repeated hosts ----------

  lemma {:induction false} NewsMembers(f: Family, net: map<string, Host>, hosts: seq<string>,
      locals: seq<string>, mine: seq<Info>, host: string)
    requires host in hosts
    ensures forall r :: r in News(f, net, host, locals, mine) ==> r in AllNews(f, net, hosts, locals, mine)
  {
    hide News;
    var n := |hosts| - 1;
    LastOf(hosts);
    if hosts[n] != host {
      NewsMembers(f, net, hosts[..n], locals, mine, host);
    }
  }

  lemma {:induction false} OnceMembers(hosts: seq<string>, but: set<string>)
    ensures forall h :: h in Once(hosts, but) <==> h in hosts && h !in but
    ensures forall i, j :: 0 <= i < j < |Once(hosts, but)| ==> Once(hosts, but)[i] != Once(hosts, but)[j]
  {
    if hosts != [] {
      OnceMembers(hosts[..|hosts| - 1], but);
      LastOf(hosts);
    }
  }

  /** The news of one more host join the others unless it is known or left out. */
  lemma OnceLast(f: Family, net: map<string, Host>, hosts: seq<string>, locals: seq<string>,
                 mine: seq<Info>, but: set<string>)
    requires hosts != []
    ensures var most, h := hosts[..|hosts| - 1], hosts[|hosts| - 1];
      var news := AllNews(f, net, Once(most, but), locals, mine);
      AllNews(f, net, Once(hosts, but), locals, mine)
      == if h in most || h in but then news else news + News(f, net, h, locals, mine)
  {
    hide News;
    var most, h := hosts[..|hosts| - 1], hosts[|hosts| - 1];
    assert (Once(most, but) + [h])[..|Once(most, but)|] == Once(most, but);
  }

  lemma KnownRows(before: seq<Info>, rows: seq<Info>)
    requires forall r :: r in rows ==> r in Dedupe(before)
    ensures Dedupe(before + rows) == Dedupe(before)
  {
    hide Outline, Dedupe;
    DedupeAppendKnown(before, rows);
  }

  lemma FreshRows(before: seq<Info>, rows: seq<Info>)
    requires Distinct(Dedupe(before) + rows)
    ensures Dedupe(before + rows) == Dedupe(before) + rows
  {
    hide Dedupe, Distinct, Same, Holds;
    DistinctConcat(Dedupe(before), rows);
    DedupeKeepsKeys(before);
    ApartByHolds(Dedupe(before), rows);
    DedupeAppendFresh(before, rows);
  }

  /** Deduplication leaves the news of each host once, if these are pairwise unequal. */
  lemma {:induction false} DedupeNews(f: Family, net: map<string, Host>, hosts: seq<string>,
      locals: seq<string>, mine: seq<Info>)
    requires Distinct(AllNews(f, net, Once(hosts, {}), locals, mine))
    ensures Dedupe(AllNews(f, net, hosts, locals, mine)) == AllNews(f, net, Once(hosts, {}), locals, mine)
  {
    if hosts != [] {
      hide News, Dedupe, Distinct, Once;
      var most, h := hosts[..|hosts| - 1], hosts[|hosts| - 1];
      var before, rows := AllNews(f, net, most, locals, mine), News(f, net, h, locals, mine);
      OnceLast(f, net, hosts, locals, mine, {});
      OnceMembers(most, {});
      if h in most {
        DedupeNews(f, net, most, locals, mine);
        NewsMembers(f, net, Once(most, {}), locals, mine, h);
        KnownRows(before, rows);
      } else {
        DistinctConcat(AllNews(f, net, Once(most, {}), locals, mine), rows);
        DedupeNews(f, net, most, locals, mine);
        FreshRows(before, rows);
      }
    }
  }

  /** It leaves the news of each host once exactly when no two hosts clash. */
  lemma DedupeNewsExactly(f: Family, net: map<string, Host>, hosts: seq<string>, locals: seq<string>,
                          mine: seq<Info>)
    requires AllAnnounceable(f, net)
    ensures Dedupe(AllNews(f, net, hosts, locals, mine)) == AllNews(f, net, Once(hosts, {}), locals, mine)
      <==> NoClash(f, net, hosts, locals, mine)
    ensures Distinct(AllNews(f, net, Once(hosts, {}), locals, mine)) <==> NoClash(f, net, hosts, locals, mine)
  {
    OnceMembers(hosts, {});
    hide AllNews, Dedupe, Clash, Distinct, Once, AllAnnounceable;
    assert NoClash(f, net, Once(hosts, {}), locals, mine) == NoClash(f, net, hosts, locals, mine);
    DistinctExactly(f, net, Once(hosts, {}), locals, mine);
    DedupeKeepsKeys(AllNews(f, net, hosts, locals, mine));
    if NoClash(f, net, hosts, locals, mine) {
      DedupeNews(f, net, hosts, locals, mine);
    }
  }

  /** What the DNS-SD module discovers, before any filter: the last published records
      of each host of the browse, as often as it is listed. */
  lemma DiscoveredIsShown(ids: IdText, f: Family, net: map<string, Host>, all: Browse, here: Browse)
    requires ids.RoundTrips() && AllAnnounceable(f, net)
    requires all.stores == here.stores == StoresOf(ids, f, net)
    ensures Discovered(ids, f, false, all, here) == ShownAll(f, net, all.hosts, here.hosts)
  {
    hide StoresOf, AllAnnounceable, ReadHosts, ShownAll;
    BrowseIsShown(ids, f, net, all.hosts, |all.hosts|);
    BrowseIsShown(ids, f, net, here.hosts, |here.hosts|);
    assert all.hosts[..|all.hosts|] == all.hosts && here.hosts[..|here.hosts|] == here.hosts;
    MarkIsShown(f, net, all.hosts, here.hosts);
  }

  lemma NewsOfNothing(f: Family, net: map<string, Host>, hosts: seq<string>, locals: seq<string>)
    ensures AllNews(f, net, hosts, locals, []) == ShownAll(f, net, hosts, locals)
  {
    AllNewsAreBeyond(f, net, hosts, locals, []);
    BeyondNothing(ShownAll(f, net, hosts, locals));
  }

  /** Every host announces its local records, any number of times. A client that browses any
      hosts, with repetitions and in any order, and drops duplicates gets the last published
      records of each host exactly once, all fields intact, under the name of the host, or
      no name for a local one, exactly when no two of the hosts clash. */
  lemma EndToEnd(ids: IdText, f: Family, net: map<string, Host>, all: Browse, here: Browse)
    requires ids.RoundTrips() && AllAnnounceable(f, net)
    requires all.stores == here.stores == StoresOf(ids, f, net)
    ensures Dedupe(Discovered(ids, f, false, all, here)) == ShownAll(f, net, Once(all.hosts, {}), here.hosts)
      <==> NoClash(f, net, all.hosts, here.hosts, [])
  {
    hide StoresOf, AllAnnounceable, ShownAll, AllNews, Discovered, NoClash, Once, Dedupe;
    DiscoveredIsShown(ids, f, net, all, here);
    DedupeNewsExactly(f, net, all.hosts, here.hosts, []);
    NewsOfNothing(f, net, all.hosts, here.hosts);
    NewsOfNothing(f, net, Once(all.hosts, {}), here.hosts);
  }

  /** At most one host of the list is local, and none has an empty name. */
  ghost predicate OneLocal(hosts: seq<string>, locals: seq<string>) {
    && "" !in hosts
    && forall g, h :: g in hosts && h in hosts && g in locals && h in locals ==> g == h
  }

  /** Then no hosts clash, whatever they announce; nor do local hosts of different sessions. */
  lemma OneLocalIsEnough(f: Family, net: map<string, Host>, hosts: seq<string>, locals: seq<string>,
                         mine: seq<Info>)
    requires OneLocal(hosts, locals) || ("" !in hosts && forall g, h ::
      g in hosts && h in hosts && g in locals && h in locals && g in net && h in net && g != h ==>
      net[g].session != net[h].session)
    ensures NoClash(f, net, hosts, locals, mine)
  {
  }

  /** Two local hosts under one session that send one record each, equal but for id and
      flags, are shown as one. */
  lemma TwoLocalHostsCollapse(ids: IdText, f: Family, net: map<string, Host>, g: string, h: string,
                              x: Info, y: Info, all: Browse)
    requires ids.RoundTrips() && AllAnnounceable(f, net)
    requires g in net && h in net && g != h && net[g].session == net[h].session
    requires Sent(f, net[g]) == [x] && Sent(f, net[h]) == [y] && Same(x, y)
    requires all == Browse([g, h], StoresOf(ids, f, net))
    ensures |Discovered(ids, f, false, all, all)| == 2
    ensures |Dedupe(Discovered(ids, f, false, all, all))| == 1
  {
    hide ShownAll, AllAnnounceable, Discovered, StoresOf;
    DiscoveredIsShown(ids, f, net, all, all);
    ShownAsOne(f, net, g, h, x, y);
  }

  lemma ShownAsOne(f: Family, net: map<string, Host>, g: string, h: string, x: Info, y: Info)
    requires AllAnnounceable(f, net)
    requires g in net && h in net && net[g].session == net[h].session
    requires Sent(f, net[g]) == [x] && Sent(f, net[h]) == [y] && Same(x, y)
    ensures var rows := ShownAll(f, net, [g, h], [g, h]);
      |rows| == 2 && |Dedupe(rows)| == 1
  {
    var n, m := NodeInfo(net[g].id, "", net[g].session), NodeInfo(net[h].id, "", net[h].session);
    var a, b := WithNode(x, n), WithNode(y, m);
    SentIsLocal(f, net[g]);
    SentIsLocal(f, net[h]);
    assert x in Sent(f, net[g]) && y in Sent(f, net[h]);
    hide Sent, Same, Announceable, WithNode, ShownAll, Dedupe;
    SameShown(x, y, n, m);
    assert WithNodes([x], n) == [a] && WithNodes([y], m) == [b];
    ShownPair(f, net, g, h, a, b);
    EqualPairIsOne(a, b);
  }

  lemma ShownPair(f: Family, net: map<string, Host>, g: string, h: string, a: Info, b: Info)
    requires Shown(f, net, g, "") == [a] && Shown(f, net, h, "") == [b]
    ensures ShownAll(f, net, [g, h], [g, h]) == [a, b]
  {
    hide Shown;
    assert [g, h][..1] == [g] && [g][..0] == [];
    assert ShownAll(f, net, [g], [g, h]) == [a];
  }

  lemma EqualPairIsOne(a: Info, b: Info)
    requires Same(a, b)
    ensures |Dedupe([a, b])| == 1
  {
    CollectPair([Duplicate], a, b);
    PushDuplicate([], a);
    PushDuplicate([a], b);
    EqualIsRejected(a, b);
  }
}

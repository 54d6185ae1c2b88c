/** A client that has local modules beside the DNS-SD module: how the records of its own host,
    which it discovers twice, come together. */
module Client {
  import opened Bits
  import opened Records
  import opened Dedup
  import opened Codec
  import opened RoundTrip
  import opened DnsSd
  import opened Registry
  import opened Discovery
  import opened Filters
  import opened EndToEnd

  /** The client's own results, with the flags of the shown records that equal them, and then
      of each host once the records the client does not hold. */
  ghost function ClientList(f: Family, net: map<string, Host>, hosts: seq<string>, locals: seq<string>,
                            mine: seq<Info>): seq<Info> {
    Boost(Dedupe(mine), ShownAll(f, net, hosts, locals)) + AllNews(f, net, Once(hosts, {}), locals, mine)
  }

  lemma SameSuffix(a: seq<Info>, b: seq<Info>, c: seq<Info>)
    ensures a + b == a + c <==> b == c
  {
    assert (a + b)[|a|..] == b && (a + c)[|a|..] == c;
  }

  /** Whatever records a client discovers locally, default discovery gives it this list exactly
      when no two hosts clash in records it does not hold itself. */
  lemma ClientListExactly(ids: IdText, f: Family, net: map<string, Host>, all: Browse, here: Browse, mine: seq<Info>)
    requires ids.RoundTrips() && AllAnnounceable(f, net)
    requires all.stores == here.stores == StoresOf(ids, f, net)
    ensures Dedupe(mine + Discovered(ids, f, false, all, here)) == ClientList(f, net, all.hosts, here.hosts, mine)
      <==> NoClash(f, net, all.hosts, here.hosts, mine)
  {
    hide StoresOf, AllAnnounceable, ShownAll, AllNews, Discovered, NoClash, Once, Dedupe, Boost;
    var rows := ShownAll(f, net, all.hosts, here.hosts);
    DiscoveredIsShown(ids, f, net, all, here);
    DedupeConcat(mine, rows);
    AllNewsAreBeyond(f, net, all.hosts, here.hosts, mine);
    DedupeNewsExactly(f, net, all.hosts, here.hosts, mine);
    SameSuffix(Boost(Dedupe(mine), rows), Dedupe(Beyond(rows, mine)),
               AllNews(f, net, Once(all.hosts, {}), here.hosts, mine));
  }

  // ---------- the own daemon ----------

  /** Records a local module answers with: they have no node name and the local session. */
  ghost predicate AreLocal(xs: seq<Info>) {
    forall x :: x in xs ==> x.node.nodeName == "" && x.node.session == LOCAL_SESSION
  }

  /** A client and the daemon of its host, the one local host it can find. */
  ghost predicate OwnHost(net: map<string, Host>, own: string, mine: seq<Info>, hosts: seq<string>) {
    own in net && "" !in hosts && AreLocal(mine)
  }

  /** The own host if it announces under the local session. */
  function Merging(net: map<string, Host>, own: string): set<string>
    requires own in net
  {
    if net[own].session == LOCAL_SESSION then {own} else {}
  }

  /** The records of the own daemon that can equal local ones. */
  ghost function Echo(f: Family, net: map<string, Host>, own: string, hosts: seq<string>): seq<Info>
    requires own in net
  {
    if own in hosts && own in Merging(net, own) then Shown(f, net, own, "") else []
  }

  lemma OthersAreApart(f: Family, net: map<string, Host>, h: string, own: string, mine: seq<Info>)
    requires own in net && AreLocal(mine) && h != "" && h !in Merging(net, own)
    ensures forall i :: 0 <= i < |Shown(f, net, h, NameOf(h, [own]))| ==>
      !Holds(mine, Shown(f, net, h, NameOf(h, [own]))[i])
  {
    var rows := Shown(f, net, h, NameOf(h, [own]));
    hide Sent;
    forall i, j | 0 <= i < |mine| && 0 <= j < |rows| ensures !Same(mine[i], rows[j]) {
      assert mine[i] in mine;
    }
  }

  lemma FlagsOfConcat(xs: seq<Info>, ys: seq<Info>, r: Info)
    ensures FlagsOf(xs + ys, r) == Or32(FlagsOf(xs, r), FlagsOf(ys, r))
  {
    if ys == [] {
      assert xs + ys == xs;
      OrZero(FlagsOf(xs, r));
    } else {
      var zs, y := ys[..|ys| - 1], ys[|ys| - 1];
      assert ys == zs + [y] && xs + ys == (xs + zs) + [y];
      FlagsOfConcat(xs, zs, r);
      FlagsOfSnoc(xs + zs, y, r);
      FlagsOfSnoc(zs, y, r);
      OrAssociates(FlagsOf(xs, r), FlagsOf(zs, r), if Same(y, r) then Flags(y) else 0);
    }
  }

  /** A record that equals none of the list gets no flags from it. */
  lemma NoFlagsFromOthers(f: Family, net: map<string, Host>, h: string, own: string, r: Info)
    requires own in net && AreLocal([r]) && h != "" && h !in Merging(net, own)
    ensures FlagsOf(Shown(f, net, h, NameOf(h, [own])), r) == 0
  {
    var rows := Shown(f, net, h, NameOf(h, [own]));
    OthersAreApart(f, net, h, own, [r]);
    forall i | 0 <= i < |rows| ensures !Same(rows[i], r) {
      assert !Holds([r], rows[i]);
      assert !Same([r][0], rows[i]);
    }
    FlagsOfEqual(rows, r, r);
  }

  lemma {:induction false} FlagsOfShown(f: Family, net: map<string, Host>, hosts: seq<string>, own: string, r: Info)
    requires OwnHost(net, own, [r], hosts)
    ensures FlagsOf(ShownAll(f, net, hosts, [own]), r) == FlagsOf(Echo(f, net, own, hosts), r)
  {
    if hosts != [] {
      hide Shown, FlagsOf, AreLocal;
      var most, h := hosts[..|hosts| - 1], hosts[|hosts| - 1];
      var rows := Shown(f, net, h, NameOf(h, [own]));
      LastOf(hosts);
      FlagsOfShown(f, net, most, own, r);
      FlagsOfConcat(ShownAll(f, net, most, [own]), rows, r);
      var before := FlagsOf(Echo(f, net, own, most), r);
      OrZero(before);
      OrZero(FlagsOf(rows, r));
      OrIdempotent(FlagsOf(rows, r));
      FlagsOfNone(r);
      if h !in Merging(net, own) {
        NoFlagsFromOthers(f, net, h, own, r);
      }
    }
  }

  lemma FlagsOfNone(r: Info)
    ensures FlagsOf([], r) == 0
  {
  }

  /** Only the own daemon's records add flags to the local ones. */
  lemma BoostByOwn(f: Family, net: map<string, Host>, hosts: seq<string>, own: string, mine: seq<Info>)
    requires OwnHost(net, own, mine, hosts)
    ensures Boost(Dedupe(mine), ShownAll(f, net, hosts, [own])) == Boost(Dedupe(mine), Echo(f, net, own, hosts))
  {
    var rs := Dedupe(mine);
    DedupeConservesFlags(mine);
    hide Dedupe, ShownAll, Echo, FlagsOf;
    forall i | 0 <= i < |rs|
      ensures FlagsOf(ShownAll(f, net, hosts, [own]), rs[i]) == FlagsOf(Echo(f, net, own, hosts), rs[i])
    {
      assert MergedFrom(mine, rs[i]);
      FlagsOfShown(f, net, hosts, own, rs[i]);
    }
  }

  /** A client whose one local host is its own: the own daemon's records merge into the local
      ones, flags included, if they were announced under the local session; of its other
      records and of all other hosts the client gets those it does not hold, once. */
  lemma LocalAndRemote(ids: IdText, f: Family, net: map<string, Host>, all: Browse, here: Browse,
                       own: string, mine: seq<Info>)
    requires ids.RoundTrips() && AllAnnounceable(f, net) && OwnHost(net, own, mine, all.hosts)
    requires all.stores == here.stores == StoresOf(ids, f, net) && here.hosts == [own]
    ensures Dedupe(mine + Discovered(ids, f, false, all, here))
         == Boost(Dedupe(mine), Echo(f, net, own, all.hosts)) + AllNews(f, net, Once(all.hosts, {}), [own], mine)
    ensures forall h :: h in all.hosts && h !in Merging(net, own) ==>
      News(f, net, h, [own], mine) == Shown(f, net, h, NameOf(h, [own]))
  {
    OneLocalIsEnough(f, net, all.hosts, [own], mine);
    hide StoresOf, AllAnnounceable, ShownAll, AllNews, Discovered, NoClash, Once, Dedupe, Boost, Echo, Shown;
    ClientListExactly(ids, f, net, all, here, mine);
    BoostByOwn(f, net, all.hosts, own, mine);
    forall h | h in all.hosts && h !in Merging(net, own)
      ensures News(f, net, h, [own], mine) == Shown(f, net, h, NameOf(h, [own]))
    {
      OthersAreApart(f, net, h, own, mine);
      AllBeyond(Shown(f, net, h, NameOf(h, [own])), mine);
    }
  }

  lemma {:induction false} AllBeyond(ys: seq<Info>, xs: seq<Info>)
    requires forall i :: 0 <= i < |ys| ==> !Holds(xs, ys[i])
    ensures Beyond(ys, xs) == ys
  {
    if ys != [] {
      hide Holds;
      AllBeyond(ys[..|ys| - 1], xs);
    }
  }

  lemma {:induction false} NoneBeyond(ys: seq<Info>, xs: seq<Info>)
    requires forall i :: 0 <= i < |ys| ==> Holds(xs, ys[i])
    ensures Beyond(ys, xs) == []
  {
    if ys != [] {
      hide Holds;
      NoneBeyond(ys[..|ys| - 1], xs);
    }
  }

  /** Every record of the list equals one of mine. */
  ghost predicate AllHeld(ys: seq<Info>, mine: seq<Info>) {
    forall i :: 0 <= i < |ys| ==> Holds(mine, ys[i])
  }

  lemma OwnNews(f: Family, net: map<string, Host>, own: string, mine: seq<Info>)
    requires own in net && AllAnnounceable(f, net) && own in Merging(net, own) && AllHeld(Sent(f, net[own]), mine)
    ensures News(f, net, own, [own], mine) == []
  {
    var list, rows := Sent(f, net[own]), Shown(f, net, own, "");
    SentIsLocal(f, net[own]);
    hide Sent, AllAnnounceable;
    forall i | 0 <= i < |rows| ensures Holds(mine, rows[i]) {
      assert list[i] in list;
      assert Same(list[i], rows[i]);
      SameIsHeld(mine, list[i], rows[i]);
    }
    NoneBeyond(rows, mine);
  }

  lemma {:induction false} NewsWithoutOwn(f: Family, net: map<string, Host>, hosts: seq<string>, own: string,
                                         mine: seq<Info>)
    requires AllAnnounceable(f, net) && OwnHost(net, own, mine, hosts)
    requires own in Merging(net, own) ==> AllHeld(Sent(f, net[own]), mine)
    ensures AllNews(f, net, Once(hosts, {}), [own], mine)
         == AllNews(f, net, Once(hosts, Merging(net, own)), [own], [])
  {
    if hosts != [] {
      hide AllAnnounceable, AllNews, Shown, News, Once, AllHeld, NameOf, AreLocal;
      var most, h := hosts[..|hosts| - 1], hosts[|hosts| - 1];
      LastOf(hosts);
      NewsWithoutOwn(f, net, most, own, mine);
      OnceLast(f, net, hosts, [own], mine, {});
      OnceLast(f, net, hosts, [own], [], Merging(net, own));
      NewsOfHost(f, net, h, own, mine);
    }
  }

  lemma NewsOfHost(f: Family, net: map<string, Host>, h: string, own: string, mine: seq<Info>)
    requires AllAnnounceable(f, net) && own in net && AreLocal(mine) && h != ""
    requires own in Merging(net, own) ==> AllHeld(Sent(f, net[own]), mine)
    ensures News(f, net, h, [own], mine)
         == if h in Merging(net, own) then [] else News(f, net, h, [own], [])
  {
    BeyondNothing(Shown(f, net, h, NameOf(h, [own])));
    hide AllAnnounceable, Shown, AllHeld, AreLocal;
    if h in Merging(net, own) {
      OwnNews(f, net, own, mine);
    } else {
      OthersAreApart(f, net, h, own, mine);
      AllBeyond(Shown(f, net, h, NameOf(h, [own])), mine);
    }
  }

  /** When the client holds all its own daemon sends under the local session, the own host adds
      nothing but flags. Under any other session its records appear once more, unnamed. */
  lemma OwnHardware(ids: IdText, f: Family, net: map<string, Host>, all: Browse, here: Browse,
                    own: string, mine: seq<Info>)
    requires ids.RoundTrips() && AllAnnounceable(f, net) && OwnHost(net, own, mine, all.hosts)
    requires all.stores == here.stores == StoresOf(ids, f, net) && here.hosts == [own]
    requires own in Merging(net, own) ==> AllHeld(Sent(f, net[own]), mine)
    ensures Dedupe(mine + Discovered(ids, f, false, all, here))
         == Boost(Dedupe(mine), Echo(f, net, own, all.hosts))
          + ShownAll(f, net, Once(all.hosts, Merging(net, own)), [own])
  {
    hide Discovered, StoresOf, AllAnnounceable, ShownAll, AllNews, News, Once, Dedupe, Boost, AllHeld, Sent, Echo;
    LocalAndRemote(ids, f, net, all, here, own, mine);
    NewsWithoutOwn(f, net, all.hosts, own, mine);
    NewsOfNothing(f, net, Once(all.hosts, Merging(net, own)), [own]);
  }

  lemma SentAreHeld(f: Family, h: Host, mine: seq<Info>)
    requires Outlines(mine) == Outlines(h.candidates)
    ensures AllHeld(Sent(f, h), mine)
    ensures Outlines(Sent(f, h)) <= Outlines(Dedupe(mine))
  {
    var list := Sent(f, h);
    PublishedMembers(f, Dedupe(h.candidates));
    OrderDoesNotMatter(mine, h.candidates);
    DedupeKeepsKeys(h.candidates);
    hide Dedupe, Published;
    forall i | 0 <= i < |list| ensures Holds(mine, list[i]) {
      assert list[i] in Dedupe(h.candidates);
      assert Same(list[i], list[i]);
      assert Holds(Dedupe(h.candidates), list[i]);
      HoldsOfAlike(h.candidates, mine, list[i]);
    }
  }

  lemma BoostByKnown(rs: seq<Info>, ys: seq<Info>)
    requires Distinct(rs) && Outlines(ys) <= Outlines(rs)
    ensures Boost(rs, ys) == rs
  {
    DedupeAppendFresh([], rs);
    assert [] + rs == rs && Dedupe([]) == [];
    DedupeAppendKnown(rs, ys);
    DedupeConcat(rs, ys);
    hide Dedupe, Boost;
    assert (Boost(rs, ys) + Dedupe(Beyond(ys, rs)))[..|rs|] == Boost(rs, ys);
  }

  /** When the daemon's modules answered the same but for ids, not even flags change. */
  lemma SameAnswers(ids: IdText, f: Family, net: map<string, Host>, all: Browse, here: Browse,
                    own: string, mine: seq<Info>)
    requires ids.RoundTrips() && AllAnnounceable(f, net) && OwnHost(net, own, mine, all.hosts)
    requires all.stores == here.stores == StoresOf(ids, f, net) && here.hosts == [own]
    requires Outlines(mine) == Outlines(net[own].candidates)
    ensures Dedupe(mine + Discovered(ids, f, false, all, here))
         == Dedupe(mine) + ShownAll(f, net, Once(all.hosts, Merging(net, own)), [own])
  {
    hide Discovered, StoresOf, AllAnnounceable, ShownAll, Once, Dedupe, Boost, AllHeld, Sent;
    SentAreHeld(f, net[own], mine);
    OwnHardware(ids, f, net, all, here, own, mine);
    EchoIsKnown(f, net, own, all.hosts, mine);
    DedupeKeepsKeys(mine);
    BoostByKnown(Dedupe(mine), Echo(f, net, own, all.hosts));
  }

  lemma EchoIsKnown(f: Family, net: map<string, Host>, own: string, hosts: seq<string>, mine: seq<Info>)
    requires AllAnnounceable(f, net) && own in net
    requires Outlines(Sent(f, net[own])) <= Outlines(Dedupe(mine))
    ensures Outlines(Echo(f, net, own, hosts)) <= Outlines(Dedupe(mine))
  {
    var list, rows := Sent(f, net[own]), Echo(f, net, own, hosts);
    SentIsLocal(f, net[own]);
    hide Sent, Dedupe, AllAnnounceable, Shown, Outline, WithNode, Distinct, AllBelongTo;
    forall r | r in rows ensures Outline(r) in Outlines(Dedupe(mine)) {
      var i :| 0 <= i < |rows| && rows[i] == r;
      ShownLength(f, net, own, "");
      ShownAt(f, net, own, "", i);
      assert list[i] in list;
      OutlineOfLocal(list[i], net[own].id);
      assert Outline(list[i]) in Outlines(list);
    }
  }

  lemma ShownLength(f: Family, net: map<string, Host>, h: string, name: string)
    requires h in net
    ensures |Shown(f, net, h, name)| == |Sent(f, net[h])|
  {
  }

  lemma OutlineOfLocal(x: Info, id: Id)
    requires x.node.nodeName == "" && x.node.session == LOCAL_SESSION
    ensures Outline(WithNode(x, NodeInfo(id, "", LOCAL_SESSION))) == Outline(x)
  {
  }

  // ---------- the objects ----------

  /** The same records up to ids and positions, and as many. */
  ghost predicate SameUpToIds(rs: seq<Info>, ss: seq<Info>) {
    Outlines(rs) == Outlines(ss) && |rs| == |ss|
  }

  lemma {:induction false} OutlinesAtMost(rs: seq<Info>)
    ensures |Outlines(rs)| <= |rs|
    ensures |Outlines(rs)| == |rs| ==> forall i, j :: 0 <= i < j < |rs| ==> Outline(rs[i]) != Outline(rs[j])
  {
    if rs != [] {
      var ss, r := rs[..|rs| - 1], rs[|rs| - 1];
      OutlinesAtMost(ss);
      assert rs == ss + [r];
      assert Outlines(rs) == Outlines(ss) + {Outline(r)};
      hide Outline;
      forall i | 0 <= i < |ss| ensures Outline(ss[i]) in Outlines(ss) {
        assert ss[i] in ss;
      }
    }
  }

  lemma UpToIdsIsDistinct(rs: seq<Info>, ss: seq<Info>)
    requires SameUpToIds(rs, ss) && Distinct(rs)
    ensures Distinct(ss)
  {
    OutlinesCount(rs);
    OutlinesAtMost(ss);
    hide Outline, Same;
    forall i, j | 0 <= i < j < |ss| ensures !Same(ss[i], ss[j]) {
      assert ss[i] in ss && ss[j] in ss;
      var a := AlikeMember(ss, rs, ss[i]);
      var b := AlikeMember(ss, rs, ss[j]);
      var k :| 0 <= k < |rs| && rs[k] == a;
      var l :| 0 <= l < |rs| && rs[l] == b;
      assert k != l;
      OneOfTwo(rs, k, l, ss[i], ss[j]);
    }
  }

  lemma OneOfTwo(rs: seq<Info>, k: nat, l: nat, x: Info, y: Info)
    requires Distinct(rs) && k < |rs| && l < |rs| && k != l && Same(rs[k], x) && Same(rs[l], y)
    ensures !Same(x, y)
  {
    assert !Same(rs[k], rs[l]) && !Same(rs[l], rs[k]);
  }

  /** Local modules may come before and behind the DNS-SD one. */
  lemma AnyPosition(ids: IdText, f: Family, net: map<string, Host>, all: Browse, here: Browse,
                    xs: seq<Info>, ys: seq<Info>)
    requires ids.RoundTrips() && AllAnnounceable(f, net)
    requires all.stores == here.stores == StoresOf(ids, f, net)
    ensures SameUpToIds(Dedupe(xs + Discovered(ids, f, false, all, here) + ys),
                  ClientList(f, net, all.hosts, here.hosts, xs + ys))
      <==> NoClash(f, net, all.hosts, here.hosts, xs + ys)
  {
    var found := Discovered(ids, f, false, all, here);
    var rs, list := Dedupe(xs + found + ys), ClientList(f, net, all.hosts, here.hosts, xs + ys);
    hide Discovered, StoresOf, AllAnnounceable, ShownAll, AllNews, NoClash, Once, Dedupe, Boost, Distinct, Outline;
    ClientListExactly(ids, f, net, all, here, xs + ys);
    assert Outlines(xs + found + ys) == Outlines(xs + ys + found);
    OrderDoesNotMatter(xs + found + ys, xs + ys + found);
    if SameUpToIds(rs, list) {
      DedupeKeepsKeys(xs + found + ys);
      UpToIdsIsDistinct(rs, list);
      DistinctConcat(Boost(Dedupe(xs + ys), ShownAll(f, net, all.hosts, here.hosts)),
                     AllNews(f, net, Once(all.hosts, {}), here.hosts, xs + ys));
      DedupeNewsExactly(f, net, all.hosts, here.hosts, xs + ys);
    }
  }

  /** The client's list up to ids and positions, and when the DNS-SD module is asked last the
      very list, exactly when no hosts clash. */
  ghost predicate Delivers(f: Family, net: map<string, Host>, hosts: seq<string>, locals: seq<string>,
                           mine: seq<Info>, last: bool, items: seq<Info>) {
    var list := ClientList(f, net, hosts, locals, mine);
    && (SameUpToIds(items, list) <==> NoClash(f, net, hosts, locals, mine))
    && (last ==> (items == list <==> NoClash(f, net, hosts, locals, mine)))
  }

  lemma DedupedIsDelivered(ids: IdText, f: Family, net: map<string, Host>, all: Browse, here: Browse,
                           xs: seq<Info>, ys: seq<Info>, last: bool)
    requires ids.RoundTrips() && AllAnnounceable(f, net)
    requires all.stores == here.stores == StoresOf(ids, f, net)
    requires last ==> ys == []
    ensures Delivers(f, net, all.hosts, here.hosts, xs + ys, last,
                     Dedupe(xs + Discovered(ids, f, false, all, here) + ys))
  {
    hide StoresOf, Discovered, Dedupe, AllAnnounceable, NoClash, ClientList, SameUpToIds;
    var found := Discovered(ids, f, false, all, here);
    AnyPosition(ids, f, net, all, here, xs, ys);
    ClientListExactly(ids, f, net, all, here, xs + ys);
    assert ys == [] ==> xs + found + ys == xs + ys + found;
  }

  /** The same for the objects: default discovery by a client that registered any modules
      before and behind the DNS-SD one. */
  method BrowseNetwork(stack: Stack, before: seq<Module>, remote: Module, after: seq<Module>, localId: Id,
                       ghost net: map<string, Host>) returns (result: InfoList)
    requires stack.Valid() && stack.nodes == before + [remote] + after
    requires remote.impl != null && !remote.impl.announcing
    requires var impl := remote.impl;
      && impl.all.stores == impl.here.stores == StoresOf(impl.ids, impl.family, net)
      && impl.ids.RoundTrips() && AllAnnounceable(impl.family, net)
    ensures fresh(result)
    ensures var impl, mine := remote.impl, old(Candidates(before) + Candidates(after));
      Delivers(impl.family, net, impl.all.hosts, impl.here.hosts, mine, after == [], result.items)
  {
    var impl := remote.impl;
    ghost var xs, ys := Candidates(before), Candidates(after);
    NothingBehind(after);
    hide StoresOf, Discovered, Dedupe, AllAnnounceable, Candidates, Delivers;
    DedupedIsDelivered(impl.ids, impl.family, net, impl.all, impl.here, xs, ys, after == []);
    CandidatesAround(before, remote, after);
    result := DiscoverDefault(stack, localId);
  }

  lemma NothingBehind(after: seq<Module>)
    ensures after == [] ==> Candidates(after) == []
  {
  }
}

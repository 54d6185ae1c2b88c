/** Local network discovery: merging the address entries of the operating system into one
    record for each interface name. */
module Interfaces {
  import opened Text
  import opened Records
  import opened MacAddress
  import opened RoundTrip

  /** An entry's address. Name lookups that fail are None; a link-layer address comes with the
      interface type the platform gives its hardware type. */
  datatype Address =
    | NoAddress
    | Inet(numeric: Option<string>, resolved: Option<string>)
    | Inet6(numeric: Option<string>)
    | Packet(mac: seq<byte>, hardware: NetType)
    | OtherFamily

  datatype Entry = Entry(name: string, up: bool, address: Address)

  type InfoMap = map<string, Info>

  /** What one entry makes of the record of its name. */
  function Update(x: Info, e: Entry): (r: Info)
    requires x.Net?
    ensures r.Net? && r.name == e.name
  {
    var y := x.(name := e.name, up := e.up);
    match e.address
    case Inet(numeric, resolved) =>
      var z := if numeric.Some? then y.(inetAddress := numeric.value) else y;
      if resolved.Some? then z.(hostname := resolved.value) else z
    case Inet6(numeric) => if numeric.Some? then y.(inet6Address := numeric.value) else y
    case Packet(mac, hardware) => y.(kind := hardware, hwAddress := Format(mac))
    case _ => y
  }

  ghost predicate AllNet(infos: InfoMap) {
    forall name :: name in infos ==> infos[name].Net?
  }

  /** The map after all entries. */
  function MapOf(node: NodeInfo, entries: seq<Entry>): (infos: InfoMap)
    ensures AllNet(infos)
  {
    if entries == [] then map[] else
      var infos, e := MapOf(node, entries[..|entries| - 1]), entries[|entries| - 1];
      if e.address.NoAddress? then infos
      else infos[e.name := Update(if e.name in infos then infos[e.name] else NewNet(node), e)]
  }

  // ---------- the order of std::map ----------

  predicate Less(a: string, b: string) {
    b != "" && (a == "" || a[0] < b[0] || (a[0] == b[0] && Less(a[1..], b[1..])))
  }

  /** The texts differ first at k, where the first one ends or has the smaller character. */
  ghost predicate SmallerAt(a: string, b: string, k: nat) {
    && k <= |a| && k < |b| && (k == |a| || a[k] < b[k])
    && forall i :: 0 <= i < k ==> a[i] == b[i]
  }

  /** Less is the order by the first differing character, a prefix coming first. */
  lemma {:induction false} LessExactly(a: string, b: string)
    ensures Less(a, b) <==> exists k: nat :: SmallerAt(a, b, k)
  {
    if a == "" || b == "" {
      assert b != "" ==> SmallerAt(a, b, 0);
    } else {
      LessExactly(a[1..], b[1..]);
      assert a[0] < b[0] ==> SmallerAt(a, b, 0);
      if a[0] == b[0] && Less(a[1..], b[1..]) {
        var k: nat :| SmallerAt(a[1..], b[1..], k);
        assert SmallerAt(a, b, k + 1);
      }
      forall k: nat | SmallerAt(a, b, k) ensures k == 0 || (a[0] == b[0] && SmallerAt(a[1..], b[1..], k - 1)) {
      }
    }
  }

  lemma {:induction false} LessIsTotal(a: string, b: string)
    ensures a == b || Less(a, b) || Less(b, a)
    ensures !(Less(a, b) && Less(b, a)) && !Less(a, a)
  {
    if a != "" && b != "" {
      LessIsTotal(a[1..], b[1..]);
      assert a == [a[0]] + a[1..] && b == [b[0]] + b[1..];
    }
    if a != "" {
      LessIsTotal(a[1..], a[1..]);
    }
  }

  lemma {:induction false} LessIsTransitive(a: string, b: string, c: string)
    requires Less(a, b) && Less(b, c)
    ensures Less(a, c)
  {
    if a != "" && a[0] == b[0] == c[0] {
      LessIsTransitive(a[1..], b[1..], c[1..]);
    }
  }

  /** The result lists the records of the map by strictly increasing name. */
  ghost predicate Lists(rs: seq<Info>, infos: InfoMap) {
    && (forall i :: 0 <= i < |rs| ==> rs[i].Net? && rs[i].name in infos && infos[rs[i].name] == rs[i])
    && (forall i, j :: 0 <= i < j < |rs| ==> Less(rs[i].name, rs[j].name))
    && forall name :: name in infos ==> exists i :: 0 <= i < |rs| && rs[i].name == name
  }

  /** The least name of a non-empty set. */
  method Least(names: set<string>) returns (least: string)
    requires names != {}
    ensures least in names && forall n :: n in names && n != least ==> Less(least, n)
  {
    least :| least in names;
    var rest := names - {least};
    while rest != {}
      invariant least in names && rest <= names
      invariant forall n :: n in names && n !in rest && n != least ==> Less(least, n)
      decreases rest
    {
      var n :| n in rest;
      LessIsTotal(least, n);
      if Less(n, least) {
        forall k | k in names && k !in rest && k != least ensures Less(n, k) {
          LessIsTransitive(n, least, k);
        }
        least := n;
      }
      rest := rest - {n};
    }
  }

  /** The body of the enumeration loop, field by field. */
  method UpdateInfo(x: Info, e: Entry) returns (info: Info)
    requires x.Net?
    ensures info == Update(x, e)
  {
    info := x.(name := e.name, up := e.up);
    match e.address {
      case Inet(numeric, resolved) =>
        if numeric.Some? {
          info := info.(inetAddress := numeric.value);
        }
        if resolved.Some? {
          info := info.(hostname := resolved.value);
        }
      case Inet6(numeric) =>
        if numeric.Some? {
          info := info.(inet6Address := numeric.value);
        }
      case Packet(bytes, hardware) =>
        var mac := FormatWithInnerTest(bytes);
        info := info.(kind := hardware, hwAddress := mac);
      case _ =>
    }
  }

  /** The discovery of the local network interfaces. */
  method DiscoverInterfaces(node: NodeInfo, entries: seq<Entry>) returns (result: seq<Info>)
    ensures Lists(result, MapOf(node, entries))
  {
    hide Update;
    var infos: InfoMap := map[];
    var i := 0;
    while i < |entries|
      invariant 0 <= i <= |entries|
      invariant infos == MapOf(node, entries[..i]) && AllNet(infos) && Named(infos)
    {
      assert entries[..i + 1][..i] == entries[..i];
      var e := entries[i];
      if !e.address.NoAddress? {
        var info := if e.name in infos then infos[e.name] else NewNet(node);
        info := UpdateInfo(info, e);
        infos := infos[e.name := info];
      }
      i := i + 1;
    }
    assert entries[..i] == entries;
    result := InOrder(infos);
  }

  ghost predicate Named(infos: InfoMap) {
    forall name :: name in infos ==> infos[name].Net? && infos[name].name == name
  }

  /** The loop over the map, in the order of its keys. */
  method InOrder(infos: InfoMap) returns (result: seq<Info>)
    requires Named(infos)
    ensures Lists(result, infos)
  {
    result := [];
    var rest := infos.Keys;
    assert infos - rest == map[];
    while rest != {}
      invariant rest <= infos.Keys
      invariant Lists(result, infos - rest)
      invariant forall n, m :: n in infos - rest && m in rest ==> Less(n, m)
      decreases rest
    {
      hide Less, Lists;
      var name := Least(rest);
      ListsSnoc(result, infos - rest, name, infos[name]);
      assert infos - (rest - {name}) == (infos - rest)[name := infos[name]];
      result := result + [infos[name]];
      rest := rest - {name};
    }
    assert infos - rest == infos;
  }

  lemma ListsSnoc(rs: seq<Info>, infos: InfoMap, name: string, x: Info)
    requires Lists(rs, infos) && name !in infos && x.Net? && x.name == name
    requires forall n :: n in infos ==> Less(n, name)
    ensures Lists(rs + [x], infos[name := x])
  {
    hide Less;
    var more := rs + [x];
    forall n | n in infos || n == name ensures exists i :: 0 <= i < |more| && more[i].name == n {
      if n == name {
        assert more[|rs|].name == n;
      } else {
        var i :| 0 <= i < |rs| && rs[i].name == n;
        assert more[i].name == n;
      }
    }
  }

  // ---------- what the result means ----------

  /** The value of the last entry for a name that has one. */
  function LastPicked<T>(entries: seq<Entry>, name: string, pick: Entry -> Option<T>, default: T): T {
    if entries == [] then default else
      var e := entries[|entries| - 1];
      if !e.address.NoAddress? && e.name == name && pick(e).Some? then pick(e).value
      else LastPicked(entries[..|entries| - 1], name, pick, default)
  }

  function PickUp(): Entry -> Option<bool> {
    (e: Entry) => Some(e.up)
  }

  function PickInet(): Entry -> Option<string> {
    (e: Entry) => if e.address.Inet? then e.address.numeric else None
  }

  function PickHostname(): Entry -> Option<string> {
    (e: Entry) => if e.address.Inet? then e.address.resolved else None
  }

  function PickInet6(): Entry -> Option<string> {
    (e: Entry) => if e.address.Inet6? then e.address.numeric else None
  }

  function PickMac(): Entry -> Option<string> {
    (e: Entry) => if e.address.Packet? then Some(Format(e.address.mac)) else None
  }

  function PickKind(): Entry -> Option<NetType> {
    (e: Entry) => if e.address.Packet? then Some(e.address.hardware) else None
  }

  /** The record of a name, each field the last one resolved for it. */
  function Expected(node: NodeInfo, entries: seq<Entry>, name: string): Info {
    Net(node, LastPicked(entries, name, PickKind(), Unknown), name,
        LastPicked(entries, name, PickHostname(), ""), LastPicked(entries, name, PickMac(), ""),
        LastPicked(entries, name, PickInet(), ""), LastPicked(entries, name, PickInet6(), ""),
        UINT_MAX, LastPicked(entries, name, PickUp(), false))
  }

  lemma {:induction false} MergeNames(node: NodeInfo, entries: seq<Entry>, name: string)
    ensures name in MapOf(node, entries) <==>
        exists i :: 0 <= i < |entries| && entries[i].name == name && !entries[i].address.NoAddress?
  {
    hide Update;
    if entries != [] {
      MergeNames(node, entries[..|entries| - 1], name);
    }
  }

  lemma UpdateIsLast(node: NodeInfo, entries: seq<Entry>, e: Entry)
    requires !e.address.NoAddress?
    ensures Update(Expected(node, entries, e.name), e) == Expected(node, entries + [e], e.name)
  {
    assert (entries + [e])[..|entries|] == entries;
    hide Format;
  }

  lemma OtherIsLast(node: NodeInfo, entries: seq<Entry>, e: Entry, name: string)
    requires e.address.NoAddress? || e.name != name
    ensures Expected(node, entries + [e], name) == Expected(node, entries, name)
  {
    assert (entries + [e])[..|entries|] == entries;
    hide Format;
  }

  /** The record of a name has the last value of each field. */
  lemma {:induction false} MergeIsLast(node: NodeInfo, entries: seq<Entry>, name: string)
    ensures name in MapOf(node, entries) ==> MapOf(node, entries)[name] == Expected(node, entries, name)
    ensures name !in MapOf(node, entries) ==>
        Expected(node, entries, name) == Net(node, Unknown, name, "", "", "", "", UINT_MAX, false)
  {
    if entries != [] {
      var most, e := entries[..|entries| - 1], entries[|entries| - 1];
      assert entries == most + [e];
      MergeIsLast(node, most, name);
      hide Update, Expected;
      if !e.address.NoAddress? && e.name == name {
        UpdateIsLast(node, most, e);
        UpdateNameless(NewNet(node), e);
      } else {
        OtherIsLast(node, most, e, name);
      }
    }
  }

  lemma UpdateNameless(x: Info, e: Entry)
    requires x.Net?
    ensures Update(x.(name := e.name), e) == Update(x, e)
  {
  }

  /** The result has one record for each name with an address entry, in strictly increasing
      order of names, and each of its fields is the last one resolved for that name. */
  lemma ResultIsLast(node: NodeInfo, entries: seq<Entry>, rs: seq<Info>)
    requires Lists(rs, MapOf(node, entries))
    ensures forall i :: 0 <= i < |rs| ==> rs[i].Net? && rs[i] == Expected(node, entries, rs[i].name)
    ensures forall i, j :: 0 <= i < j < |rs| ==> Less(rs[i].name, rs[j].name)
    ensures forall e :: e in entries && !e.address.NoAddress? ==> exists i :: 0 <= i < |rs| && rs[i].name == e.name
    ensures forall i :: 0 <= i < |rs| ==> exists e :: e in entries && !e.address.NoAddress? && e.name == rs[i].name
  {
    forall i | 0 <= i < |rs|
      ensures rs[i] == Expected(node, entries, rs[i].name)
      ensures exists e :: e in entries && !e.address.NoAddress? && e.name == rs[i].name
    {
      MergeIsLast(node, entries, rs[i].name);
      MergeNames(node, entries, rs[i].name);
      var k :| 0 <= k < |entries| && entries[k].name == rs[i].name && !entries[k].address.NoAddress?;
      assert entries[k] in entries;
    }
    forall e | e in entries && !e.address.NoAddress? ensures exists i :: 0 <= i < |rs| && rs[i].name == e.name {
      var k :| 0 <= k < |entries| && entries[k] == e;
      MergeNames(node, entries, e.name);
    }
  }

  /** A map has only one listing. */
  lemma {:induction false} ListingIsUnique(rs: seq<Info>, ss: seq<Info>, infos: InfoMap, n: nat)
    requires Lists(rs, infos) && Lists(ss, infos) && n <= |rs| && n <= |ss|
    ensures rs[..n] == ss[..n]
    ensures n == |rs| ==> |ss| == n
  {
    if n > 0 {
      ListingIsUnique(rs, ss, infos, n - 1);
      NextName(rs, ss, infos, n - 1);
      NextName(ss, rs, infos, n - 1);
      LessIsTotal(rs[n - 1].name, ss[n - 1].name);
      assert rs[n - 1].name == ss[n - 1].name;
      assert rs[..n] == rs[..n - 1] + [rs[n - 1]] && ss[..n] == ss[..n - 1] + [ss[n - 1]];
    }
    if n == |rs| && n < |ss| {
      NextName(rs, ss, infos, n);
    }
  }

  /** Behind a common prefix the name that comes next in ss is in rs, and not before. */
  lemma NextName(rs: seq<Info>, ss: seq<Info>, infos: InfoMap, n: nat)
    requires Lists(rs, infos) && Lists(ss, infos) && n <= |rs| && n < |ss| && rs[..n] == ss[..n]
    ensures n < |rs| && !Less(ss[n].name, rs[n].name)
  {
    var name := ss[n].name;
    var i :| 0 <= i < |rs| && rs[i].name == name;
    forall j | 0 <= j < n ensures rs[j].name != name {
      assert rs[j] == rs[..n][j] == ss[..n][j];
      LessIsTotal(ss[j].name, name);
    }
    LessIsTotal(name, name);
    if n < i {
      LessIsTotal(rs[n].name, name);
    }
  }

  /** The entries of one interface. */
  function Own(entries: seq<Entry>, name: string): seq<Entry> {
    if entries == [] then [] else
      var e := entries[|entries| - 1];
      Own(entries[..|entries| - 1], name) + if e.name == name && !e.address.NoAddress? then [e] else []
  }

  lemma {:induction false} MergeOfOwn(node: NodeInfo, entries: seq<Entry>, name: string)
    ensures name in MapOf(node, entries) <==> name in MapOf(node, Own(entries, name))
    ensures name in MapOf(node, entries) ==> MapOf(node, entries)[name] == MapOf(node, Own(entries, name))[name]
  {
    if entries != [] {
      var most, e := entries[..|entries| - 1], entries[|entries| - 1];
      MergeOfOwn(node, most, name);
      if e.name == name && !e.address.NoAddress? {
        assert (Own(most, name) + [e])[..|Own(most, name)|] == Own(most, name);
      } else {
        assert Own(entries, name) == Own(most, name);
      }
    }
  }

  /** Reordering entries of different interfaces leaves the whole result unchanged. */
  lemma InterleavingDoesNotMatter(node: NodeInfo, a: seq<Entry>, b: seq<Entry>, rs: seq<Info>, ss: seq<Info>)
    requires forall name :: Own(a, name) == Own(b, name)
    requires Lists(rs, MapOf(node, a)) && Lists(ss, MapOf(node, b))
    ensures rs == ss
  {
    hide Own, MapOf, Lists;
    forall name
      ensures name in MapOf(node, a) <==> name in MapOf(node, b)
      ensures name in MapOf(node, a) ==> MapOf(node, a)[name] == MapOf(node, b)[name]
    {
      MergeOfOwn(node, a, name);
      MergeOfOwn(node, b, name);
      assert Own(a, name) == Own(b, name);
    }
    assert MapOf(node, a) == MapOf(node, b);
    var infos := MapOf(node, a);
    if |rs| <= |ss| {
      ListingIsUnique(rs, ss, infos, |rs|);
    } else {
      ListingIsUnique(ss, rs, infos, |ss|);
    }
    assert rs[..|rs|] == rs && ss[..|ss|] == ss;
  }

  // ---------- fit for announcement ----------

  /** The names and looked-up texts of an entry are single tokens. */
  predicate IsTokens(e: Entry) {
    && SpaceFree(e.name)
    && match e.address
       case Inet(numeric, resolved) =>
         (numeric.Some? ==> SpaceFree(numeric.value)) && (resolved.Some? ==> SpaceFree(resolved.value))
       case Inet6(numeric) => numeric.Some? ==> SpaceFree(numeric.value)
       case _ => true
  }

  /** All texts of an interface are single tokens. */
  predicate HasTokens(x: Info) {
    && x.Net? && SpaceFree(x.name) && SpaceFree(x.hostname)
    && SpaceFree(x.hwAddress) && SpaceFree(x.inetAddress) && SpaceFree(x.inet6Address)
  }

  lemma UpdateHasTokens(x: Info, e: Entry)
    requires HasTokens(x) && IsTokens(e)
    ensures HasTokens(Update(x, e)) && Update(x, e).node == x.node
  {
    if e.address.Packet? {
      FormatIsSpaceFree(e.address.mac);
    }
    hide Format, SpaceFree;
  }

  lemma {:induction false} MergeHasTokens(node: NodeInfo, entries: seq<Entry>, name: string)
    requires forall e :: e in entries ==> IsTokens(e)
    ensures name in MapOf(node, entries) ==>
        HasTokens(MapOf(node, entries)[name]) && MapOf(node, entries)[name].node == node
  {
    if entries != [] {
      var most, e := entries[..|entries| - 1], entries[|entries| - 1];
      assert entries == most + [e];
      MergeHasTokens(node, most, name);
      assert HasTokens(NewNet(node));
      hide Update, IsTokens, HasTokens;
      if !e.address.NoAddress? && e.name == name {
        var infos := MapOf(node, most);
        UpdateHasTokens(if name in infos then infos[name] else NewNet(node), e);
      }
    }
  }

  /** The local interfaces, whose hardware addresses are formatted here, come back unchanged
      from an announcement exactly if they are no tunnels: every other field the enumeration
      can fill survives the texts. */
  lemma InterfacesAreCanonical(node: NodeInfo, entries: seq<Entry>, rs: seq<Info>)
    requires Lists(rs, MapOf(node, entries))
    requires forall e :: e in entries ==> IsTokens(e)
    ensures forall r :: r in rs ==> r.Net? && r.node == node && (Canonical(r) <==> !IsTunnel(r.kind))
  {
    forall r | r in rs ensures r.Net? && r.node == node && (Canonical(r) <==> !IsTunnel(r.kind)) {
      var i :| 0 <= i < |rs| && rs[i] == r;
      MergeHasTokens(node, entries, rs[i].name);
    }
  }
}

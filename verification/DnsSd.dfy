/** The DNS-SD modules: the object that writes a host's key/value store and reads those of
    other hosts, step by step, against the functions that say what is written and read. */
module DnsSd {
  import opened Text
  import opened Records
  import opened Chains
  import opened Dedup
  import opened Store
  import opened Codec

  // ---------- what a discovery returns ----------

  /** The hosts one browse of the network finds, and the store each of them publishes. */
  datatype Browse = Browse(hosts: seq<string>, stores: map<string, Texts>) {
    function Of(host: string): Texts {
      if host in stores then stores[host] else map[]
    }
  }

  /** The records of all hosts of a browse, in order. */
  function ReadHosts(ids: IdText, f: Family, from: Browse, n: nat): seq<Info>
    requires n <= |from.hosts|
  {
    if n == 0 then [] else
      ReadHosts(ids, f, from, n - 1) + ReadHost(ids, f, from.Of(from.hosts[n - 1]), from.hosts[n - 1])
  }

  function ReadBrowse(ids: IdText, f: Family, from: Browse): seq<Info> {
    ReadHosts(ids, f, from, |from.hosts|)
  }

  /** Clears the node name of exactly those records that equal one of the local records. */
  function Mark(xs: seq<Info>, here: seq<Info>): (rs: seq<Info>)
    ensures |rs| == |xs|
    ensures forall i :: 0 <= i < |xs| ==> rs[i] == if Holds(here, xs[i]) then WithNodeName(xs[i], "") else xs[i]
  {
    seq(|xs|, i requires 0 <= i < |xs| => if Holds(here, xs[i]) then WithNodeName(xs[i], "") else xs[i])
  }

  /** What the DNS-SD module contributes to a discovery: nothing while it announces. */
  function Discovered(ids: IdText, f: Family, announcing: bool, all: Browse, here: Browse): seq<Info> {
    if announcing then [] else Mark(ReadBrowse(ids, f, all), ReadBrowse(ids, f, here))
  }

  // ---------- the values the templates are used with ----------

  datatype Value = Str(s: string) | Uns(u: uint32) | Int(i: int32) | Flag(b: bool) | Size(n: nat) | Uid(id: Id)

  /** operator<< */
  function Show(ids: IdText, v: Value): string {
    match v
    case Str(s) => s
    case Uns(u) => Print(u)
    case Int(i) => PrintInt(i)
    case Flag(b) => Print(if b then 1 else 0)
    case Size(n) => Print(n)
    case Uid(id) => ids.toText(id)
  }

  /** operator>> into a variable that holds v. */
  function Parse(ids: IdText, data: string, v: Value): Value {
    match v
    case Str(s) => Str(ReadText(data, s))
    case Uns(u) => Uns(ReadUnsigned(data, u))
    case Int(i) => Int(ReadSigned(data, i))
    case Flag(b) => Flag(ReadBool(data, b))
    case Size(n) => v
    case Uid(id) => if data == "" then v else Uid(ids.ofText(data))
  }

  predicate SameType(v: Value, w: Value) {
    match v
    case Str(_) => w.Str?
    case Uns(_) => w.Uns?
    case Int(_) => w.Int?
    case Flag(_) => w.Flag?
    case Size(_) => false
    case Uid(_) => w.Uid?
  }

  /** v comes back into a variable that holds w. Numbers and ids do; a text does if it is one
      token, or if nothing can be extracted from it and the variable held it already. */
  predicate ComesBack(v: Value, w: Value)
    requires SameType(v, w)
  {
    v.Str? ==> if Token(v.s) == "" then w.s == v.s else SpaceFree(v.s)
  }

  lemma ParseOfShow(ids: IdText, v: Value, w: Value)
    requires ids.RoundTrips() && SameType(v, w)
    ensures Parse(ids, Show(ids, v), w) == v <==> ComesBack(v, w)
  {
    match v
    case Str(s) => TokenExact(s);
    case Uns(u) => ReadUnsignedOfPrint(u, w.u);
    case Int(i) => ReadSignedOfPrint(i, w.i);
    case Flag(b) => ReadBoolOfPrint(b, w.b);
    case Uid(_) =>
  }

  /** What setValue writes for a field is what getValue reads into a variable of the same type:
      numbers and ids always, texts under that condition. No other field, no count and no
      global key is disturbed. */
  lemma SetThenGet(ids: IdText, f: Family, st: Texts, i: nat, a: Field, v: Value, w: Value)
    requires ids.RoundTrips() && SameType(v, w)
    ensures var st' := st[IndexKey(f, i, a) := Show(ids, v)];
      && (Parse(ids, CellsOf(f, st', i)(a), w) == v <==> ComesBack(v, w))
      && (forall j: nat, b :: j != i || b != a ==> CellsOf(f, st', j)(b) == CellsOf(f, st, j)(b))
      && (forall key :: key == CountKey(f) || IsGlobal(key) ==> Get(st', key) == Get(st, key))
  {
    ParseOfShow(ids, v, w);
    PutCell(f, st, i, a, Show(ids, v));
    hide Parse, Show, IndexKey, CountKey, IsGlobal;
  }

  /** An announcing and discovering DNS-SD module. `all` and `here` are what browsing every
      interface and the local one would find now, and `reachable` whether the network would
      take an announcement. */
  class DnsSd {
    const family: Family
    const ids: IdText
    var announcing: bool
    var store: Texts
    var all: Browse
    var here: Browse
    var reachable: bool

    constructor (family: Family, ids: IdText)
      ensures this.family == family && this.ids == ids
      ensures !announcing && store == map[]
    {
      this.family := family;
      this.ids := ids;
      announcing := false;
      store := map[];
      all := Browse([], map[]);
      here := Browse([], map[]);
      reachable := true;
    }

    // ----- setValue and getValue -----

    method SetIndexed(index: nat, a: Field, value: Value)
      modifies this`store
      ensures store == old(store)[IndexKey(family, index, a) := Show(ids, value)]
    {
      var key := Resource(family) + Print(index) + " " + FieldName(a);
      store := store[key := Show(ids, value)];
    }

    method SetValue(name: string, value: Value, global: bool)
      modifies this`store
      ensures store == old(store)[if global then name else Resource(family) + " " + name := Show(ids, value)]
    {
      var key := if global then name else Resource(family) + " " + name;
      store := store[key := Show(ids, value)];
    }

    method GetIndexed(texts: Texts, index: nat, a: Field, value: Value) returns (found: bool, result: Value)
      ensures found == (CellsOf(family, texts, index)(a) != "")
      ensures result == Parse(ids, CellsOf(family, texts, index)(a), value)
    {
      var data := Get(texts, Resource(family) + Print(index) + " " + FieldName(a));
      if data == "" {
        return false, value;
      }
      return true, Parse(ids, data, value);
    }

    method GetValue(texts: Texts, name: string, value: Value, global: bool) returns (found: bool, result: Value)
      ensures var data := Get(texts, if global then name else Resource(family) + " " + name);
        found == (data != "") && result == Parse(ids, data, value)
    {
      var data := Get(texts, if global then name else Resource(family) + " " + name);
      if data == "" {
        return false, value;
      }
      return true, Parse(ids, data, value);
    }

    // ----- announce -----

    method AnnounceNode(node: NodeInfo)
      modifies this`store
      ensures store == old(store)[NODE_ID := ids.toText(node.id)][NODE_NAME := node.nodeName][SESSION := node.session]
    {
      SetValue(NODE_ID, Uid(node.id), true);
      SetValue(NODE_NAME, Str(node.nodeName), true);
      SetValue(SESSION, Str(node.session), true);
    }

    /** Sets a field under a condition, as one more step of writing a row. */
    method Put(given: bool, index: nat, a: Field, value: Value, ghost base: Texts, ghost before: Row)
      returns (ghost row: Row)
      requires store == PutRow(family, base, index, before)
      modifies this`store
      ensures row == When(before, given, a, Show(ids, value)) && store == PutRow(family, base, index, row)
    {
      if given {
        SetIndexed(index, a, value);
      }
      row := When(before, given, a, Show(ids, value));
    }

    method WriteGpu(index: nat, info: Info)
      requires info.Gpu?
      modifies this`store
      ensures store == PutRow(family, old(store), index, RowOf(info))
    {
      ghost var base := store;
      ghost var row := Put(true, index, Type, Str(info.code), base, Empty);
      row := Put(true, index, Port, Uns(info.port), base, row);
      row := Put(true, index, Device, Uns(info.device), base, row);
      var drawn := info.pvp.w > 0 && info.pvp.h > 0;
      row := Put(drawn, index, X, Int(info.pvp.x), base, row);
      row := Put(drawn, index, Y, Int(info.pvp.y), base, row);
      row := Put(drawn, index, Width, Int(info.pvp.w), base, row);
      row := Put(drawn, index, Height, Int(info.pvp.h), base, row);
      row := Put(info.flags != 0, index, FlagBits, Uns(info.flags), base, row);
    }

    method WriteNet(index: nat, info: Info)
      requires info.Net?
      modifies this`store
      ensures store == PutRow(family, old(store), index, RowOf(info))
    {
      ghost var base := store;
      ghost var row := Put(true, index, Type, Str(TypeName(info.kind)), base, Empty);
      row := Put(info.name != "", index, Name, Str(info.name), base, row);
      row := Put(info.hostname != "", index, Hostname, Str(info.hostname), base, row);
      row := Put(info.hwAddress != "", index, Mac, Str(info.hwAddress), base, row);
      row := Put(info.inetAddress != "", index, IPv4, Str(info.inetAddress), base, row);
      row := Put(info.inet6Address != "", index, IPv6, Str(info.inet6Address), base, row);
      row := Put(info.linkspeed != UINT_MAX, index, Linkspeed, Uns(info.linkspeed), base, row);
      row := Put(true, index, Up, Flag(info.up), base, row);
    }

    method WriteAll(list: seq<Info>)
      modifies this`store
      ensures store == PutRows(family, old(store), RowsOf(list))
    {
      hide RowOf, PutRow;
      var i := 0;
      while i < |list|
        invariant 0 <= i <= |list|
        invariant store == PutRows(family, old(store), RowsOf(list)[..i])
      {
        if list[i].Gpu? {
          WriteGpu(i, list[i]);
        } else {
          WriteNet(i, list[i]);
        }
        assert RowsOf(list)[..i + 1][..i] == RowsOf(list)[..i];
        i := i + 1;
      }
      assert RowsOf(list)[..i] == RowsOf(list);
    }

    /** The part of announce that follows the discovery of what to announce. */
    method Publish(found: seq<Info>, id: Id, session: string)
      modifies this`store
      ensures store == StoreAfter(ids, family, old(store), id, session, found)
    {
      if found == [] {
        return;
      }
      var list := found;
      if family.NetFamily? {
        list := EraseFirstLoopback(found);
      }
      AnnounceNode(DefaultNode(id).(session := session));
      SetValue("Count", Size(|list|), false);
      assert store == PutHeader(ids, family, old(store), id, session, |list|);
      WriteAll(list);
    }

    // ----- discover -----

    method DiscoverNode(texts: Texts, host: string, node: NodeInfo) returns (result: NodeInfo)
      requires node.session == LOCAL_SESSION
      ensures result == ReadNode(ids, texts, host)
    {
      var found, value := GetValue(texts, NODE_ID, Uid(node.id), true);
      var id := if found then value.id else ids.hash(host);
      found, value := GetValue(texts, NODE_NAME, Str(host), true);
      var nodeName := value.s;
      found, value := GetValue(texts, SESSION, Str(node.session), true);
      result := NodeInfo(id, nodeName, value.s);
    }

    method DiscoverGpu(texts: Texts, host: string, localId: Id, k: nat) returns (found: seq<Info>)
      requires family.GpuFamily?
      ensures found == ReadAt(family, ReadNode(ids, texts, host), CellsOf(family, texts, k))
    {
      var ok, value := GetIndexed(texts, k, Type, Str(""));
      if !ok {
        return [];
      }
      var info := NewGpu(DefaultNode(localId), value.s);
      var there := DiscoverNode(texts, host, info.node);
      ok, value := GetIndexed(texts, k, Port, Uns(info.port));
      var port := value.u;
      ok, value := GetIndexed(texts, k, Device, Uns(info.device));
      var device := value.u;
      ok, value := GetIndexed(texts, k, X, Int(info.pvp.x));
      var x := value.i;
      ok, value := GetIndexed(texts, k, Y, Int(info.pvp.y));
      var y := value.i;
      ok, value := GetIndexed(texts, k, Width, Int(info.pvp.w));
      var w := value.i;
      ok, value := GetIndexed(texts, k, Height, Int(info.pvp.h));
      var h := value.i;
      ok, value := GetIndexed(texts, k, FlagBits, Uns(info.flags));
      found := [Gpu(there, info.code, port, device, Viewport(x, y, w, h), value.u)];
    }

    method DiscoverNet(texts: Texts, host: string, localId: Id, k: nat) returns (found: seq<Info>)
      requires family.NetFamily?
      ensures found == ReadAt(family, ReadNode(ids, texts, host), CellsOf(family, texts, k))
    {
      var info := NewNet(DefaultNode(localId));
      var there := DiscoverNode(texts, host, info.node);
      var ok, value := GetIndexed(texts, k, Type, Str(""));
      var kind := TypeOfName(value.s);
      ok, value := GetIndexed(texts, k, Name, Str(info.name));
      var name := value.s;
      ok, value := GetIndexed(texts, k, Hostname, Str(info.hostname));
      var hostname := value.s;
      ok, value := GetIndexed(texts, k, Mac, Str(info.hwAddress));
      var hwAddress := value.s;
      ok, value := GetIndexed(texts, k, IPv4, Str(info.inetAddress));
      var inetAddress := value.s;
      ok, value := GetIndexed(texts, k, IPv6, Str(info.inet6Address));
      var inet6Address := value.s;
      ok, value := GetIndexed(texts, k, Linkspeed, Uns(info.linkspeed));
      var linkspeed := value.u;
      ok, value := GetIndexed(texts, k, Up, Flag(info.up));
      found := [Net(there, kind, name, hostname, hwAddress, inetAddress, inet6Address, linkspeed, value.b)];
    }

    method GetCount(texts: Texts) returns (n: uint32)
      ensures n == ReadCount(family, texts)
    {
      var ok, value := GetValue(texts, "Count", Uns(0), false);
      n := value.u;
    }

    /** The records of one host. */
    method CollectHost(texts: Texts, host: string, localId: Id) returns (infos: seq<Info>)
      ensures infos == ReadHost(ids, family, texts, host)
    {
      hide ReadCount, ReadAt, ReadNode, CellsOf, Parse;
      var n := GetCount(texts);
      var k := 0;
      infos := [];
      while k < n
        invariant 0 <= k <= n
        invariant infos == ReadUpTo(ids, family, texts, host, k)
      {
        var found;
        if family.GpuFamily? {
          found := DiscoverGpu(texts, host, localId, k);
        } else {
          found := DiscoverNet(texts, host, localId, k);
        }
        infos := infos + found;
        k := k + 1;
      }
    }

    /** The records one browse finds. */
    method CollectBrowse(from: Browse, localId: Id) returns (infos: seq<Info>)
      ensures infos == ReadBrowse(ids, family, from)
    {
      hide ReadHost;
      infos := [];
      var j := 0;
      while j < |from.hosts|
        invariant 0 <= j <= |from.hosts|
        invariant infos == ReadHosts(ids, family, from, j)
      {
        var found := CollectHost(from.Of(from.hosts[j]), from.hosts[j], localId);
        infos := infos + found;
        j := j + 1;
      }
    }

    /** What discover returns now. */
    function Found(): seq<Info>
      reads this
    {
      Discovered(ids, family, announcing, all, here)
    }

    method Discover(localId: Id) returns (infos: seq<Info>)
      ensures infos == Found()
    {
      if announcing {
        return [];
      }
      infos := CollectBrowse(all, localId);
      var locals := CollectBrowse(here, localId);
      infos := MarkLocal(infos, locals);
    }
  }

  /** The loop that sets localhost records to localhost, in place. */
  method MarkLocal(found: seq<Info>, locals: seq<Info>) returns (infos: seq<Info>)
    ensures infos == Mark(found, locals)
  {
    infos := found;
    var i := 0;
    while i < |infos|
      invariant 0 <= i <= |infos| == |found|
      invariant infos[..i] == Mark(found, locals)[..i]
      invariant infos[i..] == found[i..]
    {
      hide WithNodeName;
      assert infos[i] == infos[i..][0];
      if Find(locals, infos[i]) != |locals| {
        assert Holds(locals, infos[i]);
        infos := infos[i := WithNodeName(infos[i], "")];
      }
      i := i + 1;
    }
  }

  lemma ErasedFrom(nets: seq<Info>, i: nat)
    requires i <= |nets|
    ensures WithoutFirstLoopback(nets[i..])
         == if i == |nets| then []
            else if nets[i].Net? && nets[i].kind == Loopback then nets[i + 1..]
            else [nets[i]] + WithoutFirstLoopback(nets[i + 1..])
  {
    if i < |nets| {
      assert nets[i..][0] == nets[i] && nets[i..][1..] == nets[i + 1..];
    }
  }

  /** The loop of the network announcement that drops a loopback interface. */
  method EraseFirstLoopback(nets: seq<Info>) returns (rest: seq<Info>)
    ensures rest == WithoutFirstLoopback(nets)
  {
    hide WithoutFirstLoopback;
    ErasedFrom(nets, |nets|);
    var i := 0;
    while i < |nets|
      invariant 0 <= i <= |nets|
      invariant WithoutFirstLoopback(nets) == nets[..i] + WithoutFirstLoopback(nets[i..])
    {
      ErasedFrom(nets, i);
      if nets[i].Net? && nets[i].kind == Loopback {
        return nets[..i] + nets[i + 1..];
      }
      assert nets[..i + 1] == nets[..i] + [nets[i]];
      i := i + 1;
    }
    rest := nets;
  }
}

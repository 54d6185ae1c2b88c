/** Records as texts: what an announcement writes to a host's store, what a client reads
    from a store, and when the one gives back the other. */
module Codec {
  import opened Text
  import opened Records
  import opened Store

  /** The text form and the hash of node identifiers, which belong to another library. */
  datatype IdText = IdText(toText: Id -> string, ofText: string -> Id, hash: string -> Id) {
    ghost predicate RoundTrips() {
      forall id :: toText(id) != "" && ofText(toText(id)) == id
    }
  }

  // ---------- writing ----------

  function When(before: Row, given: bool, a: Field, text: string): Row {
    if given then Then(before, a, text) else before
  }

  /** The fields announce sets for a record, in order. */
  function RowOf(x: Info): Row {
    match x
    case Gpu(_, code, port, device, pvp, flags) =>
      var r1 := Then(Then(Then(Empty, Type, code), Port, Print(port)), Device, Print(device));
      var r2 := When(When(r1, Drawn(pvp), X, PrintInt(pvp.x)), Drawn(pvp), Y, PrintInt(pvp.y));
      var r3 := When(When(r2, Drawn(pvp), Width, PrintInt(pvp.w)), Drawn(pvp), Height, PrintInt(pvp.h));
      When(r3, flags != 0, FlagBits, Print(flags))
    case Net(_, kind, name, hostname, hwAddress, inetAddress, inet6Address, linkspeed, up) =>
      var r1 := When(Then(Empty, Type, TypeName(kind)), name != "", Name, name);
      var r2 := When(When(r1, hostname != "", Hostname, hostname), hwAddress != "", Mac, hwAddress);
      var r3 := When(When(r2, inetAddress != "", IPv4, inetAddress), inet6Address != "", IPv6, inet6Address);
      Then(When(r3, linkspeed != UINT_MAX, Linkspeed, Print(linkspeed)), Up, Print(if up then 1 else 0))
  }

  /** The same row as a table. */
  function Written(x: Info, a: Field): Option<string> {
    match x
    case Gpu(_, code, port, device, pvp, flags) => (
      match a
      case Type => Some(code)
      case Port => Some(Print(port))
      case Device => Some(Print(device))
      case X => if Drawn(pvp) then Some(PrintInt(pvp.x)) else None
      case Y => if Drawn(pvp) then Some(PrintInt(pvp.y)) else None
      case Width => if Drawn(pvp) then Some(PrintInt(pvp.w)) else None
      case Height => if Drawn(pvp) then Some(PrintInt(pvp.h)) else None
      case FlagBits => if flags != 0 then Some(Print(flags)) else None
      case _ => None)
    case Net(_, kind, name, hostname, hwAddress, inetAddress, inet6Address, linkspeed, up) => (
      match a
      case Type => Some(TypeName(kind))
      case Name => if name != "" then Some(name) else None
      case Hostname => if hostname != "" then Some(hostname) else None
      case Mac => if hwAddress != "" then Some(hwAddress) else None
      case IPv4 => if inetAddress != "" then Some(inetAddress) else None
      case IPv6 => if inet6Address != "" then Some(inet6Address) else None
      case Linkspeed => if linkspeed != UINT_MAX then Some(Print(linkspeed)) else None
      case Up => Some(Print(if up then 1 else 0))
      case _ => None)
  }

  lemma LookWhen(before: Row, given: bool, b: Field, text: string, a: Field)
    ensures Look(When(before, given, b, text), a) == if given && a == b then Some(text) else Look(before, a)
  {
  }

  lemma LookThree(code: string, port: string, device: string, a: Field)
    ensures Look(Then(Then(Then(Empty, Type, code), Port, port), Device, device), a)
         == match a case Type => Some(code) case Port => Some(port) case Device => Some(device) case _ => None
  {
    assert Look(Then(Empty, Type, code), a) == if a == Type then Some(code) else None;
  }

  lemma LookFour(before: Row, given: bool, x: string, y: string, w: string, h: string, a: Field)
    ensures Look(When(When(When(When(before, given, X, x), given, Y, y), given, Width, w), given, Height, h), a)
         == if given && a == X then Some(x) else if given && a == Y then Some(y)
            else if given && a == Width then Some(w) else if given && a == Height then Some(h)
            else Look(before, a)
  {
    var r1 := When(before, given, X, x);
    var r2 := When(r1, given, Y, y);
    LookWhen(before, given, X, x, a);
    LookWhen(r1, given, Y, y, a);
    LookWhen(r2, given, Width, w, a);
  }

  lemma GpuRowMatches(x: Info, a: Field)
    requires x.Gpu?
    ensures Look(RowOf(x), a) == Written(x, a)
  {
    var pvp := x.pvp;
    var p, d := Print(x.port), Print(x.device);
    var px, py, pw, ph := PrintInt(pvp.x), PrintInt(pvp.y), PrintInt(pvp.w), PrintInt(pvp.h);
    LookThree(x.code, p, d, a);
    LookFour(Then(Then(Then(Empty, Type, x.code), Port, p), Device, d), Drawn(pvp), px, py, pw, ph, a);
  }

  lemma LookTexts(before: Row, name: string, hostname: string, mac: string, a: Field)
    ensures Look(When(When(When(before, name != "", Name, name), hostname != "", Hostname, hostname),
        mac != "", Mac, mac), a)
         == if name != "" && a == Name then Some(name)
            else if hostname != "" && a == Hostname then Some(hostname)
            else if mac != "" && a == Mac then Some(mac)
            else Look(before, a)
  {
    var r1 := When(before, name != "", Name, name);
    LookWhen(before, name != "", Name, name, a);
    LookWhen(r1, hostname != "", Hostname, hostname, a);
    LookWhen(When(r1, hostname != "", Hostname, hostname), mac != "", Mac, mac, a);
  }

  lemma LookRest(before: Row, inet: string, inet6: string, speed: uint32, text: string, a: Field)
    ensures Look(When(When(When(before, inet != "", IPv4, inet), inet6 != "", IPv6, inet6), speed != UINT_MAX,
        Linkspeed, text), a)
         == if inet != "" && a == IPv4 then Some(inet)
            else if inet6 != "" && a == IPv6 then Some(inet6)
            else if speed != UINT_MAX && a == Linkspeed then Some(text)
            else Look(before, a)
  {
    var r1 := When(before, inet != "", IPv4, inet);
    LookWhen(before, inet != "", IPv4, inet, a);
    LookWhen(r1, inet6 != "", IPv6, inet6, a);
    LookWhen(When(r1, inet6 != "", IPv6, inet6), speed != UINT_MAX, Linkspeed, text, a);
  }

  lemma LookNet(before: Row, name: string, hostname: string, mac: string, inet: string, inet6: string,
                speed: uint32, text: string, up: string, a: Field)
    ensures var r3 := When(When(When(before, name != "", Name, name), hostname != "", Hostname, hostname),
        mac != "", Mac, mac);
      var r6 := When(When(When(r3, inet != "", IPv4, inet), inet6 != "", IPv6, inet6), speed != UINT_MAX,
          Linkspeed, text);
      Look(Then(r6, Up, up), a) ==
        match a
        case Up => Some(up)
        case Name => if name != "" then Some(name) else Look(before, a)
        case Hostname => if hostname != "" then Some(hostname) else Look(before, a)
        case Mac => if mac != "" then Some(mac) else Look(before, a)
        case IPv4 => if inet != "" then Some(inet) else Look(before, a)
        case IPv6 => if inet6 != "" then Some(inet6) else Look(before, a)
        case Linkspeed => if speed != UINT_MAX then Some(text) else Look(before, a)
        case _ => Look(before, a)
  {
    LookTexts(before, name, hostname, mac, a);
    var r3 := When(When(When(before, name != "", Name, name), hostname != "", Hostname, hostname), mac != "", Mac, mac);
    LookRest(r3, inet, inet6, speed, text, a);
    hide When;
  }

  lemma NetRowMatches(x: Info, a: Field)
    requires x.Net?
    ensures Look(RowOf(x), a) == Written(x, a)
  {
    hide TypeName, Print, When;
    var r0 := Then(Empty, Type, TypeName(x.kind));
    assert Look(r0, a) == if a == Type then Some(TypeName(x.kind)) else None;
    LookNet(r0, x.name, x.hostname, x.hwAddress, x.inetAddress, x.inet6Address, x.linkspeed,
            Print(x.linkspeed), Print(if x.up then 1 else 0), a);
    hide Look;
  }

  /** The row holds exactly what the table says. */
  lemma RowMatchesTable(x: Info, a: Field)
    ensures Look(RowOf(x), a) == Written(x, a)
  {
    if x.Gpu? {
      GpuRowMatches(x, a);
    } else {
      NetRowMatches(x, a);
    }
  }

  // ---------- announcements ----------

  function RowsOf(list: seq<Info>): (rows: seq<Row>)
    ensures |rows| == |list| && forall i :: 0 <= i < |list| ==> rows[i] == RowOf(list[i])
  {
    seq(|list|, i requires 0 <= i < |list| => RowOf(list[i]))
  }

  /** The node and count keys. The node name of the announcing host is always empty. */
  function PutHeader(ids: IdText, f: Family, st: Texts, id: Id, session: string, count: nat): Texts {
    st[NODE_ID := ids.toText(id)][NODE_NAME := ""][SESSION := session][CountKey(f) := Print(count)]
  }

  /** The network announcement leaves out the first loopback interface. */
  function WithoutFirstLoopback(nets: seq<Info>): seq<Info> {
    if nets == [] then []
    else if nets[0].Net? && nets[0].kind == Loopback then nets[1..]
    else [nets[0]] + WithoutFirstLoopback(nets[1..])
  }

  /** The records announce writes, given those it discovered. */
  function Published(f: Family, found: seq<Info>): seq<Info> {
    if f.NetFamily? then WithoutFirstLoopback(found) else found
  }

  /** The store after an announcement. Discovering nothing leaves it as it was. */
  function StoreAfter(ids: IdText, f: Family, st: Texts, id: Id, session: string, found: seq<Info>): Texts {
    if found == [] then st else
      var list := Published(f, found);
      PutRows(f, PutHeader(ids, f, st, id, session, |list|), RowsOf(list))
  }

  lemma {:induction false} PublishedMembers(f: Family, found: seq<Info>)
    ensures |Published(f, found)| <= |found|
    ensures forall x :: x in Published(f, found) ==> x in found
  {
    if f.NetFamily? && found != [] && !(found[0].Net? && found[0].kind == Loopback) {
      PublishedMembers(f, found[1..]);
    }
  }

  // ---------- reading ----------

  function ReadNode(ids: IdText, st: Texts, host: string): NodeInfo {
    NodeInfo(
      if Get(st, NODE_ID) == "" then ids.hash(host) else ids.ofText(Get(st, NODE_ID)),
      ReadText(Get(st, NODE_NAME), host),
      ReadText(Get(st, SESSION), LOCAL_SESSION))
  }

  /** The texts of one record's fields; an absent field is empty. */
  type Cells = Field -> string

  function CellsOf(f: Family, st: Texts, i: nat): Cells {
    a => Get(st, IndexKey(f, i, a))
  }

  function ReadViewport(cells: Cells): Viewport {
    Viewport(ReadSigned(cells(X), 0), ReadSigned(cells(Y), 0),
             ReadSigned(cells(Width), -1), ReadSigned(cells(Height), -1))
  }

  /** A record is built with its defaults, which the fields found then overwrite. */
  function ReadRecord(f: Family, node: NodeInfo, cells: Cells): Info {
    if f.GpuFamily? then
      Gpu(node, ReadCode(cells(Type)), ReadUnsigned(cells(Port), 0), ReadUnsigned(cells(Device), 0),
          ReadViewport(cells), ReadUnsigned(cells(FlagBits), 0))
    else
      Net(node, TypeOfName(ReadText(cells(Type), "")), ReadText(cells(Name), ""), ReadText(cells(Hostname), ""),
          ReadText(cells(Mac), ""), ReadText(cells(IPv4), ""), ReadText(cells(IPv6), ""),
          ReadUnsigned(cells(Linkspeed), UINT_MAX), ReadBool(cells(Up), false))
  }

  /** Record i, or nothing for a GPU without a type. */
  function ReadAt(f: Family, node: NodeInfo, cells: Cells): seq<Info> {
    if f.GpuFamily? && cells(Type) == "" then [] else [ReadRecord(f, node, cells)]
  }

  /** The records below n. */
  function ReadUpTo(ids: IdText, f: Family, st: Texts, host: string, n: nat): seq<Info> {
    if n == 0 then [] else
      ReadUpTo(ids, f, st, host, n - 1) + ReadAt(f, ReadNode(ids, st, host), CellsOf(f, st, n - 1))
  }

  function ReadCount(f: Family, st: Texts): uint32 {
    ReadUnsigned(Get(st, CountKey(f)), 0)
  }

  /** What a client reads from the store of one host. */
  function ReadHost(ids: IdText, f: Family, st: Texts, host: string): seq<Info> {
    ReadUpTo(ids, f, st, host, ReadCount(f, st))
  }

  // ---------- frame ----------

  ghost predicate SameCells(c: Cells, d: Cells) {
    forall a :: c(a) == d(a)
  }

  lemma ReadAtDependsOn(f: Family, node: NodeInfo, c: Cells, d: Cells)
    requires SameCells(c, d)
    ensures ReadAt(f, node, c) == ReadAt(f, node, d)
  {
    assert c(Type) == d(Type) && c(Port) == d(Port) && c(Device) == d(Device) && c(FlagBits) == d(FlagBits);
    assert c(X) == d(X) && c(Y) == d(Y) && c(Width) == d(Width) && c(Height) == d(Height);
    assert c(Name) == d(Name) && c(Hostname) == d(Hostname) && c(Mac) == d(Mac) && c(IPv4) == d(IPv4);
    assert c(IPv6) == d(IPv6) && c(Linkspeed) == d(Linkspeed) && c(Up) == d(Up);
  }

  lemma {:induction false} ReadUpToDependsOn(ids: IdText, f: Family, st: Texts, st': Texts, host: string, n: nat)
    requires ReadNode(ids, st, host) == ReadNode(ids, st', host)
    requires forall i :: 0 <= i < n ==> SameCells(CellsOf(f, st, i), CellsOf(f, st', i))
    ensures ReadUpTo(ids, f, st, host, n) == ReadUpTo(ids, f, st', host, n)
  {
    hide ReadAt, ReadNode, CellsOf;
    if n > 0 {
      ReadUpToDependsOn(ids, f, st, st', host, n - 1);
      ReadAtDependsOn(f, ReadNode(ids, st, host), CellsOf(f, st, n - 1), CellsOf(f, st', n - 1));
    }
  }

  /** What is read from a store depends on nothing but its global keys, its count and the
      records below the count. */
  lemma ReadDependsOn(ids: IdText, f: Family, st: Texts, st': Texts, host: string)
    requires Get(st, NODE_ID) == Get(st', NODE_ID) && Get(st, NODE_NAME) == Get(st', NODE_NAME)
    requires Get(st, SESSION) == Get(st', SESSION) && Get(st, CountKey(f)) == Get(st', CountKey(f))
    requires forall i :: 0 <= i < ReadCount(f, st) ==> SameCells(CellsOf(f, st, i), CellsOf(f, st', i))
    ensures ReadHost(ids, f, st, host) == ReadHost(ids, f, st', host)
  {
    ReadUpToDependsOn(ids, f, st, st', host, ReadCount(f, st));
  }

  // ---------- round trip ----------

  /** A record as it comes back when the cells it does not write held earlier texts. */
  function Returned(node: NodeInfo, x: Info, prior: Cells): Info {
    match x
    case Gpu(_, code, port, device, pvp, flags) =>
      Gpu(node, ReadCode(code), port, device,
          if Drawn(pvp) then pvp else ReadViewport(prior),
          if flags != 0 then flags else ReadUnsigned(prior(FlagBits), 0))
    case Net(_, kind, name, hostname, hwAddress, inetAddress, inet6Address, linkspeed, up) =>
      Net(node, if IsTunnel(kind) then Unknown else kind,
          ReturnedText(name, prior(Name)), ReturnedText(hostname, prior(Hostname)),
          ReturnedText(hwAddress, prior(Mac)), ReturnedText(inetAddress, prior(IPv4)),
          ReturnedText(inet6Address, prior(IPv6)),
          if linkspeed != UINT_MAX then linkspeed else ReadUnsigned(prior(Linkspeed), UINT_MAX), up)
  }

  function ReturnedText(s: string, prior: string): string {
    Token(if s != "" then s else prior)
  }

  /** The cells of a record after its row was written over earlier ones. */
  ghost predicate WrittenOver(x: Info, prior: Cells, cells: Cells) {
    forall a :: cells(a) == if Written(x, a).Some? then Written(x, a).value else prior(a)
  }

  lemma ReadBackViewport(x: Info, prior: Cells, cells: Cells)
    requires x.Gpu? && WrittenOver(x, prior, cells)
    ensures ReadViewport(cells) == if Drawn(x.pvp) then x.pvp else ReadViewport(prior)
  {
    hide ReadSigned;
    if Drawn(x.pvp) {
      ReadSignedOfPrint(x.pvp.x, 0);
      ReadSignedOfPrint(x.pvp.y, 0);
      ReadSignedOfPrint(x.pvp.w, -1);
      ReadSignedOfPrint(x.pvp.h, -1);
    }
    assert cells(X) == if Drawn(x.pvp) then PrintInt(x.pvp.x) else prior(X);
    assert cells(Y) == if Drawn(x.pvp) then PrintInt(x.pvp.y) else prior(Y);
    assert cells(Width) == if Drawn(x.pvp) then PrintInt(x.pvp.w) else prior(Width);
    assert cells(Height) == if Drawn(x.pvp) then PrintInt(x.pvp.h) else prior(Height);
  }

  lemma ReadBackNumbers(x: Info, prior: Cells, cells: Cells)
    requires x.Gpu? && WrittenOver(x, prior, cells)
    ensures ReadUnsigned(cells(Port), 0) == x.port && ReadUnsigned(cells(Device), 0) == x.device
    ensures ReadUnsigned(cells(FlagBits), 0) == if x.flags != 0 then x.flags else ReadUnsigned(prior(FlagBits), 0)
    ensures cells(Type) == x.code
  {
    ReadUnsignedOfPrint(x.port, 0);
    ReadUnsignedOfPrint(x.device, 0);
    ReadUnsignedOfPrint(x.flags, 0);
    assert cells(Type) == x.code && cells(Port) == Print(x.port) && cells(Device) == Print(x.device);
    assert cells(FlagBits) == if x.flags != 0 then Print(x.flags) else prior(FlagBits);
  }

  lemma ReadBackGpu(f: Family, node: NodeInfo, x: Info, prior: Cells, cells: Cells)
    requires f.GpuFamily? && x.Gpu? && WrittenOver(x, prior, cells)
    ensures cells(Type) != "" && ReadRecord(f, node, cells) == Returned(node, x, prior)
  {
    ReadBackViewport(x, prior, cells);
    ReadBackNumbers(x, prior, cells);
  }

  lemma NetCells(x: Info, prior: Cells, cells: Cells)
    requires x.Net? && WrittenOver(x, prior, cells)
    ensures cells(Type) == TypeName(x.kind) && cells(Up) == Print(if x.up then 1 else 0)
    ensures cells(Name) == if x.name != "" then x.name else prior(Name)
    ensures cells(Hostname) == if x.hostname != "" then x.hostname else prior(Hostname)
    ensures cells(Mac) == if x.hwAddress != "" then x.hwAddress else prior(Mac)
    ensures cells(IPv4) == if x.inetAddress != "" then x.inetAddress else prior(IPv4)
    ensures cells(IPv6) == if x.inet6Address != "" then x.inet6Address else prior(IPv6)
    ensures cells(Linkspeed) == if x.linkspeed != UINT_MAX then Print(x.linkspeed) else prior(Linkspeed)
  {
    hide Print, TypeName;
  }

  lemma ReadBackTexts(x: Info, prior: Cells, cells: Cells)
    requires x.Net? && WrittenOver(x, prior, cells)
    ensures ReadText(cells(Name), "") == ReturnedText(x.name, prior(Name))
    ensures ReadText(cells(Hostname), "") == ReturnedText(x.hostname, prior(Hostname))
    ensures ReadText(cells(Mac), "") == ReturnedText(x.hwAddress, prior(Mac))
    ensures ReadText(cells(IPv4), "") == ReturnedText(x.inetAddress, prior(IPv4))
    ensures ReadText(cells(IPv6), "") == ReturnedText(x.inet6Address, prior(IPv6))
  {
    NetCells(x, prior, cells);
    hide WrittenOver;
  }

  lemma ReadBackRest(x: Info, prior: Cells, cells: Cells)
    requires x.Net? && WrittenOver(x, prior, cells)
    ensures TypeOfName(ReadText(cells(Type), "")) == if IsTunnel(x.kind) then Unknown else x.kind
    ensures ReadUnsigned(cells(Linkspeed), UINT_MAX)
         == if x.linkspeed != UINT_MAX then x.linkspeed else ReadUnsigned(prior(Linkspeed), UINT_MAX)
    ensures ReadBool(cells(Up), false) == x.up
  {
    hide TypeName, TypeOfName, SpaceFree, ReadUnsigned, ReadBool, Print;
    NetCells(x, prior, cells);
    hide WrittenOver;
    ReadUnsignedOfPrint(x.linkspeed, UINT_MAX);
    ReadBoolOfPrint(x.up, false);
    TypeNameExact(x.kind);
    TokenExact(TypeName(x.kind));
  }

  lemma ReadBackNet(f: Family, node: NodeInfo, x: Info, prior: Cells, cells: Cells)
    requires f.NetFamily? && x.Net? && WrittenOver(x, prior, cells)
    ensures ReadRecord(f, node, cells) == Returned(node, x, prior)
  {
    ReadBackTexts(x, prior, cells);
    ReadBackRest(x, prior, cells);
  }

  /** The node a client reads from what a host announced. */
  function ReturnedNode(id: Id, session: string, host: string): NodeInfo {
    NodeInfo(id, host, ReadText(session, LOCAL_SESSION))
  }

  function Cap(n: nat): uint32 {
    if n > UINT_MAX then UINT_MAX else n
  }

  lemma HeaderLookup(ids: IdText, f: Family, st: Texts, id: Id, session: string, count: nat, i: nat, a: Field)
    ensures var h := PutHeader(ids, f, st, id, session, count);
      && Get(h, NODE_ID) == ids.toText(id) && Get(h, NODE_NAME) == "" && Get(h, SESSION) == session
      && Get(h, CountKey(f)) == Print(count)
      && Get(h, IndexKey(f, i, a)) == Get(st, IndexKey(f, i, a))
  {
    KeySpacesAreDisjoint(f, i, a);
    assert NODE_ID[0] != NODE_NAME[0] && NODE_ID[0] != SESSION[0] && NODE_NAME[0] != SESSION[0];
  }

  /** The keys of a store after an announcement. */
  lemma StoreAfterLookup(ids: IdText, f: Family, st: Texts, id: Id, session: string, found: seq<Info>, i: nat)
    requires found != [] && ids.RoundTrips()
    ensures var st', list := StoreAfter(ids, f, st, id, session, found), Published(f, found);
      && ReadCount(f, st') == Cap(|list|)
      && (forall host :: ReadNode(ids, st', host) == ReturnedNode(id, session, host))
      && (i < |list| ==> WrittenOver(list[i], CellsOf(f, st, i), CellsOf(f, st', i)))
      && (i >= |list| ==> forall a :: CellsOf(f, st', i)(a) == CellsOf(f, st, i)(a))
  {
    var st', list := StoreAfter(ids, f, st, id, session, found), Published(f, found);
    var h := PutHeader(ids, f, st, id, session, |list|);
    HeaderLookup(ids, f, st, id, session, |list|, i, Type);
    RowsFrame(f, h, RowsOf(list), NODE_ID);
    RowsFrame(f, h, RowsOf(list), NODE_NAME);
    RowsFrame(f, h, RowsOf(list), SESSION);
    RowsFrame(f, h, RowsOf(list), CountKey(f));
    ReadUnsignedOfPrint(|list|, 0);
    forall a ensures CellsOf(f, st', i)(a)
      == if i < |list| && Written(list[i], a).Some? then Written(list[i], a).value else CellsOf(f, st, i)(a)
    {
      HeaderLookup(ids, f, st, id, session, |list|, i, a);
      RowsLookup(f, h, RowsOf(list), i, a);
      if i < |list| {
        RowMatchesTable(list[i], a);
      }
    }
  }

  // ---------- the documented protocol ----------

  /** The texts an announced record is found under in a store; fields that are not announced
      keep what was there before. */
  ghost predicate AnnouncedAs(before: Texts, st: Texts, i: nat, x: Info) {
    match x
    case Gpu(_, code, port, device, pvp, flags) =>
      var k, drawn := "GPU" + Print(i), pvp.w > 0 && pvp.h > 0;
      && Get(st, k + " Type") == code
      && Get(st, k + " Port") == Print(port) && Get(st, k + " Device") == Print(device)
      && Get(st, k + " X") == (if drawn then PrintInt(pvp.x) else Get(before, k + " X"))
      && Get(st, k + " Y") == (if drawn then PrintInt(pvp.y) else Get(before, k + " Y"))
      && Get(st, k + " Width") == (if drawn then PrintInt(pvp.w) else Get(before, k + " Width"))
      && Get(st, k + " Height") == (if drawn then PrintInt(pvp.h) else Get(before, k + " Height"))
      && Get(st, k + " Flags") == (if flags != 0 then Print(flags) else Get(before, k + " Flags"))
    case Net(_, kind, name, hostname, hwAddress, inetAddress, inet6Address, linkspeed, up) =>
      var k := "Net" + Print(i);
      && Get(st, k + " Type") == TypeName(kind) && Get(st, k + " Up") == (if up then "1" else "0")
      && Get(st, k + " Name") == (if name != "" then name else Get(before, k + " Name"))
      && Get(st, k + " Hostname") == (if hostname != "" then hostname else Get(before, k + " Hostname"))
      && Get(st, k + " MAC") == (if hwAddress != "" then hwAddress else Get(before, k + " MAC"))
      && Get(st, k + " IPv4") == (if inetAddress != "" then inetAddress else Get(before, k + " IPv4"))
      && Get(st, k + " IPv6") == (if inet6Address != "" then inet6Address else Get(before, k + " IPv6"))
      && Get(st, k + " Linkspeed")
         == (if linkspeed != 0xFFFF_FFFF then Print(linkspeed) else Get(before, k + " Linkspeed"))
  }

  lemma PrintBit(up: bool)
    ensures Print(if up then 1 else 0) == if up then "1" else "0"
  {
  }

  lemma GpuIsAnnounced(before: Texts, st: Texts, i: nat, x: Info)
    requires x.Gpu? && WrittenOver(x, CellsOf(GpuFamily, before, i), CellsOf(GpuFamily, st, i))
    ensures AnnouncedAs(before, st, i, x)
  {
    var prior, cells := CellsOf(GpuFamily, before, i), CellsOf(GpuFamily, st, i);
    hide Print, PrintInt, Get, IndexKey;
    DocumentedGpuKeys(i);
    assert cells(Type) == x.code && cells(Port) == Print(x.port) && cells(Device) == Print(x.device);
    assert cells(FlagBits) == if x.flags != 0 then Print(x.flags) else prior(FlagBits);
    assert cells(X) == if Drawn(x.pvp) then PrintInt(x.pvp.x) else prior(X);
    assert cells(Y) == if Drawn(x.pvp) then PrintInt(x.pvp.y) else prior(Y);
    assert cells(Width) == if Drawn(x.pvp) then PrintInt(x.pvp.w) else prior(Width);
    assert cells(Height) == if Drawn(x.pvp) then PrintInt(x.pvp.h) else prior(Height);
    hide WrittenOver;
  }

  lemma NetIsAnnounced(before: Texts, st: Texts, i: nat, x: Info)
    requires x.Net? && WrittenOver(x, CellsOf(NetFamily, before, i), CellsOf(NetFamily, st, i))
    ensures AnnouncedAs(before, st, i, x)
  {
    PrintBit(x.up);
    hide Print, Get, IndexKey, TypeName, WrittenOver;
    DocumentedNetKeys(i);
    NetCells(x, CellsOf(NetFamily, before, i), CellsOf(NetFamily, st, i));
  }

  /** An announcement that discovered something follows the documented protocol, but for the
      host name, which is always empty. */
  lemma AnnouncementIsDocumented(ids: IdText, f: Family, st: Texts, id: Id, session: string, found: seq<Info>)
    requires found != [] && ids.RoundTrips() && forall x :: x in found ==> BelongsTo(x, f)
    ensures var st', list := StoreAfter(ids, f, st, id, session, found), Published(f, found);
      && Get(st', "NodeID") == ids.toText(id) && Get(st', "Hostname") == "" && Get(st', "Session") == session
      && Get(st', if f.GpuFamily? then "GPU Count" else "Net Count") == Print(|list|)
      && forall i :: 0 <= i < |list| ==> AnnouncedAs(st, st', i, list[i])
  {
    var st', list := StoreAfter(ids, f, st, id, session, found), Published(f, found);
    var h := PutHeader(ids, f, st, id, session, |list|);
    HeaderLookup(ids, f, st, id, session, |list|, 0, Type);
    RowsFrame(f, h, RowsOf(list), NODE_ID);
    RowsFrame(f, h, RowsOf(list), NODE_NAME);
    RowsFrame(f, h, RowsOf(list), SESSION);
    RowsFrame(f, h, RowsOf(list), CountKey(f));
    DocumentedGpuKeys(0);
    DocumentedNetKeys(0);
    PublishedMembers(f, found);
    hide PutRows, PutHeader, CellsOf, WrittenOver, AnnouncedAs, Published, IndexKey;
    forall i | 0 <= i < |list| ensures AnnouncedAs(st, st', i, list[i]) {
      assert list[i] in list;
      StoreAfterLookup(ids, f, st, id, session, found, i);
      if f.GpuFamily? {
        GpuIsAnnounced(st, st', i, list[i]);
      } else {
        NetIsAnnounced(st, st', i, list[i]);
      }
    }
  }

  /** A record of which nothing is known: no GPU, or an interface with all defaults. */
  lemma NothingIsKnown(f: Family, node: NodeInfo, cells: Cells)
    requires forall a :: cells(a) == ""
    ensures ReadAt(f, node, cells) == if f.GpuFamily? then [] else
      [Net(node, Unknown, "", "", "", "", "", 0xFFFF_FFFF, false)]
  {
  }

  /** A GPU of which only the type is known. */
  lemma OnlyTypeIsKnown(node: NodeInfo, cells: Cells)
    requires cells(Type) != "" && forall a :: a != Type ==> cells(a) == ""
    ensures ReadAt(GpuFamily, node, cells)
         == [Gpu(node, ReadCode(cells(Type)), 0, 0, Viewport(0, 0, -1, -1), 0)]
  {
  }

  /** The node a client reads from any store: a missing identifier is made from the name the
      host was found under, a missing name is that name, and a missing session is local. */
  lemma ReadNodeExactly(ids: IdText, st: Texts, host: string)
    ensures var node := ReadNode(ids, st, host);
      var id, name, session := Get(st, "NodeID"), Get(st, "Hostname"), Get(st, "Session");
      && node.id == (if id == "" then ids.hash(host) else ids.ofText(id))
      && node.nodeName == (if Token(name) == "" then host else Token(name))
      && node.session == (if Token(session) == "" then "local" else Token(session))
  {
  }
}

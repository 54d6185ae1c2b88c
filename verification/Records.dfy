/** The records of the library: node, GPU and network informations and the
    relations the filters compare them by. */
module Records {
  import opened Bits
  import opened Text

  /** A 128-bit node identifier; only its equality and its text matter here. */
  type Id = nat

  datatype NodeInfo = NodeInfo(id: Id, nodeName: string, session: string)

  const LOCAL_SESSION := "local"

  /** A default-constructed NodeInfo, in the process with the given node identifier. */
  function DefaultNode(localId: Id): NodeInfo {
    NodeInfo(localId, "", LOCAL_SESSION)
  }

  datatype Viewport = Viewport(x: int32, y: int32, w: int32, h: int32)

  const INVALID_VIEWPORT := Viewport(0, 0, -1, -1)

  predicate Drawn(v: Viewport) {
    v.w > 0 && v.h > 0
  }

  datatype NetType = Ethernet | Infiniband | Loopback | TunnelEthernet | Tunnel6to4 | Unknown

  const FLAG_DEFAULT: uint32 := 0x8

  /** GPUInfo and NetInfo, the two structures derived from NodeInfo. */
  datatype Info =
    | Gpu(node: NodeInfo, code: Code, port: uint32, device: uint32, pvp: Viewport, flags: uint32)
    | Net(node: NodeInfo, kind: NetType, name: string, hostname: string, hwAddress: string,
          inetAddress: string, inet6Address: string, linkspeed: uint32, up: bool)

  /** The two template instances the library is built for. */
  datatype Family = GpuFamily | NetFamily

  predicate BelongsTo(x: Info, f: Family) {
    x.Gpu? == f.GpuFamily?
  }

  function NewGpu(node: NodeInfo, name: string): Info {
    Gpu(node, MakeCode(name), 0, 0, INVALID_VIEWPORT, 0)
  }

  function NewNet(node: NodeInfo): Info {
    Net(node, Unknown, "", "", "", "", "", UINT_MAX, false)
  }

  function TypeName(t: NetType): string {
    match t
    case Ethernet => "ETHERNET"
    case Infiniband => "INFINIBAND"
    case Loopback => "LOOPBACK"
    case TunnelEthernet => "TUNNEL_ETHERNET"
    case Tunnel6to4 => "TUNNEL_6TO4"
    case Unknown => "UNKNOWN"
  }

  function TypeOfName(s: string): NetType {
    if s == "ETHERNET" then Ethernet
    else if s == "INFINIBAND" then Infiniband
    else if s == "LOOPBACK" then Loopback
    else Unknown
  }

  predicate IsTunnel(t: NetType) {
    t == TunnelEthernet || t == Tunnel6to4
  }

  /** Every type but the two tunnels survives being named and parsed; both tunnels come
      back as unknown. */
  lemma TypeNameExact(t: NetType)
    ensures TypeOfName(TypeName(t)) == if IsTunnel(t) then Unknown else t
    ensures SpaceFree(TypeName(t)) && TypeName(t) != ""
    ensures TypeName(TunnelEthernet) == "TUNNEL_" + TypeName(Ethernet) && TypeName(Tunnel6to4) == "TUNNEL_" + "6TO4"
  {
    assert TypeName(t) == "INFINIBAND" ==> TypeName(t)[0] == 'I';
    assert t.TunnelEthernet? ==> |TypeName(t)| == 15;
    assert t.Tunnel6to4? ==> |TypeName(t)| == 11;
    assert t.Unknown? ==> |TypeName(t)| == 7;
    assert t.Loopback? ==> TypeName(t)[0] == 'L';
  }

  /** The documented names are read as unknown, whatever type they stand for. */
  lemma DocumentedNamesAreUnknown(t: NetType)
    ensures TypeOfName("TYPE_" + TypeName(t)) == Unknown
  {
    assert ("TYPE_" + TypeName(t))[0] == 'T';
    assert "ETHERNET"[0] == 'E' && "INFINIBAND"[0] == 'I' && "LOOPBACK"[0] == 'L';
  }

  // ---------- equality ----------

  predicate SameNode(a: NodeInfo, b: NodeInfo) {
    a.nodeName == b.nodeName && a.session == b.session
  }

  /** operator== of the two record types: ignores the id and, for GPUs, the flags. */
  predicate Same(a: Info, b: Info)
    ensures Same(a, b) <==> Key(a) == Key(b)
  {
    && SameNode(a.node, b.node)
    && if a.Gpu? then
      && b.Gpu?
      && a.code == b.code && a.port == b.port && a.device == b.device && a.pvp == b.pvp
    else
      && b.Net?
      && a.kind == b.kind && a.name == b.name && a.hostname == b.hostname
      && a.hwAddress == b.hwAddress && a.inetAddress == b.inetAddress
      && a.inet6Address == b.inet6Address && a.linkspeed == b.linkspeed && a.up == b.up
  }

  /** Records are equal exactly when they differ in id and flags at most. */
  lemma SameExactly(a: Info, b: Info)
    ensures Same(a, b) <==> exists id: Id, flags: uint32 :: a == WithFlags(WithId(b, id), flags)
  {
    if Same(a, b) {
      assert a == WithFlags(WithId(b, a.node.id), Flags(a));
    }
  }

  /** What MirrorFilter compares: ignores type, node name, size and flags. */
  predicate Mirrors(a: Info, b: Info) {
    && a.Gpu? && b.Gpu?
    && a.node.id == b.node.id && a.node.session == b.node.session
    && a.port == b.port && a.device == b.device
    && a.pvp.x == b.pvp.x && a.pvp.y == b.pvp.y
  }

  function Flags(a: Info): uint32 {
    if a.Gpu? then a.flags else 0
  }

  function WithFlags(a: Info, f: uint32): Info {
    if a.Gpu? then a.(flags := f) else a
  }

  function NoFlags(a: Info): Info {
    WithFlags(a, 0)
  }

  function WithId(a: Info, id: Id): Info {
    a.(node := a.node.(id := id))
  }

  function WithNodeName(a: Info, name: string): Info {
    a.(node := a.node.(nodeName := name))
  }

  /** A record without the fields operator== ignores. */
  function Key(a: Info): Info {
    NoFlags(WithId(a, 0))
  }

  /** A record without its id: what discovery promises up to order. */
  function Outline(a: Info): Info {
    WithId(a, 0)
  }

  /** What DuplicateFilter leaves of an accepted record when it drops its duplicate. */
  function Merge(kept: Info, dropped: Info): Info {
    WithFlags(kept, Or32(Flags(kept), Flags(dropped)))
  }

  /** Neither equality of records implies the other: the first ignores the id, the second
      the type. */
  lemma SameAndMirrorsAreIndependent(g: Info)
    requires g.Gpu?
    ensures Same(g, WithId(g, g.node.id + 1)) && !Mirrors(g, WithId(g, g.node.id + 1))
    ensures exists c: Code :: Mirrors(g, g.(code := c)) && !Same(g, g.(code := c))
  {
    var c: Code := if g.code == "GLX\0" then "CGL\0" else "GLX\0";
    assert g.code[0] == 'G' || g.code != "GLX\0";
    assert Mirrors(g, g.(code := c)) && !Same(g, g.(code := c));
  }
}

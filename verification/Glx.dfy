/** Local GPU discovery through X11: the default display and the probing of servers and
    screens, over what the displays would answer. */
module Glx {
  import opened Bits
  import opened Text
  import opened Records
  import opened Dedup
  import opened RoundTrip

  const TRY_PORTS := 10

  /** What a display that opens and has the GLX extension reports. The flags are those of the
      VirtualGL and VNC tests. */
  datatype Screen = Screen(displayString: string, defaultScreen: uint32, width: int32, height: int32, flags: uint32)

  /** What opening a display by name gives; None when it has no GLX or does not open. */
  type Displays = string -> Option<Screen>

  /** std::string::find: the position of the first colon, or the length. */
  function FindColon(s: string): (i: nat)
    ensures i <= |s| && (i < |s| ==> s[i] == ':') && ':' !in s[..i]
  {
    if s == "" || s[0] == ':' then 0 else
      var i := FindColon(s[1..]);
      assert s[..i + 1] == [s[0]] + s[1..][..i];
      i + 1
  }

  /** An int stored in an unsigned. */
  function ToUnsigned(i: int32): (u: uint32)
    ensures u == i % 0x1_0000_0000
  {
    if i < 0 then i + UINT_MAX + 1 else i
  }

  function PortOf(displayString: string, default: uint32): uint32 {
    var colon := FindColon(displayString);
    if colon == |displayString| then default else ToUnsigned(ReadSigned(displayString[colon + 1..], 0))
  }

  /** queryDisplay_: fills in the record of a display that opens. */
  function Query(open: Displays, name: string, info: Info): (r: Option<Info>)
    requires info.Gpu?
    ensures r.Some? ==> r.value.Gpu?
  {
    match open(name)
    case None => None
    case Some(s) =>
      var named := FindColon(s.displayString) < |s.displayString|;
      Some(info.(port := PortOf(s.displayString, info.port),
                 device := if named then s.defaultScreen else info.device,
                 pvp := Viewport(0, 0, s.width, s.height),
                 flags := Or32(info.flags, s.flags)))
  }

  function ScreenName(i: nat, j: nat): string {
    ":" + Print(i) + "." + Print(j)
  }

  function Probe(open: Displays, node: NodeInfo, i: nat, j: nat): (r: Option<Info>)
    ensures r.Some? ==> r.value.Gpu?
  {
    Query(open, ScreenName(i, j), NewGpu(node, "GLX"))
  }

  /** The screens of server i from j on, up to the first that cannot be queried. */
  function Screens(open: Displays, node: NodeInfo, i: nat, j: nat): seq<Info>
    requires j <= UINT_MAX
    decreases UINT_MAX - j
  {
    if j == UINT_MAX || Probe(open, node, i, j).None? then []
    else [Probe(open, node, i, j).value] + Screens(open, node, i, j + 1)
  }

  /** The records that differ from the default. */
  function Unlike(xs: seq<Info>, default: Info): seq<Info> {
    if xs == [] then [] else
      (if Same(xs[0], default) then [] else [xs[0]]) + Unlike(xs[1..], default)
  }

  /** The records the first n servers add. */
  function Servers(open: Displays, node: NodeInfo, default: Info, n: nat): seq<Info> {
    if n == 0 then [] else
      Servers(open, node, default, n - 1) + Unlike(Screens(open, node, n - 1, 0), default)
  }

  /** The record of the DISPLAY variable's display; the flags found for it are replaced. */
  function Default(open: Displays, node: NodeInfo, display: Option<string>): (r: Option<Info>)
    ensures r.Some? ==> r.value.Gpu? && r.value.flags == FLAG_DEFAULT
  {
    if display.None? || display.value == "" then None else
      match Query(open, display.value, NewGpu(node, "GLX"))
      case None => None
      case Some(info) => Some(info.(flags := FLAG_DEFAULT))
  }

  /** What the module discovers. */
  function GlxRecords(open: Displays, node: NodeInfo, display: Option<string>): seq<Info> {
    match Default(open, node, display)
    case None => Servers(open, node, NewGpu(node, "GLX"), TRY_PORTS)
    case Some(default) => [default] + Servers(open, node, default, TRY_PORTS)
  }

  method DiscoverGlx(open: Displays, node: NodeInfo, display: Option<string>) returns (result: seq<Info>)
    ensures result == GlxRecords(open, node, display)
  {
    hide Query, Servers;
    result := [];
    var defaultInfo := NewGpu(node, "GLX");
    if display.Some? && display.value != "" {
      var queried := Query(open, display.value, defaultInfo);
      if queried.Some? {
        defaultInfo := queried.value.(flags := FLAG_DEFAULT);
        result := result + [defaultInfo];
      }
    }
    var probed := ProbeServers(open, node, defaultInfo);
    result := result + probed;
  }

  /** The loop over the servers. */
  method ProbeServers(open: Displays, node: NodeInfo, defaultInfo: Info) returns (result: seq<Info>)
    ensures result == Servers(open, node, defaultInfo, TRY_PORTS)
  {
    hide Screens, Unlike;
    result := [];
    var i := 0;
    while i < TRY_PORTS
      invariant 0 <= i <= TRY_PORTS
      invariant result == Servers(open, node, defaultInfo, i)
    {
      result := ProbeScreens(open, node, defaultInfo, i, result);
      i := i + 1;
    }
  }

  /** The loop over the screens of a server, left at the first one that does not exist. */
  method ProbeScreens(open: Displays, node: NodeInfo, defaultInfo: Info, i: nat, before: seq<Info>)
      returns (result: seq<Info>)
    ensures result == before + Unlike(Screens(open, node, i, 0), defaultInfo)
  {
    hide Query, Same, ScreenName, Screens, Unlike, MakeCode;
    result := before;
    var j := 0;
    while j < UINT_MAX
      invariant 0 <= j <= UINT_MAX
      invariant before + Unlike(Screens(open, node, i, 0), defaultInfo)
             == result + Unlike(Screens(open, node, i, j), defaultInfo)
    {
      ScreensStep(open, node, defaultInfo, i, j);
      var info := Query(open, ScreenName(i, j), NewGpu(node, "GLX"));
      if info.None? {
        return;
      }
      if !Same(info.value, defaultInfo) {
        result := result + [info.value];
      }
      j := j + 1;
    }
    NoScreensBeyond(open, node, defaultInfo, i);
  }

  lemma ScreensStep(open: Displays, node: NodeInfo, default: Info, i: nat, j: nat)
    requires j < UINT_MAX
    ensures var info := Probe(open, node, i, j);
      Unlike(Screens(open, node, i, j), default)
      == if info.None? then []
         else (if Same(info.value, default) then [] else [info.value]) + Unlike(Screens(open, node, i, j + 1), default)
  {
    hide Probe, Same;
  }

  lemma NoScreensBeyond(open: Displays, node: NodeInfo, default: Info, i: nat)
    ensures Unlike(Screens(open, node, i, UINT_MAX), default) == []
  {
  }

  // ---------- what is found ----------

  /** The screens of a server are all those before the first one that cannot be queried. */
  lemma {:induction false} ScreensAreAllBeforeTheFirstGap(open: Displays, node: NodeInfo, i: nat, j: nat)
    requires j <= UINT_MAX
    ensures var xs := Screens(open, node, i, j);
      && (forall k :: 0 <= k < |xs| ==> Probe(open, node, i, j + k) == Some(xs[k]))
      && j + |xs| <= UINT_MAX
      && (j + |xs| < UINT_MAX ==> Probe(open, node, i, j + |xs|).None?)
    decreases UINT_MAX - j
  {
    hide Probe;
    if j < UINT_MAX && Probe(open, node, i, j).Some? {
      ScreensAreAllBeforeTheFirstGap(open, node, i, j + 1);
      var xs, ys := Screens(open, node, i, j), Screens(open, node, i, j + 1);
      forall k | 0 <= k < |xs| ensures Probe(open, node, i, j + k) == Some(xs[k]) {
        if k > 0 {
          assert xs[k] == ys[k - 1];
          assert Probe(open, node, i, j + 1 + (k - 1)) == Some(ys[k - 1]);
        }
      }
    }
  }

  /** Every display opened by the name of a screen reports that name and screen. */
  ghost predicate Honest(open: Displays) {
    forall i: nat, j: uint32 :: open(ScreenName(i, j)).Some? ==>
      open(ScreenName(i, j)).value.displayString == ScreenName(i, j) && open(ScreenName(i, j)).value.defaultScreen == j
  }

  /** The port parsed from a printed display name is the one printed. */
  lemma PortIsRecovered(i: nat, j: nat, default: uint32)
    requires i <= 0x7FFF_FFFF
    ensures FindColon(ScreenName(i, j)) == 0
    ensures PortOf(ScreenName(i, j), default) == i
  {
    var s := ScreenName(i, j);
    var rest := "." + Print(j);
    assert s[1..] == Print(i) + rest;
    assert IsDigit((Print(i) + rest)[0]) by { assert (Print(i) + rest)[0] == Print(i)[0]; }
    assert SkipSpace(s[1..]) == s[1..];
    DigitsBefore(Print(i), rest);
    ValueOfPrint(i);
  }

  /** A record comes from probing screen j of server i. */
  predicate ProbedAt(r: Info, i: nat, j: nat) {
    r.Gpu? && r.port == i && r.device == j
  }

  lemma ProbeReports(open: Displays, node: NodeInfo, i: nat, j: nat)
    requires Honest(open) && i < TRY_PORTS && j < UINT_MAX && Probe(open, node, i, j).Some?
    ensures ProbedAt(Probe(open, node, i, j).value, i, j)
    ensures Probe(open, node, i, j).value.flags == open(ScreenName(i, j)).value.flags
  {
    PortIsRecovered(i, j, 0);
    ProbeFlags(open, node, i, j);
    hide PortOf;
  }

  lemma ProbeFlags(open: Displays, node: NodeInfo, i: nat, j: nat)
    requires Probe(open, node, i, j).Some?
    ensures open(ScreenName(i, j)).Some?
    ensures Probe(open, node, i, j).value.flags == open(ScreenName(i, j)).value.flags
  {
  }

  ghost predicate Before(a: Info, b: Info) {
    a.Gpu? && b.Gpu? && (a.port < b.port || (a.port == b.port && a.device < b.device))
  }

  ghost predicate Increasing(xs: seq<Info>) {
    forall i, j :: 0 <= i < j < |xs| ==> Before(xs[i], xs[j])
  }

  lemma {:induction false} UnlikeKeepsOrder(xs: seq<Info>, default: Info)
    ensures forall r :: r in Unlike(xs, default) <==> r in xs && !Same(r, default)
    ensures Increasing(xs) ==> Increasing(Unlike(xs, default))
  {
    hide Same;
    if xs != [] {
      UnlikeKeepsOrder(xs[1..], default);
      assert xs == [xs[0]] + xs[1..];
      assert Increasing(xs) ==> Increasing(xs[1..]);
      var rest := Unlike(xs[1..], default);
      if Increasing(xs) {
        forall j | 0 <= j < |rest| ensures Before(xs[0], rest[j]) {
          assert rest[j] in xs[1..];
        }
      }
    }
  }

  lemma ScreensReport(open: Displays, node: NodeInfo, i: nat, k: nat)
    requires Honest(open) && i < TRY_PORTS && k < |Screens(open, node, i, 0)|
    ensures k < UINT_MAX && ProbedAt(Screens(open, node, i, 0)[k], i, k)
    ensures Probe(open, node, i, k) == Some(Screens(open, node, i, 0)[k])
  {
    ScreensAreAllBeforeTheFirstGap(open, node, i, 0);
    hide Probe, Screens;
    assert Probe(open, node, i, 0 + k) == Some(Screens(open, node, i, 0)[k]);
    ProbeReports(open, node, i, k);
  }

  lemma ScreensIncrease(open: Displays, node: NodeInfo, i: nat)
    requires Honest(open) && i < TRY_PORTS
    ensures Increasing(Screens(open, node, i, 0))
    ensures forall r :: r in Screens(open, node, i, 0) ==>
        r.Gpu? && r.port == i && Probe(open, node, i, r.device) == Some(r)
  {
    hide Probe, Screens;
    var xs := Screens(open, node, i, 0);
    forall k | 0 <= k < |xs| ensures ProbedAt(xs[k], i, k) && Probe(open, node, i, k) == Some(xs[k]) {
      ScreensReport(open, node, i, k);
    }
  }

  lemma IncreasingAppend(a: seq<Info>, b: seq<Info>, port: nat)
    requires Increasing(a) && Increasing(b)
    requires forall r :: r in a ==> r.Gpu? && r.port < port
    requires forall r :: r in b ==> r.Gpu? && r.port == port
    ensures Increasing(a + b)
  {
    var c := a + b;
    forall i, j | 0 <= i < j < |c| ensures Before(c[i], c[j]) {
      if i < |a| <= j {
        assert a[i] in a && b[j - |a|] in b;
      } else if |a| <= i {
        assert Before(b[i - |a|], b[j - |a|]);
      }
    }
  }

  /** The probed records are in strictly increasing order of port and device, none equals the
      default, and each is what probing its own port and device gives. */
  lemma {:induction false} ServersIncrease(open: Displays, node: NodeInfo, default: Info, n: nat)
    requires Honest(open) && n <= TRY_PORTS
    ensures Increasing(Servers(open, node, default, n))
    ensures forall r :: r in Servers(open, node, default, n) ==>
      && r.Gpu? && r.port < n && !Same(r, default)
      && Probe(open, node, r.port, r.device) == Some(r)
  {
    hide Screens, Probe, Same, Honest;
    if n > 0 {
      ServersIncrease(open, node, default, n - 1);
      ScreensIncrease(open, node, n - 1);
      var xs := Screens(open, node, n - 1, 0);
      UnlikeKeepsOrder(xs, default);
      hide Unlike, Increasing;
      IncreasingAppend(Servers(open, node, default, n - 1), Unlike(xs, default), n - 1);
    }
  }

  /** The record is what probing its own port and device gives, with the flags of that screen. */
  ghost predicate AsProbed(open: Displays, node: NodeInfo, r: Info) {
    && r.Gpu? && Probe(open, node, r.port, r.device) == Some(r)
    && open(ScreenName(r.port, r.device)).Some?
    && r.flags == open(ScreenName(r.port, r.device)).value.flags
  }

  /** With displays that report what was probed, no two results are equal, so that the
      duplicate filter keeps them all; behind the default they are ordered by port and
      device, and each carries the flags of its own screen. */
  lemma FoundIsOrdered(open: Displays, node: NodeInfo, display: Option<string>)
    requires Honest(open)
    ensures var found, n := GlxRecords(open, node, display), if Default(open, node, display).Some? then 1 else 0;
      && n <= |found|
      && Increasing(found[n..])
      && Distinct(found) && Dedupe(found) == found
      && forall r :: r in found[n..] ==> AsProbed(open, node, r)
  {
    var found, first := GlxRecords(open, node, display), Default(open, node, display);
    var default := if first.Some? then first.value else NewGpu(node, "GLX");
    var rest := Servers(open, node, default, TRY_PORTS);
    ServersIncrease(open, node, default, TRY_PORTS);
    assert found == (if first.Some? then [default] else []) + rest;
    forall r | r in rest ensures AsProbed(open, node, r) {
      ProbedFlags(open, node, r);
    }
    hide Servers, Default, GlxRecords, Probe, AsProbed;
    OrderedIsDistinct(if first.Some? then [default] else [], rest);
    DedupeAppendFresh([], found);
    assert [] + found == found;
  }

  lemma OrderedIsDistinct(first: seq<Info>, rest: seq<Info>)
    requires Increasing(rest) && |first| <= 1
    requires forall r, d :: r in rest && d in first ==> !Same(r, d)
    ensures Distinct(first + rest)
  {
    var found := first + rest;
    forall i, j | 0 <= i < j < |found| ensures !Same(found[i], found[j]) {
      if i < |first| {
        assert found[i] in first && found[j] in rest;
      } else {
        assert Before(rest[i - |first|], rest[j - |first|]);
      }
    }
  }

  lemma ProbedFlags(open: Displays, node: NodeInfo, r: Info)
    requires r.Gpu? && Probe(open, node, r.port, r.device) == Some(r)
    ensures AsProbed(open, node, r)
  {
  }

  /** The record of a screen: port and screen number as the display reports them, 0 when its
      name has no colon, and an area of its width and height at the origin. */
  function RecordOf(node: NodeInfo, s: Screen): Info {
    var named := FindColon(s.displayString) < |s.displayString|;
    Gpu(node, "GLX\0", PortOf(s.displayString, 0), if named then s.defaultScreen else 0,
        Viewport(0, 0, s.width, s.height), s.flags)
  }

  /** Screen j of server i exists, and so do those before it. */
  ghost predicate Reachable(open: Displays, i: nat, j: nat) {
    forall k :: 0 <= k <= j ==> open(":" + Print(i) + "." + Print(k)).Some?
  }

  lemma CodeOfGlx()
    ensures MakeCode("GLX") == "GLX\0"
  {
    assert CString("GLX") == "GLX" by {
      assert "GLX"[1..] == "LX" && "LX"[1..] == "X" && "X"[1..] == "";
      assert CString("") == "";
      assert CString("X") == "X";
      assert CString("LX") == "LX";
    }
    assert "GLX" + seq(1, i => '\0') == "GLX\0";
  }

  lemma ProbeIsRecord(open: Displays, node: NodeInfo, i: nat, j: nat)
    ensures Probe(open, node, i, j)
         == match open(":" + Print(i) + "." + Print(j)) case None => None case Some(s) => Some(RecordOf(node, s))
  {
    CodeOfGlx();
    OrZeros();
    hide MakeCode, PortOf, Or32;
  }

  lemma OrZeros()
    ensures forall flags: uint32 :: Or32(0, flags) == flags
  {
  }

  /** What screen j of server i is recorded as. */
  ghost predicate RecordedAt(open: Displays, node: NodeInfo, i: nat, j: nat, r: Info) {
    Reachable(open, i, j) && r == RecordOf(node, open(":" + Print(i) + "." + Print(j)).value)
  }

  lemma ScreenIsOpen(open: Displays, node: NodeInfo, i: nat, k: nat)
    requires k < |Screens(open, node, i, 0)|
    ensures var s := open(":" + Print(i) + "." + Print(k));
      k < UINT_MAX && s.Some? && Screens(open, node, i, 0)[k] == RecordOf(node, s.value)
  {
    var xs := Screens(open, node, i, 0);
    ScreensAreAllBeforeTheFirstGap(open, node, i, 0);
    ProbeIsRecord(open, node, i, k);
    hide Screens, Probe, RecordOf, Print;
    assert Probe(open, node, i, 0 + k) == Some(xs[k]);
  }

  lemma ScreenIsRecorded(open: Displays, node: NodeInfo, i: nat, k: nat)
    requires k < |Screens(open, node, i, 0)|
    ensures k < UINT_MAX && RecordedAt(open, node, i, k, Screens(open, node, i, 0)[k])
  {
    hide Screens, RecordOf, Print;
    forall l | 0 <= l <= k ensures open(":" + Print(i) + "." + Print(l)).Some? {
      ScreenIsOpen(open, node, i, l);
    }
    ScreenIsOpen(open, node, i, k);
  }

  lemma ReachableIsListed(open: Displays, node: NodeInfo, i: nat, j: nat)
    requires j < UINT_MAX && Reachable(open, i, j)
    ensures j < |Screens(open, node, i, 0)|
  {
    var n := |Screens(open, node, i, 0)|;
    ScreensAreAllBeforeTheFirstGap(open, node, i, 0);
    hide Screens, Probe, RecordOf, Print;
    if n <= j {
      ProbeIsRecord(open, node, i, 0 + n);
    }
  }

  lemma ScreensAreReachable(open: Displays, node: NodeInfo, i: nat, r: Info)
    ensures r in Screens(open, node, i, 0) <==> exists j: uint32 :: j < UINT_MAX && RecordedAt(open, node, i, j, r)
  {
    var xs := Screens(open, node, i, 0);
    hide Screens, RecordOf, Reachable;
    if r in xs {
      var k :| 0 <= k < |xs| && xs[k] == r;
      ScreenIsRecorded(open, node, i, k);
      hide RecordedAt;
      assert RecordedAt(open, node, i, k, r);
    }
    if j: uint32 :| j < UINT_MAX && RecordedAt(open, node, i, j, r) {
      ReachableIsListed(open, node, i, j);
      ScreenIsRecorded(open, node, i, j);
    }
  }

  /** A record of one of the first n servers that differs from the default. */
  ghost predicate Listed(open: Displays, node: NodeInfo, default: Info, n: nat, r: Info) {
    && !Same(r, default)
    && exists i: nat, j: uint32 :: i < n && j < UINT_MAX && RecordedAt(open, node, i, j, r)
  }

  lemma {:induction false} ServersAreListed(open: Displays, node: NodeInfo, default: Info, n: nat, r: Info)
    ensures r in Servers(open, node, default, n) <==> Listed(open, node, default, n, r)
  {
    hide Screens, Unlike, RecordedAt, Same;
    if n > 0 {
      ServersAreListed(open, node, default, n - 1, r);
      ScreensAreReachable(open, node, n - 1, r);
      UnlikeKeepsOrder(Screens(open, node, n - 1, 0), default);
      hide Increasing;
    }
  }

  /** The module finds the screen of the DISPLAY variable, flagged as the default only, and
      then every screen of the servers 0 to 9 before the server's first gap, unless it equals
      the default. Without a default it is compared to a blank record. */
  lemma FoundExactly(open: Displays, node: NodeInfo, display: Option<string>)
    ensures var found := GlxRecords(open, node, display);
      if display.Some? && display.value != "" && open(display.value).Some? then
        var default := RecordOf(node, open(display.value).value).(flags := 8);
        && found != [] && found[0] == default
        && forall r :: r in found[1..] <==> Listed(open, node, default, 10, r)
      else
        var blank := Gpu(node, "GLX\0", 0, 0, Viewport(0, 0, -1, -1), 0);
        forall r :: r in found <==> Listed(open, node, blank, 10, r)
  {
    CodeOfGlx();
    var found, first := GlxRecords(open, node, display), Default(open, node, display);
    var default := if first.Some? then first.value else NewGpu(node, "GLX");
    hide MakeCode, PortOf, Or32, Listed, Servers;
    forall r ensures r in Servers(open, node, default, 10) <==> Listed(open, node, default, 10, r) {
      ServersAreListed(open, node, default, 10, r);
    }
  }

  /** Under VirtualGL every screen has the flag, but not every result: the default display's
      flags are replaced. All results carry the flag exactly when no default is found. */
  lemma DefaultLosesVirtualGl(open: Displays, node: NodeInfo, display: Option<string>)
    requires forall name :: open(name).Some? ==> Bit(open(name).value.flags, 0)
    ensures (forall r :: r in GlxRecords(open, node, display) ==> Bit(Flags(r), 0))
      <==> Default(open, node, display).None?
  {
    hide Query, Probe, Servers, Default;
    if Default(open, node, display).Some? {
      FoundStartsWithDefault(open, node, display);
      assert !Bit(FLAG_DEFAULT, 0);
    } else {
      forall r | r in GlxRecords(open, node, display) ensures Bit(Flags(r), 0) {
        var i, j := ServersAreProbed(open, node, NewGpu(node, "GLX"), TRY_PORTS, r);
        ProbeFlags(open, node, i, j);
      }
    }
  }

  /** Every record of the servers comes from probing some screen. */
  lemma {:induction false} ServersAreProbed(open: Displays, node: NodeInfo, default: Info, n: nat, r: Info)
      returns (i: nat, j: nat)
    requires r in Servers(open, node, default, n)
    ensures Probe(open, node, i, j) == Some(r)
  {
    hide Probe, Same, Screens, Unlike;
    if n > 0 {
      if r in Servers(open, node, default, n - 1) {
        i, j := ServersAreProbed(open, node, default, n - 1, r);
      } else {
        var xs := Screens(open, node, n - 1, 0);
        UnlikeKeepsOrder(xs, default);
        j :| 0 <= j < |xs| && xs[j] == r;
        ScreensAreAllBeforeTheFirstGap(open, node, n - 1, 0);
        assert Probe(open, node, n - 1, 0 + j) == Some(xs[j]);
        i := n - 1;
      }
    }
  }

  lemma FoundStartsWithDefault(open: Displays, node: NodeInfo, display: Option<string>)
    requires Default(open, node, display).Some?
    ensures Default(open, node, display).value in GlxRecords(open, node, display)
  {
  }

  lemma QueryIsCanonical(open: Displays, node: NodeInfo, name: string)
    requires forall name :: open(name).Some? ==> open(name).value.width > 0 && open(name).value.height > 0
    ensures var r := Query(open, name, NewGpu(node, "GLX"));
      r.Some? ==> Canonical(r.value) && r.value.node == node
  {
    assert SpaceFree("GLX");
    StrNCpyExact("GLX", 4);
  }

  lemma DefaultIsCanonical(open: Displays, node: NodeInfo, display: Option<string>)
    requires forall name :: open(name).Some? ==> open(name).value.width > 0 && open(name).value.height > 0
    ensures var r := Default(open, node, display); r.Some? ==> Canonical(r.value) && r.value.node == node
  {
    if display.Some? {
      QueryIsCanonical(open, node, display.value);
    }
    hide Query;
  }

  /** The records of screens with an extent come back unchanged from an announcement. */
  lemma FoundIsCanonical(open: Displays, node: NodeInfo, display: Option<string>)
    requires forall name :: open(name).Some? ==> open(name).value.width > 0 && open(name).value.height > 0
    ensures forall r :: r in GlxRecords(open, node, display) ==> Canonical(r) && r.node == node
  {
    var first := Default(open, node, display);
    var default := if first.Some? then first.value else NewGpu(node, "GLX");
    DefaultIsCanonical(open, node, display);
    hide Default, Query, NewGpu, Servers, Canonical;
    forall r | r in Servers(open, node, default, TRY_PORTS) ensures Canonical(r) && r.node == node {
      var i, j := ServersAreProbed(open, node, default, TRY_PORTS, r);
      QueryIsCanonical(open, node, ScreenName(i, j));
    }
  }
}

/** The window registry (`WindowTracker`): which desktop environment the dock
    runs under, the list of open windows and the per-application window counts
    built from each compositor's decoded reply, the Sway IPC framing, and the
    lookups the dock items use. */
module WindowTracker {
  import opened Wrappers
  import opened Text
  import Sorting

  datatype WindowInfo = WindowInfo(id: string, title: string, appId: string, isActive: bool)

  datatype DesktopEnvironment = KDE | GNOME | Hyprland | Sway | Unknown

  // ------------------------------------------------------------ detection

  /** The four environment variables detection reads; `None` is an unset variable. */
  datatype Environment = Environment(
    currentDesktop: Option<string>,      // XDG_CURRENT_DESKTOP
    sessionDesktop: Option<string>,      // XDG_SESSION_DESKTOP
    hyprlandSignature: Option<string>,   // HYPRLAND_INSTANCE_SIGNATURE
    swaySocket: Option<string>)          // SWAYSOCK

  /** Either XDG variable, lower-cased (unset reads as ""), mentions `word`. */
  predicate Mentions(env: Environment, word: string) {
    Contains(Lower(env.currentDesktop.GetOr("")), word)
    || Contains(Lower(env.sessionDesktop.GetOr("")), word)
  }

  /** `detect_desktop_environment`: a priority decision over the markers. */
  function DetectDesktopEnvironment(env: Environment): (d: DesktopEnvironment)
    ensures d == Hyprland <==> env.hyprlandSignature.Some?
    ensures d == Sway <==> env.hyprlandSignature.None? && env.swaySocket.Some?
    ensures d == KDE <==>
      env.hyprlandSignature.None? && env.swaySocket.None?
      && (Mentions(env, "kde") || Mentions(env, "plasma"))
    ensures d == GNOME <==>
      env.hyprlandSignature.None? && env.swaySocket.None?
      && !Mentions(env, "kde") && !Mentions(env, "plasma") && Mentions(env, "gnome")
    ensures d == Unknown <==>
      env.hyprlandSignature.None? && env.swaySocket.None?
      && !Mentions(env, "kde") && !Mentions(env, "plasma") && !Mentions(env, "gnome")
  {
    if env.hyprlandSignature.Some? then Hyprland
    else if env.swaySocket.Some? then Sway
    else if Mentions(env, "kde") || Mentions(env, "plasma") then KDE
    else if Mentions(env, "gnome") then GNOME
    else Unknown
  }

  /** A Hyprland signature that is set but empty still selects Hyprland, and
      it wins over every other marker. */
  lemma EmptySignatureSelectsHyprland(current: string, session: string, sock: Option<string>)
    ensures DetectDesktopEnvironment(Environment(Some(current), Some(session), Some(""), sock)) == Hyprland
  {
  }

  /** A KDE Plasma session names itself with upper-case letters; detection
      still finds it. */
  lemma PlasmaSessionIsKde()
    ensures DetectDesktopEnvironment(Environment(Some("KDE"), None, None, None)) == KDE
  {
    assert Lower("KDE") == "kde";
    assert Contains("kde", "kde");
  }

  // ------------------------------------------------------------ app-id matching

  /** The case-insensitive, two-way substring test of `get_window_count` and
      `get_windows_for_app`. */
  predicate FuzzyMatch(key: string, query: string) {
    var k := Lower(key);
    var q := Lower(query);
    k == q || Contains(k, q) || Contains(q, k)
  }

  /** The test ignores the case of the query. */
  lemma FuzzyMatchIgnoresCase(key: string, query: string)
    ensures FuzzyMatch(key, query) == FuzzyMatch(key, Lower(query))
  {
    LowerIdempotent(query);
  }

  /** The test works in both directions. */
  lemma FuzzyMatchSymmetric(key: string, query: string)
    ensures FuzzyMatch(key, query) == FuzzyMatch(query, key)
  {
  }

  /** An empty app id matches every query, and an empty query every app id. */
  lemma EmptyMatchesEverything(s: string)
    ensures FuzzyMatch("", s) && FuzzyMatch(s, "")
  {
    assert Lower("") == [];
    assert [] <= Lower(s);
  }

  // ------------------------------------------------------------ window counts

  /** The number of records of `ws` whose app id is `a`. */
  function CountOf(ws: seq<WindowInfo>, a: string): nat {
    if ws == [] then 0
    else CountOf(ws[..|ws| - 1], a) + (if ws[|ws| - 1].appId == a then 1 else 0)
  }

  /** `counts` holds, for each app id, the number of records that carry it, and
      no other key. */
  ghost predicate CountsMatch(counts: map<string, nat>, ws: seq<WindowInfo>) {
    forall a :: (a in counts <==> CountOf(ws, a) > 0) && (a in counts ==> counts[a] == CountOf(ws, a))
  }

  /** `*counts.entry(a).or_insert(0) += 1`. */
  function Bump(counts: map<string, nat>, a: string): (r: map<string, nat>)
    ensures r.Keys == counts.Keys + {a}
    ensures forall k :: k in counts && k != a ==> r[k] == counts[k]
  {
    counts[a := (if a in counts then counts[a] else 0) + 1]
  }

  /** Counting one more record keeps the counts in step with the list. */
  lemma BumpMatches(counts: map<string, nat>, ws: seq<WindowInfo>, w: WindowInfo)
    requires CountsMatch(counts, ws)
    ensures CountsMatch(Bump(counts, w.appId), ws + [w])
  {
    var ws' := ws + [w];
    assert ws'[..|ws'| - 1] == ws;
    forall a ensures CountOf(ws', a) == CountOf(ws, a) + (if w.appId == a then 1 else 0) {
    }
  }

  lemma CountsMatchEmpty()
    ensures CountsMatch(map[], [])
  {
  }

  /** Matching counts are never zero. */
  lemma CountsPositive(counts: map<string, nat>, ws: seq<WindowInfo>)
    requires CountsMatch(counts, ws)
    ensures forall a :: a in counts ==> counts[a] > 0
  {
  }

  /** A key is counted iff some record carries it. */
  lemma {:induction false} CountOfPositive(ws: seq<WindowInfo>, a: string)
    ensures CountOf(ws, a) > 0 <==> exists i :: 0 <= i < |ws| && ws[i].appId == a
  {
    if ws != [] {
      var init := ws[..|ws| - 1];
      CountOfPositive(init, a);
      if CountOf(init, a) > 0 {
        var i :| 0 <= i < |init| && init[i].appId == a;
        assert ws[i].appId == a;
      }
      if ws[|ws| - 1].appId != a {
        forall i | 0 <= i < |ws| && ws[i].appId == a ensures CountOf(init, a) > 0 {
          assert init[i] == ws[i];
        }
      }
    }
  }

  /** The sum of the counts stored under `keys`. */
  ghost function SumOver(counts: map<string, nat>, keys: set<string>): nat
    requires keys <= counts.Keys
    decreases keys
  {
    if keys == {} then 0
    else
      var k :| k in keys;
      counts[k] + SumOver(counts, keys - {k})
  }

  /** The sum of all counts. */
  ghost function Total(counts: map<string, nat>): nat {
    SumOver(counts, counts.Keys)
  }

  /** The sum may be taken starting from any key. */
  lemma {:induction false} SumOverPick(counts: map<string, nat>, keys: set<string>, j: string)
    requires keys <= counts.Keys && j in keys
    ensures SumOver(counts, keys) == counts[j] + SumOver(counts, keys - {j})
    decreases keys
  {
    var k :| k in keys && SumOver(counts, keys) == counts[k] + SumOver(counts, keys - {k});
    if k != j {
      SumOverPick(counts, keys - {k}, j);
      SumOverPick(counts, keys - {j}, k);
      assert keys - {k} - {j} == keys - {j} - {k};
    }
  }

  /** Two maps that agree on `keys` have the same sum over them. */
  lemma {:induction false} SumOverAgree(m1: map<string, nat>, m2: map<string, nat>, keys: set<string>)
    requires keys <= m1.Keys && keys <= m2.Keys
    requires forall k :: k in keys ==> m1[k] == m2[k]
    ensures SumOver(m1, keys) == SumOver(m2, keys)
    decreases keys
  {
    if keys != {} {
      var k :| k in keys && SumOver(m1, keys) == m1[k] + SumOver(m1, keys - {k});
      SumOverPick(m2, keys, k);
      SumOverAgree(m1, m2, keys - {k});
    }
  }

  /** Counting one record raises the total by exactly one. */
  lemma BumpTotal(counts: map<string, nat>, a: string)
    ensures Total(Bump(counts, a)) == Total(counts) + 1
  {
    var r := Bump(counts, a);
    SumOverPick(r, r.Keys, a);
    assert r.Keys - {a} == counts.Keys - {a};
    SumOverAgree(r, counts, counts.Keys - {a});
    if a in counts {
      SumOverPick(counts, counts.Keys, a);
    } else {
      assert counts.Keys - {a} == counts.Keys;
    }
  }

  lemma TotalEmpty()
    ensures Total(map[]) == 0
  {
  }

  /** The counts add up to the number of records. */
  lemma {:induction false} CountsTotal(counts: map<string, nat>, ws: seq<WindowInfo>)
    requires CountsMatch(counts, ws)
    ensures Total(counts) == |ws|
    decreases |ws|
  {
    if ws == [] {
      assert forall a :: a !in counts;
      assert counts == map[];
    } else {
      var init, a := ws[..|ws| - 1], ws[|ws| - 1].appId;
      assert CountOf(ws, a) == CountOf(init, a) + 1;
      var prev := if counts[a] == 1 then counts - {a} else counts[a := counts[a] - 1];
      forall b ensures (b in prev <==> CountOf(init, b) > 0) && (b in prev ==> prev[b] == CountOf(init, b)) {
        assert CountOf(ws, b) == CountOf(init, b) + (if a == b then 1 else 0);
      }
      assert Bump(prev, a) == counts;
      CountsTotal(prev, init);
      BumpTotal(prev, a);
    }
  }

  // ------------------------------------------------------------ Hyprland

  /** One decoded element of `j/clients`. */
  datatype HyprClient = HyprClient(address: string, title: string, windowClass: string, workspace: int)

  function HyprlandRecord(c: HyprClient): WindowInfo {
    WindowInfo(c.address, c.title, c.windowClass, false)
  }

  /** The loop of `parse_hyprland_clients`: one record per client, in order,
      and the counts per class. */
  method NormaliseHyprland(clients: seq<HyprClient>) returns (windows: seq<WindowInfo>, counts: map<string, nat>)
    ensures |windows| == |clients|
    ensures forall i :: 0 <= i < |clients| ==> windows[i] == HyprlandRecord(clients[i])
    ensures CountsMatch(counts, windows)
  {
    windows, counts := [], map[];
    for i := 0 to |clients|
      invariant |windows| == i
      invariant forall j :: 0 <= j < i ==> windows[j] == HyprlandRecord(clients[j])
      invariant CountsMatch(counts, windows)
    {
      var w := HyprlandRecord(clients[i]);
      BumpMatches(counts, windows, w);
      counts := Bump(counts, w.appId);
      windows := windows + [w];
    }
  }

  // ------------------------------------------------------------ GNOME

  /** A D-Bus variant, as far as the parser looks at it: a string or not. */
  datatype Variant = Str(s: string) | NonString

  /** The string under `key`, when present and a string. */
  function StringProperty(props: map<string, Variant>, key: string): (r: Option<string>)
    ensures r.Some? <==> key in props && props[key].Str?
  {
    if key in props && props[key].Str? then Some(props[key].s) else None
  }

  /** One window of `GetWindows`: the decimal id, the title or "", and the
      app id or "unknown". */
  function GnomeRecord(id: nat, props: map<string, Variant>): WindowInfo {
    WindowInfo(NatToString(id), StringProperty(props, "title").GetOr(""),
               StringProperty(props, "app-id").GetOr("unknown"), false)
  }

  /** The loop of `parse_gnome_windows` over the decoded `a{ta{sv}}` reply, in
      the map's iteration order. */
  method NormaliseGnome(reply: seq<(nat, map<string, Variant>)>) returns (windows: seq<WindowInfo>, counts: map<string, nat>)
    ensures |windows| == |reply|
    ensures forall i :: 0 <= i < |reply| ==> windows[i] == GnomeRecord(reply[i].0, reply[i].1)
    ensures CountsMatch(counts, windows)
  {
    windows, counts := [], map[];
    for i := 0 to |reply|
      invariant |windows| == i
      invariant forall j :: 0 <= j < i ==> windows[j] == GnomeRecord(reply[j].0, reply[j].1)
      invariant CountsMatch(counts, windows)
    {
      var w := GnomeRecord(reply[i].0, reply[i].1);
      BumpMatches(counts, windows, w);
      counts := Bump(counts, w.appId);
      windows := windows + [w];
    }
  }

  /** A window without a string app id is counted under "unknown". */
  lemma GnomeMissingAppId(id: nat, props: map<string, Variant>)
    requires "app-id" !in props || props["app-id"].NonString?
    ensures GnomeRecord(id, props).appId == "unknown"
  {
  }

  // ------------------------------------------------------------ Sway

  /** A node of the decoded `GET_TREE` reply; absent fields take serde's defaults. */
  datatype SwayNode = SwayNode(
    appId: Option<string>,
    name: Option<string>,
    nodes: seq<SwayNode>,
    floatingNodes: seq<SwayNode>,
    focused: bool,
    id: int,
    nodeType: Option<string>)

  /** A node is a window iff it is a "con" with an app id (possibly ""). */
  predicate IsWindow(n: SwayNode) {
    n.nodeType == Some("con") && n.appId.Some?
  }

  function SwayRecord(n: SwayNode): WindowInfo
    requires IsWindow(n)
  {
    WindowInfo(IntToString(n.id), n.name.GetOr(""), n.appId.value, n.focused)
  }

  function Own(n: SwayNode): seq<WindowInfo> {
    if IsWindow(n) then [SwayRecord(n)] else []
  }

  /** The records of a subtree: the node's own, then those under `nodes`,
      then those under `floating_nodes`. */
  function Windows(n: SwayNode): seq<WindowInfo>
    decreases n, 1
  {
    Own(n) + WindowsOf(n.nodes) + WindowsOf(n.floatingNodes)
  }

  function WindowsOf(ns: seq<SwayNode>): seq<WindowInfo>
    decreases ns, 0
  {
    if ns == [] then [] else WindowsOf(ns[..|ns| - 1]) + Windows(ns[|ns| - 1])
  }

  lemma WindowsOfSnoc(ns: seq<SwayNode>, i: nat)
    requires i < |ns|
    ensures WindowsOf(ns[..i + 1]) == WindowsOf(ns[..i]) + Windows(ns[i])
  {
    assert ns[..i + 1][..i] == ns[..i];
  }

  /** `collect_windows`: appends the subtree's records to `windows` and counts
      them in `counts`. */
  method CollectWindows(node: SwayNode, windows: seq<WindowInfo>, counts: map<string, nat>)
    returns (windows': seq<WindowInfo>, counts': map<string, nat>)
    requires CountsMatch(counts, windows)
    ensures windows' == windows + Windows(node)
    ensures CountsMatch(counts', windows')
    decreases node, 1
  {
    windows', counts' := windows, counts;
    if IsWindow(node) {
      var w := SwayRecord(node);
      BumpMatches(counts', windows', w);
      counts' := Bump(counts', w.appId);
      windows' := windows' + [w];
    }
    ghost var own := Own(node);
    assert windows' == windows + own;
    windows', counts' := CollectChildren(node.nodes, windows', counts');
    windows', counts' := CollectChildren(node.floatingNodes, windows', counts');
    AppendThree(windows, own, WindowsOf(node.nodes), WindowsOf(node.floatingNodes), windows');
  }

  lemma AppendThree<T>(w: seq<T>, a: seq<T>, b: seq<T>, c: seq<T>, x: seq<T>)
    requires x == ((w + a) + b) + c
    ensures x == w + (a + b + c)
  {
  }

  /** The `for child in ...` loops of `collect_windows`, children in order. */
  method CollectChildren(children: seq<SwayNode>, windows: seq<WindowInfo>, counts: map<string, nat>)
    returns (windows': seq<WindowInfo>, counts': map<string, nat>)
    requires CountsMatch(counts, windows)
    ensures windows' == windows + WindowsOf(children)
    ensures CountsMatch(counts', windows')
    decreases children, 0
  {
    windows', counts' := windows, counts;
    for i := 0 to |children|
      invariant windows' == windows + WindowsOf(children[..i])
      invariant CountsMatch(counts', windows')
    {
      WindowsOfSnoc(children, i);
      windows', counts' := CollectWindows(children[i], windows', counts');
    }
    assert children[..|children|] == children;
  }

  /** `parse_sway_tree` after decoding: walk the tree from the root. */
  method NormaliseSway(root: SwayNode) returns (windows: seq<WindowInfo>, counts: map<string, nat>)
    ensures windows == Windows(root)
    ensures CountsMatch(counts, windows)
  {
    CountsMatchEmpty();
    windows, counts := CollectWindows(root, [], map[]);
  }

  /** Every node of a subtree, in pre-order: the node, the subtrees under
      `nodes`, then the subtrees under `floating_nodes`. */
  function PreOrder(n: SwayNode): (r: seq<SwayNode>)
    ensures r != [] && r[0] == n
    decreases n, 1
  {
    [n] + PreOrderOf(n.nodes) + PreOrderOf(n.floatingNodes)
  }

  function PreOrderOf(ns: seq<SwayNode>): seq<SwayNode>
    decreases ns, 0
  {
    if ns == [] then [] else PreOrderOf(ns[..|ns| - 1]) + PreOrder(ns[|ns| - 1])
  }

  /** The records of the window nodes of a node list, in list order. */
  function Records(ns: seq<SwayNode>): seq<WindowInfo> {
    if ns == [] then [] else Records(ns[..|ns| - 1]) + Own(ns[|ns| - 1])
  }

  lemma {:induction false} RecordsAppend(a: seq<SwayNode>, b: seq<SwayNode>)
    ensures Records(a + b) == Records(a) + Records(b)
    decreases |b|
  {
    if b != [] {
      var b' := b[..|b| - 1];
      assert (a + b)[..|a + b| - 1] == a + b';
      RecordsAppend(a, b');
    } else {
      assert a + b == a;
    }
  }

  /** The walk records exactly the window nodes of the tree, in pre-order. */
  lemma {:induction false} WindowsArePreOrderRecords(n: SwayNode)
    ensures Windows(n) == Records(PreOrder(n))
    decreases n, 1
  {
    WindowsOfArePreOrderRecords(n.nodes);
    WindowsOfArePreOrderRecords(n.floatingNodes);
    RecordsAppend([n] + PreOrderOf(n.nodes), PreOrderOf(n.floatingNodes));
    RecordsAppend([n], PreOrderOf(n.nodes));
    assert Records([n]) == Own(n) by {
      assert [n][..0] == [];
    }
  }

  lemma {:induction false} WindowsOfArePreOrderRecords(ns: seq<SwayNode>)
    ensures WindowsOf(ns) == Records(PreOrderOf(ns))
    decreases ns, 0
  {
    if ns != [] {
      WindowsOfArePreOrderRecords(ns[..|ns| - 1]);
      WindowsArePreOrderRecords(ns[|ns| - 1]);
      RecordsAppend(PreOrderOf(ns[..|ns| - 1]), PreOrder(ns[|ns| - 1]));
    }
  }

  // ------------------------------------------------------------ Sway framing

  datatype ByteOrder = LittleEndian | BigEndian

  /** A `u8`. */
  newtype byte = x: int | 0 <= x < 256

  const TwoTo32: nat := 0x1_0000_0000

  /** `n` bytes of `v`, least significant first. */
  function LeBytes(v: nat, n: nat): (r: seq<byte>)
    ensures |r| == n
  {
    if n == 0 then [] else [(v % 256) as byte] + LeBytes(v / 256, n - 1)
  }

  /** The value of bytes read least significant first. */
  function LeValue(b: seq<byte>): nat {
    if b == [] then 0 else b[0] as nat + 256 * LeValue(b[1..])
  }

  function Reverse(b: seq<byte>): (r: seq<byte>)
    ensures |r| == |b|
    ensures forall i :: 0 <= i < |b| ==> r[i] == b[|b| - 1 - i]
  {
    if b == [] then [] else Reverse(b[1..]) + [b[0]]
  }

  lemma ReverseReverse(b: seq<byte>)
    ensures Reverse(Reverse(b)) == b
  {
  }

  function Power256(n: nat): (r: nat)
    ensures r > 0
  {
    if n == 0 then 1 else 256 * Power256(n - 1)
  }

  lemma {:induction false} LeValueBound(b: seq<byte>)
    ensures LeValue(b) < Power256(|b|)
  {
    if b != [] {
      LeValueBound(b[1..]);
    }
  }

  /** Writing `n` bytes and reading them back gives the value, when it fits. */
  lemma {:induction false} LeRoundTrip(v: nat, n: nat)
    requires v < Power256(n)
    ensures LeValue(LeBytes(v, n)) == v
  {
    if n > 0 {
      DivModBound(v, n);
      LeRoundTrip(v / 256, n - 1);
      LeBytesValueStep(v, n);
    }
  }

  /** The value of written bytes: the low byte, then the rest shifted. */
  lemma LeBytesValueStep(v: nat, n: nat)
    requires n > 0
    ensures LeValue(LeBytes(v, n)) == v % 256 + 256 * LeValue(LeBytes(v / 256, n - 1))
  {
    var rest := LeBytes(v / 256, n - 1);
    assert LeBytes(v, n) == [(v % 256) as byte] + rest;
    LeValueCons((v % 256) as byte, rest);
  }

  lemma LeValueCons(d: byte, rest: seq<byte>)
    ensures LeValue([d] + rest) == d as nat + 256 * LeValue(rest)
  {
    assert ([d] + rest)[1..] == rest;
  }

  lemma DivModBound(v: nat, n: nat)
    requires 0 < n && v < Power256(n)
    ensures v / 256 < Power256(n - 1) && v == 256 * (v / 256) + v % 256
  {
  }

  /** `u32::to_ne_bytes` on a machine of the given byte order. */
  function U32Bytes(v: nat, order: ByteOrder): (r: seq<byte>)
    requires v < TwoTo32
    ensures |r| == 4
  {
    if order == LittleEndian then LeBytes(v, 4) else Reverse(LeBytes(v, 4))
  }

  /** `u32::from_ne_bytes`. */
  function U32Value(b: seq<byte>, order: ByteOrder): (r: nat)
    requires |b| == 4
    ensures r < TwoTo32
  {
    LeValueBound(b);
    LeValueBound(Reverse(b));
    assert Power256(4) == TwoTo32;
    if order == LittleEndian then LeValue(b) else LeValue(Reverse(b))
  }

  lemma U32RoundTrip(v: nat, order: ByteOrder)
    requires v < TwoTo32
    ensures U32Value(U32Bytes(v, order), order) == v
  {
    assert Power256(4) == TwoTo32;
    LeRoundTrip(v, 4);
    ReverseReverse(LeBytes(v, 4));
  }

  /** "i3-ipc" in ASCII. */
  const Magic: seq<byte> := [0x69, 0x33, 0x2d, 0x69, 0x70, 0x63]

  const GetTree: nat := 4

  /** The request `poll_sway_windows` writes: magic, an empty payload's length,
      the GET_TREE type, and no payload. */
  function GetTreeRequest(order: ByteOrder): (r: seq<byte>)
    ensures |r| == 14
    ensures r[..6] == Magic
    ensures U32Value(r[6..10], order) == 0 && U32Value(r[10..14], order) == GetTree
  {
    var r := Magic + U32Bytes(0, order) + U32Bytes(GetTree, order);
    assert r[6..10] == U32Bytes(0, order) && r[10..14] == U32Bytes(GetTree, order);
    U32RoundTrip(0, order);
    U32RoundTrip(GetTree, order);
    r
  }

  /** The reply read back: a 14-byte header whose bytes 6..9 give the body
      length, then exactly that many bytes. `None` when the stream ends early
      (`read_exact` fails). */
  function ReadResponse(stream: seq<byte>, order: ByteOrder): (r: Option<seq<byte>>)
    ensures r.Some? <==> |stream| >= 14 && |stream| >= 14 + U32Value(stream[6..10], order)
    ensures r.Some? ==> |r.value| == U32Value(stream[6..10], order)
                        && r.value == stream[14..14 + |r.value|]
  {
    if |stream| < 14 then None
    else
      var len := U32Value(stream[6..10], order);
      if |stream| < 14 + len then None else Some(stream[14..14 + len])
  }

  /** Any 14-byte header followed by a body of the length it announces, and
      whatever comes after, reads back as that body: neither the magic nor
      the type of the reply is checked. */
  lemma ResponseRoundTrip(magic: seq<byte>, replyType: nat, body: seq<byte>, rest: seq<byte>, order: ByteOrder)
    requires |magic| == 6 && replyType < TwoTo32 && |body| < TwoTo32
    ensures ReadResponse(magic + U32Bytes(|body|, order) + U32Bytes(replyType, order) + body + rest, order) == Some(body)
  {
    var stream := magic + U32Bytes(|body|, order) + U32Bytes(replyType, order) + body + rest;
    assert stream[6..10] == U32Bytes(|body|, order);
    U32RoundTrip(|body|, order);
    assert stream[14..14 + |body|] == body;
  }

  // ------------------------------------------------------------ the registry

  /** The tracker's shared state. `desktop` is fixed at construction. */
  class Tracker {
    var windows: seq<WindowInfo>
    var counts: map<string, nat>
    var running: bool
    const desktop: DesktopEnvironment

    /** No app is stored with a zero count. */
    ghost predicate Valid()
      reads this
    {
      forall a :: a in counts ==> counts[a] > 0
    }

    /** `WindowTracker::new`. */
    constructor (env: Environment)
      ensures Valid()
      ensures desktop == DetectDesktopEnvironment(env)
      ensures windows == [] && counts == map[] && !running
    {
      windows, counts, running := [], map[], false;
      desktop := DetectDesktopEnvironment(env);
    }

    /** `start`: sets the flag; a second start changes nothing. */
    method Start()
      modifies this`running
      ensures running
    {
      if running {
        return;
      }
      running := true;
    }

    /** `stop`: clears the flag and keeps the registry. */
    method Stop()
      modifies this`running
      ensures !running
    {
      running := false;
    }

    method IsRunning() returns (r: bool)
      ensures r == running
    {
      r := running;
    }

    /** `set_window_count`: 0 removes the key, any other count stores it. */
    method SetWindowCount(appId: string, count: nat)
      requires Valid()
      modifies this`counts
      ensures Valid()
      ensures count == 0 ==> counts == old(counts) - {appId}
      ensures count > 0 ==> counts == old(counts)[appId := count]
    {
      if count == 0 {
        counts := counts - {appId};
      } else {
        counts := counts[appId := count];
      }
    }

    /** `get_window_count`: the exact entry, else the count of a key that
        fuzzily matches (the map's iteration order decides which), else 0. */
    method GetWindowCount(query: string) returns (r: nat)
      ensures IsCountFor(counts, query, r)
    {
      if query in counts {
        return counts[query];
      }
      var keys := counts.Keys;
      while keys != {}
        invariant keys <= counts.Keys
        invariant forall k :: k in counts && k !in keys ==> !FuzzyMatch(k, query)
        decreases keys
      {
        var k :| k in keys;
        if FuzzyMatch(k, query) {
          return counts[k];
        }
        keys := keys - {k};
      }
      return 0;
    }

    /** `get_windows_for_app`: the fuzzily matching windows, in order. */
    method GetWindowsForApp(query: string) returns (r: seq<WindowInfo>)
      ensures r == MatchingWindows(windows, query)
    {
      r := [];
      for i := 0 to |windows|
        invariant r == MatchingWindows(windows[..i], query)
      {
        assert windows[..i + 1][..i] == windows[..i];
        if FuzzyMatch(windows[i].appId, query) {
          r := r + [windows[i]];
        }
      }
      assert windows[..|windows|] == windows;
    }

    /** Replaces the registry after a successful decode; keeps it otherwise. */
    method Replace(windows': seq<WindowInfo>, counts': map<string, nat>)
      requires CountsMatch(counts', windows')
      modifies this`windows, this`counts
      ensures Valid()
      ensures windows == windows' && counts == counts'
    {
      CountsPositive(counts', windows');
      counts := counts';
      windows := windows';
    }

    /** `parse_hyprland_clients` given the decoded reply; `None` is a JSON
        error, returned as an error with the registry unchanged. */
    method ApplyHyprland(reply: Option<seq<HyprClient>>) returns (ok: bool)
      requires Valid()
      modifies this`windows, this`counts
      ensures Valid()
      ensures ok <==> reply.Some?
      ensures reply.None? ==> windows == old(windows) && counts == old(counts)
      ensures reply.Some? ==> |windows| == |reply.value| && CountsMatch(counts, windows)
                              && forall i :: 0 <= i < |windows| ==> windows[i] == HyprlandRecord(reply.value[i])
    {
      if reply.None? {
        return false;
      }
      var ws, cs := NormaliseHyprland(reply.value);
      Replace(ws, cs);
      return true;
    }

    /** `parse_gnome_windows` given the decoded reply; a body that does not
        decode is logged and leaves the registry unchanged. */
    method ApplyGnome(reply: Option<seq<(nat, map<string, Variant>)>>)
      requires Valid()
      modifies this`windows, this`counts
      ensures Valid()
      ensures reply.None? ==> windows == old(windows) && counts == old(counts)
      ensures reply.Some? ==> |windows| == |reply.value| && CountsMatch(counts, windows)
                              && forall i :: 0 <= i < |windows| ==> windows[i] == GnomeRecord(reply.value[i].0, reply.value[i].1)
    {
      if reply.Some? {
        var ws, cs := NormaliseGnome(reply.value);
        Replace(ws, cs);
      }
    }

    /** `parse_sway_tree` given the decoded tree; `None` is a body that is not
        UTF-8 or not a node, returned as an error with the registry unchanged. */
    method ApplySway(reply: Option<SwayNode>) returns (ok: bool)
      requires Valid()
      modifies this`windows, this`counts
      ensures Valid()
      ensures ok <==> reply.Some?
      ensures reply.None? ==> windows == old(windows) && counts == old(counts)
      ensures reply.Some? ==> windows == Windows(reply.value) && CountsMatch(counts, windows)
    {
      if reply.None? {
        return false;
      }
      var ws, cs := NormaliseSway(reply.value);
      Replace(ws, cs);
      return true;
    }
  }

  /** What `get_window_count` may return: the exact entry; otherwise the count
      of some fuzzily matching key; otherwise 0. */
  ghost predicate IsCountFor(counts: map<string, nat>, query: string, r: nat) {
    if query in counts then r == counts[query]
    else if exists k :: k in counts && FuzzyMatch(k, query) then
      exists k :: k in counts && FuzzyMatch(k, query) && r == counts[k]
    else r == 0
  }

  /** The windows whose app id fuzzily matches `query`, in list order. */
  function MatchingWindows(ws: seq<WindowInfo>, query: string): seq<WindowInfo> {
    if ws == [] then []
    else MatchingWindows(ws[..|ws| - 1], query)
         + (if FuzzyMatch(ws[|ws| - 1].appId, query) then [ws[|ws| - 1]] else [])
  }

  /** The filter keeps exactly the matching windows, as a subsequence. */
  lemma {:induction false} MatchingWindowsSpec(ws: seq<WindowInfo>, query: string)
    ensures Sorting.IsSubsequence(MatchingWindows(ws, query), ws)
    ensures forall w :: w in MatchingWindows(ws, query) <==> w in ws && FuzzyMatch(w.appId, query)
  {
    if ws != [] {
      var init := ws[..|ws| - 1];
      MatchingWindowsSpec(init, query);
      assert ws == init + [ws[|ws| - 1]];
      var r := MatchingWindows(ws, query);
      if FuzzyMatch(ws[|ws| - 1].appId, query) {
        assert r[..|r| - 1] == MatchingWindows(init, query);
      } else {
        var r0 := MatchingWindows(init, query);
        assert r == r0;
        if r0 != [] {
          assert r0[|r0| - 1] in r0;
          assert r0[|r0| - 1] != ws[|ws| - 1];
          assert Sorting.IsSubsequence(r0, init);
        }
      }
    }
  }

  /** After storing n > 0 for an app, the count of that app is n. */
  lemma SetThenGet(counts: map<string, nat>, a: string, n: nat, r: nat)
    requires n > 0 && IsCountFor(counts[a := n], a, r)
    ensures r == n
  {
  }

  /** After clearing an app whose name no other key matches, its count is 0. */
  lemma ClearThenGet(counts: map<string, nat>, a: string, r: nat)
    requires forall k :: k in counts && k != a ==> !FuzzyMatch(k, a)
    requires IsCountFor(counts - {a}, a, r)
    ensures r == 0
  {
  }

  /** A query spelt "firefox" in any case matches the key "Firefox". */
  lemma FirefoxMatches(query: string)
    requires Lower(query) == "firefox"
    ensures FuzzyMatch("Firefox", query)
  {
    FirefoxSpellings();
  }

  /** Such a query, absent as a key itself, finds the count under "Firefox". */
  lemma FirefoxCount(query: string, r: nat)
    requires Lower(query) == "firefox" && query != "Firefox"
    requires IsCountFor(map["Firefox" := 2], query, r)
    ensures r == 2
  {
    FirefoxMatches(query);
  }

  /** A count stored under "Firefox" is found for "firefox" and "FIREFOX". */
  lemma CaseInsensitiveLookup(r1: nat, r2: nat)
    requires IsCountFor(map["Firefox" := 2], "firefox", r1)
    requires IsCountFor(map["Firefox" := 2], "FIREFOX", r2)
    ensures r1 == 2 && r2 == 2
  {
    FirefoxSpellings();
    FirefoxCount("firefox", r1);
    FirefoxCount("FIREFOX", r2);
  }
}

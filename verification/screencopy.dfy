/** The window-preview service (`ScreencopyService`): a thumbnail cache keyed
    by window id whose entries expire after a time-to-live, the window
    geometry lookups that precede a capture, and the temporary file name a
    capture writes. Running the screenshot tools, `hyprctl` and `swaymsg`,
    loading images and the icon theme are outside the model: their outcomes
    are parameters. Timestamps are Unix seconds as `u64`. */
module Screencopy {
  import opened Wrappers
  import opened Text

  const U64Modulus: nat := 0x1_0000_0000_0000_0000

  type U64 = x: nat | x < U64Modulus

  datatype ScreenshotTool = Grim | Spectacle | GnomeScreenshot | NoTool

  /** A loaded image; what it contains is not modelled. */
  datatype Image = Image(handle: nat)

  datatype WindowThumbnail = WindowThumbnail(windowId: string, appId: string, title: string, pixbuf: Option<Image>, lastUpdated: U64)

  datatype Rect = Rect(x: int, y: int, width: int, height: int)

  const DefaultTtl: U64 := 5

  // ------------------------------------------------------------ expiry

  /** `now - last_updated` on `u64`, which wraps around when the clock has
      gone back. */
  function Elapsed(now: U64, lastUpdated: U64): (r: U64)
    ensures lastUpdated <= now ==> r == now - lastUpdated
    ensures now < lastUpdated ==> r == now + U64Modulus - lastUpdated
  {
    (now - lastUpdated) % U64Modulus
  }

  /** The cache serves an entry younger than the time-to-live. */
  predicate Fresh(t: WindowThumbnail, now: U64, ttl: U64) {
    Elapsed(now, t.lastUpdated) < ttl
  }

  /** The refresh loop recaptures an entry older than the time-to-live. */
  predicate Stale(t: WindowThumbnail, now: U64, ttl: U64) {
    Elapsed(now, t.lastUpdated) > ttl
  }

  /** An entry is never both served and recaptured, and one exactly
      `ttl` seconds old is neither. */
  lemma ExpiryBoundary(t: WindowThumbnail, now: U64, ttl: U64)
    ensures !(Fresh(t, now, ttl) && Stale(t, now, ttl))
    ensures t.lastUpdated <= now && now - t.lastUpdated == ttl ==> !Fresh(t, now, ttl) && !Stale(t, now, ttl)
    ensures t.lastUpdated <= now ==> (Fresh(t, now, ttl) <==> now - t.lastUpdated < ttl)
  {
  }

  /** A timestamp ahead of the clock looks very old: unless the time-to-live
      is near the top of the `u64` range, such an entry is recaptured. */
  lemma FutureEntryIsStale(t: WindowThumbnail, now: U64, ttl: U64)
    requires now < t.lastUpdated && ttl < U64Modulus / 2 && t.lastUpdated - now < U64Modulus / 2
    ensures Stale(t, now, ttl) && !Fresh(t, now, ttl)
  {
  }

  // ------------------------------------------------------------ geometry

  datatype HyprClient = HyprClient(address: string, at: (int, int), size: (int, int))

  predicate AddressMatches(c: HyprClient, windowId: string) {
    c.address == windowId || EndsWith(c.address, windowId)
  }

  function ClientRect(c: HyprClient): Rect {
    Rect(c.at.0, c.at.1, c.size.0, c.size.1)
  }

  /** `get_hyprland_geometry` from the decoded client list (`None` when
      `hyprctl` failed or its reply did not decode): the first client whose
      address equals the window id or ends with it. */
  method HyprlandGeometry(clients: Option<seq<HyprClient>>, windowId: string) returns (geom: Option<Rect>)
    ensures clients.None? ==> geom.None?
    ensures clients.Some? ==>
      (geom.None? <==> forall i :: 0 <= i < |clients.value| ==> !AddressMatches(clients.value[i], windowId))
    ensures clients.Some? && geom.Some? ==>
      exists i :: 0 <= i < |clients.value| && AddressMatches(clients.value[i], windowId)
        && geom.value == ClientRect(clients.value[i])
        && forall j :: 0 <= j < i ==> !AddressMatches(clients.value[j], windowId)
  {
    if clients.None? {
      return None;
    }
    var cs := clients.value;
    for i := 0 to |cs|
      invariant forall j :: 0 <= j < i ==> !AddressMatches(cs[j], windowId)
    {
      if cs[i].address == windowId || EndsWith(cs[i].address, windowId) {
        return Some(ClientRect(cs[i]));
      }
    }
    return None;
  }

  /** The fields of a Sway tree node that the geometry search decodes. */
  datatype SwayNode = SwayNode(id: int, rect: Option<Rect>, nodes: seq<SwayNode>, floatingNodes: seq<SwayNode>)

  /** The node has the target id, written in decimal, and a rectangle. */
  predicate Hit(n: SwayNode, target: string) {
    IntToString(n.id) == target && n.rect.Some?
  }

  /** `find_window`: the node itself, then its tiled children, then its
      floating children. */
  function FindWindow(node: SwayNode, target: string): Option<Rect>
    decreases node, 1
  {
    if Hit(node, target) then node.rect
    else match FindInChildren(node.nodes, target)
      case Some(g) => Some(g)
      case None => FindInChildren(node.floatingNodes, target)
  }

  function FindInChildren(children: seq<SwayNode>, target: string): Option<Rect>
    decreases children, 0
  {
    if children == [] then None
    else match FindWindow(children[0], target)
      case Some(g) => Some(g)
      case None => FindInChildren(children[1..], target)
  }

  /** The nodes of a tree in pre-order, tiled children before floating ones. */
  function Preorder(node: SwayNode): (r: seq<SwayNode>)
    decreases node, 1
    ensures r != [] && r[0] == node
  {
    [node] + PreorderAll(node.nodes) + PreorderAll(node.floatingNodes)
  }

  function PreorderAll(children: seq<SwayNode>): seq<SwayNode>
    decreases children, 0
  {
    if children == [] then [] else Preorder(children[0]) + PreorderAll(children[1..])
  }

  /** The rectangle of the first node in `s` that is a hit. */
  function FirstHit(s: seq<SwayNode>, target: string): (r: Option<Rect>)
    ensures r.None? <==> forall i :: 0 <= i < |s| ==> !Hit(s[i], target)
  {
    if s == [] then None
    else if Hit(s[0], target) then s[0].rect
    else FirstHit(s[1..], target)
  }

  /** A found rectangle belongs to a hit with no hit before it. */
  lemma {:induction false} FirstHitIsFirst(s: seq<SwayNode>, target: string)
    requires FirstHit(s, target).Some?
    ensures exists i :: 0 <= i < |s| && Hit(s[i], target) && FirstHit(s, target) == s[i].rect
                        && forall j :: 0 <= j < i ==> !Hit(s[j], target)
  {
    if !Hit(s[0], target) {
      FirstHitIsFirst(s[1..], target);
      var i :| 0 <= i < |s[1..]| && Hit(s[1..][i], target) && FirstHit(s[1..], target) == s[1..][i].rect
               && forall j :: 0 <= j < i ==> !Hit(s[1..][j], target);
      assert s[i + 1] == s[1..][i];
      assert forall j :: 1 <= j < i + 1 ==> s[j] == s[1..][j - 1];
    }
  }

  lemma {:induction false} FirstHitAppend(a: seq<SwayNode>, b: seq<SwayNode>, target: string)
    ensures FirstHit(a + b, target) == if FirstHit(a, target).Some? then FirstHit(a, target) else FirstHit(b, target)
  {
    if a == [] {
      assert a + b == b;
    } else {
      assert (a + b)[0] == a[0] && (a + b)[1..] == a[1..] + b;
      FirstHitAppend(a[1..], b, target);
    }
  }

  /** The search returns the rectangle of the first hit in pre-order. */
  lemma {:induction false} FindWindowIsFirstHit(node: SwayNode, target: string)
    decreases node, 1
    ensures FindWindow(node, target) == FirstHit(Preorder(node), target)
  {
    var tiled := PreorderAll(node.nodes);
    var floating := PreorderAll(node.floatingNodes);
    FindInChildrenIsFirstHit(node.nodes, target);
    FindInChildrenIsFirstHit(node.floatingNodes, target);
    FirstHitAppend([node] + tiled, floating, target);
    FirstHitAppend([node], tiled, target);
  }

  lemma {:induction false} FindInChildrenIsFirstHit(children: seq<SwayNode>, target: string)
    decreases children, 0
    ensures FindInChildren(children, target) == FirstHit(PreorderAll(children), target)
  {
    if children != [] {
      FindWindowIsFirstHit(children[0], target);
      FindInChildrenIsFirstHit(children[1..], target);
      FirstHitAppend(Preorder(children[0]), PreorderAll(children[1..]), target);
    }
  }

  /** `get_sway_geometry` from the decoded tree (`None` when `swaymsg`
      failed or its reply did not decode). */
  function SwayGeometry(tree: Option<SwayNode>, windowId: string): (r: Option<Rect>)
    ensures tree.None? ==> r.None?
  {
    match tree
    case None => None
    case Some(root) => FindWindow(root, windowId)
  }

  /** `get_window_geometry`: Hyprland's answer when it has one, else Sway's. */
  method WindowGeometry(clients: Option<seq<HyprClient>>, tree: Option<SwayNode>, windowId: string) returns (geom: Option<Rect>)
    ensures clients.Some? && (exists i :: 0 <= i < |clients.value| && AddressMatches(clients.value[i], windowId)) ==>
      geom.Some? && (exists i :: 0 <= i < |clients.value| && AddressMatches(clients.value[i], windowId)
                                 && geom.value == ClientRect(clients.value[i])
                                 && forall j :: 0 <= j < i ==> !AddressMatches(clients.value[j], windowId))
    ensures (clients.None? || forall i :: 0 <= i < |clients.value| ==> !AddressMatches(clients.value[i], windowId)) ==>
      geom == SwayGeometry(tree, windowId)
  {
    geom := HyprlandGeometry(clients, windowId);
    if geom.None? {
      geom := SwayGeometry(tree, windowId);
    }
  }

  // ------------------------------------------------------------ temp files

  function ReplaceSlashes(s: string): string {
    ReplaceAll(s, "/", "_")
  }

  lemma {:induction false} ReplaceSlashesPointwise(s: string)
    ensures |ReplaceSlashes(s)| == |s|
    ensures forall k :: 0 <= k < |s| ==> ReplaceSlashes(s)[k] == if s[k] == '/' then '_' else s[k]
  {
    if s != [] {
      ReplaceSlashesPointwise(s[1..]);
      assert "/" <= s <==> s[0] == '/';
    }
  }

  /** The file a capture writes in the preview directory: the window id
      with every '/' turned into '_', plus ".png". */
  function TempFileName(windowId: string): (r: string)
    ensures |r| == |windowId| + 4 && EndsWith(r, ".png")
    ensures forall k :: 0 <= k < |r| ==> r[k] != '/'
    ensures forall k :: 0 <= k < |windowId| && windowId[k] != '/' ==> r[k] == windowId[k]
  {
    ReplaceSlashesPointwise(windowId);
    var r := ReplaceSlashes(windowId) + ".png";
    assert r[|windowId|..] == ".png";
    r
  }

  // ------------------------------------------------------------ the service

  class ScreencopyService {
    var thumbnails: map<string, WindowThumbnail>
    var cacheTtl: U64
    var running: bool
    var tool: ScreenshotTool

    /** `new`, with the detected tool passed in. */
    constructor (detected: ScreenshotTool)
      ensures thumbnails == map[] && cacheTtl == DefaultTtl && !running && tool == detected
    {
      thumbnails := map[];
      cacheTtl := DefaultTtl;
      running := false;
      tool := detected;
    }

    /** `start`; the result tells whether a refresh loop was started. */
    method Start() returns (started: bool)
      modifies this
      ensures started == !old(running) && running
      ensures thumbnails == old(thumbnails) && cacheTtl == old(cacheTtl) && tool == old(tool)
    {
      if running {
        return false;
      }
      running := true;
      return true;
    }

    method Stop()
      modifies this
      ensures !running
      ensures thumbnails == old(thumbnails) && cacheTtl == old(cacheTtl) && tool == old(tool)
    {
      running := false;
    }

    /** `capture_thumbnail`: whatever the capture produced, even nothing,
        becomes the entry for that window, stamped `now`. */
    method CaptureThumbnail(windowId: string, appId: string, title: string, now: U64, captured: Option<Image>)
      returns (pixbuf: Option<Image>)
      modifies this
      ensures pixbuf == captured
      ensures thumbnails == old(thumbnails)[windowId := WindowThumbnail(windowId, appId, title, captured, now)]
      ensures cacheTtl == old(cacheTtl) && running == old(running) && tool == old(tool)
    {
      thumbnails := thumbnails[windowId := WindowThumbnail(windowId, appId, title, captured, now)];
      return captured;
    }

    /** `request_thumbnail`: the cached image when the entry is fresh;
        otherwise a capture, whose outcome is `captured`. */
    method RequestThumbnail(windowId: string, appId: string, title: string, now: U64, captured: Option<Image>)
      returns (pixbuf: Option<Image>)
      modifies this
      ensures windowId in old(thumbnails) && Fresh(old(thumbnails)[windowId], now, old(cacheTtl)) ==>
        pixbuf == old(thumbnails)[windowId].pixbuf && thumbnails == old(thumbnails)
      ensures !(windowId in old(thumbnails) && Fresh(old(thumbnails)[windowId], now, old(cacheTtl))) ==>
        pixbuf == captured
        && thumbnails == old(thumbnails)[windowId := WindowThumbnail(windowId, appId, title, captured, now)]
      ensures windowId in thumbnails
      ensures cacheTtl == old(cacheTtl) && running == old(running) && tool == old(tool)
    {
      if windowId in thumbnails {
        var cached := thumbnails[windowId];
        if Elapsed(now, cached.lastUpdated) < cacheTtl {
          return cached.pixbuf;
        }
      }
      pixbuf := CaptureThumbnail(windowId, appId, title, now, captured);
    }

    /** `refresh_stale_thumbnails`: every stale entry is recaptured (with
        `capture` giving each outcome) and keeps its app id and title;
        fresh entries stay and no window is added or dropped. */
    method RefreshStaleThumbnails(now: U64, capture: string -> Option<Image>)
      modifies this
      ensures thumbnails.Keys == old(thumbnails).Keys
      ensures forall id :: id in thumbnails && Stale(old(thumbnails)[id], now, old(cacheTtl)) ==>
        thumbnails[id] == WindowThumbnail(id, old(thumbnails)[id].appId, old(thumbnails)[id].title, capture(id), now)
      ensures forall id :: id in thumbnails && !Stale(old(thumbnails)[id], now, old(cacheTtl)) ==>
        thumbnails[id] == old(thumbnails)[id]
      ensures cacheTtl == old(cacheTtl) && running == old(running) && tool == old(tool)
    {
      ghost var before := thumbnails;
      var stale := set id | id in thumbnails && Stale(thumbnails[id], now, cacheTtl);
      var todo := stale;
      while todo != {}
        invariant todo <= stale
        invariant thumbnails.Keys == before.Keys
        invariant cacheTtl == old(cacheTtl) && running == old(running) && tool == old(tool)
        invariant forall id :: id in stale - todo ==>
          thumbnails[id] == WindowThumbnail(id, before[id].appId, before[id].title, capture(id), now)
        invariant forall id :: id in thumbnails && id !in stale - todo ==> thumbnails[id] == before[id]
        decreases todo
      {
        var id :| id in todo;
        var t := thumbnails[id];
        var _ := CaptureThumbnail(id, t.appId, t.title, now, capture(id));
        todo := todo - {id};
      }
    }

    /** `extract_app_id`: the cached app id, or "unknown". */
    function ExtractAppId(windowId: string): (r: string)
      reads this
      ensures windowId in thumbnails ==> r == thumbnails[windowId].appId
      ensures windowId !in thumbnails ==> r == "unknown"
    {
      if windowId in thumbnails then thumbnails[windowId].appId else "unknown"
    }

    /** `get_thumbnail`. */
    function GetThumbnail(windowId: string): (r: Option<WindowThumbnail>)
      reads this
      ensures r.Some? <==> windowId in thumbnails
      ensures r.Some? ==> r.value == thumbnails[windowId]
    {
      if windowId in thumbnails then Some(thumbnails[windowId]) else None
    }

    method ClearCache()
      modifies this
      ensures thumbnails == map[]
      ensures cacheTtl == old(cacheTtl) && running == old(running) && tool == old(tool)
    {
      thumbnails := map[];
    }

    /** `remove_thumbnail`: only that window's entry goes. */
    method RemoveThumbnail(windowId: string)
      modifies this
      ensures thumbnails == old(thumbnails) - {windowId}
      ensures cacheTtl == old(cacheTtl) && running == old(running) && tool == old(tool)
    {
      thumbnails := thumbnails - {windowId};
    }

    /** `is_protocol_available`. */
    predicate IsProtocolAvailable()
      reads this
    {
      tool != NoTool
    }

    method SetCacheTtl(seconds: U64)
      modifies this
      ensures cacheTtl == seconds
      ensures thumbnails == old(thumbnails) && running == old(running) && tool == old(tool)
    {
      cacheTtl := seconds;
    }
  }

  /** The cache round trip of the dock's own test: a requested window is
      cached until the cache is cleared. */
  method CacheRoundTrip(now: U64, captured: Option<Image>) returns (before: bool, after: bool)
    ensures before && !after
  {
    var service := new ScreencopyService(NoTool);
    var _ := service.RequestThumbnail("test-123", "firefox", "Test Window", now, captured);
    before := service.GetThumbnail("test-123").Some?;
    service.ClearCache();
    after := service.GetThumbnail("test-123").Some?;
  }
}

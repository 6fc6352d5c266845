/** The monitor table (`MultiMonitorService`): the monitors found by the
    last scan, keyed "monitor-<index>", the primary and current monitor,
    hit-testing a point, choosing the dock's monitor by mode, and placing
    the dock on a monitor. Querying the display is outside the model: a scan
    starts from the monitor list it returned (`None` when there is no
    display; an entry is `None` when that item is not a monitor). */
module MultiMonitor {
  import opened Wrappers
  import opened Text

  datatype Rectangle = Rectangle(x: int, y: int, width: int, height: int)

  datatype MonitorInfo = MonitorInfo(id: string, name: string, geometry: Rectangle, scaleFactor: int, isPrimary: bool, connector: string)

  datatype MultiMonitorMode = PrimaryOnly | AllMonitors | FollowMouse | PerMonitor

  /** What the display reports for one monitor. */
  datatype GdkMonitor = GdkMonitor(geometry: Rectangle, connector: Option<string>, model: Option<string>, scaleFactor: int)

  // ------------------------------------------------------------ geometry

  /** Half-open containment: the left and top edges belong to the
      rectangle, the right and bottom edges do not. */
  predicate ContainsPoint(g: Rectangle, x: int, y: int) {
    x >= g.x && x < g.x + g.width && y >= g.y && y < g.y + g.height
  }

  /** On the edge shared by two monitors side by side, a point belongs to
      the right-hand one only. */
  lemma SharedEdgeBelongsRight(a: Rectangle, b: Rectangle, y: int)
    requires a.x + a.width == b.x && b.width > 0
    requires a.y <= y < a.y + a.height && b.y <= y < b.y + b.height
    ensures !ContainsPoint(a, b.x, y) && ContainsPoint(b, b.x, y)
  {
  }

  /** Rust's `/` on `i32`: the quotient truncated towards zero. */
  function TruncDiv(a: int, b: int): (q: int)
    requires b > 0
    ensures a >= 0 ==> q == a / b
    ensures a < 0 ==> q == -((-a) / b)
  {
    if a >= 0 then a / b else -((-a) / b)
  }

  /** `get_dock_geometry`: centred horizontally, `margin` above the bottom edge. */
  function DockGeometry(monitor: MonitorInfo, dockWidth: int, dockHeight: int, margin: int): (int, int)
  {
    var g := monitor.geometry;
    (g.x + TruncDiv(g.width - dockWidth, 2), g.y + g.height - dockHeight - margin)
  }

  /** The dock's bottom edge is `margin` above the monitor's, and the gaps
      on its left and right differ by at most one pixel, none when the
      spare width is even. Because the division truncates towards zero, the
      odd pixel goes to the right-hand gap when the dock fits and to the
      right-hand overhang when it does not. */
  lemma DockPlacement(monitor: MonitorInfo, dockWidth: int, dockHeight: int, margin: int)
    ensures var (x, y) := DockGeometry(monitor, dockWidth, dockHeight, margin);
      var g := monitor.geometry;
      var left := x - g.x;
      var right := (g.x + g.width) - (x + dockWidth);
      (monitor.geometry.y + monitor.geometry.height) - (y + dockHeight) == margin
      && (dockWidth <= g.width ==> 0 <= right - left <= 1)
      && (dockWidth > g.width ==> 0 <= left - right <= 1)
      && ((g.width - dockWidth) % 2 == 0 ==> left == right)
  {
  }

  /** The truncating division rounds a negative spare width towards zero:
      a dock one pixel wider than a monitor starts at the monitor's edge. */
  lemma OverhangRoundsTowardZero(monitor: MonitorInfo, dockHeight: int, margin: int)
    ensures DockGeometry(monitor, monitor.geometry.width + 1, dockHeight, margin).0 == monitor.geometry.x
  {
  }

  // ------------------------------------------------------------ the table

  function MonitorId(i: nat): string {
    "monitor-" + NatToString(i)
  }

  lemma MonitorIdInjective(i: nat, j: nat)
    requires MonitorId(i) == MonitorId(j)
    ensures i == j
  {
    assert MonitorId(i)[8..] == NatToString(i);
    assert MonitorId(j)[8..] == NatToString(j);
    NatToStringInjective(i, j);
  }

  /** The record a scan stores for the monitor at index `i`. */
  function InfoOf(i: nat, m: GdkMonitor): MonitorInfo {
    MonitorInfo(MonitorId(i), m.model.GetOr("Monitor " + NatToString(i)), m.geometry, m.scaleFactor, i == 0, m.connector.GetOr(""))
  }

  /** The table a scan of `items` builds. */
  function Table(items: seq<Option<GdkMonitor>>): map<string, MonitorInfo> {
    if items == [] then map[]
    else
      var n := |items| - 1;
      var rest := Table(items[..n]);
      match items[n]
      case None => rest
      case Some(m) => rest[MonitorId(n) := InfoOf(n, m)]
  }

  /** How many items are monitors. */
  function Present(items: seq<Option<GdkMonitor>>): nat {
    if items == [] then 0
    else Present(items[..|items| - 1]) + (if items[|items| - 1].Some? then 1 else 0)
  }

  /** The table holds "monitor-<i>" exactly for the items that are monitors,
      each with its own record. */
  lemma {:induction false} TableEntries(items: seq<Option<GdkMonitor>>, i: nat)
    ensures MonitorId(i) in Table(items) <==> i < |items| && items[i].Some?
    ensures i < |items| && items[i].Some? ==> Table(items)[MonitorId(i)] == InfoOf(i, items[i].value)
  {
    if items != [] {
      var n := |items| - 1;
      TableEntries(items[..n], i);
      if MonitorId(i) == MonitorId(n) {
        MonitorIdInjective(i, n);
      }
    }
  }

  /** Every key of the table is a monitor id. */
  lemma {:induction false} TableKeys(items: seq<Option<GdkMonitor>>, k: string)
    requires k in Table(items)
    ensures exists i :: 0 <= i < |items| && items[i].Some? && k == MonitorId(i)
  {
    var n := |items| - 1;
    if k != MonitorId(n) || items[n].None? {
      TableKeys(items[..n], k);
      var i :| 0 <= i < n && items[..n][i].Some? && k == MonitorId(i);
      assert items[i] == items[..n][i];
    }
  }

  /** Only the monitor at index 0 is marked primary. */
  lemma OnlyFirstIsPrimary(items: seq<Option<GdkMonitor>>, k: string)
    requires k in Table(items)
    ensures Table(items)[k].isPrimary <==> k == MonitorId(0)
  {
    TableKeys(items, k);
    var i :| 0 <= i < |items| && items[i].Some? && k == MonitorId(i);
    TableEntries(items, i);
    if k == MonitorId(0) {
      MonitorIdInjective(i, 0);
    }
  }

  /** The table has one entry per monitor in the list. */
  lemma {:induction false} TableSize(items: seq<Option<GdkMonitor>>)
    ensures |Table(items)| == Present(items)
  {
    if items != [] {
      var n := |items| - 1;
      TableSize(items[..n]);
      if items[n].Some? {
        if MonitorId(n) in Table(items[..n]) {
          TableEntries(items[..n], n);
        }
      }
    }
  }

  /** The record a scan stores for the primary monitor is the primary one. */
  lemma PrimaryRecord(items: seq<Option<GdkMonitor>>)
    requires items != [] && items[0].Some?
    ensures MonitorId(0) in Table(items) && Table(items)[MonitorId(0)].isPrimary
  {
    TableEntries(items, 0);
  }

  /** The monitor the dock goes on: the primary for `PrimaryOnly` and
      `AllMonitors`, the current one otherwise; `None` when that id is
      unset or no longer in the table. */
  function TargetMonitor(mode: MultiMonitorMode, monitors: map<string, MonitorInfo>,
                         primary: Option<string>, current: Option<string>): (r: Option<MonitorInfo>)
    ensures var pick := if mode == PrimaryOnly || mode == AllMonitors then primary else current;
      (r.Some? <==> pick.Some? && pick.value in monitors)
      && (r.Some? ==> r.value == monitors[pick.value])
  {
    var pick := match mode
      case PrimaryOnly => primary
      case AllMonitors => primary
      case FollowMouse => current
      case PerMonitor => current;
    match pick
    case None => None
    case Some(id) => if id in monitors then Some(monitors[id]) else None
  }

  /** Every call made to the change callbacks for one notification. */
  function Deliveries(callbacks: seq<nat>, monitor: MonitorInfo): (r: seq<(nat, MonitorInfo)>)
    ensures |r| == |callbacks|
    ensures forall i :: 0 <= i < |callbacks| ==> r[i] == (callbacks[i], monitor)
  {
    if callbacks == [] then [] else Deliveries(callbacks[..|callbacks| - 1], monitor) + [(callbacks[|callbacks| - 1], monitor)]
  }

  class MultiMonitorService {
    var monitors: map<string, MonitorInfo>
    var mode: MultiMonitorMode
    var primary: Option<string>
    var current: Option<string>
    /** The registered change callbacks, by identity, in registration order. */
    var callbacks: seq<nat>
    /** Every call made to a change callback so far, in order. */
    var delivered: seq<(nat, MonitorInfo)>

    /** `new`: an empty table in `PrimaryOnly` mode, then a scan. */
    constructor (display: Option<seq<Option<GdkMonitor>>>)
      ensures mode == PrimaryOnly && callbacks == [] && delivered == []
      ensures display.None? ==> monitors == map[] && primary.None? && current.None?
      ensures display.Some? ==> monitors == Table(display.value)
      ensures display.Some? ==>
        primary == current
        && primary == (if display.value != [] && display.value[0].Some? then Some(MonitorId(0)) else None)
    {
      monitors := map[];
      mode := PrimaryOnly;
      primary := None;
      current := None;
      callbacks := [];
      delivered := [];
      new;
      ScanMonitors(display);
    }

    /** `scan_monitors`: without a display nothing changes; otherwise the
        table is rebuilt, monitor 0 (when present) becomes the primary, and
        the current monitor is set to the primary only when it was unset. */
    method ScanMonitors(display: Option<seq<Option<GdkMonitor>>>)
      modifies this
      ensures display.None? ==> monitors == old(monitors) && primary == old(primary) && current == old(current)
      ensures display.Some? ==> monitors == Table(display.value)
      ensures display.Some? ==>
        primary == if display.value != [] && display.value[0].Some? then Some(MonitorId(0)) else old(primary)
      ensures display.Some? ==> current == if old(current).None? then primary else old(current)
      ensures mode == old(mode) && callbacks == old(callbacks) && delivered == old(delivered)
    {
      if display.None? {
        return;
      }
      var items := display.value;
      monitors := map[];
      for i := 0 to |items|
        invariant monitors == Table(items[..i])
        invariant primary == if i > 0 && items[0].Some? then Some(MonitorId(0)) else old(primary)
        invariant current == old(current)
        invariant mode == old(mode) && callbacks == old(callbacks) && delivered == old(delivered)
      {
        assert items[..i + 1][..i] == items[..i];
        match items[i]
        case None =>
        case Some(m) =>
          var info := InfoOf(i, m);
          if info.isPrimary {
            primary := Some(info.id);
          }
          monitors := monitors[info.id := info];
      }
      assert items[..|items|] == items;
      if current.None? {
        current := primary;
      }
    }

    /** `check_for_changes`: rescan, and notify when the number of monitors changed. */
    method CheckForChanges(display: Option<seq<Option<GdkMonitor>>>)
      modifies this
      ensures display.Some? ==> monitors == Table(display.value)
      ensures display.Some? ==>
        primary == (if display.value != [] && display.value[0].Some? then Some(MonitorId(0)) else old(primary))
      ensures display.Some? ==> current == (if old(current).None? then primary else old(current))
      ensures display.None? ==> monitors == old(monitors) && primary == old(primary) && current == old(current)
      ensures |monitors| == |old(monitors)| ==> delivered == old(delivered)
      ensures |monitors| != |old(monitors)| ==>
        delivered == old(delivered) + (if current.Some? && current.value in monitors
                                       then Deliveries(callbacks, monitors[current.value]) else [])
      ensures mode == old(mode) && callbacks == old(callbacks)
    {
      var oldCount := |monitors|;
      ScanMonitors(display);
      if oldCount != |monitors| {
        NotifyChange();
      }
    }

    /** `notify_change`: every callback, in order, with the current monitor. */
    method NotifyChange()
      modifies this
      ensures delivered == old(delivered) + (if current.Some? && current.value in monitors
                                             then Deliveries(callbacks, monitors[current.value]) else [])
      ensures monitors == old(monitors) && mode == old(mode) && primary == old(primary)
      ensures current == old(current) && callbacks == old(callbacks)
    {
      if current.None? || current.value !in monitors {
        return;
      }
      var monitor := monitors[current.value];
      for i := 0 to |callbacks|
        invariant monitors == old(monitors) && mode == old(mode) && primary == old(primary)
        invariant current == old(current) && callbacks == old(callbacks)
        invariant delivered == old(delivered) + Deliveries(callbacks[..i], monitor)
      {
        assert callbacks[..i + 1][..i] == callbacks[..i];
        delivered := delivered + [(callbacks[i], monitor)];
      }
      assert callbacks[..|callbacks|] == callbacks;
    }

    method OnMonitorChange(callback: nat)
      modifies this
      ensures callbacks == old(callbacks) + [callback]
      ensures monitors == old(monitors) && mode == old(mode) && primary == old(primary)
      ensures current == old(current) && delivered == old(delivered)
    {
      callbacks := callbacks + [callback];
    }

    method SetMode(newMode: MultiMonitorMode)
      modifies this
      ensures mode == newMode
      ensures monitors == old(monitors) && primary == old(primary) && current == old(current)
      ensures callbacks == old(callbacks) && delivered == old(delivered)
    {
      mode := newMode;
    }

    /** `set_current_monitor`: ignored for an id not in the table. */
    method SetCurrentMonitor(id: string)
      modifies this
      ensures id in monitors ==> current == Some(id)
      ensures id !in monitors ==> current == old(current)
      ensures monitors == old(monitors) && mode == old(mode) && primary == old(primary)
      ensures callbacks == old(callbacks) && delivered == old(delivered)
    {
      if id in monitors {
        current := Some(id);
      }
    }

    /** `get_monitors`: every record once, in the table's iteration order. */
    method GetMonitors() returns (r: seq<MonitorInfo>)
      ensures |r| == |monitors|
      ensures forall m :: m in r <==> m in monitors.Values
    {
      r := [];
      var keys := monitors.Keys;
      while keys != {}
        invariant keys <= monitors.Keys
        invariant |r| + |keys| == |monitors|
        invariant forall m :: m in r <==> exists k :: k in monitors.Keys - keys && monitors[k] == m
        decreases keys
      {
        var k :| k in keys;
        r := r + [monitors[k]];
        keys := keys - {k};
      }
    }

    /** `monitor_at_point`: some monitor whose rectangle contains the point,
        or `None` when none does. */
    method MonitorAtPoint(x: int, y: int) returns (r: Option<MonitorInfo>)
      ensures r.Some? ==> r.value in monitors.Values && ContainsPoint(r.value.geometry, x, y)
      ensures r.None? <==> forall k :: k in monitors ==> !ContainsPoint(monitors[k].geometry, x, y)
    {
      var keys := monitors.Keys;
      while keys != {}
        invariant keys <= monitors.Keys
        invariant forall k :: k in monitors.Keys - keys ==> !ContainsPoint(monitors[k].geometry, x, y)
        decreases keys
      {
        var k :| k in keys;
        if ContainsPoint(monitors[k].geometry, x, y) {
          return Some(monitors[k]);
        }
        keys := keys - {k};
      }
      return None;
    }

    function GetMonitor(id: string): (r: Option<MonitorInfo>)
      reads this
      ensures r.Some? <==> id in monitors
      ensures r.Some? ==> r.value == monitors[id]
    {
      if id in monitors then Some(monitors[id]) else None
    }

    /** `get_target_monitor`. */
    function GetTargetMonitor(): Option<MonitorInfo>
      reads this
    {
      TargetMonitor(mode, monitors, primary, current)
    }

    /** `is_multi_monitor`. */
    predicate IsMultiMonitor()
      reads this
    {
      |monitors| > 1
    }
  }

  /** After a scan, the dock spans several monitors exactly when the list
      held more than one. */
  lemma MultiMonitorAfterScan(items: seq<Option<GdkMonitor>>)
    ensures |Table(items)| > 1 <==> Present(items) > 1
  {
    TableSize(items);
  }
}

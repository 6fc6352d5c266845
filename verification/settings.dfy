/** The dock's configuration (`Settings`): its default values and the pinned
    application list that dropping, unpinning and dragging edit in place.
    Writing the configuration file is outside the model; its outcome is a
    parameter that, as in the dock, changes nothing in memory. */
module DockSettings {
  import opened Wrappers

  datatype DockPosition = Left | Right | Top | Bottom

  datatype MultiMonitorMode = Primary | All | Follow | PerMonitor

  datatype PinnedApp = PinnedApp(name: string, icon: string, command: string, desktopFile: Option<string>)

  /** The configuration record. The two `f64` fields are carried as exact reals. */
  datatype Settings = Settings(
    position: DockPosition,
    iconSize: nat,
    dockSize: nat,
    margin: nat,
    spacing: nat,
    autoHide: bool,
    autoHideDelay: nat,
    opacity: real,
    borderRadius: nat,
    exclusiveZone: bool,
    hoverZoom: bool,
    hoverZoomScale: real,
    multiMonitorMode: MultiMonitorMode,
    enableShortcuts: bool,
    activeProfile: string,
    showRunningApps: bool,
    enableWindowPreviews: bool,
    themeMode: string,
    showTrash: bool,
    showDownloadsStack: bool,
    pinnedApps: seq<PinnedApp>)

  function DefaultPinnedApps(): (r: seq<PinnedApp>)
    ensures |r| == 4
    ensures forall i :: 0 <= i < 4 ==> r[i].desktopFile.Some?
  {
    [ PinnedApp("Firefox", "firefox", "firefox", Some("/usr/share/applications/firefox.desktop")),
      PinnedApp("Files", "org.gnome.Nautilus", "nautilus", Some("/usr/share/applications/org.gnome.Nautilus.desktop")),
      PinnedApp("Terminal", "org.gnome.Terminal", "gnome-terminal", Some("/usr/share/applications/org.gnome.Terminal.desktop")),
      PinnedApp("Settings", "org.gnome.Settings", "gnome-control-center", Some("/usr/share/applications/org.gnome.Settings.desktop")) ]
  }

  /** `Settings::default()`. */
  function DefaultSettings(): Settings {
    Settings(Bottom, 48, 72, 8, 8, false, 500, 0.85, 16, false, true, 1.15, Primary, true,
             "default", true, true, "system", true, true, DefaultPinnedApps())
  }

  /** The default dock sits at the bottom with 48-pixel icons in a 72-pixel bar
      and pins Firefox, Files, Terminal and Settings, in that order. */
  lemma DefaultsAreStandard()
    ensures var d := DefaultSettings();
      d.position == Bottom && d.iconSize == 48 && d.dockSize == 72
      && |d.pinnedApps| == 4
      && d.pinnedApps[0].command == "firefox" && d.pinnedApps[1].command == "nautilus"
      && d.pinnedApps[2].command == "gnome-terminal" && d.pinnedApps[3].command == "gnome-control-center"
      && d.activeProfile == "default"
  {
  }

  // ------------------------------------------------------------ list edits

  /** `Vec::remove(i)`: the list without its i-th element. */
  function Removed<T>(s: seq<T>, i: nat): (r: seq<T>)
    requires i < |s|
    ensures |r| == |s| - 1
    ensures forall k :: 0 <= k < i ==> r[k] == s[k]
    ensures forall k :: i <= k < |r| ==> r[k] == s[k + 1]
  {
    s[..i] + s[i + 1..]
  }

  /** `Vec::insert(i, x)`. */
  function Inserted<T>(s: seq<T>, i: nat, x: T): (r: seq<T>)
    requires i <= |s|
    ensures |r| == |s| + 1 && r[i] == x
    ensures forall k :: 0 <= k < i ==> r[k] == s[k]
    ensures forall k :: i < k < |r| ==> r[k] == s[k - 1]
  {
    s[..i] + [x] + s[i..]
  }

  /** `reorder_pinned_app` on the list: take out `from`, put it back at `to`. */
  function Reordered<T>(s: seq<T>, from: nat, to: nat): seq<T>
    requires from < |s| && to < |s|
  {
    Inserted(Removed(s, from), to, s[from])
  }

  /** Removing and re-inserting keeps every element, and the moved one lands at `to`. */
  lemma ReorderedPermutes<T>(s: seq<T>, from: nat, to: nat)
    requires from < |s| && to < |s|
    ensures |Reordered(s, from, to)| == |s|
    ensures multiset(Reordered(s, from, to)) == multiset(s)
    ensures Reordered(s, from, to)[to] == s[from]
  {
    var rest := Removed(s, from);
    assert s == s[..from] + [s[from]] + s[from + 1..];
    assert multiset(s) == multiset(rest) + multiset{s[from]};
    assert rest[..to] + [s[from]] + rest[to..] == Reordered(s, from, to);
    assert rest == rest[..to] + rest[to..];
  }

  /** Moving an element to its own place changes nothing. */
  lemma ReorderedSame<T>(s: seq<T>, i: nat)
    requires i < |s|
    ensures Reordered(s, i, i) == s
  {
    assert Reordered(s, i, i) == s[..i] + [s[i]] + s[i + 1..];
    assert s == s[..i] + [s[i]] + s[i + 1..];
  }

  /** The elements between `from` and `to` shift by one towards `from`;
      the others stay. */
  lemma ReorderedShift<T>(s: seq<T>, from: nat, to: nat, k: nat)
    requires from < |s| && to < |s| && k < |s| && k != to
    ensures from < to && from <= k < to ==> Reordered(s, from, to)[k] == s[k + 1]
    ensures to < from && to < k <= from ==> Reordered(s, from, to)[k] == s[k - 1]
    ensures (k < from && k < to) || (k > from && k > to) ==> Reordered(s, from, to)[k] == s[k]
  {
  }

  /** The shared, mutable configuration (`Rc<RefCell<Settings>>`). */
  class SettingsCell {
    var value: Settings

    constructor (initial: Settings)
      ensures value == initial
    {
      value := initial;
    }

    /** `add_pinned_app`: appends; earlier entries and all other settings stay. */
    method AddPinnedApp(app: PinnedApp, saveOk: bool)
      modifies this
      ensures value == old(value).(pinnedApps := old(value).pinnedApps + [app])
    {
      value := value.(pinnedApps := value.pinnedApps + [app]);
    }

    /** `remove_pinned_app`: the removed entry, or `None` with nothing changed. */
    method RemovePinnedApp(index: nat, saveOk: bool) returns (removed: Option<PinnedApp>)
      modifies this
      ensures index < |old(value).pinnedApps| ==>
        removed == Some(old(value).pinnedApps[index])
        && value == old(value).(pinnedApps := Removed(old(value).pinnedApps, index))
      ensures index >= |old(value).pinnedApps| ==> removed.None? && value == old(value)
    {
      if index < |value.pinnedApps| {
        var app := value.pinnedApps[index];
        value := value.(pinnedApps := Removed(value.pinnedApps, index));
        return Some(app);
      }
      return None;
    }

    /** `reorder_pinned_app`: moves one entry when both indices are in range;
        otherwise a no-op. */
    method ReorderPinnedApp(from: nat, to: nat, saveOk: bool)
      modifies this
      ensures from < |old(value).pinnedApps| && to < |old(value).pinnedApps| ==>
        value == old(value).(pinnedApps := Reordered(old(value).pinnedApps, from, to))
      ensures !(from < |old(value).pinnedApps| && to < |old(value).pinnedApps|) ==> value == old(value)
    {
      var apps := value.pinnedApps;
      if from < |apps| && to < |apps| {
        var app := apps[from];
        apps := Removed(apps, from);
        apps := Inserted(apps, to, app);
        value := value.(pinnedApps := apps);
      }
    }
  }
}

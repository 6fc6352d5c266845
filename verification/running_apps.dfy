/** The running-application finder (`RunningAppsService`): a cache of visible
    desktop entries keyed by the lower-cased process name their Exec line
    starts, and the selection of cached apps that are running and not pinned,
    sorted by name. The directory listing arrives as the entries it parses to,
    in visiting order; the `ps` listing arrives as its text, or `None` when
    `ps` cannot be run. */
module RunningApps {
  import opened Wrappers
  import opened Text
  import opened Sorting
  import DesktopEntry

  datatype RunningApp = RunningApp(name: string, icon: string, command: string, desktopFile: Option<string>,
                                   processName: string)

  /** The last '/'-separated segment of the first whitespace-separated word of
      a command ("" when there is no word). */
  function ProcessName(command: string): (r: string)
    ensures '/' !in r
  {
    var pieces := Split(FirstWord(command).GetOr(""), '/');
    pieces[|pieces| - 1]
  }

  /** The process name ends the command's first word, right after a '/' or as
      the whole word. */
  lemma ProcessNameOfWord(command: string)
    requires FirstWord(command).Some?
    ensures var w := FirstWord(command).value; var p := ProcessName(command);
      EndsWith(w, p) && (p == w || w[|w| - |p| - 1] == '/')
  {
    var w := FirstWord(command).value;
    assert ProcessName(command) == Split(w, '/')[|Split(w, '/')| - 1];
    SplitLast(w, '/');
  }

  /** The cache key an entry gets, if any: visible, with an Exec line whose
      process name is not empty. */
  function CacheKey(e: DesktopEntry.Entry): (r: Option<string>)
    ensures r.Some? ==> r.value != [] && r.value == Lower(r.value)
  {
    if DesktopEntry.IsVisibleApp(e) && e.exec.Some? && ProcessName(e.exec.value) != [] then
      LowerIdempotent(ProcessName(e.exec.value));
      Some(Lower(ProcessName(e.exec.value)))
    else None
  }

  /** The map built by storing each keyed value in order; a later value
      for a key replaces an earlier one, and unkeyed values are skipped. */
  function Index<T>(keyed: seq<(Option<string>, T)>): map<string, T> {
    if keyed == [] then map[]
    else
      var m := Index(keyed[..|keyed| - 1]);
      match keyed[|keyed| - 1].0
      case None => m
      case Some(k) => m[k := keyed[|keyed| - 1].1]
  }

  /** The last value decides its own key; other keys keep their state. */
  lemma IndexStep<T>(keyed: seq<(Option<string>, T)>, k: string)
    requires keyed != []
    ensures var last := keyed[|keyed| - 1]; var before := Index(keyed[..|keyed| - 1]);
      (last.0 == Some(k) ==> k in Index(keyed) && Index(keyed)[k] == last.1)
      && (last.0 != Some(k) ==> (k in Index(keyed) <==> k in before)
                                && (k in before ==> Index(keyed)[k] == before[k]))
  {
  }

  /** A key is stored iff some value has it. */
  lemma {:induction false} IndexKeys<T>(keyed: seq<(Option<string>, T)>, k: string)
    ensures k in Index(keyed) <==> exists i :: 0 <= i < |keyed| && keyed[i].0 == Some(k)
  {
    if keyed != [] {
      var n := |keyed| - 1;
      IndexKeys(keyed[..n], k);
      IndexStep(keyed, k);
      assert forall i :: 0 <= i < n ==> keyed[..n][i] == keyed[i];
    }
  }

  /** A stored key holds the value of the last item that has it. */
  lemma {:induction false} IndexLast<T>(keyed: seq<(Option<string>, T)>, k: string)
    requires k in Index(keyed)
    ensures exists i :: 0 <= i < |keyed| && keyed[i].0 == Some(k) && Index(keyed)[k] == keyed[i].1
                        && forall j :: i < j < |keyed| ==> keyed[j].0 != Some(k)
  {
    var n := |keyed| - 1;
    var init := keyed[..n];
    IndexStep(keyed, k);
    if keyed[n].0 != Some(k) {
      IndexLast(init, k);
      var i :| 0 <= i < n && init[i].0 == Some(k) && Index(init)[k] == init[i].1
               && forall j :: i < j < n ==> init[j].0 != Some(k);
      LastInPrefix(keyed, k, i);
    }
  }

  /** The last item with key `k` in all but the final item is the last one
      overall when the final item has another key. */
  lemma LastInPrefix<T>(keyed: seq<(Option<string>, T)>, k: string, i: nat)
    requires keyed != [] && keyed[|keyed| - 1].0 != Some(k)
    requires var init := keyed[..|keyed| - 1];
      i < |init| && forall j :: i < j < |init| ==> init[j].0 != Some(k)
    ensures keyed[i] == keyed[..|keyed| - 1][i]
    ensures forall j :: i < j < |keyed| ==> keyed[j].0 != Some(k)
  {
    var init := keyed[..|keyed| - 1];
    assert forall j :: i < j < |init| ==> keyed[j] == init[j];
  }

  /** Each entry with its cache key. */
  function Keyed(entries: seq<DesktopEntry.Entry>): (r: seq<(Option<string>, DesktopEntry.Entry)>)
    ensures |r| == |entries| && forall i :: 0 <= i < |entries| ==> r[i] == (CacheKey(entries[i]), entries[i])
  {
    seq(|entries|, i requires 0 <= i < |entries| => (CacheKey(entries[i]), entries[i]))
  }

  /** The cache after visiting `entries` in order. */
  function CacheOf(entries: seq<DesktopEntry.Entry>): map<string, DesktopEntry.Entry> {
    Index(Keyed(entries))
  }

  /** A key is cached iff some entry has it, and it holds the last such entry;
      every key is lower-case and not empty. */
  lemma CacheOfSpec(entries: seq<DesktopEntry.Entry>, k: string)
    ensures k in CacheOf(entries) <==> exists i :: 0 <= i < |entries| && CacheKey(entries[i]) == Some(k)
    ensures k in CacheOf(entries) ==> k != [] && k == Lower(k)
    ensures k in CacheOf(entries) ==>
      exists i :: 0 <= i < |entries| && CacheKey(entries[i]) == Some(k) && CacheOf(entries)[k] == entries[i]
        && forall j :: i < j < |entries| ==> CacheKey(entries[j]) != Some(k)
  {
    IndexKeys(Keyed(entries), k);
    if k in CacheOf(entries) {
      IndexLast(Keyed(entries), k);
    }
  }

  /** `build_cache`. */
  method BuildCache(entries: seq<DesktopEntry.Entry>) returns (cache: map<string, DesktopEntry.Entry>)
    ensures cache == CacheOf(entries)
  {
    cache := map[];
    ghost var keyed := Keyed(entries);
    for i := 0 to |entries|
      invariant cache == Index(keyed[..i])
    {
      assert keyed[..i + 1][..i] == keyed[..i];
      var e := entries[i];
      if DesktopEntry.IsVisibleApp(e) {
        if e.exec.Some? {
          var name := ProcessName(e.exec.value);
          if name != [] {
            cache := cache[Lower(name) := e];
          }
        }
      }
    }
    assert keyed[..|entries|] == keyed;
  }

  /** The trimmed, lower-cased lines of the `ps` listing. */
  function RunningNames(ps: string): (r: set<string>)
    ensures forall n :: n in r <==> exists line :: line in Lines(ps) && n == Lower(Trim(line))
  {
    set line | line in Lines(ps) :: Lower(Trim(line))
  }

  /** The lower-cased process names of the pinned commands. */
  function PinnedNames(pinned: seq<string>): (r: set<string>)
    ensures forall n :: n in r <==> exists c :: c in pinned && n == Lower(ProcessName(c))
  {
    set c | c in pinned :: Lower(ProcessName(c))
  }

  /** The app shown for a cached entry. */
  function AppOf(key: string, e: DesktopEntry.Entry): (app: RunningApp)
    ensures app.processName == key && app.desktopFile == Some(e.path)
  {
    RunningApp(e.name.GetOr(key), e.icon.GetOr("application-x-executable"),
               DesktopEntry.ExecCommand(e).GetOr(key), Some(e.path), key)
  }

  predicate NameLe(a: RunningApp, b: RunningApp) {
    LexLe(a.name, b.name)
  }

  lemma NameLeTotalPreorder()
    ensures TotalPreorder(NameLe)
  {
    forall a: RunningApp, b: RunningApp ensures NameLe(a, b) || NameLe(b, a) {
      LexLeTotal(a.name, b.name);
    }
    forall a: RunningApp, b: RunningApp, c: RunningApp | NameLe(a, b) && NameLe(b, c) ensures NameLe(a, c) {
      LexLeTransitive(a.name, b.name, c.name);
    }
  }

  /** The keys `get_running_apps` reports: cached, running and not pinned. */
  function Selected(cache: map<string, DesktopEntry.Entry>, running: set<string>, pinned: set<string>): (r: set<string>)
    ensures forall k :: k in r <==> k in cache && k in running && k !in pinned
  {
    set k | k in cache && k in running && k !in pinned
  }

  /** The loop of `get_running_apps` over the cache, in the map's own
      (unspecified) order: the app of every running, unpinned key. */
  method CollectApps(cache: map<string, DesktopEntry.Entry>, running: set<string>, pinnedNames: set<string>)
    returns (found: seq<RunningApp>)
    ensures Distinct(found)
    ensures forall a :: a in found <==> exists k :: k in Selected(cache, running, pinnedNames) && a == AppOf(k, cache[k])
  {
    found := [];
    ghost var seen: set<string> := {};
    var keys := cache.Keys;
    while keys != {}
      invariant keys <= cache.Keys && seen == cache.Keys - keys
      invariant Distinct(found)
      invariant forall a :: a in found ==> a.processName in seen
      invariant forall a :: a in found <==>
        exists k :: k in seen && k in running && k !in pinnedNames && a == AppOf(k, cache[k])
      decreases keys
    {
      var k :| k in keys;
      if k in running && k !in pinnedNames {
        found := found + [AppOf(k, cache[k])];
      }
      keys := keys - {k};
      seen := seen + {k};
    }
  }

  /** `get_running_apps`: one app for each cached key that is running and not
      pinned, sorted by name; nothing when `ps` cannot be run. */
  method GetRunningApps(cache: map<string, DesktopEntry.Entry>, pinned: seq<string>, ps: Option<string>)
    returns (apps: seq<RunningApp>)
    ensures ps.None? ==> apps == []
    ensures Sorted(NameLe, apps) && Distinct(apps)
    ensures ps.Some? ==> forall a :: a in apps <==>
      exists k :: k in Selected(cache, RunningNames(ps.value), PinnedNames(pinned)) && a == AppOf(k, cache[k])
  {
    if ps.None? {
      return [];
    }
    var found := CollectApps(cache, RunningNames(ps.value), PinnedNames(pinned));
    NameLeTotalPreorder();
    apps := Sort(NameLe, found);
    SameMultisetDistinct(found, apps);
    forall a ensures a in apps <==> a in found {
      SortMembers(NameLe, found, a);
    }
  }
}

/** The badge service (`DBusService`): per-application badges fed by Unity
    LauncherEntry updates and by direct calls, the callbacks told of every
    change, and the running flag. The session bus connection and the message
    stream are outside the model: an update arrives as its decoded body. */
module DBus {
  import opened Wrappers
  import opened Text

  /** `progress` is an `f64` the dock only stores and hands on; it is carried
      as a real. */
  datatype BadgeInfo = BadgeInfo(appId: string, count: int, countVisible: bool, progress: real,
                                 progressVisible: bool, urgent: bool)

  /** `BadgeInfo::default()` with the given app id. */
  function DefaultBadge(appId: string): BadgeInfo {
    BadgeInfo(appId, 0, false, 0.0, false, false)
  }

  /** A property value of an update, as far as the dock converts it: an
      `i64`, a boolean, a double, or anything else. */
  datatype Variant = Int64(i: int) | Boolean(b: bool) | Double(d: real) | OtherValue

  /** The app id named by a LauncherEntry URI: the X of
      "application://X.desktop", otherwise the whole URI. */
  function AppIdFromUri(uri: string): (id: string)
    ensures forall x :: uri == "application://" + x + ".desktop" ==> id == x
    ensures !StartsWith(uri, "application://") || !EndsWith(uri, ".desktop") ==> id == uri
  {
    match StripPrefix(uri, "application://")
    case None => uri
    case Some(rest) =>
      match StripSuffix(rest, ".desktop")
      case None => uri
      case Some(x) => x
  }

  /** The badge a LauncherEntry update describes: each property that is
      present and converts sets its field; the rest keep their defaults. */
  function BadgeFromProperties(appId: string, props: map<string, Variant>): BadgeInfo {
    var d := DefaultBadge(appId);
    BadgeInfo(appId,
              if "count" in props && props["count"].Int64? then props["count"].i else d.count,
              if "count-visible" in props && props["count-visible"].Boolean? then props["count-visible"].b else d.countVisible,
              if "progress" in props && props["progress"].Double? then props["progress"].d else d.progress,
              if "progress-visible" in props && props["progress-visible"].Boolean? then props["progress-visible"].b else d.progressVisible,
              if "urgent" in props && props["urgent"].Boolean? then props["urgent"].b else d.urgent)
  }

  /** Without usable properties an update describes the default badge. */
  lemma EmptyUpdateIsDefault(appId: string, props: map<string, Variant>)
    requires forall k :: k in props ==> props[k].OtherValue?
    ensures BadgeFromProperties(appId, props) == DefaultBadge(appId)
  {
  }

  /** The lookup rule of `get_badge`: one direction only, the stored key must
      contain the query (ignoring case). */
  predicate BadgeMatch(key: string, query: string) {
    Lower(key) == Lower(query) || Contains(Lower(key), Lower(query))
  }

  /** `r` is what `get_badge(query)` may return: the exact entry, else the
      entry of some matching key, else none. */
  ghost predicate IsBadgeFor(badges: map<string, BadgeInfo>, query: string, r: Option<BadgeInfo>) {
    if query in badges then r == Some(badges[query])
    else if exists k :: k in badges && BadgeMatch(k, query) then
      exists k :: k in badges && BadgeMatch(k, query) && r == Some(badges[k])
    else r.None?
  }

  /** The calls made when `badge` is handed to each callback in turn. */
  function Deliveries(callbacks: seq<nat>, badge: BadgeInfo): (r: seq<(nat, BadgeInfo)>)
    ensures |r| == |callbacks|
    ensures forall i :: 0 <= i < |r| ==> r[i] == (callbacks[i], badge)
  {
    if callbacks == [] then [] else [(callbacks[0], badge)] + Deliveries(callbacks[1..], badge)
  }

  /** A badge just stored under an id is what a lookup of that id returns. */
  lemma SetThenGetBadge(badges: map<string, BadgeInfo>, a: string, b: BadgeInfo, r: Option<BadgeInfo>)
    requires IsBadgeFor(badges[a := b], a, r)
    ensures r == Some(b)
  {
  }

  /** The lookup ignores case: a badge stored under "Firefox" is found for
      "firefox" and for "FIREFOX". */
  lemma CaseInsensitiveBadge(b: BadgeInfo, r1: Option<BadgeInfo>, r2: Option<BadgeInfo>)
    requires IsBadgeFor(map["Firefox" := b], "firefox", r1)
    requires IsBadgeFor(map["Firefox" := b], "FIREFOX", r2)
    ensures r1 == Some(b) && r2 == Some(b)
  {
    FirefoxSpellings();
    FirefoxBadge("firefox", b, r1);
    FirefoxBadge("FIREFOX", b, r2);
  }

  /** A query spelt "firefox" in any case, not itself a key, finds the badge
      stored under "Firefox". */
  lemma FirefoxBadge(query: string, b: BadgeInfo, r: Option<BadgeInfo>)
    requires Lower(query) == "firefox" && query != "Firefox"
    requires IsBadgeFor(map["Firefox" := b], query, r)
    ensures r == Some(b)
  {
    FirefoxBadgeMatch(query);
  }

  lemma FirefoxBadgeMatch(query: string)
    requires Lower(query) == "firefox"
    ensures BadgeMatch("Firefox", query)
  {
    FirefoxSpellings();
  }

  /** A query longer than every stored key finds nothing: the stored key must
      contain the query, not the other way round. */
  lemma {:induction false} LongerQueryMisses(badges: map<string, BadgeInfo>, query: string, r: Option<BadgeInfo>)
    requires forall k :: k in badges ==> |k| < |query|
    requires IsBadgeFor(badges, query, r)
    ensures r.None?
  {
    forall k | k in badges ensures !BadgeMatch(k, query) {
      ContainsShorter(Lower(k), Lower(query));
    }
  }

  /** No text contains a longer one. */
  lemma {:induction false} ContainsShorter(s: string, sub: string)
    requires |s| < |sub|
    ensures !Contains(s, sub)
  {
    if s != [] {
      ContainsShorter(s[1..], sub);
    }
  }

  class DBusService {
    var badges: map<string, BadgeInfo>
    /** The registered callbacks, by identity, in registration order. */
    var callbacks: seq<nat>
    /** Every call made to a callback so far, in order. */
    var delivered: seq<(nat, BadgeInfo)>
    var running: bool

    constructor ()
      ensures badges == map[] && callbacks == [] && delivered == [] && !running
    {
      badges := map[];
      callbacks := [];
      delivered := [];
      running := false;
    }

    /** `on_badge_update`. */
    method OnBadgeUpdate(callback: nat)
      modifies this
      ensures callbacks == old(callbacks) + [callback]
      ensures badges == old(badges) && delivered == old(delivered) && running == old(running)
    {
      callbacks := callbacks + [callback];
    }

    /** Hands `badge` to every callback once, in registration order. */
    method Notify(badge: BadgeInfo)
      modifies this
      ensures delivered == old(delivered) + Deliveries(callbacks, badge)
      ensures badges == old(badges) && callbacks == old(callbacks) && running == old(running)
    {
      for i := 0 to |callbacks|
        invariant badges == old(badges) && callbacks == old(callbacks) && running == old(running)
        invariant delivered == old(delivered) + Deliveries(callbacks[..i], badge)
      {
        assert Deliveries(callbacks[..i + 1], badge) == Deliveries(callbacks[..i], badge) + [(callbacks[i], badge)];
        delivered := delivered + [(callbacks[i], badge)];
      }
      assert callbacks[..|callbacks|] == callbacks;
    }

    /** `get_badge`: the exact entry, else that of some key containing the
        query (ignoring case), else none. */
    method GetBadge(query: string) returns (r: Option<BadgeInfo>)
      ensures IsBadgeFor(badges, query, r)
    {
      if query in badges {
        return Some(badges[query]);
      }
      var keys := badges.Keys;
      while keys != {}
        invariant keys <= badges.Keys
        invariant forall k :: k in badges && k !in keys ==> !BadgeMatch(k, query)
        decreases keys
      {
        var k :| k in keys;
        if BadgeMatch(k, query) {
          return Some(badges[k]);
        }
        keys := keys - {k};
      }
      return None;
    }

    /** `set_badge`: a fresh badge with the given count and visibility
        replaces any earlier one, and the callbacks are told. */
    method SetBadge(appId: string, count: int, visible: bool)
      modifies this
      ensures var b := DefaultBadge(appId).(count := count, countVisible := visible);
        badges == old(badges)[appId := b] && delivered == old(delivered) + Deliveries(callbacks, b)
      ensures callbacks == old(callbacks) && running == old(running)
    {
      var badge := DefaultBadge(appId).(count := count, countVisible := visible);
      badges := badges[appId := badge];
      Notify(badge);
    }

    /** `set_progress`: creates a default badge when there is none, then sets
        only the progress fields, and the callbacks are told. */
    method SetProgress(appId: string, progress: real, visible: bool)
      modifies this
      ensures var before := if appId in old(badges) then old(badges)[appId] else DefaultBadge(appId);
        var b := before.(progress := progress, progressVisible := visible);
        badges == old(badges)[appId := b] && delivered == old(delivered) + Deliveries(callbacks, b)
      ensures callbacks == old(callbacks) && running == old(running)
    {
      var badge := if appId in badges then badges[appId] else DefaultBadge(appId);
      badge := badge.(progress := progress, progressVisible := visible);
      badges := badges[appId := badge];
      Notify(badge);
    }

    /** `handle_launcher_entry_update` for a decoded body (or `None` when the
        body does not decode): the whole entry is replaced and the callbacks
        are told. */
    method HandleLauncherEntryUpdate(body: Option<(string, map<string, Variant>)>) returns (ok: bool)
      modifies this
      ensures ok == body.Some?
      ensures body.None? ==> badges == old(badges) && delivered == old(delivered)
      ensures body.Some? ==>
        var id := AppIdFromUri(body.value.0);
        var b := BadgeFromProperties(id, body.value.1);
        badges == old(badges)[id := b] && delivered == old(delivered) + Deliveries(callbacks, b)
      ensures callbacks == old(callbacks) && running == old(running)
    {
      if body.None? {
        return false;
      }
      var (uri, props) := body.value;
      var appId := AppIdFromUri(uri);
      var badge := DefaultBadge(appId);
      if "count" in props && props["count"].Int64? {
        badge := badge.(count := props["count"].i);
      }
      if "count-visible" in props && props["count-visible"].Boolean? {
        badge := badge.(countVisible := props["count-visible"].b);
      }
      if "progress" in props && props["progress"].Double? {
        badge := badge.(progress := props["progress"].d);
      }
      if "progress-visible" in props && props["progress-visible"].Boolean? {
        badge := badge.(progressVisible := props["progress-visible"].b);
      }
      if "urgent" in props && props["urgent"].Boolean? {
        badge := badge.(urgent := props["urgent"].b);
      }
      badges := badges[appId := badge];
      Notify(badge);
      return true;
    }

    /** `start`: a no-op while running; otherwise sets the flag (the
        listeners it launches are outside the model). */
    method Start()
      modifies this
      ensures running && badges == old(badges) && callbacks == old(callbacks) && delivered == old(delivered)
    {
      if running {
        return;
      }
      running := true;
    }

    method Stop()
      modifies this
      ensures !running && badges == old(badges) && callbacks == old(callbacks) && delivered == old(delivered)
    {
      running := false;
    }

    function IsRunning(): (r: bool)
      reads this
      ensures r == running
    {
      running
    }
  }
}

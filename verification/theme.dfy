/** The theme service (`ThemeService`): the dark/light colours, the accent
    colour read from KDE's `kdeglobals` (`AccentColor=r,g,b`) or from GNOME's
    accent name, the periodic re-read of `kdeglobals`, and the callbacks told
    of each change. Reading files, running `gsettings` and the GTK settings
    object are outside the model: their outcomes are parameters. Colour
    channels are `f64` values in 0..1, carried as exact reals; every value
    compared for equality is a byte over 255 or a literal, for which `f64`
    equality and real equality agree. */
module Theme {
  import opened Wrappers
  import opened Text

  datatype ThemeMode = Light | Dark | System

  datatype Rgb = Rgb(r: real, g: real, b: real)

  datatype ThemeColors = ThemeColors(accent: Rgb, background: Rgb, foreground: Rgb, isDark: bool)

  /** `ThemeColors::default()`. */
  const DefaultColors: ThemeColors :=
    ThemeColors(Rgb(0.4, 0.6, 1.0), Rgb(0.1, 0.1, 0.15), Rgb(1.0, 1.0, 1.0), true)

  /** The background and foreground for a dark or a light theme. */
  function WithDarkness(c: ThemeColors, isDark: bool): (r: ThemeColors)
    ensures r.isDark == isDark && r.accent == c.accent
  {
    if isDark then c.(isDark := true, background := Rgb(0.1, 0.1, 0.15), foreground := Rgb(1.0, 1.0, 1.0))
    else c.(isDark := false, background := Rgb(0.95, 0.95, 0.95), foreground := Rgb(0.1, 0.1, 0.1))
  }

  // ------------------------------------------------------------ KDE

  /** A colour as the three bytes of `AccentColor=`. */
  datatype Bytes = Bytes(r: nat, g: nat, b: nat)

  /** Each byte over 255. */
  function AccentOf(t: Bytes): Rgb {
    Rgb(t.r as real / 255.0, t.g as real / 255.0, t.b as real / 255.0)
  }

  lemma AccentOfInjective(a: Bytes, b: Bytes)
    requires AccentOf(a) == AccentOf(b)
    ensures a == b
  {
  }

  const AccentKey: string := "AccentColor="

  /** `parse::<u8>` of a trimmed part. */
  function ParseByte(part: string): (r: Option<nat>)
    ensures r.Some? ==> r.value < 256
  {
    ParseU8Radix(Trim(part), 10)
  }

  /** The first three parts as bytes; `None` if any of them does not parse. */
  function ParseTriple(parts: seq<string>): (r: Option<Bytes>)
    requires |parts| >= 3
    ensures r.Some? <==> ParseByte(parts[0]).Some? && ParseByte(parts[1]).Some? && ParseByte(parts[2]).Some?
    ensures r.Some? ==> r.value == Bytes(ParseByte(parts[0]).value, ParseByte(parts[1]).value, ParseByte(parts[2]).value)
  {
    match (ParseByte(parts[0]), ParseByte(parts[1]), ParseByte(parts[2]))
    case (Some(r), Some(g), Some(b)) => Some(Bytes(r, g, b))
    case _ => None
  }

  /** What one line of `kdeglobals` says about the accent: nothing, unless it
      starts with "AccentColor=" and its value has at least three
      ','-separated parts; then the colour, or `None` if a part is bad. */
  datatype Verdict = Skip | Decide(color: Option<Bytes>)

  function LineVerdict(line: string): (v: Verdict)
    ensures !StartsWith(line, AccentKey) ==> v == Skip
  {
    if !StartsWith(line, AccentKey) then Skip
    else
      var parts := Split(line[|AccentKey|..], ',');
      if |parts| < 3 then Skip else Decide(ParseTriple(parts))
  }

  /** `get_kde_accent_color` on the lines of the file: the first deciding
      line decides, even when it is bad and a later line is good. */
  function KdeAccent(lines: seq<string>): Option<Bytes> {
    if lines == [] then None
    else match LineVerdict(lines[0])
      case Skip => KdeAccent(lines[1..])
      case Decide(c) => c
  }

  lemma {:induction false} KdeAccentNone(lines: seq<string>)
    requires forall i :: 0 <= i < |lines| ==> LineVerdict(lines[i]) == Skip
    ensures KdeAccent(lines).None?
  {
    if lines != [] {
      assert LineVerdict(lines[0]) == Skip;
      assert forall j :: 0 <= j < |lines[1..]| ==> lines[1..][j] == lines[j + 1];
      KdeAccentNone(lines[1..]);
    }
  }

  lemma {:induction false} KdeAccentAt(lines: seq<string>, i: nat)
    requires i < |lines| && LineVerdict(lines[i]).Decide?
    requires forall j :: 0 <= j < i ==> LineVerdict(lines[j]) == Skip
    ensures KdeAccent(lines) == LineVerdict(lines[i]).color
  {
    if i > 0 {
      KdeAccentSkipsFirst(lines);
      SkipsShift(lines, i);
      KdeAccentAt(lines[1..], i - 1);
    }
  }

  lemma KdeAccentSkipsFirst(lines: seq<string>)
    requires lines != [] && LineVerdict(lines[0]) == Skip
    ensures KdeAccent(lines) == KdeAccent(lines[1..])
  {
  }

  lemma SkipsShift(lines: seq<string>, i: nat)
    requires 0 < i < |lines|
    requires forall j :: 0 <= j < i ==> LineVerdict(lines[j]) == Skip
    ensures lines[1..][i - 1] == lines[i]
    ensures forall j :: 0 <= j < i - 1 ==> LineVerdict(lines[1..][j]) == Skip
  {
    forall j | 0 <= j < i - 1 ensures LineVerdict(lines[1..][j]) == Skip {
      assert lines[1..][j] == lines[j + 1];
    }
  }

  /** The result is that of the first deciding line; without one it is `None`. */
  lemma KdeAccentFirstDecides(lines: seq<string>)
    ensures (forall i :: 0 <= i < |lines| ==> LineVerdict(lines[i]) == Skip) ==> KdeAccent(lines).None?
    ensures forall i :: 0 <= i < |lines| && LineVerdict(lines[i]).Decide?
                        && (forall j :: 0 <= j < i ==> LineVerdict(lines[j]) == Skip)
                        ==> KdeAccent(lines) == LineVerdict(lines[i]).color
  {
    if forall i :: 0 <= i < |lines| ==> LineVerdict(lines[i]) == Skip {
      KdeAccentNone(lines);
    }
    forall i | 0 <= i < |lines| && LineVerdict(lines[i]).Decide?
               && (forall j :: 0 <= j < i ==> LineVerdict(lines[j]) == Skip)
      ensures KdeAccent(lines) == LineVerdict(lines[i]).color
    {
      KdeAccentAt(lines, i);
    }
  }

  /** `get_kde_accent_color`, given the file's text (`None` when there is no
      configuration directory or the file cannot be read). */
  method KdeAccentColor(content: Option<string>) returns (accent: Option<Rgb>)
    ensures content.None? ==> accent.None?
    ensures content.Some? ==>
      accent == match KdeAccent(Lines(content.value)) case None => None case Some(t) => Some(AccentOf(t))
  {
    if content.None? {
      return None;
    }
    var lines := Lines(content.value);
    for i := 0 to |lines|
      invariant KdeAccent(lines) == KdeAccent(lines[i..])
    {
      assert lines[i..][1..] == lines[i + 1..];
      var line := lines[i];
      if StartsWith(line, AccentKey) {
        var parts := Split(line[|AccentKey|..], ',');
        if |parts| >= 3 {
          var r := ParseByte(parts[0]);
          if r.None? { return None; }
          var g := ParseByte(parts[1]);
          if g.None? { return None; }
          var b := ParseByte(parts[2]);
          if b.None? { return None; }
          return Some(AccentOf(Bytes(r.value, g.value, b.value)));
        }
      }
    }
    return None;
  }

  /** A bad first accent line hides a good later one from the getter. */
  lemma BadFirstLineDecides(bad: string, good: string)
    requires LineVerdict(bad) == Decide(None) && LineVerdict(good).Decide?
    ensures KdeAccent([bad, good]) == None
  {
  }

  /** The colour a line gives the watcher: only a deciding, good line counts. */
  function ValidAccent(line: string): (r: Option<Bytes>)
    ensures r.Some? <==> LineVerdict(line).Decide? && LineVerdict(line).color.Some?
    ensures r.Some? ==> r == LineVerdict(line).color
  {
    match LineVerdict(line)
    case Decide(Some(t)) => Some(t)
    case _ => None
  }

  // ------------------------------------------------------------ GNOME

  /** The nine GNOME accent names and their colours. */
  function GnomeAccentByName(name: string): Option<Rgb> {
    match name
    case "blue" => Some(Rgb(0.2, 0.5, 0.9))
    case "teal" => Some(Rgb(0.2, 0.7, 0.7))
    case "green" => Some(Rgb(0.3, 0.7, 0.3))
    case "yellow" => Some(Rgb(0.9, 0.8, 0.2))
    case "orange" => Some(Rgb(0.9, 0.5, 0.2))
    case "red" => Some(Rgb(0.9, 0.3, 0.3))
    case "pink" => Some(Rgb(0.9, 0.4, 0.6))
    case "purple" => Some(Rgb(0.6, 0.4, 0.9))
    case "slate" => Some(Rgb(0.5, 0.5, 0.6))
    case _ => None
  }

  /** `get_gnome_accent_color`, given what `gsettings` printed (`None` when
      it could not be run or failed): whitespace, then single quotes, are
      trimmed from both ends before the name is looked up. */
  function GnomeAccent(reply: Option<string>): (r: Option<Rgb>)
    ensures reply.None? ==> r.None?
    ensures reply.Some? ==> r == GnomeAccentByName(TrimMatches(Trim(reply.value), '\''))
  {
    match reply
    case None => None
    case Some(out) => GnomeAccentByName(TrimMatches(Trim(out), '\''))
  }

  /** Exactly the nine listed names give a colour. */
  lemma GnomeNames(name: string)
    ensures GnomeAccentByName(name).Some? <==>
      name in {"blue", "teal", "green", "yellow", "orange", "red", "pink", "purple", "slate"}
  {
  }

  /** The quoted reply `gsettings` prints is understood. */
  lemma GnomeQuotedReply()
    ensures GnomeAccent(Some("'purple'\n")) == Some(Rgb(0.6, 0.4, 0.9))
  {
    TrimQuotedPurple();
    UnquotePurple();
  }

  lemma TrimQuotedPurple()
    ensures Trim("'purple'\n") == "'purple'"
  {
    var out := "'purple'\n";
    assert TrimStart(out) == out;
    assert out[..|out| - 1] == "'purple'";
  }

  lemma UnquotePurple()
    ensures TrimMatches("'purple'", '\'') == "purple"
  {
    var t := "'purple'";
    assert t[1..] == "purple'";
    assert "purple'"[..|"purple'"| - 1] == "purple";
    assert TrimMatches(t, '\'') == TrimMatches("purple'", '\'');
    assert TrimMatches("purple'", '\'') == TrimMatches("purple", '\'');
  }

  /** `detect_accent_color`: KDE's accent, else GNOME's, else unchanged. */
  function DetectAccent(current: Rgb, kde: Option<Rgb>, gnome: Option<Rgb>): (r: Rgb)
    ensures kde.Some? ==> r == kde.value
    ensures kde.None? && gnome.Some? ==> r == gnome.value
    ensures kde.None? && gnome.None? ==> r == current
  {
    if kde.Some? then kde.value else if gnome.Some? then gnome.value else current
  }

  // ------------------------------------------------------------ the watcher

  /** The colour each line gives the watcher. */
  function Goods(lines: seq<string>): (r: seq<Option<Bytes>>)
    ensures |r| == |lines| && forall i :: 0 <= i < |lines| ==> r[i] == ValidAccent(lines[i])
  {
    seq(|lines|, i requires 0 <= i < |lines| => ValidAccent(lines[i]))
  }

  /** The watcher's step for one line: a good line replaces the stored
      accent. */
  function WatchStep(c: ThemeColors, good: Option<Bytes>): ThemeColors {
    match good
    case None => c
    case Some(t) => c.(accent := AccentOf(t))
  }

  /** The notification that step sends: only when the accent changed. */
  function StepNotes(c: ThemeColors, good: Option<Bytes>): seq<ThemeColors> {
    match good
    case None => []
    case Some(t) => if AccentOf(t) != c.accent then [c.(accent := AccentOf(t))] else []
  }

  /** The colours after the watcher has read lines giving `goods`. */
  function Watched(colors: ThemeColors, goods: seq<Option<Bytes>>): ThemeColors {
    if goods == [] then colors
    else WatchStep(Watched(colors, goods[..|goods| - 1]), goods[|goods| - 1])
  }

  /** The colours each notification of that read carries, in order. */
  function Notifications(colors: ThemeColors, goods: seq<Option<Bytes>>): seq<ThemeColors> {
    if goods == [] then []
    else
      var n := |goods| - 1;
      Notifications(colors, goods[..n]) + StepNotes(Watched(colors, goods[..n]), goods[n])
  }

  lemma WatchedExtend(colors: ThemeColors, goods: seq<Option<Bytes>>, i: nat)
    requires i < |goods|
    ensures Watched(colors, goods[..i + 1]) == WatchStep(Watched(colors, goods[..i]), goods[i])
    ensures Notifications(colors, goods[..i + 1]) == Notifications(colors, goods[..i]) + StepNotes(Watched(colors, goods[..i]), goods[i])
  {
    assert goods[..i + 1][..i] == goods[..i];
  }

  /** The watcher changes nothing but the accent, and without a good line
      not even that. */
  lemma {:induction false} WatchedOnlyAccent(colors: ThemeColors, goods: seq<Option<Bytes>>)
    ensures Watched(colors, goods) == colors.(accent := Watched(colors, goods).accent)
    ensures (forall i :: 0 <= i < |goods| ==> goods[i].None?) ==> Watched(colors, goods) == colors
  {
    if goods != [] {
      var n := |goods| - 1;
      WatchedOnlyAccent(colors, goods[..n]);
      assert forall i :: 0 <= i < n ==> goods[..n][i] == goods[i];
    }
  }

  /** The watcher ends with the accent of the last good line. */
  lemma {:induction false} WatchedIsLastGood(colors: ThemeColors, goods: seq<Option<Bytes>>, i: nat)
    requires i < |goods| && goods[i].Some?
    requires forall j :: i < j < |goods| ==> goods[j].None?
    ensures Watched(colors, goods).accent == AccentOf(goods[i].value)
  {
    var n := |goods| - 1;
    if i < n {
      assert goods[..n][i] == goods[i];
      assert forall j :: i < j < n ==> goods[..n][j] == goods[j];
      WatchedIsLastGood(colors, goods[..n], i);
    }
  }

  /** When every good line already carries the stored accent, a read
      notifies nobody and changes nothing. */
  lemma {:induction false} SteadyFileIsSilent(colors: ThemeColors, goods: seq<Option<Bytes>>)
    requires forall i :: 0 <= i < |goods| && goods[i].Some? ==> AccentOf(goods[i].value) == colors.accent
    ensures Watched(colors, goods) == colors
    ensures Notifications(colors, goods) == []
  {
    if goods != [] {
      var n := |goods| - 1;
      assert forall i :: 0 <= i < n ==> goods[..n][i] == goods[i];
      SteadyFileIsSilent(colors, goods[..n]);
    }
  }

  /** A file whose good lines all name one colour settles after one read:
      a second read of it is silent. */
  lemma SecondReadIsSilent(colors: ThemeColors, goods: seq<Option<Bytes>>, t: Bytes)
    requires exists i :: 0 <= i < |goods| && goods[i].Some?
    requires forall i :: 0 <= i < |goods| && goods[i].Some? ==> goods[i].value == t
    ensures Watched(colors, goods).accent == AccentOf(t)
    ensures Notifications(Watched(colors, goods), goods) == []
  {
    var k :| 0 <= k < |goods| && goods[k].Some?;
    var i := LastGood(goods, k);
    WatchedIsLastGood(colors, goods, i);
    SteadyFileIsSilent(Watched(colors, goods), goods);
  }

  /** The index of the last good line, at or after `k`. */
  lemma LastGood(goods: seq<Option<Bytes>>, k: nat) returns (i: nat)
    requires k < |goods| && goods[k].Some?
    ensures k <= i < |goods| && goods[i].Some?
    ensures forall j :: i < j < |goods| ==> goods[j].None?
    decreases |goods| - k
  {
    if forall j :: k < j < |goods| ==> goods[j].None? {
      return k;
    }
    var k' :| k < k' < |goods| && goods[k'].Some?;
    i := LastGood(goods, k');
  }

  /** Every call made to the callbacks for one notification. */
  function Deliveries(callbacks: seq<nat>, colors: ThemeColors): seq<(nat, ThemeColors)> {
    if callbacks == [] then [] else Deliveries(callbacks[..|callbacks| - 1], colors) + [(callbacks[|callbacks| - 1], colors)]
  }

  /** One call per callback, in registration order, each with the colours. */
  lemma {:induction false} DeliveriesInOrder(callbacks: seq<nat>, colors: ThemeColors)
    ensures |Deliveries(callbacks, colors)| == |callbacks|
    ensures forall i :: 0 <= i < |callbacks| ==> Deliveries(callbacks, colors)[i] == (callbacks[i], colors)
  {
    if callbacks != [] {
      var n := |callbacks| - 1;
      DeliveriesInOrder(callbacks[..n], colors);
    }
  }

  /** The calls made for a sequence of notifications. */
  function DeliveriesAll(callbacks: seq<nat>, notes: seq<ThemeColors>): seq<(nat, ThemeColors)> {
    if notes == [] then [] else DeliveriesAll(callbacks, notes[..|notes| - 1]) + Deliveries(callbacks, notes[|notes| - 1])
  }

  lemma {:induction false} DeliveriesAllAppend(callbacks: seq<nat>, notes: seq<ThemeColors>, extra: seq<ThemeColors>)
    ensures DeliveriesAll(callbacks, notes + extra) == DeliveriesAll(callbacks, notes) + DeliveriesAll(callbacks, extra)
  {
    if extra == [] {
      assert notes + extra == notes;
    } else {
      var m := |extra| - 1;
      var a, b, c := DeliveriesAll(callbacks, notes), DeliveriesAll(callbacks, extra[..m]), Deliveries(callbacks, extra[m]);
      assert (notes + extra)[..|notes + extra| - 1] == notes + extra[..m];
      assert (notes + extra)[|notes + extra| - 1] == extra[m];
      calc {
        DeliveriesAll(callbacks, notes + extra);
        DeliveriesAll(callbacks, notes + extra[..m]) + c;
        { DeliveriesAllAppend(callbacks, notes, extra[..m]); }
        (a + b) + c;
        a + (b + c);
        { assert extra[..m + 1] == extra; }
        a + DeliveriesAll(callbacks, extra);
      }
    }
  }

  /** The deliveries of one more batch of notifications follow the earlier ones. */
  lemma DeliveriesNext(callbacks: seq<nat>, before: seq<(nat, ThemeColors)>,
                       prior: seq<ThemeColors>, notes: seq<ThemeColors>)
    ensures (before + DeliveriesAll(callbacks, prior)) + DeliveriesAll(callbacks, notes)
            == before + DeliveriesAll(callbacks, prior + notes)
  {
    DeliveriesAllAppend(callbacks, prior, notes);
  }

  /** One more line read: the colours take one step and the deliveries of
      that step's notifications follow the earlier ones. */
  lemma WatchNextSpec(callbacks: seq<nat>, start: ThemeColors, before: seq<(nat, ThemeColors)>,
                      goods: seq<Option<Bytes>>, i: nat, c: ThemeColors, d: seq<(nat, ThemeColors)>)
    requires i < |goods|
    requires c == Watched(start, goods[..i])
    requires d == before + DeliveriesAll(callbacks, Notifications(start, goods[..i]))
    ensures WatchStep(c, goods[i]) == Watched(start, goods[..i + 1])
    ensures d + DeliveriesAll(callbacks, StepNotes(c, goods[i]))
            == before + DeliveriesAll(callbacks, Notifications(start, goods[..i + 1]))
  {
    WatchedExtend(start, goods, i);
    DeliveriesNext(callbacks, before, Notifications(start, goods[..i]), StepNotes(c, goods[i]));
  }

  // ------------------------------------------------------------ the service

  class ThemeService {
    var mode: ThemeMode
    var colors: ThemeColors
    /** The registered callbacks, by identity, in registration order. */
    var callbacks: seq<nat>
    /** Every call made to a callback so far, in order. */
    var delivered: seq<(nat, ThemeColors)>

    /** `new` with `detect_initial_theme`: given GTK's dark preference
        (`None` without GTK settings), the text of `kdeglobals` and the reply
        of `gsettings`. */
    constructor (prefersDark: Option<bool>, kdeglobals: Option<string>, gsettingsReply: Option<string>)
      ensures mode == System && callbacks == [] && delivered == []
      ensures prefersDark.None? ==> colors == DefaultColors
      ensures prefersDark.Some? ==>
        var kde := match kdeglobals
          case None => None
          case Some(text) => match KdeAccent(Lines(text)) case None => None case Some(t) => Some(AccentOf(t));
        colors == WithDarkness(DefaultColors, prefersDark.value).(accent := DetectAccent(DefaultColors.accent, kde, GnomeAccent(gsettingsReply)))
    {
      mode := System;
      colors := DefaultColors;
      callbacks := [];
      delivered := [];
      if prefersDark.Some? {
        var c := WithDarkness(DefaultColors, prefersDark.value);
        var kde := KdeAccentColor(kdeglobals);
        colors := c.(accent := DetectAccent(c.accent, kde, GnomeAccent(gsettingsReply)));
      }
    }

    method OnThemeChange(callback: nat)
      modifies this
      ensures callbacks == old(callbacks) + [callback]
      ensures mode == old(mode) && colors == old(colors) && delivered == old(delivered)
    {
      callbacks := callbacks + [callback];
    }

    method Notify(c: ThemeColors)
      modifies this
      ensures delivered == old(delivered) + Deliveries(callbacks, c)
      ensures mode == old(mode) && colors == old(colors) && callbacks == old(callbacks)
    {
      for i := 0 to |callbacks|
        invariant mode == old(mode) && colors == old(colors) && callbacks == old(callbacks)
        invariant delivered == old(delivered) + Deliveries(callbacks[..i], c)
      {
        assert callbacks[..i + 1][..i] == callbacks[..i];
        delivered := delivered + [(callbacks[i], c)];
      }
      assert callbacks[..|callbacks|] == callbacks;
    }

    /** The dark-preference handler: new background and foreground, then
        every callback, even when nothing changed. */
    method DarkPreferenceChanged(isDark: bool)
      modifies this
      ensures colors == WithDarkness(old(colors), isDark)
      ensures delivered == old(delivered) + Deliveries(callbacks, colors)
      ensures mode == old(mode) && callbacks == old(callbacks)
    {
      colors := WithDarkness(colors, isDark);
      Notify(colors);
    }

    /** One tick of `watch_kde_config`, given the text of `kdeglobals`
        (`None` when it cannot be read): every good `AccentColor=` line that
        differs from the stored accent is stored and announced. */
    method WatchTick(content: Option<string>)
      modifies this
      ensures content.None? ==> colors == old(colors) && delivered == old(delivered)
      ensures content.Some? ==>
        colors == Watched(old(colors), Goods(Lines(content.value)))
        && delivered == old(delivered) + DeliveriesAll(callbacks, Notifications(old(colors), Goods(Lines(content.value))))
      ensures mode == old(mode) && callbacks == old(callbacks)
    {
      if content.None? {
        return;
      }
      WatchLines(Lines(content.value));
    }

    /** The watcher's pass over the lines of the file. */
    method WatchLines(lines: seq<string>)
      modifies this
      ensures colors == Watched(old(colors), Goods(lines))
      ensures delivered == old(delivered) + DeliveriesAll(callbacks, Notifications(old(colors), Goods(lines)))
      ensures mode == old(mode) && callbacks == old(callbacks)
    {
      var goods := Goods(lines);
      ghost var start := colors;
      ghost var before := delivered;
      for i := 0 to |lines|
        invariant colors == Watched(start, goods[..i])
        invariant delivered == before + DeliveriesAll(callbacks, Notifications(start, goods[..i]))
        invariant mode == old(mode) && callbacks == old(callbacks)
      {
        WatchNext(start, before, goods, i);
      }
      assert goods[..|lines|] == goods;
    }

    /** The loop body of `WatchLines`: one more line read. */
    method WatchNext(ghost start: ThemeColors, ghost before: seq<(nat, ThemeColors)>, goods: seq<Option<Bytes>>, i: nat)
      requires i < |goods|
      requires colors == Watched(start, goods[..i])
      requires delivered == before + DeliveriesAll(callbacks, Notifications(start, goods[..i]))
      modifies this
      ensures colors == Watched(start, goods[..i + 1])
      ensures delivered == before + DeliveriesAll(callbacks, Notifications(start, goods[..i + 1]))
      ensures mode == old(mode) && callbacks == old(callbacks)
    {
      WatchNextSpec(callbacks, start, before, goods, i, colors, delivered);
      WatchLine(goods[i]);
    }

    /** The watcher's work for one line. */
    method WatchLine(good: Option<Bytes>)
      modifies this
      ensures colors == WatchStep(old(colors), good)
      ensures delivered == old(delivered) + DeliveriesAll(callbacks, StepNotes(old(colors), good))
      ensures mode == old(mode) && callbacks == old(callbacks)
    {
      match good
      case None =>
      case Some(t) =>
        var newAccent := AccentOf(t);
        if colors.accent != newAccent {
          colors := colors.(accent := newAccent);
          Notify(colors);
          assert [colors][..0] == [];
        }
    }

    function GetColors(): ThemeColors
      reads this
    {
      colors
    }

    predicate IsDarkMode()
      reads this
    {
      colors.isDark
    }
  }
}

/** Dropping `.desktop` files on the dock: the percent-decoder applied to
    dropped paths, the walk over a `text/uri-list` that pins the first
    readable desktop file, and the drop-position rule. The files a drop may
    name are given as a map from path to content; a path that is not in the
    map cannot be read. */
module DragDrop {
  import opened Wrappers
  import opened Text
  import DesktopEntry
  import DockSettings

  // ------------------------------------------------------------ percent-decoding

  /** What one '%' contributes, given the (at most two) characters taken
      after it: the character with that byte value when they parse as a
      hexadecimal `u8`, otherwise '%' and the characters themselves. */
  function Escape(hex: string): (r: string)
    ensures 1 <= |r| <= 1 + |hex|
  {
    match ParseU8Radix(hex, 16)
    case Some(b) => [b as char]
    case None => "%" + hex
  }

  /** How many characters a '%' at the front of `s` consumes after itself. */
  function Taken(s: string): (n: nat)
    requires s != []
    ensures n <= 2 && 1 + n <= |s|
  {
    if |s| - 1 < 2 then |s| - 1 else 2
  }

  /** `urlencoding_decode`. */
  function Decode(s: string): (r: string)
    ensures |r| <= |s|
    decreases |s|
  {
    if s == [] then []
    else if s[0] == '%' then
      var n := Taken(s);
      Escape(s[1..1 + n]) + Decode(s[1 + n..])
    else if s[0] == '+' then " " + Decode(s[1..])
    else [s[0]] + Decode(s[1..])
  }

  /** One decoding step at position `i`. */
  lemma DecodeAt(s: string, i: nat)
    requires i < |s|
    ensures s[i] == '%' ==>
      Decode(s[i..]) == Escape(s[i + 1..i + 1 + Taken(s[i..])]) + Decode(s[i + 1 + Taken(s[i..])..])
    ensures s[i] != '%' ==>
      Decode(s[i..]) == (if s[i] == '+' then " " else [s[i]]) + Decode(s[i + 1..])
  {
    if s[i] == '%' {
      DecodeAtEscape(s, i);
    } else {
      DecodeAtPlain(s, i);
    }
  }

  lemma DecodeAtEscape(s: string, i: nat)
    requires i < |s| && s[i] == '%'
    ensures Decode(s[i..]) == Escape(s[i + 1..i + 1 + Taken(s[i..])]) + Decode(s[i + 1 + Taken(s[i..])..])
  {
    var rest := s[i..];
    var n := Taken(rest);
    assert rest[1..1 + n] == s[i + 1..i + 1 + n];
    assert rest[1 + n..] == s[i + 1 + n..];
  }

  lemma DecodeAtPlain(s: string, i: nat)
    requires i < |s| && s[i] != '%'
    ensures Decode(s[i..]) == (if s[i] == '+' then " " else [s[i]]) + Decode(s[i + 1..])
  {
    assert s[i..][1..] == s[i + 1..];
  }

  lemma Reassociate(done: string, out: string, pending: string, rest: string)
    requires pending == out + rest
    ensures done + pending == (done + out) + rest
  {
  }

  /** The decoding loop: one step per character taken from the input. */
  method UrlDecode(s: string) returns (r: string)
    ensures r == Decode(s)
  {
    r := [];
    var i := 0;
    assert s[0..] == s;
    while i < |s|
      invariant 0 <= i <= |s|
      invariant r + Decode(s[i..]) == Decode(s)
      decreases |s| - i
    {
      DecodeAt(s, i);
      var out: string;
      var n: nat;
      if s[i] == '%' {
        n := 1 + Taken(s[i..]);
        out := Escape(s[i + 1..i + n]);
      } else if s[i] == '+' {
        n := 1;
        out := " ";
      } else {
        n := 1;
        out := [s[i]];
      }
      Reassociate(r, out, Decode(s[i..]), Decode(s[i + n..]));
      r := r + out;
      i := i + n;
    }
  }

  /** Text with neither '%' nor '+' is left as it is. */
  lemma {:induction false} DecodePlain(s: string)
    requires '%' !in s && '+' !in s
    ensures Decode(s) == s
  {
    if s != [] {
      DecodePlain(s[1..]);
    }
  }

  /** Every '+' becomes a space. */
  lemma DecodePlus(rest: string)
    ensures Decode("+" + rest) == " " + Decode(rest)
  {
    assert ("+" + rest)[1..] == rest;
  }

  /** Two hexadecimal digits after '%' become the character with that byte value. */
  lemma DecodeTwoDigits(h1: char, h2: char, rest: string)
    requires HexDigit(h1).Some? && HexDigit(h2).Some?
    ensures Decode(['%', h1, h2] + rest) == [(HexDigit(h1).value * 16 + HexDigit(h2).value) as char] + Decode(rest)
  {
    var s := ['%', h1, h2] + rest;
    assert s[1..3] == [h1, h2] && s[3..] == rest;
    assert [h1, h2][..1] == [h1];
    assert DigitsValue([h1], 16) == Some(HexDigit(h1).value);
  }

  /** A single hexadecimal digit at the very end is decoded on its own. */
  lemma DecodeLoneDigit(h: char)
    requires HexDigit(h).Some?
    ensures Decode(['%', h]) == [HexDigit(h).value as char]
  {
    var s := ['%', h];
    assert s[1..2] == [h] && s[2..] == [];
    assert [h][..0] == [];
    assert DigitsValue([h], 16) == Some(HexDigit(h).value);
    assert ParseU8Radix([h], 16) == Some(HexDigit(h).value);
  }

  /** When the characters after '%' do not parse, '%' and those characters
      are kept. */
  lemma DecodeBadEscape(hex: string, rest: string)
    requires |hex| == 2 || (|hex| < 2 && rest == [])
    requires ParseU8Radix(hex, 16).None?
    ensures Decode("%" + hex + rest) == "%" + hex + Decode(rest)
  {
    var s := "%" + hex + rest;
    assert s[1..1 + |hex|] == hex && s[1 + |hex|..] == rest;
  }

  /** The upper-case hexadecimal digit of `d`. */
  function HexChar(d: nat): (c: char)
    requires d < 16
    ensures HexDigit(c) == Some(d)
  {
    if d < 10 then ('0' as int + d) as char else ('A' as int + d - 10) as char
  }

  /** Percent-encoding of every character (section 2.1 of RFC 3986), for text
      whose characters all fit in one byte. */
  function Encode(s: string): (r: string)
    requires forall i :: 0 <= i < |s| ==> s[i] as int < 256
    ensures |r| == 3 * |s|
  {
    if s == [] then []
    else ['%', HexChar(s[0] as int / 16), HexChar(s[0] as int % 16)] + Encode(s[1..])
  }

  /** Decoding undoes percent-encoding of one-byte characters. */
  lemma {:induction false} DecodeEncode(s: string)
    requires forall i :: 0 <= i < |s| ==> s[i] as int < 256
    ensures Decode(Encode(s)) == s
  {
    if s != [] {
      var v := s[0] as int;
      DecodeTwoDigits(HexChar(v / 16), HexChar(v % 16), Encode(s[1..]));
      assert (v / 16 * 16 + v % 16) as char == s[0];
      DecodeEncode(s[1..]);
    }
  }

  // ------------------------------------------------------------ the uri list

  /** The path a line of the list names: trimmed; blank and '#' lines name
      none; a leading "file://" is dropped before decoding. */
  function LinePath(line: string): (r: Option<string>)
    ensures r.None? <==> Trim(line) == [] || Trim(line)[0] == '#'
  {
    var uri := Trim(line);
    if uri == [] || uri[0] == '#' then None
    else Some(Decode(match StripPrefix(uri, "file://") case Some(p) => p case None => uri))
  }

  /** `DesktopEntry::parse`: fails only when the file cannot be read. */
  function ReadEntry(files: map<string, string>, path: string): (r: Option<DesktopEntry.Entry>)
    ensures r.Some? <==> path in files
  {
    if path in files then Some(DesktopEntry.EntryOf(path, DesktopEntry.Scan(DesktopEntry.Kinds(Lines(files[path]))).fields))
    else None
  }

  /** The pinned entry built from a dropped desktop file. */
  function AppFor(path: string, e: DesktopEntry.Entry): (app: DockSettings.PinnedApp)
    ensures app.desktopFile == Some(path)
    ensures e.exec.None? ==> app.command == path
  {
    DockSettings.PinnedApp(e.name.GetOr("Unknown"), e.icon.GetOr("application-x-executable"),
                           DesktopEntry.ExecCommand(e).GetOr(path), Some(path))
  }

  /** The app a line pins when it is tried: it must name a `.desktop` path
      that can be read. */
  function LineApp(files: map<string, string>, line: string): Option<DockSettings.PinnedApp> {
    match LinePath(line)
    case None => None
    case Some(path) =>
      if !EndsWith(path, ".desktop") then None
      else match ReadEntry(files, path)
        case None => None
        case Some(e) => Some(AppFor(path, e))
  }

  /** The app of each line of the list. */
  function LineApps(files: map<string, string>, lines: seq<string>): (r: seq<Option<DockSettings.PinnedApp>>)
    ensures |r| == |lines| && forall i :: 0 <= i < |lines| ==> r[i] == LineApp(files, lines[i])
  {
    seq(|lines|, i requires 0 <= i < |lines| => LineApp(files, lines[i]))
  }

  /** The first present value. */
  function FirstSome<T>(opts: seq<Option<T>>): Option<T> {
    if opts == [] then None
    else if opts[0].Some? then opts[0]
    else FirstSome(opts[1..])
  }

  /** `FirstSome` is the earliest present value, and there is none exactly
      when no value is present. */
  lemma {:induction false} FirstSomeIsFirst<T>(opts: seq<Option<T>>)
    ensures FirstSome(opts).None? <==> forall i :: 0 <= i < |opts| ==> opts[i].None?
    ensures FirstSome(opts).Some? ==>
      exists i :: 0 <= i < |opts| && FirstSome(opts) == opts[i]
        && forall j :: 0 <= j < i ==> opts[j].None?
  {
    if opts != [] && opts[0].None? {
      var tail := opts[1..];
      FirstSomeIsFirst(tail);
      assert forall i :: 0 <= i < |tail| ==> tail[i] == opts[i + 1];
      if FirstSome(tail).Some? {
        var i :| 0 <= i < |tail| && FirstSome(tail) == tail[i] && forall j :: 0 <= j < i ==> tail[j].None?;
        assert FirstSome(opts) == opts[i + 1];
        assert forall j :: 0 < j < i + 1 ==> opts[j] == tail[j - 1];
      } else {
        assert forall i :: 0 < i < |opts| ==> opts[i] == tail[i - 1];
      }
    }
  }

  /** The app a dropped list pins: that of its first line that yields one. */
  function DroppedApp(files: map<string, string>, payload: string): Option<DockSettings.PinnedApp> {
    FirstSome(LineApps(files, Lines(payload)))
  }

  /** The body of the drop loop for one line: trim, skip blank and comment
      lines, drop "file://", decode, and read the file when it is a
      `.desktop` path. */
  method TryLine(files: map<string, string>, line: string) returns (app: Option<DockSettings.PinnedApp>)
    ensures app == LineApp(files, line)
  {
    var uri := Trim(line);
    if uri == [] || uri[0] == '#' {
      return None;
    }
    var raw := match StripPrefix(uri, "file://") case Some(p) => p case None => uri;
    var path := UrlDecode(raw);
    if !EndsWith(path, ".desktop") || path !in files {
      return None;
    }
    var entry := DesktopEntry.ParseContent(path, files[path]);
    app := Some(AppFor(path, entry));
  }

  /** The drop handler: for a string payload, pins the app of the first line
      that yields one, hands it to the dock (the callback's argument) and
      accepts the drop; otherwise the drop is refused and nothing changes. */
  method HandleDrop(payload: Option<string>, files: map<string, string>, cell: DockSettings.SettingsCell)
    returns (accepted: bool, pinned: Option<DockSettings.PinnedApp>)
    modifies cell
    ensures var app := if payload.Some? then DroppedApp(files, payload.value) else None;
      accepted == app.Some? && pinned == app
      && (app.Some? ==> cell.value == old(cell.value).(pinnedApps := old(cell.value).pinnedApps + [app.value]))
      && (app.None? ==> cell.value == old(cell.value))
  {
    if payload.None? {
      return false, None;
    }
    var lines := Lines(payload.value);
    ghost var apps := LineApps(files, lines);
    assert apps[0..] == apps;
    for i := 0 to |lines|
      invariant FirstSome(apps) == FirstSome(apps[i..])
      invariant cell.value == old(cell.value)
    {
      assert apps[i..][1..] == apps[i + 1..];
      var app := TryLine(files, lines[i]);
      if app.Some? {
        cell.AddPinnedApp(app.value, true);
        return true, app;
      }
    }
    assert apps[|lines|..] == [];
    return false, None;
  }

  // ------------------------------------------------------------ drop position

  datatype Orientation = Horizontal | Vertical

  /** The children's extents along the dock's axis. */
  function Extents(orientation: Orientation, children: seq<(nat, nat)>): (sizes: seq<nat>)
    ensures |sizes| == |children|
    ensures forall i :: 0 <= i < |children| ==>
      sizes[i] == if orientation == Horizontal then children[i].0 else children[i].1
  {
    if children == [] then []
    else [if orientation == Horizontal then children[0].0 else children[0].1] + Extents(orientation, children[1..])
  }

  /** The extent of the first `i` children. */
  function Offset(sizes: seq<nat>, i: nat): nat
    requires i <= |sizes|
  {
    if i == 0 then 0 else Offset(sizes, i - 1) + sizes[i - 1]
  }

  /** The midpoint of child `i` along the axis. */
  function Midpoint(sizes: seq<nat>, i: nat): real
    requires i < |sizes|
  {
    (Offset(sizes, i) as real) + (sizes[i] as real) / 2.0
  }

  /** `index` is the first child whose midpoint lies beyond `pos`, or the
      number of children when there is none. */
  predicate IsDropIndex(sizes: seq<nat>, pos: real, index: nat) {
    index <= |sizes|
    && (forall j :: 0 <= j < index ==> pos >= Midpoint(sizes, j))
    && (index < |sizes| ==> pos < Midpoint(sizes, index))
  }

  /** `calculate_drop_index`; children are given by their allocated
      (width, height), and the coordinate is exact. */
  method CalculateDropIndex(orientation: Orientation, children: seq<(nat, nat)>, x: real, y: real)
    returns (index: nat)
    ensures IsDropIndex(Extents(orientation, children), if orientation == Horizontal then x else y, index)
  {
    var horizontal := orientation == Horizontal;
    var pos := if horizontal then x else y;
    ghost var sizes := Extents(orientation, children);
    var current := 0;
    index := 0;
    while index < |children|
      invariant index <= |children|
      invariant current == Offset(sizes, index)
      invariant forall j :: 0 <= j < index ==> pos >= Midpoint(sizes, j)
    {
      var size := if horizontal then children[index].0 else children[index].1;
      var center := (current as real) + (size as real) / 2.0;
      assert center == Midpoint(sizes, index);
      if pos < center {
        return;
      }
      current := current + size;
      index := index + 1;
    }
  }

  /** Midpoints do not decrease along the dock. */
  lemma {:induction false} MidpointsIncrease(sizes: seq<nat>, i: nat, j: nat)
    requires i < j < |sizes|
    ensures Midpoint(sizes, i) <= Midpoint(sizes, j)
  {
    if i < j - 1 {
      MidpointsIncrease(sizes, i, j - 1);
    }
  }

  /** There is exactly one drop index for a coordinate, and it never decreases
      as the coordinate moves along the dock. */
  lemma DropIndexMonotone(sizes: seq<nat>, p: real, q: real, a: nat, b: nat)
    requires p <= q && IsDropIndex(sizes, p, a) && IsDropIndex(sizes, q, b)
    ensures a <= b
    ensures p == q ==> a == b
  {
  }

  /** The drop index always exists: it is at most the number of children. */
  lemma {:induction false} DropIndexExists(sizes: seq<nat>, pos: real, from: nat)
    requires from <= |sizes| && forall j :: 0 <= j < from ==> pos >= Midpoint(sizes, j)
    ensures exists index :: from <= index && IsDropIndex(sizes, pos, index)
    decreases |sizes| - from
  {
    if from < |sizes| && pos >= Midpoint(sizes, from) {
      DropIndexExists(sizes, pos, from + 1);
    } else {
      assert IsDropIndex(sizes, pos, from);
    }
  }
}

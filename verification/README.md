# blaze-dock, modelled in Dafny

blaze-dock is a desktop dock for Linux. This project models its core as Dafny modules, one per
source file:

- the **window registry**: it detects the desktop environment, normalises the window lists that
  Hyprland, GNOME Shell and Sway report, frames the Sway IPC request and answers per-application
  window counts;
- the **desktop-entry reader** and the **drop handler**: the handler percent-decodes dropped
  `file://` URIs and pins the first `.desktop` file that parses;
- the **configuration**: the pinned-app list and the profile store;
- the **service registries**:
  - Unity LauncherEntry badges;
  - process names;
  - keyboard shortcuts;
  - window thumbnails with a time-to-live;
  - monitors;
  - the accent colour;
- the **rules the widgets apply**:
  - search ranking;
  - the running-app list;
  - the stack folder listing;
  - the running indicator's dots;
  - the badge's count text and CSS classes.

Each module follows its source file. Code that mutates state becomes a class whose methods state
the whole new state. Code that computes becomes functions and lemmas. Every input the dock gets
from outside is a parameter:

- replies from a compositor, D-Bus or `ps`;
- file contents;
- clock readings;
- the outcome of saving a file.

A reply that fails to decode is an `Option` input.

| file | module |
|---|---|
| `wrappers.dfy` | `Option` and `Result` |
| `text.dfy` | the string functions of Rust's standard library the dock uses, on `seq<char>` |
| `sorting.dfy` | stable insertion sort by a total preorder: sorted, a permutation and stable |
| `window_tracker.dfy` | `WindowTracker` |
| `desktop_entry.dfy` | `DesktopEntry` |
| `drag_drop.dfy` | `DragDrop` |
| `settings.dfy` | `DockSettings` |
| `profiles.dfy` | `Profiles` |
| `dbus.dfy` | `DBus` |
| `running_apps.dfy` | `RunningApps` |
| `process_tracker.dfy` | `ProcessTracker` |
| `keyboard.dfy` | `Keyboard` |
| `search_overlay.dfy` | `SearchOverlay` |
| `stack_item.dfy` | `StackItem` |
| `screencopy.dfy` | `Screencopy` |
| `multimonitor.dfy` | `MultiMonitor` |
| `theme.dfy` | `Theme` |
| `running_indicator.dfy` | `RunningIndicator` |
| `badge.dfy` | `Badge` |

Behaviour of the code that the model keeps:

- A GNOME window without a string app id is recorded under "unknown". It is not dropped.
- A Sway node whose app id is the empty string is still recorded as a window.
- The window-count map keeps the app ids as the compositor reports them. They are not
  lower-cased; only lookups ignore case.

Conventions:

- Rust's `to_lowercase` is modelled on ASCII letters only.
- `char::is_whitespace` is the Unicode White_Space list.
- `HashMap` iteration order is not specified. Loops over a map choose keys in an unspecified
  order, and their contracts hold for every order.

## Model

| member | source | states |
|---|---|---|
| WindowTracker.DetectDesktopEnvironment | src/services/window_tracker.rs:55-83 | a set Hyprland signature (even an empty one) wins, then a set Sway socket; otherwise KDE iff either lower-cased XDG variable mentions "kde" or "plasma", GNOME iff neither does but one mentions "gnome", and Unknown iff no marker is set and neither variable mentions any of the three; Hyprland and Sway only when their marker is set |
| WindowTracker.EmptySignatureSelectsHyprland | src/services/window_tracker.rs:59-64 | an empty HYPRLAND_INSTANCE_SIGNATURE still selects Hyprland, whatever the other variables say |
| WindowTracker.PlasmaSessionIsKde | src/services/window_tracker.rs:70-76 | XDG_CURRENT_DESKTOP=KDE in upper case is detected as KDE |
| WindowTracker.FuzzyMatchIgnoresCase | src/services/window_tracker.rs:553-557 | the fuzzy key test gives the same answer for a query and its lower-case form |
| WindowTracker.FuzzyMatchSymmetric | src/services/window_tracker.rs:555-557 | the two-way substring test is symmetric in key and query |
| WindowTracker.EmptyMatchesEverything | src/services/window_tracker.rs:555-557 | an empty key or query matches everything |
| WindowTracker.Bump | src/services/window_tracker.rs:403 | `entry(a).or_insert(0) += 1` adds key a and changes no other key |
| WindowTracker.BumpMatches | src/services/window_tracker.rs:401-411 | counting one more record keeps the counts equal to the number of records per app id |
| WindowTracker.CountsPositive | src/services/window_tracker.rs:398-411 | counts built from records are never zero |
| WindowTracker.CountOfPositive | src/services/window_tracker.rs:398-411 | an app id is counted iff some record carries it |
| WindowTracker.BumpTotal | src/services/window_tracker.rs:403 | one increment raises the sum of all counts by exactly one |
| WindowTracker.CountsTotal | src/services/window_tracker.rs:398-416 | counts that match the records sum to the number of records |
| WindowTracker.NormaliseHyprland | src/services/window_tracker.rs:398-411 | one record per client, in order (address, title, class, inactive), with matching counts |
| WindowTracker.StringProperty | src/services/window_tracker.rs:286-305 | a property is read only when present and a string |
| WindowTracker.NormaliseGnome | src/services/window_tracker.rs:281-317 | one record per reply entry, in order, with matching counts |
| WindowTracker.GnomeMissingAppId | src/services/window_tracker.rs:286-295 | a window without a string app id is recorded as "unknown" |
| WindowTracker.CollectWindows | src/services/window_tracker.rs:507-528 | the walk appends the subtree's records (node, then `nodes`, then `floating_nodes`) and keeps the counts matching |
| WindowTracker.CollectChildren | src/services/window_tracker.rs:522-527 | the child loops append the children's records in order |
| WindowTracker.NormaliseSway | src/services/window_tracker.rs:530-534 | the records of the whole tree, with matching counts |
| WindowTracker.WindowsArePreOrderRecords | src/services/window_tracker.rs:507-528 | the walk records exactly the "con" nodes with an app id, in pre-order |
| WindowTracker.LeRoundTrip | src/services/window_tracker.rs:466-467 | writing n bytes least-significant first and reading them back gives the value |
| WindowTracker.U32RoundTrip | src/services/window_tracker.rs:466-474 | `from_ne_bytes(to_ne_bytes(v)) == v` on either byte order |
| WindowTracker.GetTreeRequest | src/services/window_tracker.rs:459-468 | the request is 14 bytes: "i3-ipc", payload length 0, type 4 (GET_TREE), as in the "Messages and replies" section of sway-ipc(7) |
| WindowTracker.ReadResponse | src/services/window_tracker.rs:470-478 | a reply is read iff the 14-byte header and the body length it announces are there; the body has that length |
| WindowTracker.ResponseRoundTrip | src/services/window_tracker.rs:470-478 | any header whose bytes 6..9 encode the body length yields exactly the body; magic and type are not checked |
| WindowTracker.Tracker.constructor | src/services/window_tracker.rs:42-52 | empty registry, not running, environment detected |
| WindowTracker.Tracker.Start | src/services/window_tracker.rs:86-92 | sets the flag; a second start changes nothing |
| WindowTracker.Tracker.Stop | src/services/window_tracker.rs:606-610 | clears the flag and keeps windows and counts |
| WindowTracker.Tracker.IsRunning | src/services/window_tracker.rs:601-603 | the flag |
| WindowTracker.Tracker.SetWindowCount | src/services/window_tracker.rs:586-593 | 0 removes the key, n > 0 stores n; no other key changes |
| WindowTracker.Tracker.GetWindowCount | src/services/window_tracker.rs:544-563 | the exact entry; else the count of some key matching the query fuzzily; else 0 |
| WindowTracker.Tracker.GetWindowsForApp | src/services/window_tracker.rs:566-578 | the fuzzily matching windows in list order |
| WindowTracker.Tracker.ApplyHyprland | src/services/window_tracker.rs:385-420 | a decoded reply replaces windows and counts (one record per client, counts matching); a failed decode keeps both |
| WindowTracker.Tracker.ApplyGnome | src/services/window_tracker.rs:269-333 | same rule for the GNOME reply |
| WindowTracker.Tracker.ApplySway | src/services/window_tracker.rs:487-541 | same rule for the Sway tree |
| WindowTracker.MatchingWindowsSpec | src/services/window_tracker.rs:566-578 | the filter result is a subsequence of the windows, holding exactly the matching ones |
| WindowTracker.SetThenGet | src/services/window_tracker.rs:630-643 | after storing n > 0 for an app, its count is n |
| WindowTracker.ClearThenGet | src/services/window_tracker.rs:630-643 | after clearing an app that no other key matches, its count is 0 |
| WindowTracker.CaseInsensitiveLookup | src/services/window_tracker.rs:646-652 | a count stored under "Firefox" is found for "firefox" and "FIREFOX" |
| DesktopEntry.ClassifyKeyValue | src/utils/desktop_entry.rs:62-82 | a key=value line is split at its first '=' and both sides are trimmed |
| DesktopEntry.ScanSection | src/utils/desktop_entry.rs:69-73 | the in-section flag is the verdict of the last header: exactly "[Desktop Entry]" |
| DesktopEntry.StepFields | src/utils/desktop_entry.rs:61-84 | one line stores its key iff it records it; otherwise the key keeps its state |
| DesktopEntry.ScanFields | src/utils/desktop_entry.rs:61-84 | a key is stored iff some line inside `[Desktop Entry]` gives it a value, and it holds the last such value |
| DesktopEntry.ParseFields | src/utils/desktop_entry.rs:58-84 | the parsing loop computes the scan of the trimmed lines |
| DesktopEntry.Categories | src/utils/desktop_entry.rs:86-89 | the non-empty ';'-separated pieces of Categories, in their order and each as often as it occurs, or [] when absent |
| DesktopEntry.NonEmptySpec | src/utils/desktop_entry.rs:86-89 | dropping empty pieces keeps the others in order (a subsequence) with their multiplicities, and only the empty piece loses its count |
| DesktopEntry.Get | src/utils/desktop_entry.rs:93-97 | an optional field is present iff its key was stored |
| DesktopEntry.ParseContent | src/utils/desktop_entry.rs:57-103 | never fails; builds the entry from the stored pairs; Terminal and NoDisplay are set only by "true" |
| DesktopEntry.ExecCommand | src/utils/desktop_entry.rs:115-131 | None iff Exec is absent; otherwise the words of the stripped Exec joined by single spaces; for any cutting of Exec into '%'-free text, field codes and "%%" escapes, the command is the collapsed text with the codes dropped and each "%%" read as "%" |
| DesktopEntry.NoPercentNoFieldCodes | src/utils/desktop_entry.rs:118-126 | without '%' the field-code stripping changes nothing |
| DesktopEntry.StripSegments | src/utils/desktop_entry.rs:118-126 | in an Exec made of '%'-free text, the codes %u %U %f %F %i %c %k and "%%" escapes not followed by a code letter, stripping removes exactly the codes, turns each "%%" into "%" and keeps the rest in order |
| DesktopEntry.ExecDropsFieldCodes | src/utils/desktop_entry.rs:115-131 | for an Exec whose space-separated words are '%'-free or field codes, the command is the words that are not field codes, in order, one space apart |
| DesktopEntry.FirefoxExecCommand | src/utils/desktop_entry.rs:195-212 | `Exec=firefox %u` gives the command `firefox` |
| DesktopEntry.MyappExecCommand | src/utils/desktop_entry.rs:215-225 | `Exec=myapp --url %u --files %F` gives the command `myapp --url --files` |
| DesktopEntry.ExecEscapedPercent | src/utils/desktop_entry.rs:115-131 | a word and an argument ending in "%%" run with the escape read as one '%' |
| DesktopEntry.EscapeBeforeCodeLetter | src/utils/desktop_entry.rs:118-126 | "%%u" strips to "%": the "%u" pass matches the escape's second '%' |
| DesktopEntry.HundredPercentExec | src/utils/desktop_entry.rs:115-131 | `Exec=<word> 100%%` gives the command `<word> 100%` |
| DesktopEntry.VisibleApp | src/utils/desktop_entry.rs:134-139 | visible iff NoDisplay is not "true", Name and Exec are present and Type is exactly "Application" |
| DragDrop.Escape | src/ui/drag_drop.rs:211-217 | a '%' yields one character, or '%' plus the characters taken |
| DragDrop.Decode | src/ui/drag_drop.rs:205-226 | the output is never longer than the input |
| DragDrop.DecodeAt | src/ui/drag_drop.rs:209-222 | one decoding step at each position: escape, '+' or copied character |
| DragDrop.UrlDecode | src/ui/drag_drop.rs:205-226 | the decoding loop computes `Decode` |
| DragDrop.DecodePlain | src/ui/drag_drop.rs:220-221 | text without '%' or '+' is a fixed point |
| DragDrop.DecodePlus | src/ui/drag_drop.rs:218-219 | '+' decodes to a space |
| DragDrop.DecodeTwoDigits | src/ui/drag_drop.rs:211-213 | '%' and two hex digits become the character of that byte value |
| DragDrop.DecodeLoneDigit | src/ui/drag_drop.rs:211-213 | a single trailing hex digit after '%' is decoded on its own |
| DragDrop.DecodeBadEscape | src/ui/drag_drop.rs:214-217 | an escape that does not parse re-emits '%' and the characters taken |
| DragDrop.DecodeEncode | src/ui/drag_drop.rs:205-226 | decoding undoes the percent-encoding of section 2.1 of RFC 3986 for one-byte characters |
| DragDrop.LinePath | src/ui/drag_drop.rs:147-157 | blank and '#' lines are skipped; a leading "file://" is stripped |
| DragDrop.ReadEntry | src/ui/drag_drop.rs:167 | the entry is read iff the file can be read |
| DragDrop.AppFor | src/ui/drag_drop.rs:168-173 | the pinned app records the path and falls back to it as command |
| DragDrop.FirstSomeIsFirst | src/ui/drag_drop.rs:146-189 | the first line that yields an app decides; none iff no line does |
| DragDrop.TryLine | src/ui/drag_drop.rs:147-188 | the loop body computes the app of one line |
| DragDrop.HandleDrop | src/ui/drag_drop.rs:144-192 | pins exactly the app of the first yielding line, reports it, and otherwise changes nothing |
| DragDrop.Extents | src/ui/drag_drop.rs:230-244 | the children's widths (horizontal) or heights (vertical) |
| DragDrop.CalculateDropIndex | src/ui/drag_drop.rs:229-258 | the first child whose midpoint lies beyond the coordinate, else the child count |
| DragDrop.MidpointsIncrease | src/ui/drag_drop.rs:246-253 | midpoints do not decrease along the dock |
| DragDrop.DropIndexMonotone | src/ui/drag_drop.rs:229-258 | the drop index is unique and does not decrease as the coordinate grows |
| DragDrop.DropIndexExists | src/ui/drag_drop.rs:229-258 | a drop index always exists and is at most the child count |
| DockSettings.DefaultPinnedApps | src/config/settings.rs:200-227 | four pinned apps, each with a desktop file |
| DockSettings.DefaultsAreStandard | src/config/settings.rs:120-146 | bottom, 48-pixel icons, 72-pixel bar, profile "default", and Firefox, Files, Terminal, Settings in that order |
| DockSettings.Removed | src/config/settings.rs:240 | `Vec::remove(i)`: the earlier elements stay, the later ones shift down |
| DockSettings.Inserted | src/config/settings.rs:253 | `Vec::insert(i, x)`: x at i, the earlier elements stay, the later ones shift up |
| DockSettings.ReorderedPermutes | src/config/settings.rs:251-254 | reordering keeps length and multiset and puts the moved entry at `to` |
| DockSettings.ReorderedSame | src/config/settings.rs:251-254 | moving an entry to its own place is the identity |
| DockSettings.ReorderedShift | src/config/settings.rs:251-254 | the entries between `from` and `to` shift by one; the others stay |
| DockSettings.SettingsCell.AddPinnedApp | src/config/settings.rs:230-235 | appends at the end; a failed save keeps the change |
| DockSettings.SettingsCell.RemovePinnedApp | src/config/settings.rs:238-248 | in range: returns the entry and removes it; out of range: None and nothing changes |
| DockSettings.SettingsCell.ReorderPinnedApp | src/config/settings.rs:251-259 | both indices in range: moves the entry; otherwise nothing changes |
| Profiles.CopyOf | src/config/profiles.rs:259-266 | the copy has the source's settings and icon, the new name, no last use, and the description suffixed " (copy)" |
| Profiles.PresetsNeverOverwrite | src/config/profiles.rs:280-313 | presets never overwrite a profile and add only work, gaming and presentation |
| Profiles.PresetsIdempotent | src/config/profiles.rs:280-313 | once all three presets exist, creating presets changes nothing |
| Profiles.ProfileManager.constructor | src/config/profiles.rs:41-61 | the loaded profiles plus "default" when missing; current is "default" |
| Profiles.ProfileManager.EnsureDefaultProfile | src/config/profiles.rs:102-119 | adds the default profile only when missing |
| Profiles.ProfileManager.CreateProfile | src/config/profiles.rs:131-154 | fails on an existing name or a failed save; otherwise adds exactly that profile, never used |
| Profiles.ProfileManager.DeleteProfile | src/config/profiles.rs:157-179 | refuses "default" and unknown names; otherwise removes only that key and resets current to "default" if it was current |
| Profiles.ProfileManager.SwitchProfile | src/config/profiles.rs:182-205 | an unknown name errors and changes nothing; otherwise current becomes the name, its last use is stamped and its settings returned |
| Profiles.ProfileManager.CurrentSettings | src/config/profiles.rs:213-217 | the current profile's settings |
| Profiles.ProfileManager.UpdateCurrentSettings | src/config/profiles.rs:220-236 | the settings are replaced before saving, so a save error is returned with the change kept |
| Profiles.ProfileManager.DuplicateProfile | src/config/profiles.rs:251-277 | fails on a missing source, an existing target or a failed save; otherwise adds the copy and leaves the source unchanged |
| Profiles.ProfileManager.CreatePresets | src/config/profiles.rs:280-313 | the store after the three presets, and the invariants kept |
| DBus.AppIdFromUri | src/services/dbus_service.rs:186-190 | "application://X.desktop" gives X; otherwise the whole URI |
| DBus.EmptyUpdateIsDefault | src/services/dbus_service.rs:195-233 | an update without usable properties describes the default badge |
| DBus.Deliveries | src/services/dbus_service.rs:239-242 | each callback is called once, in registration order, with the badge |
| DBus.SetThenGetBadge | src/services/dbus_service.rs:333-345 | a badge just stored under an id is what a lookup of that id returns |
| DBus.CaseInsensitiveBadge | src/services/dbus_service.rs:359-366 | a badge stored under "Firefox" is found for "firefox" and "FIREFOX" |
| DBus.LongerQueryMisses | src/services/dbus_service.rs:90-98 | the match is one-way: a query longer than every key finds nothing |
| DBus.DBusService.constructor | src/services/dbus_service.rs:64-70 | no badges, no callbacks, not running |
| DBus.DBusService.OnBadgeUpdate | src/services/dbus_service.rs:73-78 | appends the callback |
| DBus.DBusService.Notify | src/services/dbus_service.rs:239-242 | hands the badge to every callback in order |
| DBus.DBusService.GetBadge | src/services/dbus_service.rs:81-99 | the exact entry; else some entry whose lower-cased key contains the lower-cased query; else None |
| DBus.DBusService.SetBadge | src/services/dbus_service.rs:271-286 | stores a fresh badge with the count and visibility and notifies with it |
| DBus.DBusService.SetProgress | src/services/dbus_service.rs:289-307 | creates a default badge when absent and changes only progress and its visibility |
| DBus.DBusService.HandleLauncherEntryUpdate | src/services/dbus_service.rs:176-246 | a decoded update replaces the whole entry for the URI's app id and notifies; a failed decode changes nothing |
| DBus.DBusService.Start | src/services/dbus_service.rs:107-122 | sets the flag; a second start changes nothing |
| DBus.DBusService.Stop | src/services/dbus_service.rs:310-314 | clears the flag |
| DBus.DBusService.IsRunning | src/services/dbus_service.rs:317-319 | the flag |
| RunningApps.ProcessName | src/services/running_apps.rs:54-61 | the process name has no '/' |
| RunningApps.ProcessNameOfWord | src/services/running_apps.rs:54-61 | the process name is the last '/'-segment of the first word |
| RunningApps.CacheKey | src/services/running_apps.rs:51-65 | cache keys are non-empty and lower-cased |
| RunningApps.IndexKeys | src/services/running_apps.rs:63-65 | a key is stored iff some entry produces it |
| RunningApps.IndexLast | src/services/running_apps.rs:63-65 | a stored key holds the value of the last entry that produced it |
| RunningApps.CacheOfSpec | src/services/running_apps.rs:42-75 | the cache holds exactly the keys of visible entries with an Exec line, each with its last entry |
| RunningApps.BuildCache | src/services/running_apps.rs:42-75 | the caching loop computes that cache |
| RunningApps.RunningNames | src/services/running_apps.rs:84-88 | the trimmed, lower-cased lines of the `ps` output |
| RunningApps.PinnedNames | src/services/running_apps.rs:93-104 | the lower-cased process names of the pinned commands |
| RunningApps.AppOf | src/services/running_apps.rs:117-123 | the app records its key and desktop file; name, icon and command fall back |
| RunningApps.NameLeTotalPreorder | src/services/running_apps.rs:131 | ordering by name is a total preorder |
| RunningApps.Selected | src/services/running_apps.rs:109-115 | a key is reported iff it is cached, running and not pinned |
| RunningApps.CollectApps | src/services/running_apps.rs:107-128 | one app per selected key, none twice |
| RunningApps.GetRunningApps | src/services/running_apps.rs:78-133 | empty when `ps` cannot run; otherwise exactly the selected apps, sorted by name, none twice |
| ProcessTracker.CommandToProcessName | src/services/process_tracker.rs:14-17 | the first whitespace-separated word, or the whole command when there is none |
| ProcessTracker.ProcessNameLeads | src/services/process_tracker.rs:14-17 | the name is the leading word once leading whitespace is removed |
| ProcessTracker.ArgumentsIgnored | src/services/process_tracker.rs:14-17 | a word followed by whitespace and anything else names that word |
| ProcessTracker.ProcessTracker.constructor | src/services/process_tracker.rs:42-47 | nothing registered, not running |
| ProcessTracker.ProcessTracker.RegisterApp | src/services/process_tracker.rs:50-55 | stores the name as not running, resetting an earlier entry |
| ProcessTracker.ProcessTracker.IsRunning | src/services/process_tracker.rs:58-62 | false for a name never registered |
| ProcessTracker.ProcessTracker.Start | src/services/process_tracker.rs:65-71 | sets the flag; a second start changes nothing |
| ProcessTracker.ProcessTracker.Stop | src/services/process_tracker.rs:113-116 | clears the flag |
| ProcessTracker.ProcessTracker.PollOnce | src/services/process_tracker.rs:89-101 | every registered name takes the probe's answer; no key is added or removed |
| ProcessTracker.SameFirstWordSameAnswer | src/services/process_tracker.rs:58-62 | commands with the same first word cannot be told apart |
| Keyboard.EffectiveState | src/services/keyboard_service.rs:118-123 | only Shift, Control, Alt and Super survive the mask |
| Keyboard.CapsLockIgnored | src/services/keyboard_service.rs:117-123 | Caps Lock never changes a match |
| Keyboard.FirstMatchIsFirst | src/services/keyboard_service.rs:116-139 | the action of the earliest matching binding; none iff no binding matches |
| Keyboard.DefaultShortcuts | src/services/keyboard_service.rs:63-89 | Super+1..9 activate apps 1..9, Super+d toggles the dock, Super+slash shows search, in that order |
| Keyboard.SuperDigitActivates | src/services/keyboard_service.rs:116-136 | Super+3 activates app 3 (the binding of lines 63-89), also with Caps Lock on |
| Keyboard.Retained | src/services/keyboard_service.rs:202-212 | exactly the bindings not of the removed kind remain |
| Keyboard.RetainedKeepsOrder | src/services/keyboard_service.rs:202-212 | the kept bindings are a subsequence of the list, each kept as often as it occurred, and the removed kind occurs no more |
| Keyboard.RetainedNothingToRemove | src/services/keyboard_service.rs:204-211 | with nothing of the kind, the list is kept whole and in order |
| Keyboard.UnknownTagKeepsAll | src/services/keyboard_service.rs:205-210 | a tag other than "activate", "toggle" or "search" removes nothing |
| Keyboard.RetainedIdempotent | src/services/keyboard_service.rs:202-212 | removing a kind twice is removing it once |
| Keyboard.NavigationKey | src/services/keyboard_service.rs:155-178 | Left/h/Up/k move by -1, Right/l/Down/j by +1, Return/space activate (each iff), and every other key is passed on |
| Keyboard.NavigationPairs | src/services/keyboard_service.rs:157-172 | h/Left, l/Right, k/Up, j/Down agree, and opposite keys cancel |
| Keyboard.KeyboardService.constructor | src/services/keyboard_service.rs:51-60 | enabled, no callbacks, the default bindings |
| Keyboard.KeyboardService.OnAction | src/services/keyboard_service.rs:93-99 | registers or replaces the callback under its id |
| Keyboard.KeyboardService.SetEnabled | src/services/keyboard_service.rs:185-188 | sets the flag only |
| Keyboard.KeyboardService.IsEnabled | src/services/keyboard_service.rs:191-193 | the flag |
| Keyboard.KeyboardService.AddShortcut | src/services/keyboard_service.rs:196-199 | appends, so earlier bindings keep precedence |
| Keyboard.KeyboardService.RemoveShortcutsByAction | src/services/keyboard_service.rs:202-212 | the bindings of the kind are removed and the rest keep their order |
| Keyboard.KeyboardService.Fire | src/services/keyboard_service.rs:128-133 | every registered callback is called once with the action |
| Keyboard.KeyboardService.KeyPressed | src/services/keyboard_service.rs:109-140 | disabled: fires nothing and propagates; else the first matching binding's action goes to every registered callback exactly once and propagation stops; no match propagates |
| SearchOverlay.Filtered | src/ui/search_overlay.rs:109-113 | exactly the apps whose lower-cased name contains the lower-cased query |
| SearchOverlay.RankOrderTotalPreorder | src/ui/search_overlay.rs:116-120 | "prefix matches first, then by name" is a total preorder |
| SearchOverlay.Shown | src/ui/search_overlay.rs:101-127 | empty query shows nothing; otherwise min(8, number of matches) rows, each a matching app, in rank order |
| SearchOverlay.ShownIsCut | src/ui/search_overlay.rs:109-126 | the rows are the ranked matches, cut to the first 8 |
| SearchOverlay.UnshownRanksLower | src/ui/search_overlay.rs:116-126 | a matching app that is not shown ranks no higher than any shown row |
| SearchOverlay.AllFewMatchesShown | src/ui/search_overlay.rs:109-126 | with at most 8 matches every match is shown |
| SearchOverlay.PrefixMatchesFirst | src/ui/search_overlay.rs:116-120 | a row whose name starts with the query comes before one that does not |
| SearchOverlay.Activated | src/ui/search_overlay.rs:144-148 | activating row i selects the i-th shown row, none past the end |
| SearchOverlay.ActivatedIsShownMatch | src/ui/search_overlay.rs:134-148 | the selected result is a matching app |
| SearchOverlay.ActivationMismatch | src/ui/search_overlay.rs:134-148 | as written, row 0 can select an app other than the one shown in row 0 |
| SearchOverlay.SearchOverlay.constructor | src/ui/search_overlay.rs:35-82 | hidden, empty query, no apps, no rows, no callback |
| SearchOverlay.SearchOverlay.SetApps | src/ui/search_overlay.rs:212-214 | replaces the apps; the rows stay until the query changes |
| SearchOverlay.SearchOverlay.OnSelect | src/ui/search_overlay.rs:217-222 | registers the callback |
| SearchOverlay.SearchOverlay.TextChanged | src/ui/search_overlay.rs:92-127 | the rows become the shown results for the new query |
| SearchOverlay.SearchOverlay.Show | src/ui/search_overlay.rs:225-231 | visible, query cleared, no rows |
| SearchOverlay.SearchOverlay.Hide | src/ui/search_overlay.rs:234-238 | hidden; the query and rows stay |
| SearchOverlay.SearchOverlay.Toggle | src/ui/search_overlay.rs:246-252 | flips visibility; showing clears the query |
| SearchOverlay.SearchOverlay.ActivateRow | src/ui/search_overlay.rs:134-148 | with a callback, the activated row's result; without one, nothing |
| StackItem.LastDot | src/ui/stack_item.rs:161 | the index of the last '.' in the name, or none |
| StackItem.Extension | src/ui/stack_item.rs:161-163 | the text after the last dot, when that dot is not the first character |
| StackItem.IconForFile | src/ui/stack_item.rs:156-180 | directories are "folder"; a missing extension gives "text-x-generic" |
| StackItem.IconExamples | src/ui/stack_item.rs:528-532 | test.pdf, test.png and a folder map as the tests expect, and so does REPORT.PDF |
| StackItem.LastDotLower | src/ui/stack_item.rs:161-162 | lower-casing does not move the last dot |
| StackItem.IconIgnoresCase | src/ui/stack_item.rs:161-179 | names equal up to case get the same icon |
| StackItem.Visible | src/ui/stack_item.rs:111-142 | no name starting with '.' is kept, and every other item is |
| StackItem.NewestFirstTotalPreorder | src/ui/stack_item.rs:145-146 | newest first, undated last, is a total preorder |
| StackItem.Refreshed | src/ui/stack_item.rs:108-153 | at most max_items entries, none hidden, newest first; an unreadable folder gives none |
| StackItem.UndatedLast | src/ui/stack_item.rs:145-146 | an undated entry is followed only by undated ones |
| StackItem.SameTimeListingOrder | src/ui/stack_item.rs:145-146 | the sort is stable: entries of equal time keep their listing order |
| StackItem.FewEntriesAllKept | src/ui/stack_item.rs:149 | with at most max_items visible entries none is dropped |
| StackItem.CutEntriesAreOlder | src/ui/stack_item.rs:145-149 | a dropped entry is no newer than any kept one |
| StackItem.StackItem.constructor | src/ui/stack_item.rs:48-94 | view mode Fan, 20 items at most, entries refreshed |
| StackItem.StackItem.RefreshEntries | src/ui/stack_item.rs:108-153 | both refresh paths (this one and lines 419-462) compute the refreshed list |
| StackItem.StackItem.SetViewMode | src/ui/stack_item.rs:465-467 | sets the view mode only |
| Screencopy.Elapsed | src/services/screencopy_service.rs:128-147 | `now - last_updated` wraps around modulo 2^64 |
| Screencopy.ExpiryBoundary | src/services/screencopy_service.rs:128-147 | never both fresh and stale; an entry exactly ttl old is neither |
| Screencopy.FutureEntryIsStale | src/services/screencopy_service.rs:128-147 | an entry stamped after `now` wraps to a huge age: stale, not served |
| Screencopy.HyprlandGeometry | src/services/screencopy_service.rs:240-266 | the rect of the first client whose address equals or ends with the id; none iff no client does |
| Screencopy.FirstHit | src/services/screencopy_service.rs:297-316 | none iff no node has the id and a rect |
| Screencopy.FirstHitIsFirst | src/services/screencopy_service.rs:297-316 | the rect returned is that of the first such node |
| Screencopy.FindWindowIsFirstHit | src/services/screencopy_service.rs:297-316 | `find_window` returns the first hit in pre-order, `nodes` before `floating_nodes` |
| Screencopy.SwayGeometry | src/services/screencopy_service.rs:269-320 | none when the tree cannot be read |
| Screencopy.WindowGeometry | src/services/screencopy_service.rs:225-237 | a Hyprland client with the address gives the first such client's rectangle; with none (or no Hyprland reply) the answer is Sway's |
| Screencopy.ReplaceSlashesPointwise | src/services/screencopy_service.rs:187 | every '/' becomes '_' and nothing else changes |
| Screencopy.TempFileName | src/services/screencopy_service.rs:187 | the id with '/' replaced by '_' plus ".png", the name also built at lines 324, 352 and 431 |
| Screencopy.ScreencopyService.constructor | src/services/screencopy_service.rs:49-63 | empty cache, ttl 5, not running, the detected tool |
| Screencopy.ScreencopyService.Start | src/services/screencopy_service.rs:89-95 | sets the flag; reports whether it was off |
| Screencopy.ScreencopyService.Stop | src/services/screencopy_service.rs:118-120 | clears the flag |
| Screencopy.ScreencopyService.CaptureThumbnail | src/services/screencopy_service.rs:158-179 | always (over)writes the entry stamped now, even with no image |
| Screencopy.ScreencopyService.RequestThumbnail | src/services/screencopy_service.rs:141-155 | a fresh entry is served and nothing changes; otherwise a capture |
| Screencopy.ScreencopyService.RefreshStaleThumbnails | src/services/screencopy_service.rs:123-138 | stale entries are recaptured with their app id and title; the others and the key set stay |
| Screencopy.ScreencopyService.ExtractAppId | src/services/screencopy_service.rs:375-382 | the cached app id, or "unknown" |
| Screencopy.ScreencopyService.GetThumbnail | src/services/screencopy_service.rs:408-410 | the cached entry, if any |
| Screencopy.ScreencopyService.ClearCache | src/services/screencopy_service.rs:413-414 | the cache is empty |
| Screencopy.ScreencopyService.RemoveThumbnail | src/services/screencopy_service.rs:427-428 | only that key is removed |
| Screencopy.ScreencopyService.SetCacheTtl | src/services/screencopy_service.rs:446-448 | sets the ttl only |
| Screencopy.CacheRoundTrip | src/services/screencopy_service.rs:510-522 | a requested thumbnail is cached, and gone after clearing |
| MultiMonitor.SharedEdgeBelongsRight | src/services/multimonitor.rs:215-216 | half-open rectangles: a shared edge belongs to the right monitor only |
| MultiMonitor.TruncDiv | src/services/multimonitor.rs:242 | i32 division truncates toward zero |
| MultiMonitor.DockPlacement | src/services/multimonitor.rs:238-246 | the bottom gap is the margin; the dock is centred to within one pixel |
| MultiMonitor.OverhangRoundsTowardZero | src/services/multimonitor.rs:242 | a dock one pixel wider than the monitor starts at its left edge |
| MultiMonitor.MonitorIdInjective | src/services/multimonitor.rs:83 | "monitor-i" names differ for different indices |
| MultiMonitor.TableEntries | src/services/multimonitor.rs:79-106 | "monitor-i" is stored iff item i is a monitor, with its record |
| MultiMonitor.TableKeys | src/services/multimonitor.rs:79-106 | every stored id is "monitor-i" of a present item |
| MultiMonitor.OnlyFirstIsPrimary | src/services/multimonitor.rs:90 | only monitor-0 is primary |
| MultiMonitor.TableSize | src/services/multimonitor.rs:72-106 | the table holds one record per present monitor |
| MultiMonitor.PrimaryRecord | src/services/multimonitor.rs:90-102 | a present first monitor is stored as primary |
| MultiMonitor.TargetMonitor | src/services/multimonitor.rs:225-235 | the primary for PrimaryOnly and AllMonitors, the current one otherwise, when stored |
| MultiMonitor.Deliveries | src/services/multimonitor.rs:151-154 | each callback is called once, in order, with the monitor |
| MultiMonitor.MultiMonitorService.constructor | src/services/multimonitor.rs:48-59 | PrimaryOnly, no callbacks, then a scan |
| MultiMonitor.MultiMonitorService.ScanMonitors | src/services/multimonitor.rs:62-111 | no display: nothing changes; else the table is refilled, primary set when item 0 is present, current set only when unset |
| MultiMonitor.MultiMonitorService.CheckForChanges | src/services/multimonitor.rs:135-144 | rescans (the table, the primary from item 0, current kept unless unset) and notifies with the new current monitor only when the monitor count changed |
| MultiMonitor.MultiMonitorService.NotifyChange | src/services/multimonitor.rs:147-157 | calls every callback with the current monitor, when it is stored |
| MultiMonitor.MultiMonitorService.OnMonitorChange | src/services/multimonitor.rs:160-166 | appends the callback |
| MultiMonitor.MultiMonitorService.SetMode | src/services/multimonitor.rs:169-172 | sets the mode only |
| MultiMonitor.MultiMonitorService.SetCurrentMonitor | src/services/multimonitor.rs:202-207 | ids not in the table are ignored |
| MultiMonitor.MultiMonitorService.GetMonitors | src/services/multimonitor.rs:180-182 | exactly the stored records |
| MultiMonitor.MultiMonitorService.MonitorAtPoint | src/services/multimonitor.rs:210-222 | some monitor containing the point; none iff no monitor contains it |
| MultiMonitor.MultiMonitorService.GetMonitor | src/services/multimonitor.rs:185-187 | the record under the id, if any |
| MultiMonitor.MultiMonitorAfterScan | src/services/multimonitor.rs:249-251 | after a scan, multi-monitor iff more than one monitor was present |
| Theme.WithDarkness | src/services/theme_service.rs:66-74 | the dark flag changes background and foreground and keeps the accent (also at lines 174-182) |
| Theme.AccentOfInjective | src/services/theme_service.rs:118-121 | different byte triples give different accents |
| Theme.ParseByte | src/services/theme_service.rs:118-120 | a parsed part is below 256 |
| Theme.ParseTriple | src/services/theme_service.rs:117-121 | a triple iff each of the first three parts parses; extra parts are ignored |
| Theme.LineVerdict | src/services/theme_service.rs:113-123 | lines not starting with "AccentColor=" are skipped |
| Theme.KdeAccentFirstDecides | src/services/theme_service.rs:113-124 | the first line with at least three parts decides; none if no line does |
| Theme.KdeAccentColor | src/services/theme_service.rs:108-128 | the accent of the first deciding line, scaled by 1/255; none without the file |
| Theme.BadFirstLineDecides | src/services/theme_service.rs:113-124 | a bad first line gives none even when a later line is valid |
| Theme.ValidAccent | src/services/theme_service.rs:213-221 | the watcher accepts a line iff it decides with a colour |
| Theme.GnomeAccent | src/services/theme_service.rs:139-156 | the reply is trimmed of whitespace and single quotes before the name lookup |
| Theme.GnomeNames | src/services/theme_service.rs:144-155 | only the nine listed names yield a colour |
| Theme.GnomeQuotedReply | src/services/theme_service.rs:140-152 | the reply "'purple'\n" gives purple |
| Theme.DetectAccent | src/services/theme_service.rs:84-105 | KDE first, then GNOME, else the accent is kept |
| Theme.WatchedExtend | src/services/theme_service.rs:212-245 | the watcher processes lines one at a time |
| Theme.WatchedOnlyAccent | src/services/theme_service.rs:228-230 | a tick changes only the accent |
| Theme.WatchedIsLastGood | src/services/theme_service.rs:212-245 | after a tick the accent is that of the last valid line |
| Theme.SteadyFileIsSilent | src/services/theme_service.rs:229 | lines that repeat the current accent notify nobody |
| Theme.SecondReadIsSilent | src/services/theme_service.rs:229-240 | re-reading a file whose valid lines agree notifies nobody |
| Theme.DeliveriesInOrder | src/services/theme_service.rs:236-239 | each callback is called once, in order, with the colours |
| Theme.ThemeService.constructor | src/services/theme_service.rs:48-81 | default colours, then the dark preference and the detected accent |
| Theme.ThemeService.OnThemeChange | src/services/theme_service.rs:253-259 | appends the callback |
| Theme.ThemeService.Notify | src/services/theme_service.rs:236-239 | hands the colours to every callback in order |
| Theme.ThemeService.DarkPreferenceChanged | src/services/theme_service.rs:169-192 | sets the dark colours and always notifies |
| Theme.ThemeService.WatchTick | src/services/theme_service.rs:204-249 | no file: nothing changes; else each valid line is applied and notifies when the accent changes |
| Theme.ThemeService.WatchLines | src/services/theme_service.rs:212-245 | the loop computes the watched colours and their notifications |
| Theme.ThemeService.WatchLine | src/services/theme_service.rs:213-240 | one line: a new accent is stored and notified; an equal or invalid one does nothing |
| RunningIndicator.DisplayShape | src/ui/running_indicator.rs:63-118 | stopped shows nothing; otherwise min(count, 3) dots and a "+k" label iff count > 3 |
| RunningIndicator.FocusedDot | src/ui/running_indicator.rs:84-105 | only the first dot of a focused app is marked focused |
| RunningIndicator.StateClasses | src/ui/running_indicator.rs:70-99 | "stopped" iff stopped, "running" iff not, "focused" iff focused; other classes stay |
| RunningIndicator.RunningIndicator.constructor | src/ui/running_indicator.rs:28-40 | stopped, with the base class and no children |
| RunningIndicator.RunningIndicator.SetState | src/ui/running_indicator.rs:48-55 | an equal state changes nothing; another redraws |
| RunningIndicator.RunningIndicator.UpdateDisplay | src/ui/running_indicator.rs:63-118 | children cleared, then the classes, dots and label of the state |
| Badge.CountText | src/ui/badge.rs:80-84 | "99+" above 99, else the decimal digits of the count with no leading zero |
| Badge.DisplayRules | src/ui/badge.rs:68-118 | Count(0) hides with no label; other types unhide and add their class; the position class is always added; classes accumulate; at most one label |
| Badge.ClassesAccumulate | src/ui/badge.rs:62-117 | after Count(5) then Attention both type classes are present |
| Badge.Badge.constructor | src/ui/badge.rs:41-54 | "badge" and "badge-hidden", then a first update |
| Badge.Badge.SetType | src/ui/badge.rs:62-65 | sets the type and updates the display |
| Badge.Badge.UpdateDisplay | src/ui/badge.rs:68-118 | children cleared, then the type's classes and label, then the position class |
| Sorting.Sort | src/ui/search_overlay.rs:116-120 | the result is sorted and a permutation of the input |
| Sorting.SortStable | src/ui/stack_item.rs:145-146 | `sort_by` is stable: equivalent elements keep their order |
| Text.ParseU8Radix | src/ui/drag_drop.rs:212 | `u8::from_str_radix`: some digits, the value below 256 |
| Text.CollapseWhitespaceWords | src/utils/desktop_entry.rs:129 | `split_whitespace().join(" ")` keeps the words and leaves single spaces |

## Left out

- Transport I/O is not modelled: D-Bus connections and calls, Unix-socket reads and writes, and
  the compositor and helper commands (`hyprctl`, `swaymsg`, `ps`, `pgrep`, `grim`, `spectacle`,
  `gnome-screenshot`, `gsettings`, `which`). Their decoded replies are inputs.
- The filesystem is not modelled: directory listings, file reads, configuration and profile
  saving, temporary files and the stack folder's file monitor. Their outcomes are inputs or
  success flags.
- Timers, threads and polling loops are not modelled; each poll is one atomic step. This also
  covers the two separate lock writes at the end of each window-list parse.
- Clocks are `now` parameters. A capture reads the clock twice, to check the cache and to stamp
  the entry; the model uses one reading for both.
- The KDE window backend is not modelled: `parse_kde_response` is a stub and the script poll
  discards its reply, so the registry stays unchanged there.
- `list_profiles` is not modelled; it only lists the map.
- `register_kde_shortcuts` and `register_global_shortcuts` are not modelled; they only log.
- Getters that only copy a field are not modelled: `get_all_windows`, `get_all_badges`,
  `get_shortcuts`, `get_mode`, `get_screenshot_tool`, `get_primary_monitor`,
  `get_current_monitor`, `monitor_count` and `get_desktop_environment` (the tracker's
  `desktop` constant).
- Screencopy.ScreencopyService.IsProtocolAvailable, MultiMonitor.MultiMonitorService.GetTargetMonitor,
  MultiMonitor.MultiMonitorService.IsMultiMonitor, Theme.ThemeService.GetColors and
  Theme.ThemeService.IsDarkMode read the state and carry no contract of their own;
  `GetTargetMonitor` is MultiMonitor.TargetMonitor on the fields.
- Widget construction, CSS strings, icon-theme and Pixbuf loading are not modelled. This covers
  the thumbnail fallback icon, where an image is an opaque handle.
- Floating point is not modelled:
  - badge progress, opacity and zoom are carried as exact reals without arithmetic;
  - accent colours are exact byte/255 reals, and equality of those `f64` values agrees with real
    equality;
  - drop midpoints are exact reals.
- Rust's Unicode `to_lowercase` is modelled on ASCII letters only.
- WindowTracker.Tracker.GetWindowCount: window counts are `u32` in the source and `nat` here.
  Overflow would need 2^32 windows of one app.
- MultiMonitor.DockPlacement: geometry is `i32` in the source and `int` here. The model does not
  cover overflow of `x + width` or `y + height` at the edge of the `i32` range.
- Screencopy.Elapsed: the age is computed with wrapping `u64` subtraction, as in a release
  build. A debug build would panic on an entry stamped in the future.
- Screencopy.ScreencopyService.RefreshStaleThumbnails: the capture is a function of the window
  id. The tool dispatch and the command behind it are not modelled.
- Keyboard.KeyboardService.Fire: callbacks are identities in a map. The model records each call;
  it does not run the callbacks.
- DragDrop.Decode: it works on characters, so a percent-encoded UTF-8 sequence decodes to one
  Latin-1 character per byte, as the code does. Reassembling UTF-8 is not modelled.
- DesktopEntry.StripSegments: an escape "%%" directly before a code letter is outside its
  requires, because the successive passes then read the escape's second '%' as a code; that case
  is shown on "%%u" by DesktopEntry.EscapeBeforeCodeLetter rather than stated in general.
- Monitor rescans never clear a stale primary or current id; the model keeps this as in the code.
- Two different valid `AccentColor=` lines in one file make every watcher tick notify twice.
  This follows from the code, and the model keeps it.

## Findings

| source | as written | input that shows it | evidently intended | confidence | as-written member | corrected member |
|---|---|---|---|---|---|---|
| src/ui/search_overlay.rs:134-148 | row activation re-filters the apps without sorting and takes the i-th match | apps [Bz, Az], query "z": row 0 shows Az but activating it selects Bz | activating row i selects the result shown in row i | not executed | SearchOverlay.ActivationMismatch | SearchOverlay.SearchOverlay.ActivateRow |

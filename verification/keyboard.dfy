/** The keyboard shortcut service (`KeyboardService`): an ordered table of
    bindings (modifier mask, key, action), the first of which matching a key
    press fires the action callbacks; the enabled flag; removal of bindings by
    kind; and the dock's navigation keys. Keys are named by their GDK key
    names; modifier masks are GDK's 32-bit modifier bits. */
module Keyboard {
  import opened Wrappers
  import opened Text
  import Sorting

  datatype ShortcutAction = ActivateApp(slot: nat) | ToggleDock | ShowSearch | NavigateLeft | NavigateRight
                          | ActivateFocused | ShowContextMenu

  datatype ShortcutBinding = ShortcutBinding(modifiers: bv32, key: string, action: ShortcutAction)

  datatype Propagation = Proceed | Stop

  const ShiftMask: bv32 := 1
  const ControlMask: bv32 := 4
  const AltMask: bv32 := 8
  const SuperMask: bv32 := 0x400_0000

  /** The modifiers that take part in matching; Caps Lock, Num Lock and the
      mouse buttons are ignored. */
  function EffectiveState(state: bv32): (r: bv32)
    ensures r & !(ShiftMask | ControlMask | AltMask | SuperMask) == 0
    ensures r & SuperMask == state & SuperMask
  {
    state & (ShiftMask | ControlMask | AltMask | SuperMask)
  }

  /** Caps Lock (bit 1) never changes whether a binding matches. */
  lemma CapsLockIgnored(state: bv32)
    ensures EffectiveState(state | 2) == EffectiveState(state)
  {
  }

  predicate Matches(b: ShortcutBinding, key: string, state: bv32) {
    key == b.key && EffectiveState(state) == b.modifiers
  }

  /** The action of the first binding that matches, if any. */
  function FirstMatch(bindings: seq<ShortcutBinding>, key: string, state: bv32): Option<ShortcutAction> {
    if bindings == [] then None
    else if Matches(bindings[0], key, state) then Some(bindings[0].action)
    else FirstMatch(bindings[1..], key, state)
  }

  /** `FirstMatch` is the action of the earliest matching binding, and none
      exactly when no binding matches. */
  lemma {:induction false} FirstMatchIsFirst(bindings: seq<ShortcutBinding>, key: string, state: bv32)
    ensures FirstMatch(bindings, key, state).None? <==> forall i :: 0 <= i < |bindings| ==> !Matches(bindings[i], key, state)
    ensures FirstMatch(bindings, key, state).Some? ==>
      exists i :: 0 <= i < |bindings| && Matches(bindings[i], key, state)
        && FirstMatch(bindings, key, state) == Some(bindings[i].action)
        && forall j :: 0 <= j < i ==> !Matches(bindings[j], key, state)
  {
    if bindings != [] && !Matches(bindings[0], key, state) {
      var tail := bindings[1..];
      FirstMatchIsFirst(tail, key, state);
      assert forall i :: 0 <= i < |tail| ==> tail[i] == bindings[i + 1];
      if FirstMatch(tail, key, state).Some? {
        var i :| 0 <= i < |tail| && Matches(tail[i], key, state) && FirstMatch(tail, key, state) == Some(tail[i].action)
                 && forall j :: 0 <= j < i ==> !Matches(tail[j], key, state);
        assert forall j :: 0 < j < i + 1 ==> bindings[j] == tail[j - 1];
        assert Matches(bindings[i + 1], key, state);
      } else {
        assert forall i :: 0 < i < |bindings| ==> bindings[i] == tail[i - 1];
      }
    }
  }

  /** The eleven bindings `register_default_shortcuts` installs. */
  function DefaultShortcuts(): (r: seq<ShortcutBinding>)
    ensures |r| == 11
    ensures forall i :: 0 <= i < 9 ==> r[i] == ShortcutBinding(SuperMask, NatToString(i + 1), ActivateApp(i + 1))
    ensures r[9] == ShortcutBinding(SuperMask, "d", ToggleDock)
    ensures r[10] == ShortcutBinding(SuperMask, "slash", ShowSearch)
  {
    seq(9, i requires 0 <= i < 9 => ShortcutBinding(SuperMask, NatToString(i + 1), ActivateApp(i + 1)))
    + [ShortcutBinding(SuperMask, "d", ToggleDock), ShortcutBinding(SuperMask, "slash", ShowSearch)]
  }

  /** Super+3 activates the third app; with Caps Lock on it still does. */
  lemma SuperDigitActivates(state: bv32)
    requires EffectiveState(state) == SuperMask
    ensures FirstMatch(DefaultShortcuts(), "3", state) == Some(ActivateApp(3))
  {
    var d := DefaultShortcuts();
    assert NatToString(1) == "1" && NatToString(2) == "2" && NatToString(3) == "3";
    var d1 := d[1..];
    var d2 := d1[1..];
    assert d1[0] == d[1] && d2[0] == d[2];
    assert !Matches(d[0], "3", state) && !Matches(d1[0], "3", state) && Matches(d2[0], "3", state);
    assert FirstMatch(d2, "3", state) == Some(ActivateApp(3));
    assert FirstMatch(d1, "3", state) == FirstMatch(d2, "3", state);
  }

  /** Whether `remove_shortcuts_by_action(tag)` drops a binding. */
  predicate RemovedBy(b: ShortcutBinding, tag: string) {
    (b.action.ActivateApp? && tag == "activate") || (b.action.ToggleDock? && tag == "toggle")
    || (b.action.ShowSearch? && tag == "search")
  }

  /** The bindings that survive, in order. */
  function Retained(bindings: seq<ShortcutBinding>, tag: string): (r: seq<ShortcutBinding>)
    ensures forall b :: b in r <==> b in bindings && !RemovedBy(b, tag)
    ensures |r| <= |bindings|
  {
    if bindings == [] then []
    else Retained(bindings[..|bindings| - 1], tag)
         + (if RemovedBy(bindings[|bindings| - 1], tag) then [] else [bindings[|bindings| - 1]])
  }

  /** A list with nothing of the kind is kept whole. */
  lemma {:induction false} RetainedNothingToRemove(bindings: seq<ShortcutBinding>, tag: string)
    requires forall i :: 0 <= i < |bindings| ==> !RemovedBy(bindings[i], tag)
    ensures Retained(bindings, tag) == bindings
  {
    if bindings != [] {
      RetainedNothingToRemove(bindings[..|bindings| - 1], tag);
      assert bindings == bindings[..|bindings| - 1] + [bindings[|bindings| - 1]];
    }
  }

  /** Any tag other than "activate", "toggle" and "search" removes nothing. */
  lemma UnknownTagKeepsAll(bindings: seq<ShortcutBinding>, tag: string)
    requires tag != "activate" && tag != "toggle" && tag != "search"
    ensures Retained(bindings, tag) == bindings
  {
    RetainedNothingToRemove(bindings, tag);
  }

  /** The kept bindings stay in their order, each as often as before, and
      only the removed kind loses its count. */
  lemma {:induction false} RetainedKeepsOrder(bindings: seq<ShortcutBinding>, tag: string)
    ensures Sorting.IsSubsequence(Retained(bindings, tag), bindings)
    ensures forall b :: multiset(Retained(bindings, tag))[b] == if RemovedBy(b, tag) then 0 else multiset(bindings)[b]
  {
    if bindings != [] {
      var init, last := bindings[..|bindings| - 1], bindings[|bindings| - 1];
      RetainedKeepsOrder(init, tag);
      var ri := Retained(init, tag);
      var r := Retained(bindings, tag);
      assert bindings == init + [last];
      assert multiset(bindings) == multiset(init) + multiset([last]);
      if RemovedBy(last, tag) {
        assert r == ri;
        if r != [] {
          assert r[|r| - 1] in ri;
          assert r[|r| - 1] != last;
        }
      } else {
        assert r == ri + [last];
        assert r[..|r| - 1] == ri;
        assert multiset(r) == multiset(ri) + multiset([last]);
      }
    }
  }

  /** Removing a kind twice is removing it once. */
  lemma RetainedIdempotent(bindings: seq<ShortcutBinding>, tag: string)
    ensures Retained(Retained(bindings, tag), tag) == Retained(bindings, tag)
  {
    var r := Retained(bindings, tag);
    assert forall i :: 0 <= i < |r| ==> r[i] in r;
    RetainedNothingToRemove(r, tag);
  }

  /** What a navigation key does. */
  datatype NavigationResult = Navigate(delta: int) | Activate | PassOn

  /** The navigation controller: h/j/k/l and the arrows move by one,
      Return and space activate, anything else is passed on. */
  function NavigationKey(key: string): (r: NavigationResult)
    ensures r.Navigate? ==> r.delta == -1 || r.delta == 1
    ensures r.PassOn? <==> key !in {"Left", "h", "Right", "l", "Up", "k", "Down", "j", "Return", "space"}
    ensures r == Navigate(-1) <==> key in {"Left", "h", "Up", "k"}
    ensures r == Navigate(1) <==> key in {"Right", "l", "Down", "j"}
    ensures r == Activate <==> key in {"Return", "space"}
  {
    if key == "Left" || key == "h" then Navigate(-1)
    else if key == "Right" || key == "l" then Navigate(1)
    else if key == "Up" || key == "k" then Navigate(-1)
    else if key == "Down" || key == "j" then Navigate(1)
    else if key == "Return" || key == "space" then Activate
    else PassOn
  }

  /** Opposite directions undo each other. */
  lemma NavigationPairs()
    ensures NavigationKey("Left").delta + NavigationKey("Right").delta == 0
    ensures NavigationKey("Up").delta + NavigationKey("Down").delta == 0
    ensures NavigationKey("h") == NavigationKey("Left") && NavigationKey("l") == NavigationKey("Right")
    ensures NavigationKey("k") == NavigationKey("Up") && NavigationKey("j") == NavigationKey("Down")
  {
  }

  /** `calls` calls each callback in `ids` exactly once, and only those,
      always with `action`. */
  ghost predicate CallsEach(calls: seq<(string, ShortcutAction)>, action: ShortcutAction, ids: set<string>) {
    (forall i :: 0 <= i < |calls| ==> calls[i].1 == action)
    && (forall id :: id in ids <==> exists i :: 0 <= i < |calls| && calls[i].0 == id)
    && (forall i, j :: 0 <= i < j < |calls| ==> calls[i].0 != calls[j].0)
  }

  /** Calling one more callback, not called before, keeps the calls exact. */
  lemma CallsEachStep(calls: seq<(string, ShortcutAction)>, action: ShortcutAction, ids: set<string>, id: string)
    requires CallsEach(calls, action, ids) && id !in ids
    ensures CallsEach(calls + [(id, action)], action, ids + {id})
  {
    var calls' := calls + [(id, action)];
    assert forall i :: 0 <= i < |calls| ==> calls'[i] == calls[i];
    assert calls'[|calls|] == (id, action);
  }

  class KeyboardService {
    var shortcuts: seq<ShortcutBinding>
    /** Callback id to the callback (by identity). */
    var callbacks: map<string, nat>
    var enabled: bool
    /** Every call made to a callback so far: its id and the action. */
    var delivered: seq<(string, ShortcutAction)>

    /** `new`: enabled, no callbacks, the default bindings. */
    constructor ()
      ensures shortcuts == DefaultShortcuts() && callbacks == map[] && enabled && delivered == []
    {
      shortcuts := DefaultShortcuts();
      callbacks := map[];
      enabled := true;
      delivered := [];
    }

    /** `on_action`: registers or replaces the callback under `id`. */
    method OnAction(id: string, callback: nat)
      modifies this
      ensures callbacks == old(callbacks)[id := callback]
      ensures shortcuts == old(shortcuts) && enabled == old(enabled) && delivered == old(delivered)
    {
      callbacks := callbacks[id := callback];
    }

    method SetEnabled(on: bool)
      modifies this
      ensures enabled == on
      ensures shortcuts == old(shortcuts) && callbacks == old(callbacks) && delivered == old(delivered)
    {
      enabled := on;
    }

    function IsEnabled(): (r: bool)
      reads this
      ensures r == enabled
    {
      enabled
    }

    /** `add_shortcut`: appends, so earlier bindings keep precedence. */
    method AddShortcut(binding: ShortcutBinding)
      modifies this
      ensures shortcuts == old(shortcuts) + [binding]
      ensures callbacks == old(callbacks) && enabled == old(enabled) && delivered == old(delivered)
    {
      shortcuts := shortcuts + [binding];
    }

    /** `remove_shortcuts_by_action`. */
    method RemoveShortcutsByAction(tag: string)
      modifies this
      ensures shortcuts == Retained(old(shortcuts), tag)
      ensures callbacks == old(callbacks) && enabled == old(enabled) && delivered == old(delivered)
    {
      var kept: seq<ShortcutBinding> := [];
      for i := 0 to |shortcuts|
        invariant kept == Retained(shortcuts[..i], tag)
      {
        assert shortcuts[..i + 1][..i] == shortcuts[..i];
        if !RemovedBy(shortcuts[i], tag) {
          kept := kept + [shortcuts[i]];
        }
      }
      assert shortcuts[..|shortcuts|] == shortcuts;
      shortcuts := kept;
    }

    /** Calls every registered callback once with `action`, in the map's own
        order. */
    method Fire(action: ShortcutAction)
      modifies this
      ensures shortcuts == old(shortcuts) && callbacks == old(callbacks) && enabled == old(enabled)
      ensures |delivered| >= |old(delivered)| && delivered[..|old(delivered)|] == old(delivered)
      ensures CallsEach(delivered[|old(delivered)|..], action, callbacks.Keys)
    {
      ghost var calls: seq<(string, ShortcutAction)> := [];
      var ids := callbacks.Keys;
      while ids != {}
        invariant shortcuts == old(shortcuts) && callbacks == old(callbacks) && enabled == old(enabled)
        invariant ids <= callbacks.Keys
        invariant delivered == old(delivered) + calls
        invariant CallsEach(calls, action, callbacks.Keys - ids)
        decreases ids
      {
        var id :| id in ids;
        CallsEachStep(calls, action, callbacks.Keys - ids, id);
        delivered := delivered + [(id, action)];
        calls := calls + [(id, action)];
        ids := ids - {id};
        assert callbacks.Keys - ids == (callbacks.Keys - (ids + {id})) + {id};
      }
      assert callbacks.Keys - ids == callbacks.Keys;
      assert delivered[..|old(delivered)|] == old(delivered) && delivered[|old(delivered)|..] == calls;
    }

    /** The key-press handler: when enabled, the first matching binding fires
        every callback with its action and stops the event; otherwise the
        event goes on. */
    method KeyPressed(key: string, state: bv32) returns (p: Propagation, fired: Option<ShortcutAction>)
      modifies this
      ensures fired == (if enabled then FirstMatch(shortcuts, key, state) else None)
      ensures p == if fired.Some? then Stop else Proceed
      ensures shortcuts == old(shortcuts) && callbacks == old(callbacks) && enabled == old(enabled)
      ensures fired.None? ==> delivered == old(delivered)
      ensures fired.Some? ==> |delivered| >= |old(delivered)| && delivered[..|old(delivered)|] == old(delivered)
                              && CallsEach(delivered[|old(delivered)|..], fired.value, callbacks.Keys)
    {
      if !enabled {
        return Proceed, None;
      }
      assert shortcuts[0..] == shortcuts;
      for i := 0 to |shortcuts|
        invariant FirstMatch(shortcuts, key, state) == FirstMatch(shortcuts[i..], key, state)
        invariant delivered == old(delivered)
      {
        assert shortcuts[i..][1..] == shortcuts[i + 1..];
        var binding := shortcuts[i];
        if key == binding.key && EffectiveState(state) == binding.modifiers {
          Fire(binding.action);
          return Stop, Some(binding.action);
        }
      }
      return Proceed, None;
    }
  }
}

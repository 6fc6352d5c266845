/** The process tracker (`ProcessTracker`): registered process names with a
    running flag each, refreshed by polling. The `pgrep` probe is a function
    parameter, and one poll of the background thread is one method call. */
module ProcessTracker {
  import opened Wrappers
  import opened Text

  /** `command_to_process_name`: the first whitespace-separated word, or the
      whole command when it has none. */
  function CommandToProcessName(command: string): (r: string)
    ensures FirstWord(command).None? ==> r == command
    ensures FirstWord(command).Some? ==> IsWord(r)
  {
    FirstWord(command).GetOr(command)
  }

  /** The name is the leading word of the command once leading whitespace is
      dropped, and it ends where the command does or at whitespace. */
  lemma ProcessNameLeads(command: string)
    requires FirstWord(command).Some?
    ensures var t, r := TrimStart(command), CommandToProcessName(command);
      StartsWith(t, r) && (|r| == |t| || IsWhitespace(t[|r|]))
  {
    FirstWordSpec(command);
  }

  /** Arguments do not matter: a word followed by whitespace and anything
      else names that word. */
  lemma ArgumentsIgnored(w: string, rest: string)
    requires IsWord(w) && (rest == [] || IsWhitespace(rest[0]))
    ensures CommandToProcessName(w + rest) == w
  {
    SplitWhitespaceWord(w, rest);
  }

  class ProcessTracker {
    /** Process name to "seen running at the last poll". */
    var apps: map<string, bool>
    var running: bool

    constructor ()
      ensures apps == map[] && !running
    {
      apps := map[];
      running := false;
    }

    /** `register_app`: tracks the command's process name, not running yet,
        resetting any earlier state of that name. */
    method RegisterApp(command: string)
      modifies this
      ensures apps == old(apps)[CommandToProcessName(command) := false] && running == old(running)
    {
      apps := apps[CommandToProcessName(command) := false];
    }

    /** `is_running`: false for anything never registered. */
    function IsRunning(command: string): (r: bool)
      reads this
      ensures r <==> CommandToProcessName(command) in apps && apps[CommandToProcessName(command)]
    {
      var name := CommandToProcessName(command);
      if name in apps then apps[name] else false
    }

    /** `start`: a no-op while running (the polling thread it launches is
        `PollOnce`, repeated). */
    method Start()
      modifies this
      ensures running && apps == old(apps)
    {
      if running {
        return;
      }
      running := true;
    }

    method Stop()
      modifies this
      ensures !running && apps == old(apps)
    {
      running := false;
    }

    /** One round of the polling loop: every registered name takes the
        probe's verdict; no name is added or removed. */
    method PollOnce(probe: string -> bool)
      modifies this
      ensures apps.Keys == old(apps).Keys && running == old(running)
      ensures forall k :: k in apps ==> apps[k] == probe(k)
    {
      var names := apps.Keys;
      ghost var done: set<string> := {};
      while names != {}
        invariant names <= apps.Keys && apps.Keys == old(apps).Keys && running == old(running)
        invariant done == apps.Keys - names
        invariant forall k :: k in done ==> apps[k] == probe(k)
        decreases names
      {
        var name :| name in names;
        var isRunning := probe(name);
        if apps[name] != isRunning {
          apps := apps[name := isRunning];
        }
        names := names - {name};
        done := done + {name};
      }
    }
  }

  /** Two commands with the same first word cannot be told apart. */
  lemma SameFirstWordSameAnswer(t: ProcessTracker, a: string, b: string)
    requires CommandToProcessName(a) == CommandToProcessName(b)
    ensures t.IsRunning(a) == t.IsRunning(b)
  {
  }
}

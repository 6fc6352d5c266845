/** The profile store (`ProfileManager`): named dock configurations, one of
    which is current. "default" always exists and cannot be deleted. Writing
    profile files is outside the model: each operation that saves receives
    the save's outcome as a flag, and the clock reading as a number of
    seconds. */
module Profiles {
  import opened Wrappers
  import opened Text
  import opened DockSettings

  datatype ProfileMeta = ProfileMeta(
    name: string,
    description: Option<string>,
    icon: Option<string>,
    createdAt: string,
    lastUsed: Option<string>)

  datatype Profile = Profile(meta: ProfileMeta, settings: Settings)

  /** Why an operation was refused. */
  datatype ProfileError = AlreadyExists(name: string) | DoesNotExist(name: string)
                        | CannotDeleteDefault | NoCurrentProfile | SaveFailed

  /** `chrono_lite_now`: the seconds since the epoch, in decimal. */
  function Timestamp(now: nat): string {
    NatToString(now)
  }

  /** The profile `ensure_default_profile` creates. */
  function DefaultProfile(now: nat): Profile {
    Profile(ProfileMeta("Default", Some("Default dock configuration"), Some("user-home"), Timestamp(now), Some(Timestamp(now))),
            DefaultSettings())
  }

  /** The profile `create_profile` stores: no icon, never used, and the
      default settings unless a base is given. */
  function NewProfile(name: string, description: Option<string>, base: Option<Settings>, now: nat): Profile {
    Profile(ProfileMeta(name, description, None, Timestamp(now), None), base.GetOr(DefaultSettings()))
  }

  /** The copy `duplicate_profile` stores. */
  function CopyOf(source: Profile, newName: string, now: nat): (p: Profile)
    ensures p.settings == source.settings && p.meta.icon == source.meta.icon
    ensures p.meta.name == newName && p.meta.lastUsed.None?
    ensures source.meta.description.None? <==> p.meta.description.None?
    ensures source.meta.description.Some? ==> p.meta.description.value == source.meta.description.value + " (copy)"
  {
    Profile(ProfileMeta(newName,
                        match source.meta.description case Some(d) => Some(d + " (copy)") case None => None,
                        source.meta.icon, Timestamp(now), None),
            source.settings)
  }

  // ------------------------------------------------------------ presets

  function WorkSettings(): Settings {
    DefaultSettings().(iconSize := 40, autoHide := true, hoverZoom := false)
  }

  function GamingSettings(): Settings {
    DefaultSettings().(autoHide := true, opacity := 0.7, position := Left)
  }

  function PresentationSettings(): Settings {
    DefaultSettings().(iconSize := 64, autoHide := true, hoverZoom := true, hoverZoomScale := 1.8)
  }

  /** One step of `create_presets`: the preset is created only when the name
      is free and its file was saved. */
  function WithPreset(profiles: map<string, Profile>, name: string, description: string,
                      settings: Settings, now: nat, saveOk: bool): map<string, Profile>
  {
    if name in profiles || !saveOk then profiles
    else profiles[name := NewProfile(name, Some(description), Some(settings), now)]
  }

  /** The store after `create_presets`. */
  function WithPresets(profiles: map<string, Profile>, now: nat, saveWork: bool, saveGaming: bool,
                       savePresentation: bool): map<string, Profile>
  {
    var p1 := WithPreset(profiles, "work", "Minimal dock for focused work", WorkSettings(), now, saveWork);
    var p2 := WithPreset(p1, "gaming", "Auto-hiding dock for gaming", GamingSettings(), now, saveGaming);
    WithPreset(p2, "presentation", "Large icons for presentations", PresentationSettings(), now, savePresentation)
  }

  /** Presets never overwrite a profile and add nothing but the three preset
      names; a free preset name whose file was saved is filled in. */
  lemma PresetsNeverOverwrite(profiles: map<string, Profile>, now: nat, saveWork: bool, saveGaming: bool,
                              savePresentation: bool)
    ensures var r := WithPresets(profiles, now, saveWork, saveGaming, savePresentation);
      (forall k :: k in profiles ==> k in r && r[k] == profiles[k])
      && (forall k :: k in r ==> k in profiles || k == "work" || k == "gaming" || k == "presentation")
      && ("work" !in profiles && saveWork ==> r["work"].settings == WorkSettings())
      && ("gaming" !in profiles && saveGaming ==> r["gaming"].settings == GamingSettings())
      && ("presentation" !in profiles && savePresentation ==> r["presentation"].settings == PresentationSettings())
  {
    var p1 := WithPreset(profiles, "work", "Minimal dock for focused work", WorkSettings(), now, saveWork);
    var p2 := WithPreset(p1, "gaming", "Auto-hiding dock for gaming", GamingSettings(), now, saveGaming);
    WithPresetKeeps(profiles, "work", "Minimal dock for focused work", WorkSettings(), now, saveWork);
    WithPresetKeeps(p1, "gaming", "Auto-hiding dock for gaming", GamingSettings(), now, saveGaming);
    WithPresetKeeps(p2, "presentation", "Large icons for presentations", PresentationSettings(), now, savePresentation);
  }

  /** One preset step keeps every profile, adds at most its own name, and
      fills that name in when it was free and saved. */
  lemma WithPresetKeeps(profiles: map<string, Profile>, name: string, description: string,
                        settings: Settings, now: nat, saveOk: bool)
    ensures var r := WithPreset(profiles, name, description, settings, now, saveOk);
      (forall k :: k in profiles ==> k in r && r[k] == profiles[k])
      && (forall k :: k in r ==> k in profiles || k == name)
      && (name !in profiles && saveOk ==> name in r && r[name].settings == settings)
  {
  }

  /** Applying the presets a second time changes nothing once they all exist. */
  lemma PresetsIdempotent(profiles: map<string, Profile>, now: nat, later: nat)
    requires "work" in profiles && "gaming" in profiles && "presentation" in profiles
    ensures WithPresets(profiles, later, true, true, true) == profiles
  {
  }

  // ------------------------------------------------------------ the store

  class ProfileManager {
    var current: string
    var profiles: map<string, Profile>

    /** "default" exists and the current profile exists. */
    predicate Valid()
      reads this
    {
      "default" in profiles && current in profiles
    }

    /** `new`: the profiles read from disk, then `ensure_default_profile`. */
    constructor (loaded: map<string, Profile>, now: nat)
      ensures Valid() && current == "default"
      ensures "default" in loaded ==> profiles == loaded
      ensures "default" !in loaded ==> profiles == loaded["default" := DefaultProfile(now)]
    {
      current := "default";
      profiles := loaded;
      new;
      EnsureDefaultProfile(now);
    }

    /** `ensure_default_profile`: adds the default profile when missing; its
        save outcome is ignored. */
    method EnsureDefaultProfile(now: nat)
      modifies this
      ensures current == old(current) && "default" in profiles
      ensures "default" in old(profiles) ==> profiles == old(profiles)
      ensures "default" !in old(profiles) ==> profiles == old(profiles)["default" := DefaultProfile(now)]
    {
      if "default" !in profiles {
        profiles := profiles["default" := DefaultProfile(now)];
      }
    }

    method CreateProfile(name: string, description: Option<string>, base: Option<Settings>, now: nat, saveOk: bool)
      returns (r: Result<(), ProfileError>)
      requires Valid()
      modifies this
      ensures Valid() && current == old(current)
      ensures name in old(profiles) ==> r == Err(AlreadyExists(name)) && profiles == old(profiles)
      ensures name !in old(profiles) && !saveOk ==> r == Err(SaveFailed) && profiles == old(profiles)
      ensures name !in old(profiles) && saveOk ==>
        r == Ok(()) && profiles == old(profiles)[name := NewProfile(name, description, base, now)]
    {
      if name in profiles {
        return Err(AlreadyExists(name));
      }
      var profile := NewProfile(name, description, base, now);
      if !saveOk {
        return Err(SaveFailed);
      }
      profiles := profiles[name := profile];
      return Ok(());
    }

    /** `delete_profile`; a failure to remove the file is only logged. */
    method DeleteProfile(name: string) returns (r: Result<(), ProfileError>)
      requires Valid()
      modifies this
      ensures Valid()
      ensures name == "default" ==> r == Err(CannotDeleteDefault) && unchanged(this)
      ensures name != "default" && name !in old(profiles) ==> r == Err(DoesNotExist(name)) && unchanged(this)
      ensures name != "default" && name in old(profiles) ==>
        r == Ok(()) && profiles == old(profiles) - {name}
        && current == (if old(current) == name then "default" else old(current))
    {
      if name == "default" {
        return Err(CannotDeleteDefault);
      }
      if name !in profiles {
        return Err(DoesNotExist(name));
      }
      profiles := profiles - {name};
      if current == name {
        current := "default";
      }
      return Ok(());
    }

    /** `switch_profile`: makes `name` current, stamps its last use and returns
        its settings; the save outcome is ignored. */
    method SwitchProfile(name: string, now: nat) returns (r: Result<Settings, ProfileError>)
      requires Valid()
      modifies this
      ensures Valid()
      ensures name !in old(profiles) ==> r == Err(DoesNotExist(name)) && unchanged(this)
      ensures name in old(profiles) ==>
        r == Ok(old(profiles)[name].settings) && current == name
        && profiles == old(profiles)[name := old(profiles)[name].(meta := old(profiles)[name].meta.(lastUsed := Some(Timestamp(now))))]
    {
      if name !in profiles {
        return Err(DoesNotExist(name));
      }
      current := name;
      var p := profiles[name];
      profiles := profiles[name := p.(meta := p.meta.(lastUsed := Some(Timestamp(now))))];
      return Ok(profiles[name].settings);
    }

    /** `current_settings`: those of the current profile, or the defaults
        when it is missing. */
    function CurrentSettings(): (s: Settings)
      reads this
      ensures Valid() ==> s == profiles[current].settings
    {
      if current in profiles then profiles[current].settings else DefaultSettings()
    }

    /** `update_current_settings`: the settings are replaced before saving, so
        a failed save is reported with the change kept. */
    method UpdateCurrentSettings(settings: Settings, saveOk: bool) returns (r: Result<(), ProfileError>)
      requires Valid()
      modifies this
      ensures Valid() && current == old(current)
      ensures profiles == old(profiles)[current := old(profiles)[current].(settings := settings)]
      ensures r == if saveOk then Ok(()) else Err(SaveFailed)
      ensures CurrentSettings() == settings
    {
      if current !in profiles {
        assert false;
        return Err(NoCurrentProfile);
      }
      profiles := profiles[current := profiles[current].(settings := settings)];
      if !saveOk {
        return Err(SaveFailed);
      }
      return Ok(());
    }

    method DuplicateProfile(source: string, newName: string, now: nat, saveOk: bool)
      returns (r: Result<(), ProfileError>)
      requires Valid()
      modifies this
      ensures Valid() && current == old(current)
      ensures source !in old(profiles) ==> r == Err(DoesNotExist(source)) && profiles == old(profiles)
      ensures source in old(profiles) && newName in old(profiles) ==>
        r == Err(AlreadyExists(newName)) && profiles == old(profiles)
      ensures source in old(profiles) && newName !in old(profiles) && !saveOk ==>
        r == Err(SaveFailed) && profiles == old(profiles)
      ensures source in old(profiles) && newName !in old(profiles) && saveOk ==>
        r == Ok(()) && profiles == old(profiles)[newName := CopyOf(old(profiles)[source], newName, now)]
    {
      if source !in profiles {
        return Err(DoesNotExist(source));
      }
      var original := profiles[source];
      if newName in profiles {
        return Err(AlreadyExists(newName));
      }
      var copy := CopyOf(original, newName, now);
      if !saveOk {
        return Err(SaveFailed);
      }
      profiles := profiles[newName := copy];
      return Ok(());
    }

    /** `create_presets`: work, gaming and presentation, each created through
        `create_profile` only when the name is free; failures are ignored. */
    method CreatePresets(now: nat, saveWork: bool, saveGaming: bool, savePresentation: bool)
      requires Valid()
      modifies this
      ensures Valid() && current == old(current)
      ensures profiles == WithPresets(old(profiles), now, saveWork, saveGaming, savePresentation)
    {
      ghost var p0 := profiles;
      if "work" !in profiles {
        var _ := CreateProfile("work", Some("Minimal dock for focused work"), Some(WorkSettings()), now, saveWork);
      }
      assert profiles == WithPreset(p0, "work", "Minimal dock for focused work", WorkSettings(), now, saveWork);
      ghost var p1 := profiles;
      if "gaming" !in profiles {
        var _ := CreateProfile("gaming", Some("Auto-hiding dock for gaming"), Some(GamingSettings()), now, saveGaming);
      }
      assert profiles == WithPreset(p1, "gaming", "Auto-hiding dock for gaming", GamingSettings(), now, saveGaming);
      ghost var p2 := profiles;
      if "presentation" !in profiles {
        var _ := CreateProfile("presentation", Some("Large icons for presentations"), Some(PresentationSettings()),
                               now, savePresentation);
      }
      assert profiles == WithPreset(p2, "presentation", "Large icons for presentations", PresentationSettings(), now,
                                    savePresentation);
    }
  }
}

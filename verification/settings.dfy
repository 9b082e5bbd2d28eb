/** The settings screen's logic: editing the configuration, and saving,
    applying and deleting presets, as transitions over the screen's state and
    the store. */
module Settings {
  import opened Wrappers
  import opened Decimal
  import opened Strings
  import opened Config
  import opened Storage
  import opened Presets

  /** Field-by-field equality of all six settings, as the duplicate check uses it. */
  predicate SameConfig(a: GameConfig, b: GameConfig)
    ensures SameConfig(a, b) <==> a == b
  {
    && a.gridSize == b.gridSize
    && a.picksCount == b.picksCount
    && a.targetMax == b.targetMax
    && a.seconds == b.seconds
    && a.wrongMode == b.wrongMode
    && a.controlMode == b.controlMode
  }

  lemma SameConfigReflexiveSymmetric(a: GameConfig, b: GameConfig)
    ensures SameConfig(a, a)
    ensures SameConfig(a, b) <==> SameConfig(b, a)
  {
  }

  /** One edit the screen can make: a key of the configuration and its new value. */
  datatype Edit =
    | SetGridSize(size: int)
    | SetPicksCount(picks: int)
    | SetTargetMax(ceiling: int)
    | SetSeconds(seconds: int)
    | SetWrongMode(wrongMode: WrongMode)
    | SetControlMode(controlMode: ControlMode)

  /** The configuration after one edit. A new grid size also brings picksCount
      and targetMax back into the lists that size allows. */
  function Update(c: GameConfig, e: Edit): (r: GameConfig)
    ensures e.SetGridSize? ==>
      && r.gridSize == e.size && Allowed(r)
      && r.seconds == c.seconds && r.wrongMode == c.wrongMode && r.controlMode == c.controlMode
      && r.picksCount == (if c.picksCount in PicksOptionsForSize(e.size) then c.picksCount
                          else PicksOptionsForSize(e.size)[0])
      && r.targetMax == (if c.targetMax in TargetMaxOptionsForSize(e.size) then c.targetMax
                         else TargetMaxOptionsForSize(e.size)[0])
    ensures e.SetPicksCount? ==> r == c.(picksCount := e.picks)
    ensures e.SetTargetMax? ==> r == c.(targetMax := e.ceiling)
    ensures e.SetSeconds? ==> r == c.(seconds := e.seconds)
    ensures e.SetWrongMode? ==> r == c.(wrongMode := e.wrongMode)
    ensures e.SetControlMode? ==> r == c.(controlMode := e.controlMode)
  {
    match e
    case SetGridSize(size) => Clamp(c.(gridSize := size))
    case SetPicksCount(picks) => c.(picksCount := picks)
    case SetTargetMax(ceiling) => c.(targetMax := ceiling)
    case SetSeconds(seconds) => c.(seconds := seconds)
    case SetWrongMode(w) => c.(wrongMode := w)
    case SetControlMode(m) => c.(controlMode := m)
  }

  lemma UpdateGridSizeIdempotent(c: GameConfig, size: int)
    ensures Update(Update(c, SetGridSize(size)), SetGridSize(size)) == Update(c, SetGridSize(size))
  {
  }

  /** What the screen holds: the current configuration (owned by its parent),
      the preset list it shows, whether the name dialog is open, and the name typed. */
  datatype Panel = Panel(config: GameConfig, saved: seq<SavedConfig>, showSave: bool, saveName: string)

  datatype Step = Step(panel: Panel, store: Store)

  /** The name offered for the n-th preset: "設定" followed by n + 1. */
  function DefaultSaveName(n: nat): (r: string)
    ensures |r| >= 3 && r[..2] == "設定"
    ensures r[2..] == NatToString(n + 1)
    ensures ParseNat(r[2..]) == Some(n + 1)
  {
    var digits := NatToString(n + 1);
    ParseNatRoundTrip(n + 1);
    var r := "設定" + digits;
    assert r[2..] == digits;
    r
  }

  /** The screen as it opens. */
  function Mount(s: Store, c: GameConfig): (r: Panel)
    ensures r.saved == LoadSavedConfigs(s) && !r.showSave && r.config == c
  {
    var saved := LoadSavedConfigs(s);
    Panel(c, saved, false, DefaultSaveName(|saved|))
  }

  /** Some shown preset holds exactly this configuration (`some` with `sameConfig`). */
  predicate IsDuplicate(saved: seq<SavedConfig>, c: GameConfig)
    ensures IsDuplicate(saved, c) <==> exists x :: x in saved && x.config == c
  {
    exists i :: 0 <= i < |saved| && SameConfig(saved[i].config, c)
  }

  /** Saving is refused for a configuration already saved, or when four presets exist. */
  predicate IsSaveDisabled(p: Panel)
    ensures IsSaveDisabled(p) <==>
      (exists x :: x in p.saved && x.config == p.config) || |p.saved| >= MaxSaved
  {
    IsDuplicate(p.saved, p.config) || |p.saved| >= MaxSaved
  }

  /** Applies an edit and writes the new configuration to the store. */
  function UpdateSetting(p: Panel, s: Store, e: Edit): (r: Step)
    ensures r.panel == p.(config := Update(p.config, e))
    ensures LoadConfig(r.store) == Clamp(Update(p.config, e))
    ensures LoadSavedConfigs(r.store) == LoadSavedConfigs(s) && r.store.scores == s.scores
  {
    var next := Update(p.config, e);
    SaveThenLoad(s, next);
    Step(p.(config := next), SaveConfig(s, next))
  }

  /** Opens the name dialog with the default name, unless saving is refused. */
  function OpenSave(p: Panel, s: Store): (r: Panel)
    ensures IsSaveDisabled(p) ==> r == p
    ensures !IsSaveDisabled(p) ==>
      r == p.(showSave := true, saveName := DefaultSaveName(|LoadSavedConfigs(s)|))
  {
    if IsSaveDisabled(p) then p
    else p.(saveName := DefaultSaveName(|LoadSavedConfigs(s)|), showSave := true)
  }

  /** The name a save records: the typed name trimmed, or the default name when
      nothing but whitespace was typed. */
  function ChosenName(typed: string, count: nat): (r: string)
    ensures |r| > 0
    ensures !AllWhitespace(typed) ==> r == Trim(typed)
    ensures AllWhitespace(typed) ==> r == DefaultSaveName(count)
  {
    var t := Trim(typed);
    if |t| > 0 then t else DefaultSaveName(count)
  }

  /** Saves the current configuration as a new preset (id and time from the
      caller), refreshes the shown list and closes the dialog; does nothing
      when saving is refused. */
  function DoSave(p: Panel, s: Store, id: string, now: int): (r: Step)
    ensures IsSaveDisabled(p) ==> r == Step(p, s)
    ensures !IsSaveDisabled(p) ==>
      var entry := SavedConfig(id, ChosenName(p.saveName, |LoadSavedConfigs(s)|), p.config, now);
      && LoadSavedConfigs(r.store) == Take([entry] + LoadSavedConfigs(s), MaxSaved)
      && r.panel == p.(saved := LoadSavedConfigs(r.store), showSave := false)
      && r.store.config == s.config && r.store.scores == s.scores
  {
    if IsSaveDisabled(p) then Step(p, s)
    else
      var name := ChosenName(p.saveName, |LoadSavedConfigs(s)|);
      var s' := AddSavedConfig(s, name, p.config, id, now);
      Step(p.(saved := LoadSavedConfigs(s'), showSave := false), s')
  }

  /** Entry `i` is the first one carrying `id`. */
  predicate FirstWithId(list: seq<SavedConfig>, id: string, i: int) {
    0 <= i < |list| && list[i].id == id && forall j :: 0 <= j < i ==> list[j].id != id
  }

  /** The first entry with the given id, if any (`find`). */
  function FindById(list: seq<SavedConfig>, id: string): (r: Option<SavedConfig>)
    ensures r.None? <==> forall i :: 0 <= i < |list| ==> list[i].id != id
    ensures r.Some? ==> exists i :: FirstWithId(list, id, i) && list[i] == r.value
    decreases |list|
  {
    if |list| == 0 then None
    else if list[0].id == id then Some(list[0])
    else
      var r := FindById(list[1..], id);
      assert forall i :: 1 <= i < |list| ==> list[i] == list[1..][i - 1];
      r
  }

  /** Makes the preset with that id the current configuration and stores it;
      an unknown id changes nothing. */
  function ApplyPreset(p: Panel, s: Store, id: string): (r: Step)
    ensures (forall i :: 0 <= i < |p.saved| ==> p.saved[i].id != id) ==> r == Step(p, s)
    ensures forall i :: FirstWithId(p.saved, id, i) ==>
      r.panel == p.(config := p.saved[i].config) && r.store == SaveConfig(s, p.saved[i].config)
  {
    match FindById(p.saved, id)
    case None => Step(p, s)
    case Some(item) => Step(p.(config := item.config), SaveConfig(s, item.config))
  }

  /** Deletes the presets with that id and refreshes the shown list. */
  function RemovePreset(p: Panel, s: Store, id: string): (r: Step)
    ensures LoadSavedConfigs(r.store) == RemoveId(LoadSavedConfigs(s), id)
    ensures r.panel == p.(saved := LoadSavedConfigs(r.store))
    ensures r.store.config == s.config && r.store.scores == s.scores
  {
    var s' := DeleteSavedConfig(s, id);
    Step(p.(saved := LoadSavedConfigs(s')), s')
  }

  /** No two entries have field-equal configurations. */
  predicate NoTwoSame(list: seq<SavedConfig>) {
    forall i, j :: 0 <= i < j < |list| ==> !SameConfig(list[i].config, list[j].config)
  }

  /** At most four presets, no two with field-equal configurations, each one an
      allowed combination. */
  predicate PresetsOk(list: seq<SavedConfig>) {
    && |list| <= MaxSaved && NoTwoSame(list)
    && forall i :: 0 <= i < |list| ==> Allowed(list[i].config)
  }

  /** The screen shows what the store holds, that list is well formed, and the
      current configuration is an allowed combination. */
  predicate PanelInv(p: Panel, s: Store) {
    p.saved == LoadSavedConfigs(s) && PresetsOk(p.saved) && Allowed(p.config)
  }

  lemma MountEstablishes(s: Store, c: GameConfig)
    requires PresetsOk(LoadSavedConfigs(s)) && Allowed(c)
    ensures PanelInv(Mount(s, c), s)
  {
  }

  lemma DoSavePreserves(p: Panel, s: Store, id: string, now: int)
    requires PanelInv(p, s)
    ensures PanelInv(DoSave(p, s, id, now).panel, DoSave(p, s, id, now).store)
  {
    if !IsSaveDisabled(p) {
      var r := DoSave(p, s, id, now);
      var entry := SavedConfig(id, ChosenName(p.saveName, |p.saved|), p.config, now);
      var after := [entry] + p.saved;
      assert LoadSavedConfigs(r.store) == after;
      forall i, j | 0 <= i < j < |after| ensures !SameConfig(after[i].config, after[j].config) {
        if i == 0 {
          assert after[j] == p.saved[j - 1];
          assert !SameConfig(p.saved[j - 1].config, p.config);
        } else {
          assert after[i] == p.saved[i - 1] && after[j] == p.saved[j - 1];
        }
      }
    }
  }

  lemma NoTwoSameTail(list: seq<SavedConfig>)
    requires |list| > 0 && NoTwoSame(list)
    ensures NoTwoSame(list[1..])
    ensures forall x :: x in list[1..] ==> !SameConfig(list[0].config, x.config)
  {
    var tail := list[1..];
    forall i, j | 0 <= i < j < |tail| ensures !SameConfig(tail[i].config, tail[j].config) {
      assert tail[i] == list[i + 1] && tail[j] == list[j + 1];
    }
    forall x | x in tail ensures !SameConfig(list[0].config, x.config) {
      var k :| 0 <= k < |tail| && tail[k] == x;
      assert list[k + 1] == x;
    }
  }

  lemma NoTwoSameCons(x: SavedConfig, rest: seq<SavedConfig>)
    requires NoTwoSame(rest)
    requires forall y :: y in rest ==> !SameConfig(x.config, y.config)
    ensures NoTwoSame([x] + rest)
  {
    var r := [x] + rest;
    forall i, j | 0 <= i < j < |r| ensures !SameConfig(r[i].config, r[j].config) {
      assert r[j] == rest[j - 1];
      if i > 0 { assert r[i] == rest[i - 1]; }
    }
  }

  lemma {:induction false} RemoveIdPreservesNoTwoSame(list: seq<SavedConfig>, id: string)
    requires NoTwoSame(list)
    ensures NoTwoSame(RemoveId(list, id))
    decreases |list|
  {
    if |list| > 0 {
      NoTwoSameTail(list);
      RemoveIdPreservesNoTwoSame(list[1..], id);
      if list[0].id != id {
        NoTwoSameCons(list[0], RemoveId(list[1..], id));
      }
    }
  }

  lemma RemovePresetPreserves(p: Panel, s: Store, id: string)
    requires PanelInv(p, s)
    ensures PanelInv(RemovePreset(p, s, id).panel, RemovePreset(p, s, id).store)
  {
    RemoveIdPreservesNoTwoSame(p.saved, id);
    var kept := RemoveId(p.saved, id);
    forall i | 0 <= i < |kept| ensures Allowed(kept[i].config) {
      assert kept[i] in p.saved;
    }
  }

  /** What the user can do on the screen: click one of the option buttons, open
      the name dialog, type in it, cancel or confirm it, and click a preset card
      or its delete button. */
  datatype Action =
    | ClickControlMode(controlMode: ControlMode)
    | ClickGridSize(size: int)
    | ClickPicksCount(picks: int)
    | ClickTargetMax(ceiling: int)
    | ClickWrongMode(wrongMode: WrongMode)
    | OpenDialog
    | TypeName(name: string)
    | Cancel
    | Save(id: string, now: int)
    | Apply(id: string)
    | Remove(id: string)

  /** Actions that belong to the name dialog. */
  predicate InDialog(a: Action) {
    a.TypeName? || a.Cancel? || a.Save?
  }

  /** An action the screen cannot receive in its present state. The dialog's
      own controls exist only while it is open. While it is open, its overlay
      stops pointer clicks on the screen behind it, but keyboard focus still
      reaches the buttons there; a preset card is a `div` with no tab stop,
      so it stays out of reach. */
  predicate Unreachable(p: Panel, a: Action) {
    (InDialog(a) && !p.showSave) || (a.Apply? && p.showSave)
  }

  /** One action. An action the screen cannot receive changes nothing; any
      other goes to its handler, as `Route` gives it. */
  function Dispatch(p: Panel, s: Store, a: Action): (r: Step)
    ensures Unreachable(p, a) ==> r == Step(p, s)
    ensures !Unreachable(p, a) ==> r == Route(p, s, a)
    ensures a.ClickPicksCount? && a.picks !in PicksOptionsForSize(p.config.gridSize) ==> r == Step(p, s)
    ensures a.ClickTargetMax? && a.ceiling !in TargetMaxOptionsForSize(p.config.gridSize) ==> r == Step(p, s)
    ensures a.ClickGridSize? && a.size !in GridSizeOptions ==> r == Step(p, s)
    ensures p.showSave && a.TypeName? ==> r == Step(p.(saveName := a.name), s)
    ensures p.showSave && a.Cancel? ==> r == Step(p.(showSave := false), s)
    ensures p.showSave && a.Save? ==> r == DoSave(p, s, a.id, a.now)
    ensures !p.showSave && a.Apply? ==> r == ApplyPreset(p, s, a.id)
    ensures a.Remove? ==> r == RemovePreset(p, s, a.id)
    ensures a.OpenDialog? ==> r == Step(OpenSave(p, s), s)
    ensures a.ClickControlMode? ==> r == UpdateSetting(p, s, SetControlMode(a.controlMode))
    ensures a.ClickWrongMode? ==> r == UpdateSetting(p, s, SetWrongMode(a.wrongMode))
    ensures a.ClickGridSize? && a.size in GridSizeOptions ==>
      r == UpdateSetting(p, s, SetGridSize(a.size))
    ensures a.ClickPicksCount? && a.picks in PicksOptionsForSize(p.config.gridSize) ==>
      r == UpdateSetting(p, s, SetPicksCount(a.picks))
    ensures a.ClickTargetMax? && a.ceiling in TargetMaxOptionsForSize(p.config.gridSize) ==>
      r == UpdateSetting(p, s, SetTargetMax(a.ceiling))
  {
    if Unreachable(p, a) then Step(p, s) else Route(p, s, a)
  }

  /** The handler of each control. A grid size without a button, and a
      disabled pick-count or ceiling button (a value the current grid size
      does not allow), change nothing. */
  function Route(p: Panel, s: Store, a: Action): (r: Step)
    ensures a.ClickPicksCount? && a.picks !in PicksOptionsForSize(p.config.gridSize) ==> r == Step(p, s)
    ensures a.ClickTargetMax? && a.ceiling !in TargetMaxOptionsForSize(p.config.gridSize) ==> r == Step(p, s)
    ensures a.ClickGridSize? && a.size !in GridSizeOptions ==> r == Step(p, s)
    ensures a.TypeName? ==> r == Step(p.(saveName := a.name), s)
    ensures a.Cancel? ==> r == Step(p.(showSave := false), s)
    ensures a.Save? ==> r == DoSave(p, s, a.id, a.now)
    ensures a.Apply? ==> r == ApplyPreset(p, s, a.id)
    ensures a.Remove? ==> r == RemovePreset(p, s, a.id)
    ensures a.OpenDialog? ==> r == Step(OpenSave(p, s), s)
    ensures a.ClickControlMode? ==> r == UpdateSetting(p, s, SetControlMode(a.controlMode))
    ensures a.ClickWrongMode? ==> r == UpdateSetting(p, s, SetWrongMode(a.wrongMode))
    ensures a.ClickGridSize? && a.size in GridSizeOptions ==>
      r == UpdateSetting(p, s, SetGridSize(a.size))
    ensures a.ClickPicksCount? && a.picks in PicksOptionsForSize(p.config.gridSize) ==>
      r == UpdateSetting(p, s, SetPicksCount(a.picks))
    ensures a.ClickTargetMax? && a.ceiling in TargetMaxOptionsForSize(p.config.gridSize) ==>
      r == UpdateSetting(p, s, SetTargetMax(a.ceiling))
  {
    match a
    case ClickControlMode(m) => UpdateSetting(p, s, SetControlMode(m))
    case ClickGridSize(g) =>
      if g in GridSizeOptions then UpdateSetting(p, s, SetGridSize(g)) else Step(p, s)
    case ClickPicksCount(k) =>
      if k in PicksOptionsForSize(p.config.gridSize) then UpdateSetting(p, s, SetPicksCount(k))
      else Step(p, s)
    case ClickTargetMax(t) =>
      if t in TargetMaxOptionsForSize(p.config.gridSize) then UpdateSetting(p, s, SetTargetMax(t))
      else Step(p, s)
    case ClickWrongMode(m) => UpdateSetting(p, s, SetWrongMode(m))
    case OpenDialog => Step(OpenSave(p, s), s)
    case TypeName(name) => Step(p.(saveName := name), s)
    case Cancel => Step(p.(showSave := false), s)
    case Save(id, now) => DoSave(p, s, id, now)
    case Apply(id) => ApplyPreset(p, s, id)
    case Remove(id) => RemovePreset(p, s, id)
  }

  function Run(p: Panel, s: Store, actions: seq<Action>): Step
    decreases |actions|
  {
    if |actions| == 0 then Step(p, s)
    else
      var st := Dispatch(p, s, actions[0]);
      Run(st.panel, st.store, actions[1..])
  }

  /** No action makes the current configuration a combination the grid size
      does not allow, as long as every preset is an allowed one. */
  lemma ClickKeepsAllowed(p: Panel, s: Store, a: Action)
    requires Allowed(p.config)
    requires forall i :: 0 <= i < |p.saved| ==> Allowed(p.saved[i].config)
    ensures Allowed(Dispatch(p, s, a).panel.config)
  {
    if !Unreachable(p, a) {
      RouteKeepsAllowed(p, s, a);
    }
  }

  lemma RouteKeepsAllowed(p: Panel, s: Store, a: Action)
    requires Allowed(p.config)
    requires forall i :: 0 <= i < |p.saved| ==> Allowed(p.saved[i].config)
    ensures Allowed(Route(p, s, a).panel.config)
  {
    match a
    case ClickControlMode(m) =>
      assert Route(p, s, a).panel.config == p.config.(controlMode := m);
    case ClickWrongMode(m) =>
      assert Route(p, s, a).panel.config == p.config.(wrongMode := m);
    case ClickPicksCount(k) =>
      if k in PicksOptionsForSize(p.config.gridSize) {
        assert Route(p, s, a).panel.config == p.config.(picksCount := k);
      }
    case ClickTargetMax(t) =>
      if t in TargetMaxOptionsForSize(p.config.gridSize) {
        assert Route(p, s, a).panel.config == p.config.(targetMax := t);
      }
    case Apply(id) => ApplyKeepsAllowed(p, s, id);
    case _ =>
  }

  /** A preset applied is one of the shown ones, so it is an allowed combination. */
  lemma ApplyKeepsAllowed(p: Panel, s: Store, id: string)
    requires Allowed(p.config)
    requires forall i :: 0 <= i < |p.saved| ==> Allowed(p.saved[i].config)
    ensures Allowed(ApplyPreset(p, s, id).panel.config)
  {
    var found := FindById(p.saved, id);
    if found.Some? {
      var i :| FirstWithId(p.saved, id, i) && p.saved[i] == found.value;
    }
  }

  lemma DispatchPreserves(p: Panel, s: Store, a: Action)
    requires PanelInv(p, s)
    ensures PanelInv(Dispatch(p, s, a).panel, Dispatch(p, s, a).store)
  {
    if !Unreachable(p, a) {
      RoutePreserves(p, s, a);
    }
  }

  lemma RoutePreserves(p: Panel, s: Store, a: Action)
    requires PanelInv(p, s)
    ensures PanelInv(Route(p, s, a).panel, Route(p, s, a).store)
  {
    RouteKeepsAllowed(p, s, a);
    match a
    case Save(id, now) => DoSavePreserves(p, s, id, now);
    case Remove(id) => RemovePresetPreserves(p, s, id);
    case _ =>
  }

  /** Whatever the user does on the screen, the shown list matches the store,
      holds at most four allowed presets, no two of them field-equal, and the
      current configuration stays allowed. */
  lemma {:induction false} RunPreserves(p: Panel, s: Store, actions: seq<Action>)
    requires PanelInv(p, s)
    ensures PanelInv(Run(p, s, actions).panel, Run(p, s, actions).store)
    decreases |actions|
  {
    if |actions| > 0 {
      DispatchPreserves(p, s, actions[0]);
      var st := Dispatch(p, s, actions[0]);
      RunPreserves(st.panel, st.store, actions[1..]);
    }
  }
}

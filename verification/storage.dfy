/** The browser's key-value store, reduced to the three entries the game keeps
    under its versioned prefix: `tmg:v1:config`, `tmg:v1:scores` and
    `tmg:v1:saved-presets`, one field of `Store` each. Each entry is missing
    (never written, removed, or empty), unparsable, or holds a structured value. */
module Storage {
  import opened Config

  datatype Slot<T> = Missing | Unparsable | Parsed(value: T)

  /** Best score per score key. */
  type ScoreTable = map<string, int>

  datatype Store = Store(
    config: Slot<PartialConfig>,
    scores: Slot<ScoreTable>,
    saved: Slot<seq<SavedConfig>>)

  const EmptyStore := Store(Missing, Missing, Missing)

  /** The configuration to start with: stored fields over the defaults, then
      clamped; unreadable data gives the defaults. */
  function LoadConfig(s: Store): (r: GameConfig)
    ensures Allowed(r)
    ensures !s.config.Parsed? ==> r == DefaultConfig
    ensures s.config.Parsed? ==> r == Clamp(MergeOverDefault(s.config.value))
  {
    match s.config
    case Missing => Clamp(MergeOverDefault(EmptyPartial))
    case Unparsable => DefaultConfig
    case Parsed(p) => Clamp(MergeOverDefault(p))
  }

  /** Writes the whole configuration verbatim. */
  function SaveConfig(s: Store, c: GameConfig): (r: Store)
    ensures r.config == Parsed(Full(c))
    ensures r.scores == s.scores && r.saved == s.saved
  {
    s.(config := Parsed(Full(c)))
  }

  /** Loading after saving gives the saved configuration, clamped; an allowed
      configuration comes back unchanged. */
  lemma SaveThenLoad(s: Store, c: GameConfig)
    ensures LoadConfig(SaveConfig(s, c)) == Clamp(c)
    ensures Allowed(c) ==> LoadConfig(SaveConfig(s, c)) == c
  {
    MergeFull(c);
  }

  /** Saved presets; unreadable data counts as an empty list. */
  function LoadSavedConfigs(s: Store): (r: seq<SavedConfig>)
    ensures s.saved.Parsed? ==> r == s.saved.value
    ensures !s.saved.Parsed? ==> r == []
  {
    match s.saved
    case Parsed(list) => list
    case _ => []
  }

  function SaveSavedConfigs(s: Store, list: seq<SavedConfig>): (r: Store)
    ensures LoadSavedConfigs(r) == list
    ensures r.config == s.config && r.scores == s.scores
  {
    s.(saved := Parsed(list))
  }

  /** The score table; unreadable data counts as an empty table. */
  function LoadScoreTable(s: Store): (r: ScoreTable)
    ensures s.scores.Parsed? ==> r == s.scores.value
    ensures !s.scores.Parsed? ==> r == map[]
  {
    match s.scores
    case Parsed(t) => t
    case _ => map[]
  }

  /** Removes all three entries. */
  function ResetAllData(s: Store): (r: Store)
    ensures LoadConfig(r) == DefaultConfig
    ensures LoadSavedConfigs(r) == []
    ensures LoadScoreTable(r) == map[]
  {
    EmptyStore
  }
}

/** Game configuration: the six settings of one play mode, the option lists the
    settings screen offers per grid size, and the clamping rule that keeps a
    configuration within those lists. */
module Config {
  import opened Wrappers

  datatype WrongMode = Keep | Reroll
  datatype ControlMode = Mouse | Keyboard

  /** One play mode. The numeric fields are plain integers because stored data
      is merged in without checking them; only picksCount and targetMax are
      brought back into range, and gridSize is taken as it comes. */
  datatype GameConfig = GameConfig(
    gridSize: int,
    picksCount: int,
    targetMax: int,
    seconds: int,
    wrongMode: WrongMode,
    controlMode: ControlMode)

  const DefaultConfig := GameConfig(3, 3, 20, 60, Keep, Mouse)

  /** The grid sizes the settings screen offers. */
  const GridSizeOptions: seq<int> := [3, 4, 5]

  const AllPicksOptions: seq<int> := [3, 4, 5]
  const AllTargetMaxOptions: seq<int> := [20, 25, 30, 35, 40]

  /** Pick counts allowed on a board of `size`; unknown sizes get the widest list. */
  function PicksOptionsForSize(size: int): (r: seq<int>)
    ensures 1 <= |r| <= |AllPicksOptions| && r == AllPicksOptions[..|r|]
    ensures size == 3 ==> |r| == 1
    ensures size == 4 ==> |r| == 2
    ensures size != 3 && size != 4 ==> |r| == 3
  {
    if size == 3 then [3]
    else if size == 4 then [3, 4]
    else [3, 4, 5]
  }

  /** Target ceilings allowed on a board of `size`; unknown sizes get the widest list. */
  function TargetMaxOptionsForSize(size: int): (r: seq<int>)
    ensures 3 <= |r| <= |AllTargetMaxOptions| && r == AllTargetMaxOptions[..|r|]
    ensures size == 3 ==> |r| == 3
    ensures size == 4 ==> |r| == 4
    ensures size != 3 && size != 4 ==> |r| == 5
    ensures forall i :: 0 <= i < |r| ==> r[i] >= 20
  {
    if size == 3 then [20, 25, 30]
    else if size == 4 then [20, 25, 30, 35]
    else [20, 25, 30, 35, 40]
  }

  /** A larger board never loses an option a smaller one has (sizes below 3 are
      not compared: they fall into the widest branch). */
  lemma OptionsGrowWithSize(small: int, large: int)
    requires 3 <= small <= large
    ensures forall x :: x in PicksOptionsForSize(small) ==> x in PicksOptionsForSize(large)
    ensures forall x :: x in TargetMaxOptionsForSize(small) ==> x in TargetMaxOptionsForSize(large)
  {
  }

  /** The combination the settings screen and the loader promise to hand out. */
  predicate Allowed(c: GameConfig) {
    c.picksCount in PicksOptionsForSize(c.gridSize)
    && c.targetMax in TargetMaxOptionsForSize(c.gridSize)
  }

  /** `value` if the list allows it, otherwise the list's first entry. */
  function ClampTo(value: int, allowed: seq<int>): (r: int)
    requires |allowed| > 0
    ensures r in allowed
    ensures value in allowed ==> r == value
    ensures value !in allowed ==> r == allowed[0]
  {
    if value in allowed then value else allowed[0]
  }

  /** Replaces a picksCount or targetMax that the grid size does not allow with
      the first allowed value; every other field is kept. */
  function Clamp(c: GameConfig): (r: GameConfig)
    ensures Allowed(r)
    ensures r.gridSize == c.gridSize && r.seconds == c.seconds
    ensures r.wrongMode == c.wrongMode && r.controlMode == c.controlMode
    ensures r.picksCount == (if c.picksCount in PicksOptionsForSize(c.gridSize) then c.picksCount else 3)
    ensures r.targetMax == (if c.targetMax in TargetMaxOptionsForSize(c.gridSize) then c.targetMax else 20)
    ensures Allowed(c) ==> r == c
  {
    c.(picksCount := ClampTo(c.picksCount, PicksOptionsForSize(c.gridSize)),
       targetMax := ClampTo(c.targetMax, TargetMaxOptionsForSize(c.gridSize)))
  }

  lemma ClampIdempotent(c: GameConfig)
    ensures Clamp(Clamp(c)) == Clamp(c)
  {
  }

  lemma DefaultAllowed()
    ensures Allowed(DefaultConfig)
    ensures Clamp(DefaultConfig) == DefaultConfig
  {
  }

  /** Stored configuration data: each field may be missing. */
  datatype PartialConfig = PartialConfig(
    gridSize: Option<int>,
    picksCount: Option<int>,
    targetMax: Option<int>,
    seconds: Option<int>,
    wrongMode: Option<WrongMode>,
    controlMode: Option<ControlMode>)

  const EmptyPartial := PartialConfig(None, None, None, None, None, None)

  /** Every field present, as `JSON.stringify` writes a full configuration. */
  function Full(c: GameConfig): PartialConfig {
    PartialConfig(Some(c.gridSize), Some(c.picksCount), Some(c.targetMax),
                  Some(c.seconds), Some(c.wrongMode), Some(c.controlMode))
  }

  /** Stored fields laid over the defaults, as `{ ...DEFAULT_CONFIG, ...parsed }`. */
  function MergeOverDefault(p: PartialConfig): (r: GameConfig)
    ensures p.gridSize.None? ==> r.gridSize == DefaultConfig.gridSize
    ensures p.gridSize.Some? ==> r.gridSize == p.gridSize.value
    ensures p.picksCount.None? ==> r.picksCount == DefaultConfig.picksCount
    ensures p.picksCount.Some? ==> r.picksCount == p.picksCount.value
    ensures p.targetMax.None? ==> r.targetMax == DefaultConfig.targetMax
    ensures p.targetMax.Some? ==> r.targetMax == p.targetMax.value
    ensures p.seconds.None? ==> r.seconds == DefaultConfig.seconds
    ensures p.seconds.Some? ==> r.seconds == p.seconds.value
    ensures p.wrongMode.None? ==> r.wrongMode == DefaultConfig.wrongMode
    ensures p.wrongMode.Some? ==> r.wrongMode == p.wrongMode.value
    ensures p.controlMode.None? ==> r.controlMode == DefaultConfig.controlMode
    ensures p.controlMode.Some? ==> r.controlMode == p.controlMode.value
  {
    GameConfig(
      p.gridSize.GetOr(DefaultConfig.gridSize),
      p.picksCount.GetOr(DefaultConfig.picksCount),
      p.targetMax.GetOr(DefaultConfig.targetMax),
      p.seconds.GetOr(DefaultConfig.seconds),
      p.wrongMode.GetOr(DefaultConfig.wrongMode),
      p.controlMode.GetOr(DefaultConfig.controlMode))
  }

  lemma MergeFull(c: GameConfig)
    ensures MergeOverDefault(Full(c)) == c
  {
  }

  /** A named snapshot of a configuration. */
  datatype SavedConfig = SavedConfig(id: string, name: string, config: GameConfig, createdAt: int)

  const MaxSaved := 4
}

/** Per-configuration high scores. A score key names five of the six settings
    (the control mode is left out), and the table keeps the best score seen
    under each key. */
module HighScores {
  import opened Wrappers
  import opened Decimal
  import opened Strings
  import opened Config
  import opened Storage

  function WrongModeName(w: WrongMode): string {
    match w
    case Keep => "keep"
    case Reroll => "reroll"
  }

  function ParseWrongMode(s: string): Option<WrongMode> {
    if s == "keep" then Some(Keep)
    else if s == "reroll" then Some(Reroll)
    else None
  }

  /** The settings a score key is made of. */
  datatype Fingerprint = Fingerprint(
    gridSize: int, picksCount: int, targetMax: int, seconds: int, wrongMode: WrongMode)

  function FingerprintOf(c: GameConfig): Fingerprint {
    Fingerprint(c.gridSize, c.picksCount, c.targetMax, c.seconds, c.wrongMode)
  }

  function ScoreKeyParts(c: GameConfig): seq<string> {
    [ "g" + IntToString(c.gridSize),
      "k" + IntToString(c.picksCount),
      "t" + IntToString(c.targetMax),
      "s" + IntToString(c.seconds),
      "w" + WrongModeName(c.wrongMode) ]
  }

  /** The table key of a configuration, e.g. "g3|k3|t20|s60|wkeep": the five
      tagged fields joined by '|', which none of them contains. */
  function ScoreKey(c: GameConfig): (r: string)
    ensures Split(r, '|') == ScoreKeyParts(c)
  {
    var parts := ScoreKeyParts(c);
    PartsFreeOfBar(c);
    SplitJoin(parts, '|');
    Join(parts, '|')
  }

  lemma PartsFreeOfBar(c: GameConfig)
    ensures var parts := ScoreKeyParts(c);
      |parts| == 5 && forall i :: 0 <= i < |parts| ==> '|' !in parts[i]
  {
    TaggedRoundTrip('g', c.gridSize);
    TaggedRoundTrip('k', c.picksCount);
    TaggedRoundTrip('t', c.targetMax);
    TaggedRoundTrip('s', c.seconds);
    ModePartFreeOfBar(c.wrongMode);
    FiveFreeOfBar("g" + IntToString(c.gridSize), "k" + IntToString(c.picksCount),
                  "t" + IntToString(c.targetMax), "s" + IntToString(c.seconds),
                  "w" + WrongModeName(c.wrongMode));
  }

  lemma ModePartFreeOfBar(w: WrongMode)
    ensures '|' !in "w" + WrongModeName(w)
  {
    match w
    case Keep => assert "w" + WrongModeName(w) == "wkeep";
    case Reroll => assert "w" + WrongModeName(w) == "wreroll";
  }

  lemma FiveFreeOfBar(a: string, b: string, c: string, d: string, e: string)
    requires '|' !in a && '|' !in b && '|' !in c && '|' !in d && '|' !in e
    ensures forall i :: 0 <= i < 5 ==> '|' !in [a, b, c, d, e][i]
  {
    var parts := [a, b, c, d, e];
    forall i | 0 <= i < 5 ensures '|' !in parts[i] {
      assert i == 0 || i == 1 || i == 2 || i == 3 || i == 4;
    }
  }

  /** A key holds exactly four separators, one between neighbouring fields. */
  lemma ScoreKeySeparators(c: GameConfig)
    ensures Count(ScoreKey(c), '|') == 4
  {
    PartsFreeOfBar(c);
    JoinCount(ScoreKeyParts(c), '|');
  }

  /** A tagged integer field such as "k4". */
  function ParseTagged(part: string, tag: char): Option<int> {
    if |part| >= 1 && part[0] == tag then ParseInt(part[1..]) else None
  }

  /** Decoder for `ScoreKey`. */
  function ParseScoreKey(key: string): Option<Fingerprint> {
    var parts := Split(key, '|');
    if |parts| != 5 then None
    else
      match (ParseTagged(parts[0], 'g'), ParseTagged(parts[1], 'k'), ParseTagged(parts[2], 't'),
             ParseTagged(parts[3], 's'))
      case (Some(g), Some(k), Some(t), Some(sec)) =>
        if |parts[4]| >= 1 && parts[4][0] == 'w' then
          match ParseWrongMode(parts[4][1..])
          case Some(w) => Some(Fingerprint(g, k, t, sec, w))
          case None => None
        else None
      case _ => None
  }

  lemma TaggedRoundTrip(tag: char, i: int)
    ensures ParseTagged([tag] + IntToString(i), tag) == Some(i)
    ensures '|' != tag ==> '|' !in [tag] + IntToString(i)
  {
    assert ([tag] + IntToString(i))[1..] == IntToString(i);
    IntToStringRoundTrip(i);
  }

  /** A score key can be read back into the five settings it was made from. */
  lemma ScoreKeyRoundTrip(c: GameConfig)
    ensures ParseScoreKey(ScoreKey(c)) == Some(FingerprintOf(c))
  {
    ParseFromParts(ScoreKey(c), c);
  }

  /** Any string that splits into the five tagged fields decodes to them. */
  lemma ParseFromParts(key: string, c: GameConfig)
    requires Split(key, '|') == ScoreKeyParts(c)
    ensures ParseScoreKey(key) == Some(FingerprintOf(c))
  {
    TaggedRoundTrip('g', c.gridSize);
    TaggedRoundTrip('k', c.picksCount);
    TaggedRoundTrip('t', c.targetMax);
    TaggedRoundTrip('s', c.seconds);
    ModePartParses(c.wrongMode);
    ParseFields(key, "g" + IntToString(c.gridSize), "k" + IntToString(c.picksCount),
                "t" + IntToString(c.targetMax), "s" + IntToString(c.seconds),
                "w" + WrongModeName(c.wrongMode), FingerprintOf(c));
  }

  lemma ModePartParses(w: WrongMode)
    ensures var part := "w" + WrongModeName(w);
      |part| >= 1 && part[0] == 'w' && ParseWrongMode(part[1..]) == Some(w)
  {
    var part := "w" + WrongModeName(w);
    assert part[1..] == WrongModeName(w);
  }

  /** Five parts that each decode to their field decode together. */
  lemma ParseFields(key: string, g: string, k: string, t: string, s: string, w: string,
                    f: Fingerprint)
    requires Split(key, '|') == [g, k, t, s, w]
    requires ParseTagged(g, 'g') == Some(f.gridSize)
    requires ParseTagged(k, 'k') == Some(f.picksCount)
    requires ParseTagged(t, 't') == Some(f.targetMax)
    requires ParseTagged(s, 's') == Some(f.seconds)
    requires |w| >= 1 && w[0] == 'w' && ParseWrongMode(w[1..]) == Some(f.wrongMode)
    ensures ParseScoreKey(key) == Some(f)
  {
  }

  /** Two configurations share a score key exactly when they agree on grid size,
      pick count, target ceiling, seconds and wrong-answer mode; the control
      mode plays no part. */
  lemma ScoreKeyIffSameFingerprint(a: GameConfig, b: GameConfig)
    ensures ScoreKey(a) == ScoreKey(b) <==> FingerprintOf(a) == FingerprintOf(b)
  {
    if ScoreKey(a) == ScoreKey(b) {
      ScoreKeyRoundTrip(a);
      ScoreKeyRoundTrip(b);
    }
  }

  /** The score stored under `key`, or 0 when there is none. */
  function ScoreAt(t: ScoreTable, key: string): int {
    if key in t then t[key] else 0
  }

  /** The stored best for the configuration: 0 when the table is absent or
      unreadable or has no entry under the configuration's key. */
  function LoadHighScore(s: Store, c: GameConfig): (r: int)
    ensures !s.scores.Parsed? ==> r == 0
    ensures s.scores.Parsed? && ScoreKey(c) !in s.scores.value ==> r == 0
    ensures s.scores.Parsed? && ScoreKey(c) in s.scores.value ==> r == s.scores.value[ScoreKey(c)]
  {
    ScoreAt(LoadScoreTable(s), ScoreKey(c))
  }

  function Max(a: int, b: int): int {
    if a >= b then a else b
  }

  datatype Best = Best(best: int, store: Store)

  /** Records `score` if it beats the stored one and returns the best of the two. */
  function UpdateHighScoreIfBest(s: Store, c: GameConfig, score: int): (r: Best)
    ensures r.best >= score && r.best >= LoadHighScore(s, c)
    ensures r.best == score || r.best == LoadHighScore(s, c)
    ensures LoadHighScore(r.store, c) == r.best
    ensures LoadScoreTable(r.store).Keys == LoadScoreTable(s).Keys + {ScoreKey(c)}
    ensures forall key :: key != ScoreKey(c) ==>
      ScoreAt(LoadScoreTable(r.store), key) == ScoreAt(LoadScoreTable(s), key)
    ensures r.store.config == s.config && r.store.saved == s.saved
  {
    var key := ScoreKey(c);
    var table := LoadScoreTable(s);
    var best := Max(score, ScoreAt(table, key));
    Best(best, s.(scores := Parsed(table[key := best])))
  }

  /** An update for one configuration leaves the high score of every
      configuration with a different fingerprint as it was. */
  lemma UpdateLeavesOtherConfigs(s: Store, c: GameConfig, score: int, other: GameConfig)
    requires FingerprintOf(other) != FingerprintOf(c)
    ensures LoadHighScore(UpdateHighScoreIfBest(s, c, score).store, other) == LoadHighScore(s, other)
  {
    ScoreKeyIffSameFingerprint(c, other);
  }

  /** The store after recording each of `scores` in turn. */
  function UpdateAll(s: Store, c: GameConfig, scores: seq<int>): Store
    decreases |scores|
  {
    if |scores| == 0 then s
    else UpdateAll(UpdateHighScoreIfBest(s, c, scores[0]).store, c, scores[1..])
  }

  /** The values those updates return, one per score. */
  function Bests(s: Store, c: GameConfig, scores: seq<int>): (r: seq<int>)
    ensures |r| == |scores|
    decreases |scores|
  {
    if |scores| == 0 then []
    else
      var u := UpdateHighScoreIfBest(s, c, scores[0]);
      [u.best] + Bests(u.store, c, scores[1..])
  }

  /** `start` raised to the largest of `scores`. */
  function MaxOf(start: int, scores: seq<int>): int
    decreases |scores|
  {
    if |scores| == 0 then start else MaxOf(Max(start, scores[0]), scores[1..])
  }

  /** After a run of updates the stored best is the largest of the initial
      best and all recorded scores. */
  lemma {:induction false} UpdateAllKeepsMax(s: Store, c: GameConfig, scores: seq<int>)
    ensures LoadHighScore(UpdateAll(s, c, scores), c) == MaxOf(LoadHighScore(s, c), scores)
    decreases |scores|
  {
    if |scores| > 0 {
      var u := UpdateHighScoreIfBest(s, c, scores[0]);
      UpdateAllKeepsMax(u.store, c, scores[1..]);
    }
  }

  lemma {:induction false} BestsAtLeastStored(s: Store, c: GameConfig, scores: seq<int>)
    ensures forall i :: 0 <= i < |scores| ==> Bests(s, c, scores)[i] >= LoadHighScore(s, c)
    decreases |scores|
  {
    if |scores| > 0 {
      var u := UpdateHighScoreIfBest(s, c, scores[0]);
      BestsAtLeastStored(u.store, c, scores[1..]);
    }
  }

  /** The values returned by successive updates never decrease. */
  lemma {:induction false} BestsNonDecreasing(s: Store, c: GameConfig, scores: seq<int>)
    ensures forall i, j :: 0 <= i < j < |scores| ==> Bests(s, c, scores)[i] <= Bests(s, c, scores)[j]
    decreases |scores|
  {
    if |scores| > 0 {
      var u := UpdateHighScoreIfBest(s, c, scores[0]);
      var b := Bests(s, c, scores);
      var rest := Bests(u.store, c, scores[1..]);
      BestsNonDecreasing(u.store, c, scores[1..]);
      BestsAtLeastStored(u.store, c, scores[1..]);
      assert b == [u.best] + rest;
      forall i, j | 0 <= i < j < |scores| ensures b[i] <= b[j] {
        assert b[j] == rest[j - 1];
        if i > 0 { assert b[i] == rest[i - 1]; }
      }
    }
  }

  /** After a reset every configuration's high score reads 0. */
  lemma ResetClearsHighScores(s: Store, c: GameConfig)
    ensures LoadHighScore(ResetAllData(s), c) == 0
  {
  }
}

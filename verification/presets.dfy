/** The saved-preset list: at most four named configurations, newest first. */
module Presets {
  import opened Config
  import opened Storage

  /** The first `n` entries, or all of them when there are fewer (`slice(0, n)`). */
  function Take<T>(s: seq<T>, n: nat): (r: seq<T>)
    ensures |r| == if |s| <= n then |s| else n
    ensures r == s[..|r|]
  {
    if |s| <= n then s else s[..n]
  }

  /** Stores a new entry in front of the saved list and keeps the first four.
      The id and timestamp come from the caller; duplicates are not checked here. */
  function AddSavedConfig(s: Store, name: string, c: GameConfig, id: string, now: int): (r: Store)
    ensures var before := LoadSavedConfigs(s);
      var after := LoadSavedConfigs(r);
      && |after| == (if |before| + 1 <= MaxSaved then |before| + 1 else MaxSaved)
      && after[0] == SavedConfig(id, name, c, now)
      && after[1..] == before[..|after| - 1]
    ensures r.config == s.config && r.scores == s.scores
  {
    var list := LoadSavedConfigs(s);
    SaveSavedConfigs(s, Take([SavedConfig(id, name, c, now)] + list, MaxSaved))
  }

  /** `list` without the entries whose id is `id`, order kept (`filter`). */
  function RemoveId(list: seq<SavedConfig>, id: string): (r: seq<SavedConfig>)
    ensures |r| <= |list|
    ensures forall i :: 0 <= i < |r| ==> r[i].id != id && r[i] in list
    ensures forall x :: x in list && x.id != id ==> x in r
    ensures forall x :: multiset(r)[x] == if x.id == id then 0 else multiset(list)[x]
    decreases |list|
  {
    if |list| == 0 then []
    else
      var head := if list[0].id != id then [list[0]] else [];
      assert list == [list[0]] + list[1..];
      head + RemoveId(list[1..], id)
  }

  /** `a` is `b` with some entries dropped and the rest in their original order. */
  ghost predicate Subsequence<T>(a: seq<T>, b: seq<T>)
    decreases |b|
  {
    if |a| == 0 then true
    else if |b| == 0 then false
    else if a[0] == b[0] then Subsequence(a[1..], b[1..])
    else Subsequence(a, b[1..])
  }

  lemma {:induction false} RemoveIdKeepsOrder(list: seq<SavedConfig>, id: string)
    ensures Subsequence(RemoveId(list, id), list)
    decreases |list|
  {
    if |list| > 0 {
      RemoveIdKeepsOrder(list[1..], id);
      var rest := RemoveId(list[1..], id);
      if list[0].id != id {
        assert RemoveId(list, id) == [list[0]] + rest;
        assert ([list[0]] + rest)[1..] == rest;
      } else {
        assert RemoveId(list, id) == rest;
        SubsequenceOfTail(rest, list);
      }
    }
  }

  lemma {:induction false} SubsequenceOfTail<T>(a: seq<T>, b: seq<T>)
    requires |b| > 0 && Subsequence(a, b[1..])
    ensures Subsequence(a, b)
    decreases |b|, 0
  {
    if |a| > 0 && a[0] == b[0] {
      SubsequenceDropFirst(a, b[1..]);
    }
  }

  lemma {:induction false} SubsequenceDropFirst<T>(a: seq<T>, b: seq<T>)
    requires |a| > 0 && Subsequence(a, b)
    ensures Subsequence(a[1..], b)
    decreases |b|, 1
  {
    if a[0] == b[0] {
      SubsequenceOfTail(a[1..], b);
    } else {
      SubsequenceDropFirst(a, b[1..]);
      SubsequenceOfTail(a[1..], b);
    }
  }

  lemma {:induction false} RemoveIdIdempotent(list: seq<SavedConfig>, id: string)
    ensures RemoveId(RemoveId(list, id), id) == RemoveId(list, id)
    decreases |list|
  {
    if |list| > 0 {
      RemoveIdIdempotent(list[1..], id);
      var rest := RemoveId(list[1..], id);
      if list[0].id != id {
        var once := [list[0]] + rest;
        assert RemoveId(list, id) == once;
        assert once[0] == list[0] && once[1..] == rest;
        assert RemoveId(once, id) == [list[0]] + RemoveId(rest, id);
      } else {
        assert RemoveId(list, id) == rest;
      }
    }
  }

  /** Stores the saved list without the entries carrying `id`. */
  function DeleteSavedConfig(s: Store, id: string): (r: Store)
    ensures LoadSavedConfigs(r) == RemoveId(LoadSavedConfigs(s), id)
    ensures r.config == s.config && r.scores == s.scores
  {
    SaveSavedConfigs(s, RemoveId(LoadSavedConfigs(s), id))
  }

  /** Deleting removes exactly the entries with that id, keeps every other
      entry with its number of copies and in order, and a second delete of the
      same id changes nothing. */
  lemma DeleteSavedConfigSpec(s: Store, id: string)
    ensures var after := LoadSavedConfigs(DeleteSavedConfig(s, id));
      && (forall x :: x in after <==> x in LoadSavedConfigs(s) && x.id != id)
      && (forall x :: multiset(after)[x] == if x.id == id then 0 else multiset(LoadSavedConfigs(s))[x])
      && Subsequence(after, LoadSavedConfigs(s))
      && DeleteSavedConfig(DeleteSavedConfig(s, id), id) == DeleteSavedConfig(s, id)
  {
    RemoveIdKeepsOrder(LoadSavedConfigs(s), id);
    RemoveIdIdempotent(LoadSavedConfigs(s), id);
  }
}

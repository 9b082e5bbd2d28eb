/** The countdown display: a number of seconds rendered as minutes, a colon and
    two-digit seconds. */
module Time {
  import opened Wrappers
  import opened Decimal
  import opened Strings

  /** Two-character seconds field: `sec % 60` left-padded with '0'. */
  function SecondsField(n: nat): string {
    PadStart(NatToString(n), 2, '0')
  }

  /** `r` reads as `minutes`, a colon and the two-digit `seconds`: the colon is
      the only one, the minutes are their plain decimal rendering, and the
      seconds field is two digits with the value `seconds`. */
  predicate ShowsMMSS(r: string, minutes: nat, seconds: nat) {
    && Count(r, ':') == 1
    && |r| >= 4 && r[|r| - 3] == ':'
    && r[..|r| - 3] == NatToString(minutes)
    // implied by the line above through `NatToStringRoundTrip`; kept so that
    // `ParseShown` can read the minutes back without unfolding `NatToString`
    && AllDigits(r[..|r| - 3]) && DigitsValue(r[..|r| - 3]) == minutes
    && AllDigits(r[|r| - 2..]) && DigitsValue(r[|r| - 2..]) == seconds
  }

  /** Renders `sec` as `m:ss`. Negative and fractional seconds are outside the model. */
  function FormatMMSS(sec: nat): (r: string)
    ensures ShowsMMSS(r, sec / 60, sec % 60)
  {
    var m := NatToString(sec / 60);
    var s := SecondsField(sec % 60);
    SecondsFieldValue(sec % 60);
    NatToStringRoundTrip(sec / 60);
    FieldsShow(m, s, sec / 60, sec % 60);
    m + [':'] + s
  }

  lemma FieldsShow(m: string, s: string, minutes: nat, seconds: nat)
    requires m == NatToString(minutes) && DigitsValue(m) == minutes
    requires |s| == 2 && AllDigits(s) && DigitsValue(s) == seconds
    ensures ShowsMMSS(m + [':'] + s, minutes, seconds)
  {
    DisplayFields(m, s);
  }

  /** Two digit fields around a colon: the colon is the fourth character from
      the end and the only one, with the fields on either side of it. */
  lemma DisplayFields(m: string, s: string)
    requires AllDigits(m) && AllDigits(s) && |s| == 2
    ensures var r := m + [':'] + s;
      && Count(r, ':') == 1
      && |r| == |m| + 3 && r[|r| - 3] == ':'
      && r[..|r| - 3] == m && r[|r| - 2..] == s
  {
    var r := m + [':'] + s;
    assert r[..|r| - 3] == m && r[|r| - 2..] == s;
    assert forall i :: 0 <= i < |m| ==> m[i] != ':';
    assert forall i :: 0 <= i < |s| ==> s[i] != ':';
    CountAppend(m + [':'], s, ':');
    CountAppend(m, [':'], ':');
    CountAbsent(m, ':');
    CountAbsent(s, ':');
    assert Count([':'], ':') == 1 by {
      assert [':'][1..] == [];
    }
  }

  lemma SecondsFieldValue(n: nat)
    requires n < 60
    ensures var s := SecondsField(n); |s| == 2 && AllDigits(s) && DigitsValue(s) == n
  {
    var s := SecondsField(n);
    if n < 10 {
      assert s == ['0', DigitChar(n)];
      assert s[..1] == ['0'];
      assert s[..1][..0] == [];
      assert DigitsValue(s[..1]) == 0;
    } else {
      assert s == NatToString(n);
      NatToStringRoundTrip(n);
    }
  }

  /** Reads `m:ss` back as a number of seconds; `None` for anything else. */
  function ParseMMSS(t: string): Option<nat> {
    var parts := Split(t, ':');
    if |parts| == 2 && |parts[1]| == 2 then
      match (ParseNat(parts[0]), ParseNat(parts[1]))
      case (Some(m), Some(s)) => if s < 60 then Some(m * 60 + s) else None
      case _ => None
    else None
  }

  /** Reading the display back gives the seconds it was made from. */
  lemma FormatMMSSRoundTrip(sec: nat)
    ensures ParseMMSS(FormatMMSS(sec)) == Some(sec)
  {
    ParseShown(FormatMMSS(sec), sec);
  }

  /** Any string of the `m:ss` shape parses back to the seconds it shows. */
  lemma ParseShown(r: string, sec: nat)
    requires ShowsMMSS(r, sec / 60, sec % 60)
    ensures ParseMMSS(r) == Some(sec)
  {
    var m, s := r[..|r| - 3], r[|r| - 2..];
    assert r == m + [':'] + s;
    ParseFields(m, s, sec / 60, sec % 60);
  }

  /** Two digit fields around a colon parse back to the seconds they stand for. */
  lemma ParseFields(m: string, s: string, minutes: nat, seconds: nat)
    requires |m| >= 1 && AllDigits(m) && DigitsValue(m) == minutes
    requires |s| == 2 && AllDigits(s) && DigitsValue(s) == seconds && seconds < 60
    ensures ParseMMSS(m + [':'] + s) == Some(minutes * 60 + seconds)
  {
    assert forall i :: 0 <= i < |m| ==> m[i] != ':';
    assert forall i :: 0 <= i < |s| ==> s[i] != ':';
    SplitAtColon(m, s);
  }

  lemma SplitAtColon(m: string, s: string)
    requires ':' !in m && ':' !in s
    ensures Split(m + [':'] + s, ':') == [m, s]
  {
    SplitAfterFirst(m, ':', s);
    assert Join([s], ':') == s;
    SplitJoin([s], ':');
  }

  /** Different second counts never share a display. */
  lemma FormatMMSSInjective(a: nat, b: nat)
    ensures FormatMMSS(a) == FormatMMSS(b) <==> a == b
  {
    if FormatMMSS(a) == FormatMMSS(b) {
      FormatMMSSRoundTrip(a);
      FormatMMSSRoundTrip(b);
    }
  }
}

// The first-visit tutorial's stored dismissal time (apps/web/src/lib/tutorial.js):
// the tutorial opens by itself until a dismissal time that looks like an ISO
// timestamp has been stored.
module Tutorial {
  import opened Results
  import opened Text

  /** The stored value: a string, or anything else (null included). */
  datatype Raw = Str(s: string) | NotString

  /** The text matches `^\d{4}-\d{2}-\d{2}T`: it starts like an ISO timestamp. */
  predicate IsoStart(s: string) {
    |s| >= 11 && AllDigits(s[..4]) && s[4] == '-' && AllDigits(s[5..7]) && s[7] == '-'
    && AllDigits(s[8..10]) && s[10] == 'T'
  }

  /** normalizeDismissedAt: the trimmed text when it starts like an ISO timestamp,
      otherwise null. */
  function NormalizeDismissedAt(raw: Raw): (r: Option<string>)
    ensures raw.NotString? ==> r == None
    ensures raw.Str? ==> (r.Some? <==> IsoStart(Trim(Js, raw.s)))
    ensures r.Some? ==> r.value == Trim(Js, raw.s)
    ensures raw.Str? && AllSpace(Js, raw.s) ==> r == None
  {
    if raw.NotString? then None
    else
      var s := Trim(Js, raw.s);
      if s == "" then None
      else if !IsoStart(s) then None
      else Some(s)
  }

  /**
   * shouldAutoShowTutorial: the tutorial opens by itself exactly when no string
   * is stored, or the stored string, trimmed, does not start like an ISO
   * timestamp.
   */
  function ShouldAutoShowTutorial(raw: Raw): (b: bool)
    ensures b <==> raw.NotString? || !IsoStart(Trim(Js, raw.s))
  {
    NormalizeDismissedAt(raw).None?
  }

  /** A normalized dismissal time normalizes to itself. */
  lemma NormalizeIdempotent(raw: Raw)
    ensures var r := NormalizeDismissedAt(raw);
      r.Some? ==> NormalizeDismissedAt(Str(r.value)) == r
  {
    if raw.Str? {
      TrimIdempotent(Js, raw.s);
    }
  }

  /** A dismissal time with no surrounding white space that starts like an ISO
      timestamp is kept as it is. */
  lemma KeepsTimestamp(s: string)
    requires IsoStart(s) && !IsSpace(Js, s[|s| - 1])
    ensures NormalizeDismissedAt(Str(s)) == Some(s)
  {
    TrimUnchanged(Js, s);
  }

  // The source's tutorial tests.

  lemma RejectExamples(blank: string, word: string)
    requires blank == "  " && word == "not-iso"
    ensures NormalizeDismissedAt(NotString) == None
    ensures NormalizeDismissedAt(Str("")) == None
    ensures NormalizeDismissedAt(Str(blank)) == None
    ensures NormalizeDismissedAt(Str(word)) == None
  {
    assert AllSpace(Js, blank) by {
      assert IsSpace(Js, blank[0]) && IsSpace(Js, blank[1]);
    }
    assert !IsSpace(Js, word[0]) && !IsSpace(Js, word[|word| - 1]);
    TrimUnchanged(Js, word);
    assert !IsDigit(word[0]);
  }

  lemma StampShape(stamp: string)
    requires stamp == "2025-12-22T00:00:00.000Z"
    ensures IsoStart(stamp) && !IsSpace(Js, stamp[|stamp| - 1])
  {
    assert stamp[..4] == "2025" && stamp[5..7] == "12" && stamp[8..10] == "22";
  }

  lemma StampExample(stamp: string)
    requires stamp == "2025-12-22T00:00:00.000Z"
    ensures NormalizeDismissedAt(Str(stamp)) == Some(stamp)
    ensures !ShouldAutoShowTutorial(Str(stamp))
  {
    StampShape(stamp);
    KeepsTimestamp(stamp);
  }
}

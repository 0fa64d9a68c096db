/** The player bar: the `m:ss` clock shown beside the progress bar, and what
    happens when a track finishes. */
module Player {
  import opened Common
  import opened Text
  import opened Store

  /** A media-element time as the clock receives it: not yet known (`NaN`),
      or a whole number of seconds. */
  datatype MediaTime = NaN | Seconds(n: nat)

  /** The two-digit seconds field: a leading zero below ten. */
  function TwoDigits(k: nat): (r: string)
    requires k < 60
    ensures |r| == 2 && AllDigits(r)
    ensures ParseDigits(r) == k
  {
    ParseNatToString(k);
    if k < 10 then
      var d := NatToString(k);
      assert ("0" + d)[..1] == "0";
      "0" + d
    else
      NatToString(k)
  }

  /** `formatTime`: minutes, a colon, and the seconds within the minute.
      The minutes field is not capped, so there is no hour rollover, and it
      is written without leading zeros: it starts with `0` only when it is
      the single digit `0`. */
  function FormatTime(t: MediaTime): (r: string)
    ensures t.NaN? ==> r == "0:00"
    ensures |r| >= 4 && r[|r| - 3] == ':'
    ensures AllDigits(r[..|r| - 3]) && AllDigits(r[|r| - 2..])
    ensures t.Seconds? ==> ParseDigits(r[..|r| - 3]) == t.n / 60
    ensures t.Seconds? ==> ParseDigits(r[|r| - 2..]) == t.n % 60
    ensures r[0] == '0' ==> |r| == 4
    ensures t.Seconds? ==> (r[0] == '0' <==> t.n < 60)
  {
    match t
    case NaN => "0:00"
    case Seconds(n) =>
      var m := NatToString(n / 60);
      var ss := TwoDigits(n % 60);
      ParseNatToString(n / 60);
      var r := m + ":" + ss;
      assert r[..|r| - 3] == m;
      assert r[|r| - 2..] == ss;
      r
  }

  /** Reads an `m:ss` clock back into seconds. */
  function ParseClock(s: string): Option<nat> {
    if |s| >= 4 && s[|s| - 3] == ':' && AllDigits(s[..|s| - 3]) && AllDigits(s[|s| - 2..])
       && ParseDigits(s[|s| - 2..]) < 60
    then Some(ParseDigits(s[..|s| - 3]) * 60 + ParseDigits(s[|s| - 2..]))
    else None
  }

  /** Round trip: the clock always reads back as the whole seconds it was
      given, and its seconds field is always below sixty. */
  lemma ClockRoundTrip(n: nat)
    ensures ParseClock(FormatTime(Seconds(n))) == Some(n)
  {
    ParseClockOfFields(FormatTime(Seconds(n)), n / 60, n % 60);
  }

  /** A clock whose fields read as `minutes` and `seconds` (below sixty)
      reads back as `minutes * 60 + seconds`. */
  lemma ParseClockOfFields(r: string, minutes: nat, seconds: nat)
    requires |r| >= 4 && r[|r| - 3] == ':'
    requires AllDigits(r[..|r| - 3]) && AllDigits(r[|r| - 2..])
    requires ParseDigits(r[..|r| - 3]) == minutes && ParseDigits(r[|r| - 2..]) == seconds
    requires seconds < 60
    ensures ParseClock(r) == Some(minutes * 60 + seconds)
  {
  }

  /** An unknown time reads as zero. */
  lemma UnknownTimeIsZero()
    ensures ParseClock(FormatTime(NaN)) == Some(0)
  {
    var r := FormatTime(NaN);
    assert r[..|r| - 3] == "0";
    assert r[|r| - 2..] == "00";
    assert "0"[..0] == "" && "00"[..1] == "0";
    assert ParseDigits("0") == 0;
    assert ParseDigits("00") == 0;
  }

  /** One hour is shown as sixty minutes. */
  lemma NoHourRollover()
    ensures ParseDigits(FormatTime(Seconds(3600))[..|FormatTime(Seconds(3600))| - 3]) == 60
  {
  }

  /** `handleEnded`: when a track ends the player asks the store for the
      next track, which stops at the end of the playlist. */
  function OnEnded(s: PlayerState): (r: PlayerState)
    ensures s.currentIndex < |s.playlist| - 1 ==>
              && r.currentIndex == s.currentIndex + 1
              && r.currentSong == At(s.playlist, s.currentIndex + 1)
              && r.isPlaying
    ensures s.currentIndex >= |s.playlist| - 1 ==> r == s
    ensures r.playlist == s.playlist
  {
    PlayNext(s)
  }

  /** The state after `n` tracks have ended one after another. */
  function EndTracks(s: PlayerState, n: nat): PlayerState
    decreases n
  {
    if n == 0 then s else EndTracks(OnEnded(s), n - 1)
  }

  /** Tracks ending one after another advance the position one at a time and
      stop at the last track: no wrap-around back to the start. */
  lemma {:induction false} EndTracksStopsAtLast(s: PlayerState, n: nat)
    ensures EndTracks(s, n).playlist == s.playlist
    ensures s.currentIndex >= |s.playlist| - 1 ==> EndTracks(s, n) == s
    ensures s.currentIndex < |s.playlist| - 1 ==>
              EndTracks(s, n).currentIndex ==
                if s.currentIndex + n < |s.playlist| - 1 then s.currentIndex + n else |s.playlist| - 1
    decreases n
  {
    if n > 0 {
      EndTracksStopsAtLast(OnEnded(s), n - 1);
    }
  }
}

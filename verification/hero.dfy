/** The home-page hero: which song is featured, and what its big play button
    does. */
module Hero {
  import opened Common
  import opened Store

  /** `currentSong || songs[0] || null`: the current song when there is
      one, else the first listed song, else nothing. */
  function Featured(current: Option<Song>, songs: seq<Song>): (f: Option<Song>)
    ensures current.Some? ==> f == current
    ensures current.None? && |songs| > 0 ==> f == Some(songs[0])
    ensures f.None? <==> current.None? && |songs| == 0
  {
    if current.Some? then current
    else if |songs| > 0 then Some(songs[0])
    else None
  }

  /** What the hero button asks for. */
  datatype HeroAction = TogglePlayback | PlayFeatured(song: Song) | Nothing

  /** `handleHeroPlay`, branch for branch. While something plays, the
      featured song is the current song itself, so the inner re-play branch
      is dead; `ReplayBranchUnreachable` states that. */
  function HeroPlay(current: Option<Song>, isPlaying: bool, songs: seq<Song>): (a: HeroAction)
    ensures a == TogglePlayback <==> current.Some? && isPlaying
    ensures a == Nothing <==> Featured(current, songs).None?
    ensures a.PlayFeatured? ==>
              && Some(a.song) == Featured(current, songs)
              && !(current.Some? && isPlaying)
  {
    var featured := Featured(current, songs);
    if current.Some? && isPlaying then
      if featured.Some? && current.value.id == featured.value.id then TogglePlayback
      else match featured
        case Some(song) => PlayFeatured(song)
        case None => Nothing
    else if featured.Some? then PlayFeatured(featured.value)
    else Nothing
  }

  /** While a song is playing the button only ever toggles: the featured song
      is then the current song itself, so the re-play branch is dead. */
  lemma ReplayBranchUnreachable(current: Option<Song>, isPlaying: bool, songs: seq<Song>)
    requires current.Some? && isPlaying
    ensures !HeroPlay(current, isPlaying, songs).PlayFeatured?
    ensures HeroPlay(current, isPlaying, songs) == TogglePlayback
  {
  }

  /** The button applied to the store: toggling goes to the store directly,
      playing goes through the page's `onPlay` handler. */
  function HeroClick(s: PlayerState, songs: seq<Song>, onPlay: (PlayerState, Song) -> PlayerState): (r: PlayerState)
    ensures s.currentSong.Some? && s.isPlaying ==> r == TogglePlay(s) && !r.isPlaying
    ensures s.currentSong.None? && |songs| == 0 ==> r == s
    ensures s.currentSong.Some? && !s.isPlaying ==> r == onPlay(s, s.currentSong.value)
    ensures s.currentSong.None? && |songs| > 0 ==> r == onPlay(s, songs[0])
  {
    match HeroPlay(s.currentSong, s.isPlaying, songs)
    case TogglePlayback => TogglePlay(s)
    case PlayFeatured(song) => onPlay(s, song)
    case Nothing => s
  }

  /** `isFeaturedPlaying`: the play/pause icon shows "playing" exactly when
      there is a current song and the store is playing. */
  function IsFeaturedPlaying(current: Option<Song>, isPlaying: bool, songs: seq<Song>): (b: bool)
    ensures b <==> current.Some? && isPlaying
  {
    var featured := Featured(current, songs);
    current.Some? && featured.Some? && current.value.id == featured.value.id && isPlaying
  }

  /** The empty-library message is shown exactly when nothing is featured. */
  function ShowsEmptyState(current: Option<Song>, songs: seq<Song>): (b: bool)
    ensures b <==> current.None? && |songs| == 0
  {
    Featured(current, songs).None?
  }
}

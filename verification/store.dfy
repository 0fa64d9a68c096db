/** The global player store: which song is current, whether it is playing,
    the playlist the Next/Previous buttons walk, and the position in it.
    Each store action is a pure transition from one state to the next; the
    store merges the fields an action returns into the old state, so an
    action that returns nothing leaves the state as it was. */
module Store {
  import opened Common

  type SongId = string

  /** A song row as the client sees it; artist and album may be missing. */
  datatype Song = Song(id: SongId, title: string, artist: Option<string>, album: Option<string>)

  datatype PlayerState = PlayerState(
    isPlaying: bool,
    currentSong: Option<Song>,
    playlist: seq<Song>,
    currentIndex: int)

  /** The state the store is created with. */
  function Initial(): (s: PlayerState)
    ensures !s.isPlaying && s.currentSong == None
    ensures s.playlist == [] && s.currentIndex == -1
  {
    PlayerState(false, None, [], -1)
  }

  /** JavaScript's `playlist[i]`: the element, or `undefined` when `i` is not
      a position of the array. */
  function At(playlist: seq<Song>, i: int): (r: Option<Song>)
    ensures r.Some? <==> 0 <= i < |playlist|
    ensures r.Some? ==> r.value == playlist[i]
  {
    if 0 <= i < |playlist| then Some(playlist[i]) else None
  }

  /** `setPlaylist(songs)`: replaces the playlist and nothing else; the
      position is not re-checked against the new list. */
  function SetPlaylist(s: PlayerState, songs: seq<Song>): (r: PlayerState)
    ensures r.playlist == songs
    ensures r.currentSong == s.currentSong && r.currentIndex == s.currentIndex
    ensures r.isPlaying == s.isPlaying
  {
    s.(playlist := songs)
  }

  /** Array `findIndex` on song ids: the first position holding a song with
      this id, or -1 when there is none. */
  function FindIndex(playlist: seq<Song>, id: SongId): (i: int)
    ensures -1 <= i < |playlist|
    ensures i >= 0 ==> playlist[i].id == id
    ensures i >= 0 ==> forall j :: 0 <= j < i ==> playlist[j].id != id
    ensures i == -1 ==> forall j :: 0 <= j < |playlist| ==> playlist[j].id != id
    decreases |playlist|
  {
    if |playlist| == 0 then -1
    else if playlist[0].id == id then 0
    else
      var k := FindIndex(playlist[1..], id);
      if k == -1 then -1 else k + 1
  }

  /** `playSong(song)`: the song becomes current and playing whatever came
      before; the position moves to the song's first occurrence (by id) in
      the playlist, and stays where it was when the song is not there. */
  function PlaySong(s: PlayerState, song: Song): (r: PlayerState)
    ensures r.currentSong == Some(song) && r.isPlaying
    ensures r.playlist == s.playlist
    ensures (exists j :: 0 <= j < |s.playlist| && s.playlist[j].id == song.id) ==>
              && 0 <= r.currentIndex < |s.playlist|
              && s.playlist[r.currentIndex].id == song.id
              && forall j :: 0 <= j < r.currentIndex ==> s.playlist[j].id != song.id
    ensures (forall j :: 0 <= j < |s.playlist| ==> s.playlist[j].id != song.id) ==>
              r.currentIndex == s.currentIndex
  {
    var index := FindIndex(s.playlist, song.id);
    PlayerState(true, Some(song), s.playlist, if index != -1 then index else s.currentIndex)
  }

  /** `togglePlay()`: flips the playing flag and nothing else, even when no
      song is current. */
  function TogglePlay(s: PlayerState): (r: PlayerState)
    ensures r.isPlaying == !s.isPlaying
    ensures r.currentSong == s.currentSong && r.playlist == s.playlist
    ensures r.currentIndex == s.currentIndex
  {
    s.(isPlaying := !s.isPlaying)
  }

  /** Toggling twice restores the state. */
  lemma TogglePlayTwice(s: PlayerState)
    ensures TogglePlay(TogglePlay(s)) == s
  {
  }

  /** `playNext()`: moves one position forward while that stays inside the
      playlist; at (or past) the last position, or on an empty playlist,
      nothing changes. There is no wrap-around. */
  function PlayNext(s: PlayerState): (r: PlayerState)
    ensures s.currentIndex < |s.playlist| - 1 ==>
              && r.currentIndex == s.currentIndex + 1
              && r.currentSong == At(s.playlist, s.currentIndex + 1)
              && r.isPlaying && r.playlist == s.playlist
    ensures s.currentIndex >= |s.playlist| - 1 ==> r == s
  {
    if s.currentIndex < |s.playlist| - 1 then
      var nextIndex := s.currentIndex + 1;
      s.(currentSong := At(s.playlist, nextIndex), currentIndex := nextIndex, isPlaying := true)
    else
      s
  }

  /** From any position the store can reach (-1 or more), Next always lands
      on a real song of the playlist. */
  lemma PlayNextSelectsSong(s: PlayerState)
    requires s.currentIndex >= -1
    requires s.currentIndex < |s.playlist| - 1
    ensures PlayNext(s).currentSong == Some(s.playlist[s.currentIndex + 1])
  {
  }

  /** `playPrev()` exactly as the store writes it: moves one position back
      whenever the position is above 0, reading the playlist at the new
      position even when the playlist has since become shorter. */
  function PlayPrev(s: PlayerState): (r: PlayerState)
    ensures s.currentIndex > 0 ==>
              && r.currentIndex == s.currentIndex - 1
              && r.currentSong == At(s.playlist, s.currentIndex - 1)
              && r.isPlaying && r.playlist == s.playlist
    ensures s.currentIndex <= 0 ==> r == s
  {
    if s.currentIndex > 0 then
      var prevIndex := s.currentIndex - 1;
      s.(currentSong := At(s.playlist, prevIndex), currentIndex := prevIndex, isPlaying := true)
    else
      s
  }

  /** `playPrev()` with the bound the store leaves out: the previous position
      must also lie inside the current playlist. */
  function PlayPrevGuarded(s: PlayerState): (r: PlayerState)
    ensures 0 < s.currentIndex <= |s.playlist| ==>
              && r.currentIndex == s.currentIndex - 1
              && r.currentSong == Some(s.playlist[s.currentIndex - 1])
              && r.isPlaying && r.playlist == s.playlist
    ensures !(0 < s.currentIndex <= |s.playlist|) ==> r == s
    ensures r != s ==> r.currentSong.Some? && r.currentSong.value in s.playlist
  {
    if 0 < s.currentIndex <= |s.playlist| then PlayPrev(s) else s
  }

  /** Where the position is inside the playlist the guard is never the
      reason to stay put: both versions agree. */
  lemma PlayPrevGuardedAgrees(s: PlayerState)
    requires s.currentIndex <= |s.playlist|
    ensures PlayPrevGuarded(s) == PlayPrev(s)
  {
  }

  /** A position at or above 0 always comes with a current song, and the
      position never drops below -1. */
  predicate Selected(s: PlayerState) {
    s.currentIndex >= -1 && (s.currentIndex >= 0 ==> s.currentSong.Some?)
  }

  /** The store actions the application dispatches. */
  datatype Action =
    | LoadPlaylist(songs: seq<Song>)
    | Play(song: Song)
    | Toggle
    | Next
    | Prev

  /** One store action, with Previous in its corrected form. */
  function Step(s: PlayerState, a: Action): PlayerState {
    match a
    case LoadPlaylist(songs) => SetPlaylist(s, songs)
    case Play(song) => PlaySong(s, song)
    case Toggle => TogglePlay(s)
    case Next => PlayNext(s)
    case Prev => PlayPrevGuarded(s)
  }

  function Run(s: PlayerState, actions: seq<Action>): PlayerState
    decreases |actions|
  {
    if |actions| == 0 then s else Run(Step(s, actions[0]), actions[1..])
  }

  lemma StepKeepsSelected(s: PlayerState, a: Action)
    requires Selected(s)
    ensures Selected(Step(s, a))
  {
  }

  /** With the corrected `playPrev`, every sequence of store actions keeps
      `Selected`. */
  lemma {:induction false} RunKeepsSelected(s: PlayerState, actions: seq<Action>)
    requires Selected(s)
    ensures Selected(Run(s, actions))
    decreases |actions|
  {
    if |actions| > 0 {
      StepKeepsSelected(s, actions[0]);
      RunKeepsSelected(Step(s, actions[0]), actions[1..]);
    }
  }

  /** With the corrected `playPrev`, every state reachable from the
      initial one has a current song whenever it has a position. The store's
      own `playPrev` does not keep this: see `PlayPrevAfterShrink`. */
  lemma ReachableSelected(actions: seq<Action>)
    ensures Selected(Run(Initial(), actions))
  {
    RunKeepsSelected(Initial(), actions);
  }

  /** The store's own `playPrev` breaks this: play the third of three songs,
      shrink the playlist to one song, press Previous. The position becomes
      1, which is past the end, and the current song becomes `undefined`
      while the playing flag is set. */
  lemma PlayPrevAfterShrink(a: Song, b: Song, c: Song)
    requires a.id != b.id && a.id != c.id && b.id != c.id
    ensures
      var s0 := SetPlaylist(Initial(), [a, b, c]);
      var s1 := PlaySong(s0, c);
      var s2 := SetPlaylist(s1, [a]);
      var s3 := PlayPrev(s2);
      && Selected(s2)
      && s3.currentIndex == 1 && s3.currentSong == None && s3.isPlaying
      && !Selected(s3)
  {
    var s0 := SetPlaylist(Initial(), [a, b, c]);
    assert FindIndex(s0.playlist, c.id) == 2;
  }

  /** Likewise on an empty playlist the store's `playPrev` is not a no-op
      once a position has been taken. */
  lemma PlayPrevOnEmptyPlaylist(s: PlayerState)
    requires s.currentIndex > 0
    ensures PlayPrev(SetPlaylist(s, [])) != SetPlaylist(s, [])
    ensures PlayPrevGuarded(SetPlaylist(s, [])) == SetPlaylist(s, [])
  {
  }
}

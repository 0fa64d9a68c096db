/** The library page: which songs are listed (an optional favourites-only
    view, then a case-insensitive search over title, artist and album), and
    what clicking one of them does to the player store.

    The search query and the favourite ids are read from the player store,
    which does not define them; here they are plain inputs. */
module Library {
  import opened Common
  import opened Text
  import opened Store

  /** What the page filters by. */
  datatype View = View(favoritesOnly: bool, favoriteIds: set<SongId>, query: string)

  /** The favourites-only view is on exactly when the `filter` query
      parameter is `favorites`; an absent parameter reads as `null`. */
  function FavoritesOnly(filterParam: Option<string>): (on: bool)
    ensures on <==> filterParam == Some("favorites")
    ensures filterParam == None ==> !on
  {
    filterParam == Some("favorites")
  }

  /** Any `filter` parameter other than `favorites`, an absent one
      included, lists the same songs as a page with no favourites at all:
      the favourite ids are then never consulted. */
  lemma {:induction false} OtherFilterParamIgnoresFavorites(songs: seq<Song>, p: Option<string>, ids: set<SongId>, q: string)
    requires p != Some("favorites")
    ensures Filter(songs, View(FavoritesOnly(p), ids, q)) == Filter(songs, View(false, {}, q))
    decreases |songs|
  {
    if |songs| > 0 {
      OtherFilterParamIgnoresFavorites(songs[1..], p, ids, q);
    }
  }

  /** With `filter=favorites` a song is listed exactly when it is in the
      library, its id is a favourite, and it matches the search. */
  lemma FavoritesParamListsFavorites(songs: seq<Song>, ids: set<SongId>, q: string, x: Song)
    ensures x in Filter(songs, View(FavoritesOnly(Some("favorites")), ids, q)) <==>
              x in songs && x.id in ids && MatchesQuery(x, q)
  {
  }

  /** JavaScript truthiness of an optional string: present and non-empty. */
  predicate Present(field: Option<string>) {
    field.Some? && |field.value| > 0
  }

  /** `field && field.toLowerCase().includes(q)` for an optional field. */
  predicate FieldMatches(field: Option<string>, q: string) {
    Present(field) && Contains(Lower(field.value), q)
  }

  /** The search test: an empty query matches everything; otherwise the
      lower-cased query must occur in the lower-cased title, artist or
      album. */
  predicate MatchesQuery(song: Song, query: string) {
    var q := Lower(query);
    query == ""
    || Contains(Lower(song.title), q)
    || FieldMatches(song.artist, q)
    || FieldMatches(song.album, q)
  }

  /** The per-song test of the page's filter callback. */
  predicate Keep(song: Song, v: View) {
    && !(v.favoritesOnly && song.id !in v.favoriteIds)
    && MatchesQuery(song, v.query)
  }

  /** `songs.filter(...)`: the songs that pass, in their original order. */
  function Filter(songs: seq<Song>, v: View): (r: seq<Song>)
    ensures |r| <= |songs|
    ensures forall x :: x in r <==> x in songs && Keep(x, v)
    ensures IsSubsequence(r, songs)
    decreases |songs|
  {
    if |songs| == 0 then []
    else if Keep(songs[0], v) then [songs[0]] + Filter(songs[1..], v)
    else Filter(songs[1..], v)
  }

  /** Every kept song is kept as often as it occurs; every other song is
      dropped entirely. */
  lemma {:induction false} FilterCounts(songs: seq<Song>, v: View, x: Song)
    ensures multiset(Filter(songs, v))[x] == if Keep(x, v) then multiset(songs)[x] else 0
    decreases |songs|
  {
    if |songs| > 0 {
      FilterCounts(songs[1..], v, x);
      FilterCountsStep(songs, v, x);
    }
  }

  lemma FilterCountsStep(songs: seq<Song>, v: View, x: Song)
    requires |songs| > 0
    requires multiset(Filter(songs[1..], v))[x] == if Keep(x, v) then multiset(songs[1..])[x] else 0
    ensures multiset(Filter(songs, v))[x] == if Keep(x, v) then multiset(songs)[x] else 0
  {
    var rest := songs[1..];
    assert songs == [songs[0]] + rest;
    assert multiset(songs)[x] == multiset([songs[0]])[x] + multiset(rest)[x];
    if Keep(songs[0], v) {
      assert multiset(Filter(songs, v))[x] == multiset([songs[0]])[x] + multiset(Filter(rest, v))[x];
    }
  }

  /** Filtering distributes over concatenation. */
  lemma {:induction false} FilterAppend(a: seq<Song>, b: seq<Song>, v: View)
    ensures Filter(a + b, v) == Filter(a, v) + Filter(b, v)
    decreases |a|
  {
    if |a| == 0 {
      assert a + b == b;
    } else {
      assert (a + b)[1..] == a[1..] + b;
      FilterAppend(a[1..], b, v);
    }
  }

  /** With the favourites view on, only favourites are listed. */
  lemma FavoritesOnlyListsFavorites(songs: seq<Song>, v: View)
    requires v.favoritesOnly
    ensures forall i :: 0 <= i < |Filter(songs, v)| ==> Filter(songs, v)[i].id in v.favoriteIds
  {
    var r := Filter(songs, v);
    forall i | 0 <= i < |r|
      ensures r[i].id in v.favoriteIds
    {
      assert r[i] in r;
    }
  }

  /** With no query and the favourites view off, the whole library is
      listed, in order. */
  lemma {:induction false} NoFilterKeepsAll(songs: seq<Song>, ids: set<SongId>)
    ensures Filter(songs, View(false, ids, "")) == songs
    decreases |songs|
  {
    if |songs| > 0 {
      NoFilterKeepsAll(songs[1..], ids);
      assert [songs[0]] + songs[1..] == songs;
    }
  }

  /** With no query, exactly the songs that pass the favourites test are
      listed. */
  lemma EmptyQueryKeepsGated(songs: seq<Song>, v: View, x: Song)
    requires v.query == ""
    ensures x in Filter(songs, v) <==> x in songs && (!v.favoritesOnly || x.id in v.favoriteIds)
  {
  }

  lemma FieldMatchesIff(field: Option<string>, q: string)
    ensures FieldMatches(field, q) <==> Present(field) && Occurs(Lower(field.value), q)
  {
    if Present(field) {
      ContainsIff(Lower(field.value), q);
    }
  }

  /** With a query, a song is listed exactly when it passes the favourites
      test and the lower-cased query occurs in its lower-cased title, or in
      its lower-cased artist or album when those are present. */
  lemma QueryMatchesField(songs: seq<Song>, v: View, x: Song)
    requires v.query != ""
    ensures x in Filter(songs, v) <==>
      && x in songs
      && (!v.favoritesOnly || x.id in v.favoriteIds)
      && (|| Occurs(Lower(x.title), Lower(v.query))
          || (Present(x.artist) && Occurs(Lower(x.artist.value), Lower(v.query)))
          || (Present(x.album) && Occurs(Lower(x.album.value), Lower(v.query))))
  {
    var q := Lower(v.query);
    ContainsIff(Lower(x.title), q);
    FieldMatchesIff(x.artist, q);
    FieldMatchesIff(x.album, q);
  }

  /** A missing artist or album never produces a match on that field. */
  lemma MissingFieldsNeverMatch(song: Song, query: string)
    requires query != ""
    requires song.artist == None && song.album == None
    ensures MatchesQuery(song, query) <==> Contains(Lower(song.title), Lower(query))
  {
  }

  /** Case does not matter on either side of the search. */
  lemma SearchIgnoresCase(song: Song, query: string)
    ensures MatchesQuery(song, query) <==> MatchesQuery(song, Lower(query)) || query == ""
  {
    LowerIdempotent(query);
  }

  /** The page's effect: whenever the listed songs change and there is at
      least one, they become the store's playlist; the selection is left
      alone. */
  function SyncPlaylist(s: PlayerState, songs: seq<Song>, v: View): (r: PlayerState)
    ensures |Filter(songs, v)| > 0 ==> r.playlist == Filter(songs, v)
    ensures |Filter(songs, v)| == 0 ==> r == s
    ensures r.currentSong == s.currentSong && r.currentIndex == s.currentIndex
    ensures r.isPlaying == s.isPlaying
  {
    var filtered := Filter(songs, v);
    if |filtered| > 0 then SetPlaylist(s, filtered) else s
  }

  /** `handlePlay(song)`: the listed songs become the playlist, then the
      song is played. */
  function HandlePlay(s: PlayerState, songs: seq<Song>, v: View, song: Song): (r: PlayerState)
    ensures r.playlist == Filter(songs, v)
    ensures r.currentSong == Some(song) && r.isPlaying
  {
    PlaySong(SetPlaylist(s, Filter(songs, v)), song)
  }

  /** The page path to the stale position: play the third of three listed
      songs, narrow the listing to the first one (the page syncs it into the
      store), press Previous. The store's own `playPrev` lands past the end
      of the playlist with no current song while playing; the corrected one
      leaves the state alone. */
  lemma PlayPrevAfterNarrowing(a: Song, b: Song, c: Song, wide: View, narrow: View)
    requires a.id != b.id && a.id != c.id && b.id != c.id
    requires Filter([a, b, c], wide) == [a, b, c]
    requires Filter([a, b, c], narrow) == [a]
    ensures
      var s := SyncPlaylist(HandlePlay(Initial(), [a, b, c], wide, c), [a, b, c], narrow);
      && Selected(s)
      && s.playlist == [a] && s.currentIndex == 2
      && PlayPrev(s).currentIndex == 1 && PlayPrev(s).currentSong == None && PlayPrev(s).isPlaying
      && !Selected(PlayPrev(s))
      && PlayPrevGuarded(s) == s
  {
    var pl: seq<Song> := [a, b, c];
    assert FindIndex(pl[2..], c.id) == 0;
    assert FindIndex(pl[1..], c.id) == 1;
    assert FindIndex(pl, c.id) == 2;
  }

  /** No two songs share an id. */
  predicate UniqueIds(songs: seq<Song>) {
    forall i, j :: 0 <= i < |songs| && 0 <= j < |songs| && songs[i].id == songs[j].id ==> i == j
  }

  lemma {:induction false} FilterKeepsUniqueIds(songs: seq<Song>, v: View)
    requires UniqueIds(songs)
    ensures UniqueIds(Filter(songs, v))
    decreases |songs|
  {
    if |songs| > 0 {
      var rest := songs[1..];
      assert UniqueIds(rest) by {
        forall i, j | 0 <= i < |rest| && 0 <= j < |rest| && rest[i].id == rest[j].id
          ensures i == j
        {
          assert songs[i + 1].id == songs[j + 1].id;
        }
      }
      FilterKeepsUniqueIds(rest, v);
      var f := Filter(rest, v);
      forall k | 0 <= k < |f|
        ensures f[k].id != songs[0].id
      {
        assert f[k] in rest;
        var m :| 0 <= m < |rest| && rest[m] == f[k];
        assert songs[m + 1] == f[k];
      }
    }
  }

  /** Clicking a listed song in a library with distinct ids plays it from
      its own position in the listed songs, so Next and Previous then walk
      the visible list from there. */
  lemma HandlePlayPositionsSong(s: PlayerState, songs: seq<Song>, v: View, song: Song)
    requires UniqueIds(songs)
    requires song in Filter(songs, v)
    ensures var r := HandlePlay(s, songs, v, song);
      && 0 <= r.currentIndex < |r.playlist|
      && r.playlist[r.currentIndex] == song
      && r.currentSong == Some(song) && r.isPlaying
      && Selected(r)
  {
    var f := Filter(songs, v);
    FilterKeepsUniqueIds(songs, v);
    var k :| 0 <= k < |f| && f[k] == song;
    var r := HandlePlay(s, songs, v, song);
    assert f[r.currentIndex].id == f[k].id;
  }
}

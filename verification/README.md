# CloudBeat player logic in Dafny

This project models the client-side decision logic of the CloudBeat music web app and part of its Flask API. The Dafny modules are:

- `Store` — the global player store: the current song, the play/pause flag, the playlist and the position in it. Each store action (`setPlaylist`, `playSong`, `togglePlay`, `playNext`, `playPrev`) is a pure transition.
- `Library` — the library page. It has a favourites-only view selected by the `filter=favorites` query parameter and a case-insensitive search over title, artist and album. When the listed songs change, they become the store playlist. Clicking a song plays it from that list.
- `Player` — the `m:ss` clock and what happens when a track ends.
- `Hero` — the home-page hero: which song is featured and what its play button does.
- `Middleware` — `require_auth`: reads the bearer token from the `Authorization` header and hands it to an abstract JWT decoder.
- `SongsApi` — the server side of the songs API:
  - `add_song`: checks the required fields and maps the request body to a database row;
  - `get_song_url`: turns the storage service's signed-URL answer into a response, and shows which token the handler forwards.
- `Text` — the string built-ins the code relies on, written out and proved about: Python's `str.split()` and `str.split(' ')`, lower-casing, JavaScript's `includes`, and decimal rendering.
- `Common` — `Option` and order-preserving subsequences.

Every operation is a function on immutable values. JavaScript's `null` and `undefined` become `Option.None`; reading `playlist[i]` outside the array gives `None`, as JavaScript gives `undefined`.

The store behaves as its code is written:
- There is no wrap-around.
- There is no shuffle, repeat or favourite toggling.
- `togglePlay` flips the flag even when no song is current.
- `playPrev` stops at position 0.

## Model

| member | source | states |
|---|---|---|
| Store.Initial | frontend/src/lib/store.js:4-7 | the store starts not playing, with no current song, an empty playlist and position -1 |
| Store.At | frontend/src/lib/store.js:22 | indexing the playlist yields a song exactly at positions inside it, and `undefined` (None) everywhere else |
| Store.SetPlaylist | frontend/src/lib/store.js:9 | `setPlaylist` replaces the playlist; current song, position and playing flag are untouched, and the position is not re-checked against the new list |
| Store.FindIndex | frontend/src/lib/store.js:12 | `findIndex` by id returns the first position holding that id, or -1 exactly when no song has it |
| Store.PlaySong | frontend/src/lib/store.js:11-14 | from any state, the song becomes current and playing; the position becomes the song's first occurrence by id, or stays put when the playlist does not contain it |
| Store.TogglePlay | frontend/src/lib/store.js:16 | only the playing flag changes, and it is negated, also with no current song |
| Store.TogglePlayTwice | frontend/src/lib/store.js:16 | toggling twice restores the state |
| Store.PlayNext | frontend/src/lib/store.js:18-28 | below the last position: advance by one, select that element, play. At or past the last position, or on an empty playlist: no change, no wrap-around |
| Store.PlayNextSelectsSong | frontend/src/lib/store.js:19-22 | from any position the store can hold (-1 or more), Next selects a real playlist element, never `undefined` |
| Store.PlayPrev | frontend/src/lib/store.js:30-40 | as written: above position 0, step back one and read the playlist there, even past its end. At 0 or -1: no change |
| Store.PlayPrevGuarded | frontend/src/lib/store.js:30-40 | corrected `playPrev`: steps back only when the previous position is inside the playlist. Whenever it changes the state, it selects an element of the playlist |
| Store.PlayPrevGuardedAgrees | frontend/src/lib/store.js:31 | while the position is at most the playlist length, the corrected and written `playPrev` coincide |
| Store.StepKeepsSelected | frontend/src/lib/store.js:9-40 | every store action, with the corrected `playPrev`, keeps "position ≥ 0 implies a current song" and "position ≥ -1" |
| Store.RunKeepsSelected | frontend/src/lib/store.js:9-40 | the same invariant holds after any sequence of actions |
| Store.ReachableSelected | frontend/src/lib/store.js:4-40 | with the corrected `playPrev`, every state reachable from the initial state has a current song whenever it has a position; the store's own `playPrev` breaks this (`Store.PlayPrevAfterShrink`) |
| Store.PlayPrevAfterShrink | frontend/src/lib/store.js:30-36 | counterexample: play the 3rd of 3 songs, shrink the playlist to 1, press Previous. The store holds position 1, no current song, and is playing |
| Store.PlayPrevOnEmptyPlaylist | frontend/src/lib/store.js:31-37 | on an emptied playlist the written `playPrev` still changes the state; the corrected one does not |
| Library.OtherFilterParamIgnoresFavorites | frontend/src/pages/Library.jsx:30-34 | with any `filter` parameter other than `favorites`, an absent one included, the listing is the one a page without favourites shows: favourite ids are never consulted |
| Library.FavoritesParamListsFavorites | frontend/src/pages/Library.jsx:30-34 | with `filter=favorites`, a song is listed iff it is in the library, its id is a favourite and it matches the search |
| Library.Filter | frontend/src/pages/Library.jsx:32-47 | the result is an order-preserving subsequence of the songs, holding exactly the songs that pass the favourites gate and the search |
| Library.FilterCounts | frontend/src/pages/Library.jsx:32-47 | each passing song is kept as many times as it occurs; every other song is dropped entirely |
| Library.FilterAppend | frontend/src/pages/Library.jsx:32 | filtering a concatenation is concatenating the filtered parts |
| Library.FavoritesOnlyListsFavorites | frontend/src/pages/Library.jsx:34 | with the favourites view on, every listed song's id is a favourite id |
| Library.NoFilterKeepsAll | frontend/src/pages/Library.jsx:34-46 | no query and no favourites view: the whole library is listed, in order |
| Library.EmptyQueryKeepsGated | frontend/src/pages/Library.jsx:37-46 | with an empty query, a song is listed iff it is in the library and passes the favourites gate |
| Library.QueryMatchesField | frontend/src/pages/Library.jsx:37-43 | with a non-empty query, a song is listed iff it passes the gate and the lower-cased query occurs in its lower-cased title, or in its artist or album when present |
| Library.FieldMatchesIff | frontend/src/pages/Library.jsx:41-42 | an optional field matches iff it is present and non-empty and the query occurs in it |
| Library.MissingFieldsNeverMatch | frontend/src/pages/Library.jsx:41-42 | a song with no artist and no album matches only through its title |
| Library.SearchIgnoresCase | frontend/src/pages/Library.jsx:38-40 | lower-casing the query first changes no search result |
| Library.SyncPlaylist | frontend/src/pages/Library.jsx:50-54 | a non-empty listing becomes the store playlist, an empty one changes nothing; the selection is never touched |
| Library.PlayPrevAfterNarrowing | frontend/src/pages/Library.jsx:50-54 | page path, once the page can list songs (see Left out): click the 3rd of 3 listed songs, narrow the listing to the 1st (the page syncs it into the store), press Previous. The store's `playPrev` gives position 1, no current song, still playing; the corrected one changes nothing |
| Library.HandlePlay | frontend/src/pages/Library.jsx:69-73 | clicking a song makes the listed songs the playlist and the clicked song current and playing |
| Library.FilterKeepsUniqueIds | frontend/src/pages/Library.jsx:32 | distinct ids in the library stay distinct in the listing |
| Library.HandlePlayPositionsSong | frontend/src/pages/Library.jsx:69-73 | with distinct ids, the position after a click holds the clicked song itself, so Next/Previous walk the visible list from there |
| Player.TwoDigits | frontend/src/components/Player.jsx:67-68 | the seconds field is exactly two digits (leading zero below ten) and reads back as the seconds |
| Player.FormatTime | frontend/src/components/Player.jsx:64-69 | NaN shows `0:00`. Otherwise the text is minutes, a colon and two digits; minutes read back as t div 60 (uncapped) and seconds as t mod 60. The minutes field has no leading zero: it starts with `0` only when it is `0`, that is below one minute |
| Player.ClockRoundTrip | frontend/src/components/Player.jsx:66-68 | parsing the clock back gives minutes·60 + seconds = the original whole seconds |
| Player.UnknownTimeIsZero | frontend/src/components/Player.jsx:65 | an unknown time reads back as zero seconds |
| Player.NoHourRollover | frontend/src/components/Player.jsx:66 | one hour shows as 60 minutes |
| Player.OnEnded | frontend/src/components/Player.jsx:78-80 | a finished track advances one position while one is left, making the song at the new position current and playing; at the last track nothing changes |
| Player.EndTracksStopsAtLast | frontend/src/components/Player.jsx:78-80 | after n tracks end in a row, the position is the old one plus n, capped at the last track; no wrap-around |
| Hero.Featured | frontend/src/components/HeroSection.jsx:10 | the featured song is the current song if any, else the first listed song, else none |
| Hero.HeroPlay | frontend/src/components/HeroSection.jsx:15-25 | the button toggles iff a song is current and playing; it does nothing iff nothing is featured; otherwise it plays the featured song |
| Hero.ReplayBranchUnreachable | frontend/src/components/HeroSection.jsx:16-21 | while a song plays, the branch that re-plays a different featured song is never taken |
| Hero.HeroClick | frontend/src/components/HeroSection.jsx:15-25 | on the store: pauses a playing song; otherwise calls `onPlay` with the current song, or with the first listed song when nothing is current; with nothing to feature, no change |
| Hero.IsFeaturedPlaying | frontend/src/components/HeroSection.jsx:27 | the hero shows "playing" iff a song is current and the store is playing |
| Hero.ShowsEmptyState | frontend/src/components/HeroSection.jsx:29-36 | the empty-library message shows iff there is no current song and no listed song |
| Middleware.BearerToken | backend/api/middleware.py:12-16 | a token is found iff the header exists, splits on whitespace into exactly two pieces, and the first lower-cases to `bearer`; the token is the second piece, non-empty and free of whitespace |
| Middleware.RequireAuth | backend/api/middleware.py:12-42 | no token: 401 "Authorization token is missing". Expired: 401 "Token expired". Invalid: 401 "Invalid token". Otherwise the request passes with the decoded subject and the token |
| Middleware.BearerTokenOfPaddedHeader | backend/api/middleware.py:14-16 | leading, trailing and repeated whitespace do not matter: the token is returned verbatim |
| Middleware.BearerTokenOfWords | backend/api/middleware.py:14-16 | a scheme spelling `bearer` in any case, any non-empty whitespace gap, and a whitespace-free token: the token is returned |
| Middleware.CanonicalHeader | backend/api/middleware.py:14-16 | `Bearer <token>` yields the token, and so does `BEARER <token>` |
| Middleware.WrongPieceCountRejected | backend/api/middleware.py:15-19 | a header with other than two pieces gets the missing-token 401 |
| Middleware.OtherSchemeRejected | backend/api/middleware.py:15-19 | a scheme other than `bearer` in any case gets the missing-token 401 |
| Middleware.AbsentHeaderRejected | backend/api/middleware.py:13-19 | an absent header gets the missing-token 401 |
| SongsApi.Get | backend/api/songs.py:38-45 | `data.get(key)` is the stored value, or null when the key is absent |
| SongsApi.FirstMissing | backend/api/songs.py:29-32 | reports the first required field absent from the body (all earlier ones present), or nothing iff all are present; only key presence is checked |
| SongsApi.SongRow | backend/api/songs.py:37-47 | the row has exactly the seven columns; metadata fields come from the body (null when absent), `drive_id` is the body's `storage_path`, `user_id` is the caller |
| SongsApi.AddSong | backend/api/songs.py:29-47 | refused iff `title` or `storage_path` is missing. A missing title is reported first, as 400 "Missing field: title", else 400 "Missing field: storage_path". Otherwise the row is inserted |
| SongsApi.NullTitleAccepted | backend/api/songs.py:31 | a present but null title passes validation |
| SongsApi.OwnerNotFromBody | backend/api/songs.py:46 | a `user_id` in the body is ignored; the row's owner is the authenticated caller |
| SongsApi.RowIgnoresUnreadKeys | backend/api/songs.py:37-47 | body keys the handler does not read never change the row |
| SongsApi.SignedUrlResponse | backend/api/songs.py:92-109 | 500 carrying the whole answer iff the answer is an object with no usable `signedURL` and an `error` entry; otherwise 200 with the object's `signedURL`, or the answer itself |
| SongsApi.StringAnswerPassesThrough | backend/api/songs.py:102-104 | a string answer is returned unchanged |
| SongsApi.SignedUrlEntryWins | backend/api/songs.py:92-93 | an object with a usable `signedURL` yields it, even alongside an `error` entry |
| SongsApi.NoUrlNoErrorGivesNull | backend/api/songs.py:92-109 | an object with neither entry yields a 200 whose URL is null |
| SongsApi.ForwardedTokenAsWritten | backend/api/songs.py:64 | as written: the handler fails with 500 exactly when the header contains no space; otherwise it forwards the text between the first space and the next space or the end of the header, which never contains a space |
| SongsApi.ForwardedToken | backend/api/songs.py:64 | corrected: the handler forwards the token the guard accepted, and only for an authorized request |
| SongsApi.ForwardedTokenMatchesGuard | backend/api/middleware.py:14-16 | for every request the guard lets through, the corrected handler forwards exactly the guard's non-empty token |
| SongsApi.AsWrittenAgreesOnCanonical | backend/api/songs.py:64 | on `Bearer <token>` with one space, the written handler and the guard agree |
| SongsApi.AsWrittenForwardsEmptyToken | backend/api/songs.py:64 | on `Bearer  <token>` (two spaces) the guard accepts the token, but the written handler forwards the empty string |
| SongsApi.GuardAcceptsGap | backend/api/middleware.py:14-16 | the guard accepts `Bearer`, any non-empty whitespace gap and a whitespace-free token, and yields the token |
| SongsApi.AsWrittenFailsOnTab | backend/api/songs.py:64 | on `Bearer<TAB><token>` the guard accepts the token, but the written handler finds no space and fails |
| Text.Split | backend/api/middleware.py:14 | `str.split()` produces only non-empty, whitespace-free pieces |
| Text.SplitJoin | backend/api/middleware.py:14 | round trip: splitting space-joined words gives the words back |
| Text.SplitSkipsLeadingSpace | backend/api/middleware.py:14 | leading whitespace does not change the pieces |
| Text.SplitIgnoresTrailingSpace | backend/api/middleware.py:14 | trailing whitespace does not change the pieces |
| Text.SplitTwoWords | backend/api/middleware.py:14-15 | two words with any padding and any non-empty gap split into exactly those two words |
| Text.SplitWordGapWord | backend/api/middleware.py:14 | two words separated by any non-empty whitespace split into exactly those two words |
| Text.SplitOn | backend/api/songs.py:64 | `str.split(' ')` always yields at least one piece, none containing the separator |
| Text.JoinSplitOn | backend/api/songs.py:64 | round trip: joining the `split(' ')` pieces with the separator restores the string |
| Text.SplitOnJoin | backend/api/songs.py:64 | round trip: splitting separator-joined pieces without the separator gives the pieces back |
| Text.SplitOnSingle | backend/api/songs.py:64 | `split(' ')` yields a single piece exactly when the string has no space, so indexing piece 1 fails exactly then |
| Text.SplitOnSecond | backend/api/songs.py:64 | with two or more pieces, piece 0 is the text before the first separator and piece 1 runs from just after it to the next separator or the end |
| Text.Lower | frontend/src/pages/Library.jsx:38-43 | lower-casing keeps the length and lowers each ASCII capital letter, leaving other characters alone |
| Text.LowerIdempotent | backend/api/middleware.py:15 | lower-casing twice is lower-casing once |
| Text.ContainsIff | frontend/src/pages/Library.jsx:40-42 | `includes` holds iff the needle occurs at some position of the string |
| Text.NatToString | frontend/src/components/Player.jsx:68 | the rendered number is non-empty decimal digits, starting with `0` only for zero |
| Text.ParseNatToString | frontend/src/components/Player.jsx:68 | round trip: reading the rendered digits back gives the number |

## Left out

- Rendering, CSS, animations and router wiring in every component are left out: they are UI only.
- The audio-element effects, volume and progress-bar arithmetic in Player.jsx are left out: they are browser media I/O over floating-point values.
- Supabase auth, storage and table calls, and the axios requests, are left out; they are foreign services. Their answers enter the model only as inputs: the signed-URL answer, the decoded token, the fetched song list.
- JWT decoding is a parameter (`decode`), because it is a library call. Only its three outcomes are modelled: claims with an optional subject, expired, invalid.
- The DB insert and the 404 for an unknown song id in `get_song_url` are left out, because they are database calls. An exception there, or in `add_song`, becomes a 500 that the model does not produce.
- `list_song`, the playlists and auth endpoints, app bootstrap and the maintenance scripts are left out: they are pass-through I/O.
- The password-length guards and the rate-limit message mapping in the auth pages are left out: they are one-line checks around opaque auth calls.
- The song list fetch and `onPlay` wiring in the page that embeds the hero are not part of this model. `onPlay` is a parameter of `Hero.HeroClick`.
- Shuffle, repeat, wrap-around and favourite toggling are not in the store code, so they are not modelled.
- `searchQuery` and `favoriteIds` are read from the store in Library.jsx, but the store does not define them. Here they are plain inputs (a string and a set of ids). As the store is written, both are `undefined`. Search then never applies. Rendering any non-empty listing throws, because every listed row evaluates `favoriteIds.includes(song.id)` (Library.jsx:114), favourites view or not. The app also mounts the page without a `songs` prop (App.jsx:47), so as wired it lists nothing. The page-level lemmas therefore describe the page as it behaves once the store defines both fields and the parent passes `songs`.
- Text.Lower: lower-cases only the ASCII letters A–Z, while `toLowerCase` and `lower()` use full Unicode case mapping. This is exact for the `bearer` scheme comparison, because no other character lower-cases to one of its letters. For library search on non-ASCII text it can both miss matches and add them. It misses `É` against `é`. It adds one where JavaScript's context-dependent final-sigma rule lowers the same letter differently: the title `ΑΣ` lowers to `ας`, the query `Σ` to `σ`, so JavaScript finds no match where the model finds one.
- Player.FormatTime: takes whole seconds. The media element's fractional seconds, which the code floors, and an infinite duration are not modelled.
- Library.Filter: a song's title is always a string here. A row stored with a null title, which `add_song` accepts, would make `toLowerCase` throw in the search.
- SongsApi.AddSong: the body must be a JSON object. A missing or non-object body makes the membership test raise, or behave differently for lists; that is not modelled.
- JSON numbers are integers here; floats are not modelled.

## Findings

| source | as written | input that shows it | evidently intended | confidence | as-written member | corrected member |
|---|---|---|---|---|---|---|
| frontend/src/lib/store.js:9, 30-36 | `setPlaylist` keeps the old position. `playPrev` only checks `currentIndex > 0`, then reads `playlist[currentIndex - 1]` | Play the 3rd of 3 listed songs, then narrow the listing to the 1st one (the page syncs it into the store), then press Previous. The store now holds position 1, current song `undefined`, and is playing. Through the store's own actions this input needs only `setPlaylist`, `playSong` and `playPrev`, or an emptied playlist. The page path needs three things the app as written lacks: the store must define `searchQuery` and `favoriteIds`, and the parent must pass `songs` (App.jsx:47 mounts the page without it). Otherwise the page lists nothing, or throws while rendering a row (Library.jsx:114). The page never installs an empty playlist (Library.jsx:51) | Previous either does nothing or selects a song of the current playlist | medium (not executed) | Store.PlayPrev, Store.PlayPrevAfterShrink, Library.PlayPrevAfterNarrowing | Store.PlayPrevGuarded, Store.RunKeepsSelected |
| backend/api/songs.py:64 | the handler re-parses the header with `split(' ')[1]`, while the guard used `split()` | `Authorization: Bearer  abc` (two spaces): the guard accepts token `abc`, the handler forwards `""`. `Bearer<TAB>abc`: the guard accepts it, the handler fails with 500. The app's own player sends a single space, so this only affects other clients | forward the token the guard extracted (it stores it as `g.token`) | medium (not executed) | SongsApi.ForwardedTokenAsWritten, SongsApi.AsWrittenForwardsEmptyToken | SongsApi.ForwardedToken, SongsApi.ForwardedTokenMatchesGuard |

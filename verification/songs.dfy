/** The songs API: checking and mapping the body of an add-song request,
    and turning the storage service's signed-URL answer into the JSON the
    player fetches. Database and storage calls are left out; what reaches
    them, and what comes back from them, is modelled. */
module SongsApi {
  import opened Common
  import opened Text
  import Middleware

  /** A JSON value as Flask parses it (numbers restricted to integers). */
  datatype Json =
    | JNull
    | JBool(b: bool)
    | JNum(n: int)
    | JStr(s: string)
    | JArr(items: seq<Json>)
    | JObj(fields: map<string, Json>)

  /** Python's `d.get(key)`: the value, or `None` when the key is absent. */
  function Get(m: map<string, Json>, key: string): (v: Json)
    ensures key !in m ==> v == JNull
    ensures key in m ==> v == m[key]
  {
    if key in m then m[key] else JNull
  }

  /** Python truthiness of a JSON value. */
  predicate Truthy(j: Json) {
    match j
    case JNull => false
    case JBool(b) => b
    case JNum(n) => n != 0
    case JStr(s) => |s| > 0
    case JArr(a) => |a| > 0
    case JObj(m) => |m| > 0
  }

  /** An HTTP response: status code and JSON body. */
  datatype Response = Response(status: int, body: Json)

  function ErrorBody(message: string): Json {
    JObj(map["error" := JStr(message)])
  }

  // ---------------------------------------------------------------------
  // add_song
  // ---------------------------------------------------------------------

  const RequiredFields: seq<string> := ["title", "storage_path"]

  /** The first listed field absent from the body, in list order. Only key
      presence is checked: a null or empty value passes. */
  function FirstMissing(fields: seq<string>, body: map<string, Json>): (r: Option<string>)
    ensures r.None? <==> forall i :: 0 <= i < |fields| ==> fields[i] in body
    ensures r.Some? ==> exists i :: 0 <= i < |fields| && fields[i] == r.value
                                   && (forall j :: 0 <= j < i ==> fields[j] in body)
    ensures r.Some? ==> r.value !in body
    decreases |fields|
  {
    if |fields| == 0 then None
    else if fields[0] !in body then Some(fields[0])
    else
      var rest := FirstMissing(fields[1..], body);
      if rest.Some? then
        assert exists i :: 0 <= i < |fields| && fields[i] == rest.value
                           && (forall j :: 0 <= j < i ==> fields[j] in body) by {
          var i :| 0 <= i < |fields| - 1 && fields[1..][i] == rest.value
                   && (forall j :: 0 <= j < i ==> fields[1..][j] in body);
          assert fields[i + 1] == rest.value;
        }
        rest
      else
        None
  }

  /** The columns of a new row in the songs table. */
  const RowColumns: set<string> := {"title", "artist", "album", "drive_id", "duration", "mime_type", "user_id"}

  /** The row `add_song` inserts: the body's metadata fields (null when
      absent), the storage path kept in the `drive_id` column, and the
      authenticated user as owner; nothing else from the body. */
  function SongRow(body: map<string, Json>, userId: Option<string>): (row: map<string, Json>)
    ensures row.Keys == RowColumns
    ensures row["title"] == Get(body, "title")
    ensures row["artist"] == Get(body, "artist")
    ensures row["album"] == Get(body, "album")
    ensures row["drive_id"] == Get(body, "storage_path")
    ensures row["duration"] == Get(body, "duration")
    ensures row["mime_type"] == Get(body, "mime_type")
    ensures row["user_id"] == if userId.Some? then JStr(userId.value) else JNull
  {
    map[
      "title" := Get(body, "title"),
      "artist" := Get(body, "artist"),
      "album" := Get(body, "album"),
      "drive_id" := Get(body, "storage_path"),
      "duration" := Get(body, "duration"),
      "mime_type" := Get(body, "mime_type"),
      "user_id" := if userId.Some? then JStr(userId.value) else JNull
    ]
  }

  /** What `add_song` does with a body: refuse it with a 400 naming the
      first missing required field, or insert a row. */
  datatype AddSongOutcome = Insert(row: map<string, Json>) | Reject(response: Response)

  function AddSong(body: map<string, Json>, userId: Option<string>): (r: AddSongOutcome)
    ensures r.Reject? <==> "title" !in body || "storage_path" !in body
    ensures "title" !in body ==> r == Reject(Response(400, ErrorBody("Missing field: title")))
    ensures "title" in body && "storage_path" !in body ==>
              r == Reject(Response(400, ErrorBody("Missing field: storage_path")))
    ensures r.Insert? ==> r.row == SongRow(body, userId)
  {
    var missing := FirstMissing(RequiredFields, body);
    assert RequiredFields[0] == "title" && RequiredFields[1] == "storage_path";
    assert "title" !in body ==> missing == Some("title");
    assert "Missing field: " + "title" == "Missing field: title";
    assert "Missing field: " + "storage_path" == "Missing field: storage_path";
    match missing
    case Some(field) => Reject(Response(400, ErrorBody("Missing field: " + field)))
    case None => Insert(SongRow(body, userId))
  }

  /** A title that is present but null still passes validation. */
  lemma NullTitleAccepted(body: map<string, Json>, userId: Option<string>)
    requires "storage_path" in body
    ensures AddSong(body["title" := JNull], userId).Insert?
  {
  }

  /** The owner of the row is the authenticated caller: whatever `user_id`
      the body carries is ignored. */
  lemma OwnerNotFromBody(body: map<string, Json>, userId: string, claimed: Json)
    requires "title" in body && "storage_path" in body
    ensures AddSong(body["user_id" := claimed], Some(userId)) == Insert(SongRow(body, Some(userId)))
    ensures SongRow(body, Some(userId))["user_id"] == JStr(userId)
  {
    RowIgnoresUnreadKeys(body, "user_id", claimed, Some(userId));
  }

  /** Keys `add_song` does not read never reach the row. */
  lemma RowIgnoresUnreadKeys(body: map<string, Json>, key: string, value: Json, userId: Option<string>)
    requires key !in {"title", "artist", "album", "storage_path", "duration", "mime_type"}
    ensures SongRow(body[key := value], userId) == SongRow(body, userId)
  {
    var b := body[key := value];
    assert Get(b, "title") == Get(body, "title");
    assert Get(b, "artist") == Get(body, "artist");
    assert Get(b, "album") == Get(body, "album");
    assert Get(b, "storage_path") == Get(body, "storage_path");
    assert Get(b, "duration") == Get(body, "duration");
    assert Get(b, "mime_type") == Get(body, "mime_type");
  }

  // ---------------------------------------------------------------------
  // get_song_url
  // ---------------------------------------------------------------------

  /** The URL the storage service returned: its `signedURL` entry when it
      answered with an object, otherwise the answer itself. */
  function UrlOf(answer: Json): Json {
    if answer.JObj? then Get(answer.fields, "signedURL") else answer
  }

  /** Steps 4 and 5 of `get_song_url`: an object answer without a usable
      `signedURL` but with an `error` entry becomes a 500 carrying the whole
      answer; every other answer becomes a 200 `{"url": ...}`. */
  function SignedUrlResponse(answer: Json): (r: Response)
    ensures r.status == 500 <==>
              answer.JObj? && !Truthy(Get(answer.fields, "signedURL")) && "error" in answer.fields
    ensures r.status == 500 ==> r.body == JObj(map["error" := answer])
    ensures r.status != 500 ==> r.status == 200 && r.body == JObj(map["url" := UrlOf(answer)])
  {
    match answer
    case JObj(fields) =>
      var url := Get(fields, "signedURL");
      if !Truthy(url) && "error" in fields then Response(500, JObj(map["error" := answer]))
      else Response(200, JObj(map["url" := url]))
    case _ => Response(200, JObj(map["url" := answer]))
  }

  /** A plain string answer is passed through unchanged. */
  lemma StringAnswerPassesThrough(url: string)
    ensures SignedUrlResponse(JStr(url)) == Response(200, JObj(map["url" := JStr(url)]))
  {
  }

  /** An object answer with a usable `signedURL` yields that URL, even when
      it also has an `error` entry. */
  lemma SignedUrlEntryWins(fields: map<string, Json>)
    requires "signedURL" in fields && Truthy(fields["signedURL"])
    ensures SignedUrlResponse(JObj(fields)) == Response(200, JObj(map["url" := fields["signedURL"]]))
  {
  }

  /** An object answer with neither entry yields a 200 whose URL is null. */
  lemma NoUrlNoErrorGivesNull(fields: map<string, Json>)
    requires "signedURL" !in fields && "error" !in fields
    ensures SignedUrlResponse(JObj(fields)) == Response(200, JObj(map["url" := JNull]))
  {
  }

  // ---------------------------------------------------------------------
  // The token get_song_url forwards to the storage client
  // ---------------------------------------------------------------------

  /** Step 1 of `get_song_url` as written: it takes the header apart again
      with `split(' ')` and forwards the second piece; a header with no
      single space raises, which the handler answers with a 500 (`None`
      here). */
  function ForwardedTokenAsWritten(header: string): (t: Option<string>)
    ensures t.Some? <==> |SplitOn(header, ' ')| >= 2
    ensures t.None? <==> ' ' !in header
    ensures t.Some? ==> ' ' !in t.value
    ensures t.Some? ==> exists k :: TokenAfterFirstSpace(header, k, t.value)
  {
    var parts := SplitOn(header, ' ');
    SplitOnSingle(header, ' ');
    if |parts| >= 2 then
      SplitOnSecond(header, ' ');
      assert TokenAfterFirstSpace(header, |parts[0]|, parts[1]);
      Some(parts[1])
    else
      None
  }

  /** `token` is the text between the first space of `header`, at `k`, and
      the next space or the end of the header. */
  predicate TokenAfterFirstSpace(header: string, k: int, token: string) {
    && 0 <= k && k + 1 + |token| <= |header|
    && header[k] == ' ' && ' ' !in header[..k]
    && header[k + 1..k + 1 + |token|] == token
    && (k + 1 + |token| == |header| || header[k + 1 + |token|] == ' ')
  }

  /** The token the handler should forward: the one the guard accepted. */
  function ForwardedToken(auth: Middleware.AuthResult): (t: Option<string>)
    ensures auth.Authorized? <==> t.Some?
    ensures t.Some? ==> t.value == auth.token
  {
    if auth.Authorized? then Some(auth.token) else None
  }

  /** Whenever the guard lets a request through, the corrected handler
      forwards exactly the token the guard found in the header. */
  lemma ForwardedTokenMatchesGuard(header: string, decode: string -> Middleware.Decoded)
    requires Middleware.RequireAuth(Some(header), decode).Authorized?
    ensures ForwardedToken(Middleware.RequireAuth(Some(header), decode)) == Middleware.BearerToken(Some(header))
    ensures |ForwardedToken(Middleware.RequireAuth(Some(header), decode)).value| > 0
  {
  }

  /** With exactly one space after `Bearer` the two parsings agree. */
  lemma AsWrittenAgreesOnCanonical(token: string)
    requires |token| > 0 && NoSpace(token)
    ensures ForwardedTokenAsWritten("Bearer " + token) == Some(token)
    ensures Middleware.BearerToken(Some("Bearer " + token)) == Some(token)
  {
    Middleware.CanonicalHeader(token);
    assert ' ' !in token;
    SplitOnJoin(["Bearer", token], ' ');
    assert JoinOn(["Bearer", token], ' ') == "Bearer " + token;
  }

  /** With two spaces after `Bearer` the guard accepts the token, but the
      handler as written forwards an empty token instead. */
  lemma AsWrittenForwardsEmptyToken(token: string)
    requires |token| > 0 && NoSpace(token)
    ensures Middleware.BearerToken(Some("Bearer  " + token)) == Some(token)
    ensures ForwardedTokenAsWritten("Bearer  " + token) == Some("")
  {
    assert "Bearer" + "  " == "Bearer  ";
    assert AllSpace("  ");
    GuardAcceptsGap("  ", token);
    DoubleSpaceSplitsToEmpty(token);
  }

  /** The guard accepts `Bearer` followed by any non-empty run of
      whitespace and the token. */
  lemma GuardAcceptsGap(gap: string, token: string)
    requires |gap| > 0 && AllSpace(gap)
    requires IsWord(token)
    ensures Middleware.BearerToken(Some("Bearer" + gap + token)) == Some(token)
  {
    Middleware.BearerSpellings();
    Middleware.BearerTokenOfWords("Bearer", gap, token);
  }

  lemma DoubleSpaceSplitsToEmpty(token: string)
    requires ' ' !in token
    ensures SplitOn("Bearer  " + token, ' ') == ["Bearer", "", token]
  {
    var parts := ["Bearer", "", token];
    assert parts[1..][1..] == [token];
    assert JoinOn(parts[1..], ' ') == [' '] + token;
    assert JoinOn(parts, ' ') == "Bearer" + [' '] + ([' '] + token);
    ConcatAssoc("Bearer" + [' '], [' '], token);
    assert "Bearer" + [' '] + [' '] == "Bearer  ";
    SplitOnJoin(parts, ' ');
  }

  /** With a tab after `Bearer` the guard accepts the token, but the handler
      as written finds no space, raises, and answers 500. */
  lemma AsWrittenFailsOnTab(token: string)
    requires |token| > 0 && NoSpace(token)
    ensures Middleware.BearerToken(Some("Bearer\t" + token)) == Some(token)
    ensures ForwardedTokenAsWritten("Bearer\t" + token) == None
  {
    assert "Bearer" + "\t" == "Bearer\t";
    assert AllSpace("\t");
    GuardAcceptsGap("\t", token);
    TabHeaderIsOnePiece(token);
  }

  lemma TabHeaderIsOnePiece(token: string)
    requires ' ' !in token
    ensures SplitOn("Bearer\t" + token, ' ') == ["Bearer\t" + token]
  {
    SplitOnJoin(["Bearer\t" + token], ' ');
  }
}

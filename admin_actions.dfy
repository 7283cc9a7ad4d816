/**
 * The admin server actions: refreshing the video list from the channel feed,
 * adding one video from a pasted link, deleting a video, and the news
 * create/update/delete handlers. None of them looks at the database's answer:
 * a rejected write is silently lost.
 */
module AdminActions {
  import opened Wrappers
  import opened JsSemantics
  import opened Tables
  import opened Schema
  import opened Store
  import opened FeedParsing

  const ChannelNotFoundMessage := "チャンネルIDが見つかりませんでした"
  /** What `String(error)` gives for a request that throws; the exact text comes from the runtime. */
  const FetchFailedMessage := "TypeError: fetch failed"

  /** A row of the table holds that video id. */
  predicate Stored(t: Table<VideoRow>, videoId: string) {
    exists k :: k in t.rows && t.rows[k].videoId == videoId
  }

  /** Where an upsert for `videoId` writes: the row already holding it, else the next fresh id. */
  function UpsertKey(t: Table<VideoRow>, videoId: string): (k: int)
    requires Tables.Valid(t) && UniqueVideoIds(t)
    ensures k in t.rows ==> t.rows[k].videoId == videoId
    ensures k !in t.rows ==> k == t.nextId && !Stored(t, videoId)
  {
    if Stored(t, videoId) then
      var k :| k in t.rows && t.rows[k].videoId == videoId;
      k
    else t.nextId
  }

  /** `upsert(row, { onConflict: "video_id" })`: replace the row with that video id, else insert one under a fresh id. */
  function Upsert(t: Table<VideoRow>, row: VideoRow): (t': Table<VideoRow>)
    requires Tables.Valid(t) && UniqueVideoIds(t)
    ensures Tables.Valid(t') && UniqueVideoIds(t')
    ensures t'.rows == t.rows[UpsertKey(t, row.videoId) := row]
    ensures t'.nextId == if UpsertKey(t, row.videoId) in t.rows then t.nextId else t.nextId + 1
  {
    var k := UpsertKey(t, row.videoId);
    Table(t.rows[k := row], if k in t.rows then t.nextId else t.nextId + 1)
  }

  /**
   * After an upsert exactly one row holds the video id, carrying the new fields;
   * every other row is kept as it was and no other row appears.
   */
  lemma UpsertKeepsOneRowPerVideo(t: Table<VideoRow>, row: VideoRow)
    requires Tables.Valid(t) && UniqueVideoIds(t)
    ensures var t' := Upsert(t, row);
      && (exists k :: k in t'.rows && t'.rows[k] == row)
      && (forall k :: k in t'.rows && t'.rows[k].videoId == row.videoId ==> t'.rows[k] == row)
      && (forall k :: k in t.rows && t.rows[k].videoId != row.videoId ==> k in t'.rows && t'.rows[k] == t.rows[k])
      && (forall k :: k in t'.rows && t'.rows[k].videoId != row.videoId ==> k in t.rows)
  {
    var k := UpsertKey(t, row.videoId);
    assert Upsert(t, row).rows[k] == row;
  }

  /** A second upsert for the same video id only overwrites the fields: the latest values win, no row is added. */
  lemma UpsertSameVideoTwice(t: Table<VideoRow>, a: VideoRow, b: VideoRow)
    requires Tables.Valid(t) && UniqueVideoIds(t)
    requires a.videoId == b.videoId
    ensures Upsert(Upsert(t, a), b) == Upsert(t, b)
  {
    var k := UpsertKey(t, a.videoId);
    var t1 := Upsert(t, a);
    assert t1.rows[k].videoId == b.videoId;
    assert UpsertKey(t1, b.videoId) == k;
  }

  /** The same upsert, applied n times. */
  function UpsertTimes(t: Table<VideoRow>, row: VideoRow, n: nat): (t': Table<VideoRow>)
    requires Tables.Valid(t) && UniqueVideoIds(t)
    ensures Tables.Valid(t') && UniqueVideoIds(t')
  {
    if n == 0 then t else Upsert(UpsertTimes(t, row, n - 1), row)
  }

  /** Repeating an upsert any positive number of times is the same as doing it once: exactly one row with that video id. */
  lemma {:induction false} UpsertIdempotent(t: Table<VideoRow>, row: VideoRow, n: nat)
    requires Tables.Valid(t) && UniqueVideoIds(t)
    requires n >= 1
    ensures UpsertTimes(t, row, n) == Upsert(t, row)
    ensures var t' := UpsertTimes(t, row, n);
      exists k :: k in t'.rows && t'.rows[k] == row
        && forall j :: j in t'.rows && t'.rows[j].videoId == row.videoId ==> j == k
  {
    if n > 1 {
      UpsertIdempotent(t, row, n - 1);
      UpsertSameVideoTwice(t, row, row);
    }
    var t' := Upsert(t, row);
    var k := UpsertKey(t, row.videoId);
    assert t'.rows[k] == row;
  }

  /** The row a parsed feed entry is stored as. */
  function VideoRowOf(v: FeedVideo): (r: VideoRow)
    ensures r.videoId == v.videoId && r.title == Some(v.title) && r.publishedAt == v.publishedAt
    ensures r.thumbnailUrl == ThumbnailUrl(v.videoId)
  {
    VideoRow(v.videoId, Some(v.title), ThumbnailUrl(v.videoId), v.publishedAt)
  }

  /** The upserts of `vs` in order, each one kept only where `accepted` says the database took it. */
  function UpsertAccepted(t: Table<VideoRow>, vs: seq<FeedVideo>, accepted: seq<bool>): (t': Table<VideoRow>)
    requires Tables.Valid(t) && UniqueVideoIds(t)
    requires |accepted| == |vs|
    ensures Tables.Valid(t') && UniqueVideoIds(t')
  {
    if vs == [] then t
    else
      var n := |vs| - 1;
      var before := UpsertAccepted(t, vs[..n], accepted[..n]);
      if accepted[n] then Upsert(before, VideoRowOf(vs[n])) else before
  }

  /** One more video and verdict: the upsert is applied, or skipped where the database refused it. */
  lemma UpsertAcceptedStep(t: Table<VideoRow>, vs: seq<FeedVideo>, accepted: seq<bool>, v: FeedVideo, ok: bool)
    requires Tables.Valid(t) && UniqueVideoIds(t)
    requires |accepted| == |vs|
    ensures ok ==> UpsertAccepted(t, vs + [v], accepted + [ok]) == Upsert(UpsertAccepted(t, vs, accepted), VideoRowOf(v))
    ensures !ok ==> UpsertAccepted(t, vs + [v], accepted + [ok]) == UpsertAccepted(t, vs, accepted)
  {
    assert (vs + [v])[..|vs|] == vs;
    assert (accepted + [ok])[..|vs|] == accepted;
  }

  /** When the database takes every write, each parsed video ends up stored. */
  lemma {:induction false} AcceptedVideosAreStored(t: Table<VideoRow>, vs: seq<FeedVideo>, accepted: seq<bool>, i: int)
    requires Tables.Valid(t) && UniqueVideoIds(t)
    requires |accepted| == |vs|
    requires forall j :: 0 <= j < |accepted| ==> accepted[j]
    requires 0 <= i < |vs|
    ensures Stored(UpsertAccepted(t, vs, accepted), vs[i].videoId)
    decreases |vs|
  {
    var n := |vs| - 1;
    var before := UpsertAccepted(t, vs[..n], accepted[..n]);
    assert accepted[n];
    var key := UpsertKey(before, vs[n].videoId);
    var t' := Upsert(before, VideoRowOf(vs[n]));
    assert UpsertAccepted(t, vs, accepted) == t';
    if i < n {
      AcceptedVideosAreStored(t, vs[..n], accepted[..n], i);
      var k :| k in before.rows && before.rows[k].videoId == vs[..n][i].videoId;
      assert k in t'.rows && t'.rows[k].videoId == vs[i].videoId;
    } else {
      assert t'.rows[key].videoId == vs[i].videoId;
    }
  }

  /** `{ success, error }` as returned by `refreshYouTube`. */
  datatype RefreshResult = RefreshResult(success: bool, error: Option<string>)

  /** The store's `upsert` on the video table: applied, or refused and ignored (`accepted` records which). */
  method UpsertVideo(db: Database, row: VideoRow) returns (ghost accepted: bool)
    requires db.Valid()
    modifies db`videos
    ensures db.Valid()
    ensures accepted ==> db.videos == Upsert(old(db.videos), row)
    ensures !accepted ==> db.videos == old(db.videos)
  {
    var error := StoreVerdict();
    if error.None? {
      db.videos := Upsert(db.videos, row);
    }
    accepted := error.None?;
  }

  /** The loop of `refreshYouTube` over the first entries of the feed. */
  method UpsertEntries(db: Database, entries: seq<string>) returns (ghost accepted: seq<bool>)
    requires db.Valid()
    modifies db`videos
    ensures db.Valid()
    ensures |accepted| == |ParsedVideos(entries)|
    ensures db.videos == UpsertAccepted(old(db.videos), ParsedVideos(entries), accepted)
  {
    accepted := [];
    var i := 0;
    while i < |entries|
      invariant 0 <= i <= |entries|
      invariant db.Valid()
      invariant |accepted| == |ParsedVideos(entries[..i])|
      invariant db.videos == UpsertAccepted(old(db.videos), ParsedVideos(entries[..i]), accepted)
    {
      var parsed := ParseEntry(entries[i]);
      ParsedVideosStep(entries, i);
      ghost var before := db.videos;
      if parsed.Some? {
        var ok := UpsertVideo(db, VideoRowOf(parsed.value));
        UpsertAcceptedStep(old(db.videos), ParsedVideos(entries[..i]), accepted, parsed.value, ok);
        accepted := accepted + [ok];
      }
      i := i + 1;
    }
    assert entries[..i] == entries;
  }

  /** The feed text, or the message `refreshYouTube` stops with before reaching it. */
  datatype FeedOutcome = Fetched(xml: string) | Stopped(reason: string)

  /** The feed body `refreshYouTube` reads, or the reason it stops before reading one. */
  function FeedBody(fetch: string -> Option<string>): (r: FeedOutcome)
    ensures fetch(ChannelPageUrl).None? ==> r.Stopped?
    ensures fetch(ChannelPageUrl).Some? && ChannelId(fetch(ChannelPageUrl).value).None? ==>
      r == Stopped(ChannelNotFoundMessage)
    ensures r.Fetched? <==>
      && fetch(ChannelPageUrl).Some?
      && ChannelId(fetch(ChannelPageUrl).value).Some?
      && fetch(FeedUrl(ChannelId(fetch(ChannelPageUrl).value).value)).Some?
    ensures r.Fetched? ==> r.xml == fetch(FeedUrl(ChannelId(fetch(ChannelPageUrl).value).value)).value
  {
    match fetch(ChannelPageUrl)
    case None => Stopped(FetchFailedMessage)
    case Some(html) =>
      match ChannelId(html)
      case None => Stopped(ChannelNotFoundMessage)
      case Some(channelId) =>
        match fetch(FeedUrl(channelId))
        case None => Stopped(FetchFailedMessage)
        case Some(xml) => Fetched(xml)
  }

  /**
   * `refreshYouTube`. `fetch` gives the body served at a URL, or `None` when the
   * request throws. The channel page yields the channel id, the channel's feed
   * the entries, and the first six entries are handed to `UpsertEntries`.
   */
  method RefreshYouTube(db: Database, fetch: string -> Option<string>) returns (res: RefreshResult, ghost accepted: seq<bool>)
    requires db.Valid()
    modifies db`videos
    ensures db.Valid()
    ensures res.success <==> FeedBody(fetch).Fetched?
    ensures !res.success ==> db.videos == old(db.videos) && res.error == Some(FeedBody(fetch).reason)
    ensures res.success ==>
      var vs := ParsedVideos(FirstEntries(FeedBody(fetch).xml));
      res.error.None? && |accepted| == |vs| && db.videos == UpsertAccepted(old(db.videos), vs, accepted)
  {
    accepted := [];
    var body := FeedBody(fetch);
    if body.Stopped? {
      return RefreshResult(false, Some(body.reason)), accepted;
    }
    accepted := UpsertEntries(db, FirstEntries(body.xml));
    res := RefreshResult(true, None);
  }

  /** The row `addYouTubeVideo` upserts for a pasted link, or `None` when the link carries no video id. */
  function LinkedVideo(form: Form, now: string): (r: Option<VideoRow>)
    requires "url" in form
    ensures r.None? <==> VideoIdFromUrl(form["url"]).None?
    ensures r.Some? ==>
      && r.value.videoId == VideoIdFromUrl(form["url"]).value
      && r.value.title == Get(form, "title")
      && r.value.thumbnailUrl == ThumbnailUrl(r.value.videoId)
      && r.value.publishedAt == Some(now)
  {
    match VideoIdFromUrl(form["url"])
    case None => None
    case Some(id) => Some(VideoRow(id, Get(form, "title"), ThumbnailUrl(id), Some(now)))
  }

  /**
   * `addYouTubeVideo`: a link without a video id changes nothing; otherwise the
   * video is upserted with the given title and `now` as its publication time.
   */
  method AddYouTubeVideo(db: Database, form: Form, now: string)
    requires db.Valid()
    requires "url" in form
    modifies db`videos
    ensures db.Valid()
    ensures LinkedVideo(form, now).None? ==> db.videos == old(db.videos)
    ensures LinkedVideo(form, now).Some? ==>
      db.videos == old(db.videos) || db.videos == Upsert(old(db.videos), LinkedVideo(form, now).value)
  {
    var video := LinkedVideo(form, now);
    if video.None? {
      return;
    }
    var _ := UpsertVideo(db, video.value);
  }

  /** `deleteYouTubeVideo`: removes that one row, when the database takes the delete. */
  method DeleteYouTubeVideo(db: Database, id: int)
    requires db.Valid()
    modifies db`videos
    ensures db.Valid()
    ensures db.videos == old(db.videos) || db.videos == Tables.Delete(old(db.videos), id)
  {
    var error := StoreVerdict();
    if error.None? {
      db.videos := Tables.Delete(db.videos, id);
    }
  }

  /** The news row built from the submitted title and content, copied as they are. */
  function NewsData(form: Form): (r: NewsRow)
    ensures r.title == Get(form, "title") && r.content == Get(form, "content")
  {
    NewsRow(Get(form, "title"), Get(form, "content"))
  }

  /** `createNews`. */
  method CreateNews(db: Database, form: Form)
    requires db.Valid()
    modifies db`news
    ensures db.Valid()
    ensures db.news == old(db.news) || db.news == Tables.Insert(old(db.news), NewsData(form)).0
  {
    var error := StoreVerdict();
    if error.None? {
      var inserted := Tables.Insert(db.news, NewsData(form));
      db.news := inserted.0;
    }
  }

  /** `updateNews`: only the row with that id can change. */
  method UpdateNews(db: Database, id: int, form: Form)
    requires db.Valid()
    modifies db`news
    ensures db.Valid()
    ensures db.news == old(db.news) || db.news == Tables.Update(old(db.news), id, NewsData(form))
  {
    var error := StoreVerdict();
    if error.None? {
      db.news := Tables.Update(db.news, id, NewsData(form));
    }
  }

  /** `deleteNews`. */
  method DeleteNews(db: Database, id: int)
    requires db.Valid()
    modifies db`news
    ensures db.Valid()
    ensures db.news == old(db.news) || db.news == Tables.Delete(old(db.news), id)
  {
    var error := StoreVerdict();
    if error.None? {
      db.news := Tables.Delete(db.news, id);
    }
  }
}

/**
 * The text scraping of the video admin actions: the channel id on the channel
 * page, the `<entry>` blocks of the channel feed and their fields, the
 * thumbnail URL, and the video id of a pasted watch or short link.
 */
module FeedParsing {
  import opened Wrappers
  import opened TextSearch

  const ChannelHandle := "mimo_claudecode"
  const ChannelPageUrl := "https://www.youtube.com/@" + ChannelHandle

  const FeedUrlPrefix := "https://www.youtube.com/feeds/videos.xml?channel_id="

  /** The feed address for a channel id: the id is the query value after the fixed prefix. */
  function FeedUrl(channelId: string): (url: string)
    ensures |url| == |FeedUrlPrefix| + |channelId|
    ensures url[..|FeedUrlPrefix|] == FeedUrlPrefix && url[|FeedUrlPrefix|..] == channelId
  {
    FeedUrlPrefix + channelId
  }

  /** `/"channelId":"(UC[a-zA-Z0-9_-]+)"/` */
  const ChannelIdKey := Pattern("\"channelId\":\"", "UC", ChannelIdChar, "\"")
  /** `/channel_id=(UC[a-zA-Z0-9_-]+)/` */
  const ChannelIdParam := Pattern("channel_id=", "UC", ChannelIdChar, "")
  /** `/"externalId":"(UC[a-zA-Z0-9_-]+)"/` */
  const ExternalIdKey := Pattern("\"externalId\":\"", "UC", ChannelIdChar, "\"")

  /** The three channel-id patterns, tried in this order; the first that matches anywhere wins. */
  function ChannelId(html: string): (r: Option<string>)
    ensures r.None? <==> Search(html, [ChannelIdKey]).None? && Search(html, [ChannelIdParam]).None?
                         && Search(html, [ExternalIdKey]).None?
    ensures Search(html, [ChannelIdKey]).Some? ==> r == Search(html, [ChannelIdKey])
    ensures Search(html, [ChannelIdKey]).None? && Search(html, [ChannelIdParam]).Some? ==> r == Search(html, [ChannelIdParam])
    ensures Search(html, [ChannelIdKey]).None? && Search(html, [ChannelIdParam]).None? ==> r == Search(html, [ExternalIdKey])
  {
    var first := Search(html, [ChannelIdKey]);
    if first.Some? then first
    else
      var second := Search(html, [ChannelIdParam]);
      if second.Some? then second else Search(html, [ExternalIdKey])
  }

  /** The three patterns in the order they are tried. */
  const ChannelIdPatterns := [ChannelIdKey, ChannelIdParam, ExternalIdKey]

  /** A page yields no channel id exactly when none of the three patterns stands anywhere in it. */
  lemma ChannelIdAbsentIff(html: string)
    ensures ChannelId(html).None? <==>
      forall p: nat, g :: !Occurs(html, p, ChannelIdKey, g) && !Occurs(html, p, ChannelIdParam, g)
                          && !Occurs(html, p, ExternalIdKey, g)
  {
    PatternsCloseOutsideClass("");
    SearchOneFailsIffAbsent(html, ChannelIdKey);
    SearchOneFailsIffAbsent(html, ChannelIdParam);
    SearchOneFailsIffAbsent(html, ExternalIdKey);
  }

  /**
   * When pattern `k` is the first of the three that stands anywhere in the page,
   * the channel id is the group of its leftmost occurrence.
   */
  lemma ChannelIdFound(html: string, k: nat, p: nat, g: string)
    requires k < |ChannelIdPatterns| && Occurs(html, p, ChannelIdPatterns[k], g)
    requires forall j, q: nat, h :: 0 <= j < k ==> !Occurs(html, q, ChannelIdPatterns[j], h)
    requires forall q: nat, h :: q < p ==> !Occurs(html, q, ChannelIdPatterns[k], h)
    ensures ChannelId(html) == Some(g)
  {
    PatternsCloseOutsideClass("");
    var pats := ChannelIdPatterns;
    assert pats[0] == ChannelIdKey && pats[1] == ChannelIdParam && pats[2] == ExternalIdKey;
    if k > 0 {
      SearchOneFailsIffAbsent(html, ChannelIdKey);
    }
    if k > 1 {
      SearchOneFailsIffAbsent(html, ChannelIdParam);
    }
    SearchOneFindsLeftmost(html, pats[k], p, g);
  }

  /** A found channel id is `UC` followed by one or more of `[A-Za-z0-9_-]`. */
  lemma ChannelIdShape(html: string)
    requires ChannelId(html).Some?
    ensures var id := ChannelId(html).value;
      |id| >= 3 && id[..2] == "UC" && forall i :: 2 <= i < |id| ==> InClass(id[i], ChannelIdChar)
  {
    var pat := if Search(html, [ChannelIdKey]).Some? then ChannelIdKey
      else if Search(html, [ChannelIdParam]).Some? then ChannelIdParam
      else ExternalIdKey;
    SearchCapture(html, [pat]);
    assert [pat][0] == pat;
  }

  // ----- the feed -----

  const EntryOpen := "<entry>"
  const EntryClose := "</entry>"

  /** The spans of `/<entry>[\s\S]*?<\/entry>/g`: every match, in order, none skipped. */
  function EntrySpans(xml: string): (spans: seq<(nat, nat)>)
    ensures forall i :: 0 <= i < |spans| ==> Delimited(xml, EntryOpen, EntryClose, spans[i].0, spans[i].1)
    ensures forall i :: 0 <= i < |spans| - 1 ==> spans[i].1 <= spans[i + 1].0
    ensures FindsAllMatches(xml, EntryOpen, EntryClose, 0, spans)
  {
    var spans := LazySpans(xml, EntryOpen, EntryClose, 0);
    MatchesAreSpans(xml, EntryOpen, EntryClose, 0, spans);
    spans
  }

  /** `xml.match(/<entry>[\s\S]*?<\/entry>/g) || []`. */
  function Entries(xml: string): (entries: seq<string>)
    ensures |entries| == |EntrySpans(xml)|
    ensures forall i :: 0 <= i < |entries| ==>
      entries[i] == xml[EntrySpans(xml)[i].0..EntrySpans(xml)[i].1]
  {
    var spans := EntrySpans(xml);
    seq(|spans|, i requires 0 <= i < |spans| => xml[spans[i].0..spans[i].1])
  }

  /** Only the first six blocks are looked at: `entries.slice(0, 6)`. */
  const MaxEntries := 6

  function FirstEntries(xml: string): (entries: seq<string>)
    ensures |entries| <= MaxEntries
    ensures |entries| == if |Entries(xml)| < MaxEntries then |Entries(xml)| else MaxEntries
    ensures entries == Entries(xml)[..|entries|]
  {
    var all := Entries(xml);
    if |all| <= MaxEntries then all else all[..MaxEntries]
  }

  /** Every block handed to the parser opens with `<entry>`, closes with `</entry>` and holds no other `</entry>`. */
  lemma EntryBlocksAreDelimited(xml: string, i: int)
    requires 0 <= i < |FirstEntries(xml)|
    ensures Block(FirstEntries(xml)[i], EntryOpen, EntryClose)
  {
    var sp := EntrySpans(xml)[i];
    assert FirstEntries(xml)[i] == xml[sp.0..sp.1];
    DelimitedIsBlock(xml, EntryOpen, EntryClose, sp.0, sp.1);
  }

  /** `/<tag>([^<]+)<\/tag>/`. */
  function TagPattern(tag: string): (pat: Pattern)
    ensures CloseOutsideClass(pat)
  {
    Pattern("<" + tag + ">", "", NotLessThan, "</" + tag + ">")
  }

  /** The text of the first `<tag>…</tag>` whose content is non-empty and holds no `<`. */
  function TagText(entry: string, tag: string): (r: Option<string>)
    ensures r.Some? ==> r.value != []
  {
    Search(entry, [TagPattern(tag)])
  }

  /** A tag's text is non-empty and holds no `<`. */
  lemma TagTextShape(entry: string, tag: string)
    requires TagText(entry, tag).Some?
    ensures TagText(entry, tag).value != [] && forall i :: 0 <= i < |TagText(entry, tag).value| ==> TagText(entry, tag).value[i] != '<'
  {
    SearchCapture(entry, [TagPattern(tag)]);
    assert [TagPattern(tag)][0] == TagPattern(tag);
  }

  /** A tag yields no text exactly when no `<tag>`, non-empty text without `<`, `</tag>` stands anywhere in the entry. */
  lemma TagTextAbsentIff(entry: string, tag: string)
    ensures TagText(entry, tag).None? <==> forall p: nat, g :: !Occurs(entry, p, TagPattern(tag), g)
  {
    PatternsCloseOutsideClass(tag);
    SearchOneFailsIffAbsent(entry, TagPattern(tag));
  }

  /** A tag's text is the text of its leftmost occurrence. */
  lemma TagTextFound(entry: string, tag: string, p: nat, g: string)
    requires Occurs(entry, p, TagPattern(tag), g)
    requires forall q: nat, h :: q < p ==> !Occurs(entry, q, TagPattern(tag), h)
    ensures TagText(entry, tag) == Some(g)
  {
    PatternsCloseOutsideClass(tag);
    SearchOneFindsLeftmost(entry, TagPattern(tag), p, g);
  }

  /** The fields an entry yields. */
  datatype FeedVideo = FeedVideo(videoId: string, title: string, publishedAt: Option<string>)

  /** One entry: its video id, its title (`<media:title>`, else `<title>`) and its `<published>` text. */
  function ParseEntry(entry: string): (r: Option<FeedVideo>)
    ensures r.Some? ==> r.value.publishedAt == TagText(entry, "published")
  {
    var videoId := TagText(entry, "yt:videoId");
    var mediaTitle := TagText(entry, "media:title");
    var title := if mediaTitle.Some? then mediaTitle else TagText(entry, "title");
    if videoId.Some? && title.Some? then Some(FeedVideo(videoId.value, title.value, TagText(entry, "published")))
    else None
  }

  /**
   * An entry yields a video exactly when it has a video id and a title; the
   * title prefers `<media:title>` over `<title>`, and `<published>` is optional.
   */
  lemma ParseEntryFields(entry: string)
    ensures ParseEntry(entry).Some? <==>
      TagText(entry, "yt:videoId").Some? && (TagText(entry, "media:title").Some? || TagText(entry, "title").Some?)
    ensures ParseEntry(entry).Some? ==> Some(ParseEntry(entry).value.videoId) == TagText(entry, "yt:videoId")
    ensures ParseEntry(entry).Some? && TagText(entry, "media:title").Some? ==>
      Some(ParseEntry(entry).value.title) == TagText(entry, "media:title")
    ensures ParseEntry(entry).Some? && TagText(entry, "media:title").None? ==>
      Some(ParseEntry(entry).value.title) == TagText(entry, "title")
  {
  }

  /** The videos of the given entries, in order, skipping the entries that do not parse. */
  function ParsedVideos(entries: seq<string>): (vs: seq<FeedVideo>)
    ensures |vs| <= |entries|
  {
    if entries == [] then []
    else
      var init := ParsedVideos(entries[..|entries| - 1]);
      match ParseEntry(entries[|entries| - 1])
      case None => init
      case Some(v) => init + [v]
  }

  /** Parsing one more entry appends its video, if it has one, and keeps the earlier ones. */
  lemma ParsedVideosStep(entries: seq<string>, i: int)
    requires 0 <= i < |entries|
    ensures ParseEntry(entries[i]).None? ==> ParsedVideos(entries[..i + 1]) == ParsedVideos(entries[..i])
    ensures ParseEntry(entries[i]).Some? ==>
      ParsedVideos(entries[..i + 1]) == ParsedVideos(entries[..i]) + [ParseEntry(entries[i]).value]
  {
    assert entries[..i + 1][..i] == entries[..i];
  }

  const ThumbnailPrefix := "https://img.youtube.com/vi/"
  const ThumbnailSuffix := "/mqdefault.jpg"

  /** `https://img.youtube.com/vi/<id>/mqdefault.jpg`: the id stands between the fixed prefix and suffix. */
  function ThumbnailUrl(videoId: string): (url: string)
    ensures |url| == |ThumbnailPrefix| + |videoId| + |ThumbnailSuffix|
    ensures url[..|ThumbnailPrefix|] == ThumbnailPrefix
    ensures url[|ThumbnailPrefix|..|ThumbnailPrefix| + |videoId|] == videoId
    ensures url[|ThumbnailPrefix| + |videoId|..] == ThumbnailSuffix
  {
    ThumbnailPrefix + videoId + ThumbnailSuffix
  }

  /** The thumbnail URL names its video: different ids never share one. */
  lemma ThumbnailUrlInjective(a: string, b: string)
    requires ThumbnailUrl(a) == ThumbnailUrl(b)
    ensures a == b
  {
    var pre := "https://img.youtube.com/vi/";
    assert |a| == |b|;
    assert a == ThumbnailUrl(a)[|pre|..|pre| + |a|];
    assert b == ThumbnailUrl(b)[|pre|..|pre| + |b|];
  }

  /** `/(?:youtube\.com\/watch\?v=|youtu\.be\/)([^&\s]+)/`. */
  const WatchMarker := "youtube.com/watch?v="
  const ShortMarker := "youtu.be/"
  const WatchUrl := Pattern(WatchMarker, "", NotAmpOrSpace, "")
  const ShortUrl := Pattern(ShortMarker, "", NotAmpOrSpace, "")
  /** The alternation, in its order. */
  const VideoIdPatterns := [WatchUrl, ShortUrl]

  /** `url.match(…)?.[1]`: the video id of a pasted link, if either marker is followed by an id. */
  function VideoIdFromUrl(url: string): (r: Option<string>)
    ensures r.Some? ==> r.value != []
  {
    var alts := VideoIdPatterns;
    var found := Search(url, alts);
    if found.Some? then
      SearchCapture(url, alts);
      assert alts[0] == WatchUrl && alts[1] == ShortUrl;
      found
    else found
  }

  /** The id is the non-empty run of non-`&`, non-space characters captured after a marker. */
  lemma VideoIdShape(url: string)
    requires VideoIdFromUrl(url).Some?
    ensures var id := VideoIdFromUrl(url).value;
      id != [] && forall i :: 0 <= i < |id| ==> InClass(id[i], NotAmpOrSpace)
  {
    var alts := VideoIdPatterns;
    SearchCapture(url, alts);
    assert alts[0] == WatchUrl && alts[1] == ShortUrl;
  }

  /** The marker stands at `p` and an id character follows it. */
  predicate IdAfter(url: string, p: nat, marker: string) {
    StartsAt(url, p, marker) && p + |marker| < |url| && InClass(url[p + |marker|], NotAmpOrSpace)
  }

  /** A link yields no id exactly when neither marker is followed by an id character anywhere. */
  lemma VideoIdAbsentIff(url: string)
    ensures VideoIdFromUrl(url).None? <==>
      forall p :: 0 <= p <= |url| ==> !IdAfter(url, p, WatchMarker) && !IdAfter(url, p, ShortMarker)
  {
    assert WatchUrl.before + WatchUrl.prefix == WatchMarker && ShortUrl.before + ShortUrl.prefix == ShortMarker;
    forall p: nat | p <= |url|
      ensures MatchAt(url, p, WatchUrl).Some? <==> IdAfter(url, p, WatchMarker)
      ensures MatchAt(url, p, ShortUrl).Some? <==> IdAfter(url, p, ShortMarker)
    {
      OpenMatchAtIff(url, p, WatchUrl);
      OpenMatchAtIff(url, p, ShortUrl);
    }
    VideoIdAbsentAtEveryPosition(url);
  }

  /**
   * When alternative `i` stands at `p`, no earlier alternative stands there and
   * neither stands further left, the id is its group.
   */
  lemma VideoIdFound(url: string, i: nat, p: nat, g: string)
    requires i < |VideoIdPatterns| && Occurs(url, p, VideoIdPatterns[i], g)
    requires forall j, h :: 0 <= j < i ==> !Occurs(url, p, VideoIdPatterns[j], h)
    requires forall q: nat, k, h :: q < p && 0 <= k < |VideoIdPatterns| ==> !Occurs(url, q, VideoIdPatterns[k], h)
    ensures VideoIdFromUrl(url) == Some(g)
  {
    PatternsCloseOutsideClass("");
    SearchFindsLeftmost(url, VideoIdPatterns, p, i, g);
  }

  /** A link yields no id exactly when neither alternative matches at any position. */
  lemma VideoIdAbsentAtEveryPosition(url: string)
    ensures VideoIdFromUrl(url).None? <==>
      forall p :: 0 <= p <= |url| ==> MatchAt(url, p, WatchUrl).None? && MatchAt(url, p, ShortUrl).None?
  {
    var alts := VideoIdPatterns;
    assert alts[0] == WatchUrl && alts[1] == ShortUrl;
    if VideoIdFromUrl(url).None? {
      SearchFailsIff(url, alts);
      forall p | 0 <= p <= |url|
        ensures MatchAt(url, p, WatchUrl).None? && MatchAt(url, p, ShortUrl).None?
      {
        assert AltAt(url, p, alts).None?;
        AltAtIsSomeAlternative(url, p, alts);
      }
    } else {
      var m := SearchFrom(url, alts, 0).value;
      AltAtIsSomeAlternative(url, m.pos, alts);
      assert MatchAt(url, m.pos, WatchUrl).Some? || MatchAt(url, m.pos, ShortUrl).Some?;
    }
  }

  /** Each scraping pattern ends with text its group cannot take. */
  lemma PatternsCloseOutsideClass(tag: string)
    ensures CloseOutsideClass(ChannelIdKey) && CloseOutsideClass(ChannelIdParam) && CloseOutsideClass(ExternalIdKey)
    ensures CloseOutsideClass(TagPattern(tag))
    ensures AllCloseOutsideClass(VideoIdPatterns)
  {
    assert TagPattern(tag).close[0] == '<';
  }
}

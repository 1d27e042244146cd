/** Latest-video selection for the home page (app/lib/youtube.ts): the
    channel's RSS feed is parsed into entries, the first twelve are checked
    against their watch pages, and the first long-form, non-Short one wins.
    The network is replaced by its answers: the feed text (or its absence),
    the watch pages that load, and the outcome of resolving the channel id. */
module YouTube {

  import opened Wrappers
  import opened Text

  const DefaultTitle := "Latest ThoughtTaken Ride"
  const DefaultFallbackVideoId := "dQw4w9WgXcQ"
  const DefaultMinimumLongformSeconds: int := 180
  const MaxExaminedEntries: nat := 12
  const WatchUrlPrefix := "https://www.youtube.com/watch?v="
  const EmbedUrlPrefix := "https://www.youtube-nocookie.com/embed/"
  const EmbedUrlSuffix := "?rel=0&modestbranding=1"
  const ErrorFeedUnavailable := "Failed to load YouTube RSS feed."
  const ErrorFeedEmpty := "No recent video found in RSS feed."
  const ShortsMarker := "/shorts/"

  /** `LatestVideo`: what the page embeds. */
  datatype LatestVideo = LatestVideo(videoId: string, title: string, watchUrl: string, embedUrl: string)

  /** `buildVideoResult`. */
  function BuildVideoResult(videoId: string, title: string): (v: LatestVideo)
    ensures v.videoId == videoId && v.title == title
  {
    LatestVideo(videoId, title, WatchUrlPrefix + videoId, EmbedUrlPrefix + videoId + EmbedUrlSuffix)
  }

  /** Reads the video id back out of a watch URL. */
  function VideoIdOfWatchUrl(url: string): Option<string> {
    if |url| >= |WatchUrlPrefix| && url[..|WatchUrlPrefix|] == WatchUrlPrefix
    then Some(url[|WatchUrlPrefix|..]) else None
  }

  /** Reads the video id back out of an embed URL. */
  function VideoIdOfEmbedUrl(url: string): Option<string> {
    if |url| >= |EmbedUrlPrefix| + |EmbedUrlSuffix|
       && url[..|EmbedUrlPrefix|] == EmbedUrlPrefix
       && url[|url| - |EmbedUrlSuffix|..] == EmbedUrlSuffix
    then Some(url[|EmbedUrlPrefix|..|url| - |EmbedUrlSuffix|]) else None
  }

  /** Both URLs of a result name the result's own video. */
  lemma UrlsIdentifyVideo(videoId: string, title: string)
    ensures VideoIdOfWatchUrl(BuildVideoResult(videoId, title).watchUrl) == Some(videoId)
    ensures VideoIdOfEmbedUrl(BuildVideoResult(videoId, title).embedUrl) == Some(videoId)
  {
    var v := BuildVideoResult(videoId, title);
    assert v.watchUrl[|WatchUrlPrefix|..] == videoId;
    var e := v.embedUrl;
    assert e[..|EmbedUrlPrefix|] == EmbedUrlPrefix;
    assert e[|e| - |EmbedUrlSuffix|..] == EmbedUrlSuffix;
    assert e[|EmbedUrlPrefix|..|e| - |EmbedUrlSuffix|] == videoId;
  }

  // ---------------------------------------------------------------------
  // Feed text

  /** `decodeXmlEntities`: five `replaceAll` passes in a fixed order, then
      `trim`. */
  function DecodeXmlEntities(value: string): (r: string)
    ensures IsTrimmed(r)
    ensures '&' !in value ==> r == Trim(value)
  {
    var a := ReplaceAll(value, "&amp;", "&");
    var q := ReplaceAll(a, "&quot;", "\"");
    var p := ReplaceAll(q, "&#39;", "'");
    var l := ReplaceAll(p, "&lt;", "<");
    var g := ReplaceAll(l, "&gt;", ">");
    TrimIsTrimmed(g);
    Trim(g)
  }

  /** The passes run one after the other, so an entity whose `&` was itself
      written as `&amp;` is decoded twice: `&amp;lt;` becomes `<`. */
  lemma DecodeXmlEntitiesTwice()
    ensures DecodeXmlEntities("&amp;lt;") == "<"
  {
    var s := "&amp;lt;";
    assert s[..5] == "&amp;";
    assert ReplaceAll("lt;", "&amp;", "&") == "lt;";
    var a := ReplaceAll(s, "&amp;", "&");
    assert a == "&lt;";
    assert ReplaceAll(a, "&quot;", "\"") == a;
    assert ReplaceAll(a, "&#39;", "'") == a;
    assert a[..4] == "&lt;";
    assert ReplaceAll(a, "&lt;", "<") == "<" + ReplaceAll([], "&lt;", "<");
    assert ReplaceAll("<", "&gt;", ">") == "<";
  }

  /** Decoding after trimming: surrounding whitespace of the raw text never
      reaches the title. */
  lemma DecodeXmlEntitiesTrims(value: string)
    requires '&' !in value
    ensures DecodeXmlEntities(value) == DecodeXmlEntities(Trim(value))
  {
    TrimKeepsCharacters(value);
    TrimIdempotent(value);
  }

  /** The first index at or after `i` holding `<`, or the end of `s`: where
      a `[^<]+` run starting at `i` stops. */
  function RunEnd(s: string, i: nat): (j: nat)
    requires i <= |s|
    ensures i <= j <= |s|
    ensures j < |s| ==> s[j] == '<'
    decreases |s| - i
  {
    if i == |s| || s[i] == '<' then i else RunEnd(s, i + 1)
  }

  /** The run holds no `<`. */
  lemma {:induction false} RunHasNoOpenBracket(s: string, i: nat)
    requires i <= |s|
    ensures forall k | i <= k < RunEnd(s, i) :: s[k] != '<'
    decreases |s| - i
  {
    if i < |s| && s[i] != '<' {
      RunHasNoOpenBracket(s, i + 1);
    }
  }

  /** The text holds no `<`: what `[^<]` admits. */
  predicate NoOpenBracket(t: string) {
    forall k | 0 <= k < |t| :: t[k] != '<'
  }

  /** `open([^<]+)close` matches at index `v`. */
  predicate ElementAt(s: string, open: string, close: string, v: nat) {
    && OccursAt(s, open, v)
    && var j := RunEnd(s, v + |open|);
    && j > v + |open| && OccursAt(s, close, j)
  }

  /** The earliest `v >= from` where `open([^<]+)close` matches. */
  function FindElement(s: string, open: string, close: string, from: nat): (r: Option<nat>)
    ensures r.Some? ==> from <= r.value && r.value + |open| <= |s|
    decreases |s| - from
  {
    if from >= |s| then None
    else if ElementAt(s, open, close, from) then Some(from)
    else FindElement(s, open, close, from + 1)
  }

  /** The search finds the earliest match, and finds nothing only when no
      match exists at or after `from`. */
  lemma {:induction false} FindElementIsEarliest(s: string, open: string, close: string, from: nat)
    ensures var r := FindElement(s, open, close, from);
      && (r.Some? ==> ElementAt(s, open, close, r.value))
      && (r.Some? ==> forall k | from <= k < r.value :: !ElementAt(s, open, close, k))
      && (r.None? ==> forall k: nat | from <= k :: !ElementAt(s, open, close, k))
    decreases |s| - from
  {
    if from < |s| && !ElementAt(s, open, close, from) {
      FindElementIsEarliest(s, open, close, from + 1);
    }
  }

  /** The text captured between `open` and `close` when the element starts
      at `at` and its run stops at `stop`: non-empty, free of `<`, and
      sitting between the two tags. */
  predicate Captures(s: string, open: string, close: string, at: nat, stop: nat) {
    && at + |open| < stop <= |s|
    && NoOpenBracket(s[at + |open|..stop])
    && OccursAt(s, open + s[at + |open|..stop] + close, at)
  }

  /** An element match captures the run after its open tag. */
  lemma ElementCaptures(s: string, open: string, close: string, v: nat)
    requires ElementAt(s, open, close, v)
    ensures Captures(s, open, close, v, RunEnd(s, v + |open|))
  {
    var j := RunEnd(s, v + |open|);
    RunHasNoOpenBracket(s, v + |open|);
    assert s[v..j + |close|] == s[v..v + |open|] + s[v + |open|..j] + s[j..j + |close|];
  }

  /** `v` is the earliest index at or after `from` where
      `open([^<]+)close` matches. */
  predicate EarliestElement(s: string, open: string, close: string, from: nat, v: nat) {
    && from <= v && ElementAt(s, open, close, v)
    && forall k | from <= k < v :: !ElementAt(s, open, close, k)
  }

  /** `open([^<]+)close` matches nowhere at or after `from`. */
  ghost predicate NoElementFrom(s: string, open: string, close: string, from: nat) {
    forall k: nat | from <= k :: !ElementAt(s, open, close, k)
  }

  /** The earliest element match at or after `from`, or none. */
  datatype ElementMatch = NoElement | Element(at: nat, stop: nat)

  /** `open([^<]+)close` searched from `from`: where the earliest match
      starts and where its captured run stops. */
  function MatchElement(s: string, open: string, close: string, from: nat): (r: ElementMatch)
    ensures r.Element? ==> EarliestElement(s, open, close, from, r.at)
    ensures r.Element? ==> r.stop == RunEnd(s, r.at + |open|)
    ensures r.NoElement? ==> NoElementFrom(s, open, close, from)
  {
    FindElementIsEarliest(s, open, close, from);
    match FindElement(s, open, close, from)
    case None => NoElement
    case Some(v) => Element(v, RunEnd(s, v + |open|))
  }

  /** The index just past an element match. */
  function ElementEnd(s: string, open: string, close: string, v: nat): nat
    requires ElementAt(s, open, close, v)
  {
    RunEnd(s, v + |open|) + |close|
  }

  /** The tags of an element both start with `<`, hold no other `<`, and
      differ in their second character. */
  predicate TagPair(open: string, close: string) {
    && |open| >= 2 && |close| >= 2
    && open[0] == '<' && close[0] == '<' && open[1] != close[1]
    && (forall k | 1 <= k < |open| :: open[k] != '<')
    && (forall k | 1 <= k < |close| :: close[k] != '<')
  }

  /** A run stops at the first `<`. */
  lemma {:induction false} RunEndAt(s: string, i: nat, j: nat)
    requires i <= j < |s| && s[j] == '<'
    requires forall k | i <= k < j :: s[k] != '<'
    ensures RunEnd(s, i) == j
    decreases j - i
  {
    if i < j {
      RunEndAt(s, i + 1, j);
    }
  }

  /** Tags around a non-empty text without `<` form an element match that
      captures exactly that text. */
  lemma ElementOfText(s: string, open: string, close: string, at: nat, text: string)
    requires close != [] && close[0] == '<'
    requires text != [] && NoOpenBracket(text) && OccursAt(s, open + text + close, at)
    ensures ElementAt(s, open, close, at)
    ensures RunEnd(s, at + |open|) == at + |open| + |text|
    ensures ElementEnd(s, open, close, at) == at + |open| + |text| + |close|
    ensures text == s[at + |open|..RunEnd(s, at + |open|)]
  {
    var w := open + text + close;
    var i := at + |open|;
    var j := i + |text|;
    assert s[at..at + |w|] == w;
    forall k | 0 <= k < |w|
      ensures s[at + k] == w[k]
    {
      assert s[at..at + |w|][k] == w[k];
    }
    forall k | 0 <= k < |open|
      ensures s[at + k] == open[k]
    {
      assert w[k] == open[k];
    }
    forall k | 0 <= k < |text|
      ensures s[i + k] == text[k] && s[i + k] != '<'
    {
      assert w[|open| + k] == text[k];
    }
    forall k | 0 <= k < |close|
      ensures s[j + k] == close[k]
    {
      assert w[|open| + |text| + k] == close[k];
    }
    assert s[at..i] == open;
    assert s[i..j] == text;
    assert s[j..j + |close|] == close;
    assert s[j] == '<';
    forall k | i <= k < j
      ensures s[k] != '<'
    {
      assert s[i + (k - i)] != '<';
    }
    RunEndAt(s, i, j);
  }

  /** Two element matches with the same tags never overlap: a later one
      starts at or after the end of an earlier one. */
  lemma ElementsDoNotOverlap(s: string, open: string, close: string, v0: nat, v: nat)
    requires TagPair(open, close)
    requires ElementAt(s, open, close, v0) && ElementAt(s, open, close, v) && v0 < v
    ensures ElementEnd(s, open, close, v0) <= v
  {
    var i := v0 + |open|;
    var j := RunEnd(s, i);
    assert s[v..v + |open|] == open;
    assert s[v] == open[0] && s[v + 1] == open[1];
    forall k | v0 < k < i
      ensures s[k] != '<'
    {
      assert s[v0..i][k - v0] == open[k - v0];
    }
    RunHasNoOpenBracket(s, i);
    assert s[j..j + |close|] == close;
    forall k | j < k < j + |close|
      ensures s[k] != '<'
    {
      assert s[j..j + |close|][k - j] == close[k - j];
    }
    assert s[j + 1] == close[1];
  }

  /** The earliest element match ends no later than any match at or after
      the search start. */
  lemma SearchCovers(s: string, open: string, close: string, from: nat, v0: nat)
    requires TagPair(open, close) && EarliestElement(s, open, close, from, v0)
    ensures forall v | from <= v && ElementAt(s, open, close, v) ::
      ElementEnd(s, open, close, v0) <= ElementEnd(s, open, close, v)
  {
    forall v | from <= v && ElementAt(s, open, close, v)
      ensures ElementEnd(s, open, close, v0) <= ElementEnd(s, open, close, v)
    {
      if v0 < v {
        ElementsDoNotOverlap(s, open, close, v0, v);
      }
    }
  }

  /** The literal tags of the feed pattern
      `<entry>…<yt:videoId>([^<]+)</yt:videoId>…<title>([^<]+)</title>…</entry>`,
      where each `…` is a lazy `[\s\S]*?` gap. */
  const EntryOpen := "<entry>"
  const IdOpen := "<yt:videoId>"
  const IdClose := "</yt:videoId>"
  const TitleOpen := "<title>"
  const TitleClose := "</title>"
  const EntryClose := "</entry>"

  lemma FeedTagPairs()
    ensures TagPair(IdOpen, IdClose) && TagPair(TitleOpen, TitleClose)
  {
  }

  /** The pattern matches from index `e`, with its id element at `v`, its
      title element at `t` and its closing entry tag at `c`; the gaps
      between them may hold anything. */
  predicate PatternAt(s: string, e: nat, v: nat, t: nat, c: nat) {
    && OccursAt(s, EntryOpen, e)
    && e + |EntryOpen| <= v && ElementAt(s, IdOpen, IdClose, v)
    && ElementEnd(s, IdOpen, IdClose, v) <= t && ElementAt(s, TitleOpen, TitleClose, t)
    && ElementEnd(s, TitleOpen, TitleClose, t) <= c && OccursAt(s, EntryClose, c)
  }

  /** Some match of the pattern starts at index `e`. */
  ghost predicate MatchStartsAt(s: string, e: nat) {
    exists v, t, c :: PatternAt(s, e, v, t, c)
  }

  /** No match starts in `[lo, hi)`. */
  ghost predicate NoMatchBetween(s: string, lo: nat, hi: nat) {
    forall e | lo <= e < hi :: !MatchStartsAt(s, e)
  }

  /** No match starts at or after `lo`. */
  ghost predicate NoMatchFrom(s: string, lo: nat) {
    forall e: nat | lo <= e :: !MatchStartsAt(s, e)
  }

  /** One match of the feed pattern: where it starts (`entryAt`), where its
      id element and title element start, what they capture, and where its
      closing entry tag starts (`endAt`). */
  datatype RawEntry = RawEntry(entryAt: nat, idAt: nat, videoId: string,
                               titleAt: nat, rawTitle: string, endAt: nat)

  /** The index just past the id element, the title element, the match. */
  function IdEndOf(m: RawEntry): nat { m.idAt + |IdOpen| + |m.videoId| + |IdClose| }
  function TitleEndOf(m: RawEntry): nat { m.titleAt + |TitleOpen| + |m.rawTitle| + |TitleClose| }
  function Next(m: RawEntry): nat { m.endAt + |EntryClose| }

  /** The pieces of a match sit in the feed in order without overlapping:
      `<entry>` at `entryAt`, then the id tags around a non-empty id without
      `<`, then the title tags around a non-empty title without `<`, then
      `</entry>` at `endAt`. */
  predicate WellFormed(s: string, m: RawEntry) {
    && m.videoId != [] && NoOpenBracket(m.videoId)
    && m.rawTitle != [] && NoOpenBracket(m.rawTitle)
    && OccursAt(s, EntryOpen, m.entryAt)
    && m.entryAt + |EntryOpen| <= m.idAt
    && OccursAt(s, IdOpen + m.videoId + IdClose, m.idAt)
    && IdEndOf(m) <= m.titleAt
    && OccursAt(s, TitleOpen + m.rawTitle + TitleClose, m.titleAt)
    && TitleEndOf(m) <= m.endAt
    && OccursAt(s, EntryClose, m.endAt)
  }

  /** The choices the lazy gaps make: the earliest id element after the
      opening tag, the earliest title element after the id element, the
      earliest closing tag after the title element. */
  predicate LazyChoice(s: string, m: RawEntry) {
    && (forall k | m.entryAt + |EntryOpen| <= k < m.idAt :: !ElementAt(s, IdOpen, IdClose, k))
    && (forall k | IdEndOf(m) <= k < m.titleAt :: !ElementAt(s, TitleOpen, TitleClose, k))
    && (forall k | TitleEndOf(m) <= k < m.endAt :: !OccursAt(s, EntryClose, k))
  }

  /** `m` is the match a search from `from` finds: the leftmost match at
      or after `from`, with the lazy choices. */
  ghost predicate FirstMatchFrom(s: string, from: nat, m: RawEntry) {
    && from <= m.entryAt && WellFormed(s, m) && LazyChoice(s, m)
    && NoMatchBetween(s, from, m.entryAt)
  }

  /** What `matchAll` with the global flag yields from `from`: the first
      match, then the matches from the index just past it, until no match
      is left. */
  ghost predicate IsMatchAll(s: string, from: nat, r: seq<RawEntry>)
    decreases |r|
  {
    if r == [] then NoMatchFrom(s, from)
    else FirstMatchFrom(s, from, r[0]) && IsMatchAll(s, Next(r[0]), r[1..])
  }

  /** A well-formed match is a match of the pattern at its recorded
      positions, and its captures are the runs after the open tags. */
  lemma WellFormedIsPattern(s: string, m: RawEntry)
    requires WellFormed(s, m)
    ensures PatternAt(s, m.entryAt, m.idAt, m.titleAt, m.endAt) && MatchStartsAt(s, m.entryAt)
    ensures ElementEnd(s, IdOpen, IdClose, m.idAt) == IdEndOf(m)
    ensures ElementEnd(s, TitleOpen, TitleClose, m.titleAt) == TitleEndOf(m)
    ensures Next(m) <= |s|
  {
    ElementOfText(s, IdOpen, IdClose, m.idAt, m.videoId);
    ElementOfText(s, TitleOpen, TitleClose, m.titleAt, m.rawTitle);
    assert PatternAt(s, m.entryAt, m.idAt, m.titleAt, m.endAt);
  }

  /** A match from a later opening tag is also a match from an earlier one,
      since the first gap may hold anything. */
  lemma MatchFromEarlierTag(s: string, e: nat)
    requires OccursAt(s, EntryOpen, e)
    ensures !MatchStartsAt(s, e) ==> NoMatchFrom(s, e)
  {
    forall k: nat | e <= k && MatchStartsAt(s, k)
      ensures MatchStartsAt(s, e)
    {
      var v, t, c :| PatternAt(s, k, v, t, c);
      assert PatternAt(s, e, v, t, c);
    }
  }

  /** No id element after the opening tag: no match at `e`. */
  lemma NoIdElement(s: string, e: nat)
    requires NoElementFrom(s, IdOpen, IdClose, e + |EntryOpen|)
    ensures !MatchStartsAt(s, e)
  {
  }

  /** An id element but no title element after it: no match at `e`, since
      a match with a later id element would have its title element after
      the earliest one too. */
  lemma NoTitleElement(s: string, e: nat, v: nat)
    requires EarliestElement(s, IdOpen, IdClose, e + |EntryOpen|, v)
    requires NoElementFrom(s, TitleOpen, TitleClose, ElementEnd(s, IdOpen, IdClose, v))
    ensures !MatchStartsAt(s, e)
  {
    FeedTagPairs();
    SearchCovers(s, IdOpen, IdClose, e + |EntryOpen|, v);
  }

  /** Id and title elements but no closing tag after them: no match at
      `e`. */
  lemma NoEntryClose(s: string, e: nat, v: nat, t: nat)
    requires EarliestElement(s, IdOpen, IdClose, e + |EntryOpen|, v)
    requires EarliestElement(s, TitleOpen, TitleClose, ElementEnd(s, IdOpen, IdClose, v), t)
    requires forall k: nat | ElementEnd(s, TitleOpen, TitleClose, t) <= k :: !OccursAt(s, EntryClose, k)
    ensures !MatchStartsAt(s, e)
  {
    FeedTagPairs();
    SearchCovers(s, IdOpen, IdClose, e + |EntryOpen|, v);
    SearchCovers(s, TitleOpen, TitleClose, ElementEnd(s, IdOpen, IdClose, v), t);
  }

  /** The match built from the earliest id element, the earliest title
      element after it and the earliest closing tag after that. */
  function FoundEntry(s: string, e: nat, v: nat, t: nat, c: nat): RawEntry
    requires ElementAt(s, IdOpen, IdClose, v) && ElementAt(s, TitleOpen, TitleClose, t)
  {
    RawEntry(e, v, s[v + |IdOpen|..RunEnd(s, v + |IdOpen|)], t, s[t + |TitleOpen|..RunEnd(s, t + |TitleOpen|)], c)
  }

  /** A match of the pattern at given positions is a well-formed match:
      the converse of `WellFormedIsPattern`. */
  lemma PatternIsWellFormed(s: string, e: nat, v: nat, t: nat, c: nat)
    requires PatternAt(s, e, v, t, c)
    ensures WellFormed(s, FoundEntry(s, e, v, t, c))
  {
    FoundEntryCaptures(s, e, v, t, c);
    FoundEntryEnds(s, e, v, t, c);
  }

  /** That match records the runs its elements capture. */
  lemma FoundEntryCaptures(s: string, e: nat, v: nat, t: nat, c: nat)
    requires ElementAt(s, IdOpen, IdClose, v) && ElementAt(s, TitleOpen, TitleClose, t)
    ensures var m := FoundEntry(s, e, v, t, c);
      && m.videoId != [] && NoOpenBracket(m.videoId) && OccursAt(s, IdOpen + m.videoId + IdClose, v)
      && m.rawTitle != [] && NoOpenBracket(m.rawTitle) && OccursAt(s, TitleOpen + m.rawTitle + TitleClose, t)
  {
    ElementCaptures(s, IdOpen, IdClose, v);
    ElementCaptures(s, TitleOpen, TitleClose, t);
  }

  /** The recorded ends of that match's elements are where the elements
      end. */
  lemma FoundEntryEnds(s: string, e: nat, v: nat, t: nat, c: nat)
    requires ElementAt(s, IdOpen, IdClose, v) && ElementAt(s, TitleOpen, TitleClose, t)
    ensures IdEndOf(FoundEntry(s, e, v, t, c)) == ElementEnd(s, IdOpen, IdClose, v)
    ensures TitleEndOf(FoundEntry(s, e, v, t, c)) == ElementEnd(s, TitleOpen, TitleClose, t)
  {
  }

  /** That match makes the lazy choices. */
  lemma FoundEntryLazy(s: string, e: nat, v: nat, t: nat, c: nat)
    requires EarliestElement(s, IdOpen, IdClose, e + |EntryOpen|, v)
    requires EarliestElement(s, TitleOpen, TitleClose, ElementEnd(s, IdOpen, IdClose, v), t)
    requires forall k | ElementEnd(s, TitleOpen, TitleClose, t) <= k < c :: !OccursAt(s, EntryClose, k)
    ensures LazyChoice(s, FoundEntry(s, e, v, t, c))
  {
    FoundEntryEnds(s, e, v, t, c);
  }

  /** The pattern tried at an opening entry tag at `e`. The lazy gaps make
      the engine take the earliest complete id element after the tag, the
      earliest complete title element after that, and the earliest closing
      tag after that; when one of them is missing, no later choice can
      succeed either, so there is no match at `e`. */
  function MatchEntryAt(s: string, e: nat): (r: Option<RawEntry>)
    requires OccursAt(s, EntryOpen, e)
    ensures r.Some? ==> r.value.entryAt == e && WellFormed(s, r.value) && LazyChoice(s, r.value)
    ensures r.None? <==> !MatchStartsAt(s, e)
  {
    match MatchElement(s, IdOpen, IdClose, e + |EntryOpen|)
    case NoElement =>
      NoIdElement(s, e);
      None
    case Element(v, _) => MatchAfterId(s, e, v)
  }

  /** The rest of the pattern once the earliest id element after the
      opening tag is at `v`. */
  function MatchAfterId(s: string, e: nat, v: nat): (r: Option<RawEntry>)
    requires OccursAt(s, EntryOpen, e) && EarliestElement(s, IdOpen, IdClose, e + |EntryOpen|, v)
    ensures r.Some? ==> r.value.entryAt == e && WellFormed(s, r.value) && LazyChoice(s, r.value)
    ensures r.None? <==> !MatchStartsAt(s, e)
  {
    var titleFrom := ElementEnd(s, IdOpen, IdClose, v);
    match MatchElement(s, TitleOpen, TitleClose, titleFrom)
    case NoElement =>
      NoTitleElement(s, e, v);
      None
    case Element(t, _) =>
      var closeFrom := ElementEnd(s, TitleOpen, TitleClose, t);
      IndexOfIsFirst(s, EntryClose, closeFrom);
      match IndexOf(s, EntryClose, closeFrom)
      case None =>
        NoEntryClose(s, e, v, t);
        None
      case Some(c) =>
        PatternIsWellFormed(s, e, v, t, c);
        FoundEntryLazy(s, e, v, t, c);
        WellFormedIsPattern(s, FoundEntry(s, e, v, t, c));
        Some(FoundEntry(s, e, v, t, c))
  }

  /** `xml.matchAll(...)` from index `from`: a match can only start at an
      opening entry tag; the next one is tried, and once it fails no later
      match exists. */
  function ScanEntries(s: string, from: nat): (r: seq<RawEntry>)
    decreases |s| - from
  {
    IndexOfIsFirst(s, EntryOpen, from);
    match IndexOf(s, EntryOpen, from)
    case None => []
    case Some(e) =>
      match MatchEntryAt(s, e)
      case None => []
      case Some(m) => [m] + ScanEntries(s, Next(m))
  }

  /** The scan is `matchAll`: each match is the leftmost match at or after
      the end of the previous one, with the lazy choices, and after the
      last one no match remains. */
  lemma {:induction false} ScanEntriesMatchAll(s: string, from: nat)
    ensures IsMatchAll(s, from, ScanEntries(s, from))
    decreases |s| - from
  {
    IndexOfIsFirst(s, EntryOpen, from);
    match IndexOf(s, EntryOpen, from)
    case None =>
    case Some(e) =>
      match MatchEntryAt(s, e)
      case None =>
        MatchFromEarlierTag(s, e);
      case Some(m) =>
        WellFormedIsPattern(s, m);
        ScanEntriesMatchAll(s, Next(m));
        assert ScanEntries(s, from) == [m] + ScanEntries(s, Next(m));
  }

  /** The matches are well formed, start at or after `from`, and each one
      starts after the previous one ends. */
  lemma {:induction false} MatchAllInOrder(s: string, from: nat, r: seq<RawEntry>)
    requires IsMatchAll(s, from, r)
    ensures forall i | 0 <= i < |r| :: from <= r[i].entryAt && WellFormed(s, r[i])
    ensures forall i | 0 <= i < |r| - 1 :: Next(r[i]) <= r[i + 1].entryAt
    decreases |r|
  {
    if r != [] {
      MatchAllInOrder(s, Next(r[0]), r[1..]);
      assert forall i | 1 <= i < |r| :: r[i] == r[1..][i - 1];
    }
  }

  /** The list is empty exactly when no match starts at or after `from`. */
  lemma MatchAllEmpty(s: string, from: nat, r: seq<RawEntry>)
    requires IsMatchAll(s, from, r)
    ensures r == [] <==> NoMatchFrom(s, from)
  {
    if r != [] {
      WellFormedIsPattern(s, r[0]);
    }
  }

  /** Two first matches from the same index start at the same index. */
  lemma FirstMatchSameStart(s: string, from: nat, m1: RawEntry, m2: RawEntry)
    requires FirstMatchFrom(s, from, m1) && FirstMatchFrom(s, from, m2)
    ensures m1.entryAt == m2.entryAt
  {
    WellFormedIsPattern(s, m1);
    WellFormedIsPattern(s, m2);
    EarliestMatchUnique(s, from, m1.entryAt, m2.entryAt);
  }

  /** There is one leftmost match from an index. */
  lemma EarliestMatchUnique(s: string, from: nat, a: nat, b: nat)
    requires from <= a && MatchStartsAt(s, a) && NoMatchBetween(s, from, a)
    requires from <= b && MatchStartsAt(s, b) && NoMatchBetween(s, from, b)
    ensures a == b
  {
    assert a <= b && b <= a;
  }

  /** The earliest `open([^<]+)close` at or after `from` starts at `a`, and
      `x` is the run it captures. */
  predicate EarliestCapture(s: string, open: string, close: string, from: nat, a: nat, x: string) {
    && EarliestElement(s, open, close, from, a)
    && a + |open| <= |s| && x == s[a + |open|..RunEnd(s, a + |open|)]
  }

  /** The earliest occurrence of `p` at or after `from` starts at `a`. */
  predicate EarliestOccurrence(s: string, p: string, from: nat, a: nat) {
    from <= a && OccursAt(s, p, a) && forall k | from <= k < a :: !OccursAt(s, p, k)
  }

  /** What the lazy choices of a well-formed match pin down, stated for any
      tags `eo`, `io`, `ic`, `to`, `tc`, `ec` (the feed's are `<entry>`,
      `<yt:videoId>`, `</yt:videoId>`, `<title>`, `</title>`, `</entry>`):
      the id element is the earliest after the opening tag, the title
      element the earliest after the id element, the closing tag the
      earliest after the title element, and the captures are the runs after
      the open tags. */
  predicate LazyParts(s: string, eo: string, io: string, ic: string, to: string, tc: string,
                      ec: string, m: RawEntry) {
    && EarliestCapture(s, io, ic, m.entryAt + |eo|, m.idAt, m.videoId)
    && EarliestCapture(s, to, tc, m.idAt + |io| + |m.videoId| + |ic|, m.titleAt, m.rawTitle)
    && EarliestOccurrence(s, ec, m.titleAt + |to| + |m.rawTitle| + |tc|, m.endAt)
  }

  /** A well-formed lazy match has those parts. */
  lemma LazyPartsOf(s: string, m: RawEntry)
    requires WellFormed(s, m) && LazyChoice(s, m)
    ensures LazyParts(s, EntryOpen, IdOpen, IdClose, TitleOpen, TitleClose, EntryClose, m)
  {
    ElementOfText(s, IdOpen, IdClose, m.idAt, m.videoId);
    ElementOfText(s, TitleOpen, TitleClose, m.titleAt, m.rawTitle);
  }

  /** The parts determine the match once its start is fixed. */
  lemma SameStartSameParts(s: string, eo: string, io: string, ic: string, to: string, tc: string,
                           ec: string, m1: RawEntry, m2: RawEntry)
    requires m1.entryAt == m2.entryAt
    requires LazyParts(s, eo, io, ic, to, tc, ec, m1) && LazyParts(s, eo, io, ic, to, tc, ec, m2)
    ensures m1 == m2
  {
    SameStartSameId(s, eo, io, ic, m1, m2);
    SameIdSameTitle(s, io, ic, to, tc, m1, m2);
    SameTitleSameEnd(s, to, tc, ec, m1, m2);
  }

  /** Matches that start together find the same id element. */
  lemma SameStartSameId(s: string, eo: string, io: string, ic: string, m1: RawEntry, m2: RawEntry)
    requires m1.entryAt == m2.entryAt
    requires EarliestCapture(s, io, ic, m1.entryAt + |eo|, m1.idAt, m1.videoId)
    requires EarliestCapture(s, io, ic, m2.entryAt + |eo|, m2.idAt, m2.videoId)
    ensures m1.idAt == m2.idAt && m1.videoId == m2.videoId
  {
    SameEarliestCapture(s, io, ic, m1.entryAt + |eo|, m2.entryAt + |eo|,
                        m1.idAt, m2.idAt, m1.videoId, m2.videoId);
  }

  /** Matches with the same id element find the same title element. */
  lemma SameIdSameTitle(s: string, io: string, ic: string, to: string, tc: string,
                        m1: RawEntry, m2: RawEntry)
    requires m1.idAt == m2.idAt && m1.videoId == m2.videoId
    requires EarliestCapture(s, to, tc, m1.idAt + |io| + |m1.videoId| + |ic|, m1.titleAt, m1.rawTitle)
    requires EarliestCapture(s, to, tc, m2.idAt + |io| + |m2.videoId| + |ic|, m2.titleAt, m2.rawTitle)
    ensures m1.titleAt == m2.titleAt && m1.rawTitle == m2.rawTitle
  {
    SameEarliestCapture(s, to, tc, m1.idAt + |io| + |m1.videoId| + |ic|,
                        m2.idAt + |io| + |m2.videoId| + |ic|,
                        m1.titleAt, m2.titleAt, m1.rawTitle, m2.rawTitle);
  }

  /** Matches with the same title element find the same closing tag. */
  lemma SameTitleSameEnd(s: string, to: string, tc: string, ec: string, m1: RawEntry, m2: RawEntry)
    requires m1.titleAt == m2.titleAt && m1.rawTitle == m2.rawTitle
    requires EarliestOccurrence(s, ec, m1.titleAt + |to| + |m1.rawTitle| + |tc|, m1.endAt)
    requires EarliestOccurrence(s, ec, m2.titleAt + |to| + |m2.rawTitle| + |tc|, m2.endAt)
    ensures m1.endAt == m2.endAt
  {
    EarliestOccurrenceUnique(s, ec, m1.titleAt + |to| + |m1.rawTitle| + |tc|,
                             m2.titleAt + |to| + |m2.rawTitle| + |tc|, m1.endAt, m2.endAt);
  }

  /** The earliest element from an index is unique, and so is the run it
      captures. */
  lemma SameEarliestCapture(s: string, open: string, close: string, fromA: nat, fromB: nat,
                            a: nat, b: nat, x: string, y: string)
    requires fromA == fromB
    requires EarliestCapture(s, open, close, fromA, a, x) && EarliestCapture(s, open, close, fromB, b, y)
    ensures a == b && x == y
  {
    EarliestElementUnique(s, open, close, fromA, a, b);
  }

  /** There is one earliest element from an index. */
  lemma EarliestElementUnique(s: string, open: string, close: string, from: nat, a: nat, b: nat)
    requires EarliestElement(s, open, close, from, a) && EarliestElement(s, open, close, from, b)
    ensures a == b
  {
    assert a <= b && b <= a;
  }

  /** There is one earliest occurrence of `p` from an index. */
  lemma EarliestOccurrenceUnique(s: string, p: string, fromA: nat, fromB: nat, a: nat, b: nat)
    requires fromA == fromB
    requires EarliestOccurrence(s, p, fromA, a) && EarliestOccurrence(s, p, fromB, b)
    ensures a == b
  {
    assert a <= b && b <= a;
  }

  /** At most one match is the first from a given index. */
  lemma FirstMatchUnique(s: string, from: nat, m1: RawEntry, m2: RawEntry)
    requires FirstMatchFrom(s, from, m1) && FirstMatchFrom(s, from, m2)
    ensures m1 == m2
  {
    FirstMatchSameStart(s, from, m1, m2);
    LazyPartsOf(s, m1);
    LazyPartsOf(s, m2);
    SameStartSameParts(s, EntryOpen, IdOpen, IdClose, TitleOpen, TitleClose, EntryClose, m1, m2);
  }

  /** The matches of the pattern are determined by the text: two lists that
      both describe them are equal. */
  lemma {:induction false} MatchAllUnique(s: string, from: nat, r1: seq<RawEntry>, r2: seq<RawEntry>)
    requires IsMatchAll(s, from, r1) && IsMatchAll(s, from, r2)
    ensures r1 == r2
    decreases |r1|
  {
    if r1 == [] || r2 == [] {
      MatchAllEmpty(s, from, r1);
      MatchAllEmpty(s, from, r2);
    } else {
      FirstMatchUnique(s, from, r1[0], r2[0]);
      MatchAllUnique(s, Next(r1[0]), r1[1..], r2[1..]);
      assert r1 == [r1[0]] + r1[1..];
      assert r2 == [r2[0]] + r2[1..];
    }
  }

  /** One feed entry as the selection sees it. */
  datatype FeedEntry = FeedEntry(videoId: string, title: string)

  /** The captured title of each match, decoded. */
  function DecodeEntries(raw: seq<RawEntry>): (r: seq<FeedEntry>)
    ensures |r| == |raw|
    ensures forall i | 0 <= i < |raw| ::
      r[i] == FeedEntry(raw[i].videoId, DecodeXmlEntities(raw[i].rawTitle))
  {
    if raw == [] then []
    else [FeedEntry(raw[0].videoId, DecodeXmlEntities(raw[0].rawTitle))] + DecodeEntries(raw[1..])
  }

  /** `parseFeedEntries`: one entry per match of the feed pattern, its
      title decoded. */
  function ParseFeedEntries(xml: string): seq<FeedEntry> {
    DecodeEntries(ScanEntries(xml, 0))
  }

  /** The parsed entries are the matches of the feed pattern in document
      order, none exactly when the feed holds no match: each id is the
      captured id, found between id tags at the match's position, and each
      title is the decoded captured title. */
  lemma ParseFeedEntriesMatches(xml: string)
    ensures var raw := ScanEntries(xml, 0);
      var entries := ParseFeedEntries(xml);
      && IsMatchAll(xml, 0, raw)
      && (entries == [] <==> NoMatchFrom(xml, 0))
      && (forall i | 0 <= i < |raw| - 1 :: Next(raw[i]) <= raw[i + 1].entryAt)
      && |entries| == |raw|
      && forall i | 0 <= i < |entries| ::
           && WellFormed(xml, raw[i])
           && entries[i].videoId == raw[i].videoId
           && entries[i].title == DecodeXmlEntities(raw[i].rawTitle)
  {
    var raw := ScanEntries(xml, 0);
    ParseFeedEntriesDecodes(xml);
    ScanEntriesMatchAll(xml, 0);
    MatchAllInOrder(xml, 0, raw);
    MatchAllEmpty(xml, 0, raw);
  }

  /** One entry per match, holding its captured id and decoded title. */
  lemma ParseFeedEntriesDecodes(xml: string)
    ensures var raw := ScanEntries(xml, 0);
      var entries := ParseFeedEntries(xml);
      && |entries| == |raw|
      && forall i | 0 <= i < |entries| ::
           && entries[i] == FeedEntry(raw[i].videoId, DecodeXmlEntities(raw[i].rawTitle))
           && IsTrimmed(entries[i].title)
  {
  }

  // ---------------------------------------------------------------------
  // Watch pages

  /** What a loaded watch page yields: the canonical link's `href` and the
      `lengthSeconds` digits as a number, each when present. */
  datatype WatchPage = WatchPage(canonicalHref: Option<string>, lengthSeconds: Option<nat>)

  /** The three outcomes of fetching a watch page: a response with an ok
      status and its page, a response without one, or a rejected fetch with
      its error message. */
  datatype PageFetch = PageLoaded(page: WatchPage) | PageNotOk | PageRejected(reason: string)

  datatype Details = Details(canonicalUrl: string, lengthSeconds: nat, isShort: bool)

  /** `getVideoPageDetails`: a rejected fetch rejects with its error, a
      response that is not ok gives `null`, a loaded page its details. */
  function VideoPageDetails(fetch: PageFetch): (d: Result<Option<Details>, string>)
    ensures d.Err? <==> fetch.PageRejected?
    ensures fetch.PageRejected? ==> d.error == fetch.reason
    ensures d == Ok(None) <==> fetch.PageNotOk?
    ensures fetch.PageLoaded? ==>
      && d.Ok? && d.value.Some?
      && d.value.value.canonicalUrl == fetch.page.canonicalHref.GetOr("")
      && d.value.value.lengthSeconds == fetch.page.lengthSeconds.GetOr(0)
    ensures d.Ok? && d.value.Some? ==>
      (d.value.value.isShort <==> Includes(d.value.value.canonicalUrl, ShortsMarker))
    ensures fetch.PageLoaded? && fetch.page.canonicalHref.None? ==>
      d == Ok(Some(Details([], d.value.value.lengthSeconds, false)))
    ensures fetch.PageLoaded? && fetch.page.lengthSeconds.None? ==>
      d.Ok? && d.value.Some? && d.value.value.lengthSeconds == 0
  {
    match fetch
    case PageRejected(reason) => Err(reason)
    case PageNotOk => Ok(None)
    case PageLoaded(page) =>
      var url := page.canonicalHref.GetOr("");
      Ok(Some(Details(url, page.lengthSeconds.GetOr(0), Includes(url, ShortsMarker))))
  }

  /** The long-form test. */
  predicate Qualifies(d: Details, minimumLongformSeconds: int) {
    !d.isShort && d.lengthSeconds >= minimumLongformSeconds
  }

  /** The fetch of a video's watch page; a video without an entry gets a
      response that is not ok. */
  function PageOf(pages: map<string, PageFetch>, videoId: string): PageFetch {
    if videoId in pages then pages[videoId] else PageNotOk
  }

  /** The entry's watch page loads and passes the long-form test. */
  predicate EntryQualifies(entry: FeedEntry, pages: map<string, PageFetch>, minimumLongformSeconds: int) {
    var d := VideoPageDetails(PageOf(pages, entry.videoId));
    d.Ok? && d.value.Some? && Qualifies(d.value.value, minimumLongformSeconds)
  }

  /** An entry qualifies exactly when its watch page loads, its canonical
      link (empty when missing) does not contain `/shorts/`, and its length
      (0 when missing) reaches the minimum. */
  lemma EntryQualifiesSpec(entry: FeedEntry, pages: map<string, PageFetch>, minimumLongformSeconds: int)
    ensures EntryQualifies(entry, pages, minimumLongformSeconds) <==>
      var fetch := PageOf(pages, entry.videoId);
      && fetch.PageLoaded?
      && !Includes(fetch.page.canonicalHref.GetOr(""), ShortsMarker)
      && fetch.page.lengthSeconds.GetOr(0) >= minimumLongformSeconds
  {
  }

  /** The fetch of the entry's watch page rejects. */
  predicate PageRejects(entry: FeedEntry, pages: map<string, PageFetch>) {
    PageOf(pages, entry.videoId).PageRejected?
  }

  /** The loop stops at the entry: it returns it, or the page fetch throws. */
  predicate Stops(entry: FeedEntry, pages: map<string, PageFetch>, minimumLongformSeconds: int) {
    PageRejects(entry, pages) || EntryQualifies(entry, pages, minimumLongformSeconds)
  }

  /** `entries.slice(0, 12)`. */
  function Examined(entries: seq<FeedEntry>): (r: seq<FeedEntry>)
    ensures |r| <= MaxExaminedEntries && |r| <= |entries| && r == entries[..|r|]
    ensures |entries| <= MaxExaminedEntries ==> r == entries
    ensures |r| == if |entries| <= MaxExaminedEntries then |entries| else MaxExaminedEntries
  {
    if |entries| <= MaxExaminedEntries then entries else entries[..MaxExaminedEntries]
  }

  /** The index of the first entry of `examined` at or after `i` where the
      loop stops. */
  function FirstStop(examined: seq<FeedEntry>, pages: map<string, PageFetch>,
                     minimumLongformSeconds: int, i: nat): (r: Option<nat>)
    ensures r.Some? ==> i <= r.value < |examined|
    ensures r.Some? ==> Stops(examined[r.value], pages, minimumLongformSeconds)
    ensures r.Some? ==> forall j | i <= j < r.value :: !Stops(examined[j], pages, minimumLongformSeconds)
    ensures r.None? ==> forall j | i <= j < |examined| :: !Stops(examined[j], pages, minimumLongformSeconds)
    decreases |examined| - i
  {
    if i >= |examined| then None
    else if Stops(examined[i], pages, minimumLongformSeconds) then Some(i)
    else FirstStop(examined, pages, minimumLongformSeconds, i + 1)
  }

  /** The loop aborts: some examined entry's page fetch rejects before any
      examined entry qualifies. */
  ghost predicate AbortsOnPage(entries: seq<FeedEntry>, pages: map<string, PageFetch>, minimumLongformSeconds: int) {
    exists i | 0 <= i < |Examined(entries)| ::
      && PageRejects(entries[i], pages)
      && forall j | 0 <= j < i :: !EntryQualifies(entries[j], pages, minimumLongformSeconds)
  }

  /** The first stop is a rejection exactly when the loop aborts. */
  lemma FirstStopRejects(entries: seq<FeedEntry>, pages: map<string, PageFetch>, minimumLongformSeconds: int)
    ensures var examined := Examined(entries);
      var f := FirstStop(examined, pages, minimumLongformSeconds, 0);
      f.Some? && PageRejects(examined[f.value], pages) <==> AbortsOnPage(entries, pages, minimumLongformSeconds)
  {
    var examined := Examined(entries);
    var f := FirstStop(examined, pages, minimumLongformSeconds, 0);
    assert forall j | 0 <= j < |examined| :: examined[j] == entries[j];
    if AbortsOnPage(entries, pages, minimumLongformSeconds) {
      var i :| 0 <= i < |examined| && PageRejects(entries[i], pages)
        && forall j | 0 <= j < i :: !EntryQualifies(entries[j], pages, minimumLongformSeconds);
      assert Stops(examined[i], pages, minimumLongformSeconds);
      assert f.Some? && f.value <= i;
    }
    if f.Some? && PageRejects(examined[f.value], pages) {
      assert forall j | 0 <= j < f.value :: !EntryQualifies(entries[j], pages, minimumLongformSeconds);
      assert PageRejects(entries[f.value], pages);
    }
  }

  /** `entry.title || "Latest ThoughtTaken Ride"`. */
  function TitleOr(title: string): (r: string)
    ensures r != []
    ensures title != [] ==> r == title
  {
    if title == [] then DefaultTitle else title
  }

  /** The choice among the parsed feed entries: an error when there is no
      entry or a watch-page fetch rejects before an entry qualifies;
      otherwise one of the entries, under a non-empty title. */
  function SelectFromEntries(entries: seq<FeedEntry>, pages: map<string, PageFetch>,
                             minimumLongformSeconds: int): (r: Result<LatestVideo, string>)
    ensures entries == [] ==> r == Err(ErrorFeedEmpty)
    ensures r.Err? <==> entries == [] || AbortsOnPage(entries, pages, minimumLongformSeconds)
    ensures r.Ok? ==> r.value.title != [] && exists i | 0 <= i < |entries| ::
      r.value == BuildVideoResult(entries[i].videoId, TitleOr(entries[i].title))
  {
    if entries == [] then Err(ErrorFeedEmpty)
    else
      var examined := Examined(entries);
      FirstStopRejects(entries, pages, minimumLongformSeconds);
      match FirstStop(examined, pages, minimumLongformSeconds, 0)
      case Some(i) =>
        if PageRejects(examined[i], pages) then Err(PageOf(pages, examined[i].videoId).reason)
        else
          assert examined[i] == entries[i];
          Ok(BuildVideoResult(examined[i].videoId, TitleOr(examined[i].title)))
      case None => Ok(BuildVideoResult(entries[0].videoId, TitleOr(entries[0].title)))
  }

  /** A selected video names one of the feed's entries, and that id sits
      between id tags in the feed text. */
  lemma SelectedIdInFeed(xml: string, pages: map<string, PageFetch>, minimumLongformSeconds: int)
    requires SelectFromEntries(ParseFeedEntries(xml), pages, minimumLongformSeconds).Ok?
    ensures var v := SelectFromEntries(ParseFeedEntries(xml), pages, minimumLongformSeconds).value;
      v.videoId != [] && Includes(xml, IdOpen + v.videoId + IdClose)
  {
    var entries := ParseFeedEntries(xml);
    var raw := ScanEntries(xml, 0);
    var v := SelectFromEntries(entries, pages, minimumLongformSeconds).value;
    var i :| 0 <= i < |entries| && v == BuildVideoResult(entries[i].videoId, TitleOr(entries[i].title));
    ParseFeedEntriesMatches(xml);
    assert WellFormed(xml, raw[i]);
    assert OccursAt(xml, IdOpen + v.videoId + IdClose, raw[i].idAt);
  }

  /** What `findLatestLongformVideo` returns, or the message it throws:
      `feed` is the feed text, `None` when the feed request fails. */
  function SelectVideo(feed: Option<string>, pages: map<string, PageFetch>,
                       minimumLongformSeconds: int): (r: Result<LatestVideo, string>)
    ensures feed.None? ==> r == Err(ErrorFeedUnavailable)
    ensures feed.Some? && ParseFeedEntries(feed.value) == [] ==> r == Err(ErrorFeedEmpty)
    ensures r.Err? <==>
      feed.None? || ParseFeedEntries(feed.value) == []
      || AbortsOnPage(ParseFeedEntries(feed.value), pages, minimumLongformSeconds)
    ensures r.Ok? ==>
      && feed.Some? && r.value.title != [] && r.value.videoId != []
      && Includes(feed.value, IdOpen + r.value.videoId + IdClose)
  {
    if feed.None? then Err(ErrorFeedUnavailable)
    else
      var r := SelectFromEntries(ParseFeedEntries(feed.value), pages, minimumLongformSeconds);
      if r.Ok? then SelectedIdInFeed(feed.value, pages, minimumLongformSeconds); r
      else r
  }

  /** `findLatestLongformVideo`: the feed that fails to load is an error,
      otherwise its parsed entries go to the selection loop. */
  method FindLatestLongformVideo(feed: Option<string>, pages: map<string, PageFetch>,
                                 minimumLongformSeconds: int)
    returns (r: Result<LatestVideo, string>)
    ensures r == SelectVideo(feed, pages, minimumLongformSeconds)
  {
    if feed.None? {
      return Err(ErrorFeedUnavailable);
    }
    var entries := ParseFeedEntries(feed.value);
    r := SelectLongformEntry(entries, pages, minimumLongformSeconds);
  }

  /** The selection loop: entries are examined in order, one watch page at
      a time; a rejected fetch aborts, a page that is not ok is skipped,
      the first long-form non-Short entry is returned, and otherwise the
      newest entry is. */
  method SelectLongformEntry(entries: seq<FeedEntry>, pages: map<string, PageFetch>,
                             minimumLongformSeconds: int)
    returns (r: Result<LatestVideo, string>)
    ensures r == SelectFromEntries(entries, pages, minimumLongformSeconds)
  {
    if |entries| == 0 {
      return Err(ErrorFeedEmpty);
    }
    var latestFeedEntry := entries[0];
    var examined := Examined(entries);
    var i := 0;
    while i < |examined|
      invariant 0 <= i <= |examined|
      invariant FirstStop(examined, pages, minimumLongformSeconds, 0) ==
                FirstStop(examined, pages, minimumLongformSeconds, i)
    {
      var entry := examined[i];
      var details := VideoPageDetails(PageOf(pages, entry.videoId));
      if details.Err? {
        return Err(details.error);
      }
      if details.value.None? {
        i := i + 1;
        continue;
      }
      if !details.value.value.isShort && details.value.value.lengthSeconds >= minimumLongformSeconds {
        return Ok(BuildVideoResult(entry.videoId, TitleOr(entry.title)));
      }
      i := i + 1;
    }
    return Ok(BuildVideoResult(latestFeedEntry.videoId, TitleOr(latestFeedEntry.title)));
  }

  /** When an examined entry qualifies and no earlier page fetch rejects or
      earlier entry qualifies, the result is that entry, with its title or
      the default title. */
  lemma FirstQualifyingWins(entries: seq<FeedEntry>, pages: map<string, PageFetch>,
                            minimumLongformSeconds: int, i: nat)
    requires i < |Examined(entries)|
    requires EntryQualifies(entries[i], pages, minimumLongformSeconds)
    requires forall j | 0 <= j < i :: !Stops(entries[j], pages, minimumLongformSeconds)
    ensures SelectFromEntries(entries, pages, minimumLongformSeconds) ==
      Ok(BuildVideoResult(entries[i].videoId, TitleOr(entries[i].title)))
  {
    var examined := Examined(entries);
    assert forall j | 0 <= j < |examined| :: examined[j] == entries[j];
    assert FirstStop(examined, pages, minimumLongformSeconds, 0) == Some(i);
  }

  /** When an examined entry's page fetch rejects before the loop stops
      anywhere else, the lookup fails with that fetch's error. */
  lemma PageRejectionAborts(entries: seq<FeedEntry>, pages: map<string, PageFetch>,
                            minimumLongformSeconds: int, i: nat)
    requires i < |Examined(entries)|
    requires PageRejects(entries[i], pages)
    requires forall j | 0 <= j < i :: !Stops(entries[j], pages, minimumLongformSeconds)
    ensures SelectFromEntries(entries, pages, minimumLongformSeconds) ==
      Err(PageOf(pages, entries[i].videoId).reason)
  {
    var examined := Examined(entries);
    assert forall j | 0 <= j < |examined| :: examined[j] == entries[j];
    assert FirstStop(examined, pages, minimumLongformSeconds, 0) == Some(i);
  }

  /** When no examined entry qualifies and no examined page fetch rejects,
      the newest entry is returned. */
  lemma NoneQualifiesFallsBackToNewest(entries: seq<FeedEntry>, pages: map<string, PageFetch>,
                                       minimumLongformSeconds: int)
    requires entries != []
    requires forall j | 0 <= j < |Examined(entries)| ::
      !Stops(entries[j], pages, minimumLongformSeconds)
    ensures SelectFromEntries(entries, pages, minimumLongformSeconds) ==
      Ok(BuildVideoResult(entries[0].videoId, TitleOr(entries[0].title)))
  {
    var examined := Examined(entries);
    assert forall j | 0 <= j < |examined| :: examined[j] == entries[j];
    assert FirstStop(examined, pages, minimumLongformSeconds, 0) == None;
  }

  /** Only the first twelve entries' watch pages matter: two page sets that
      agree on those give the same result. */
  lemma OnlyFirstTwelveExamined(entries: seq<FeedEntry>, pages1: map<string, PageFetch>,
                                pages2: map<string, PageFetch>, minimumLongformSeconds: int)
    requires forall e | e in Examined(entries) ::
      PageOf(pages1, e.videoId) == PageOf(pages2, e.videoId)
    ensures SelectFromEntries(entries, pages1, minimumLongformSeconds) ==
            SelectFromEntries(entries, pages2, minimumLongformSeconds)
  {
    SameVerdicts(Examined(entries), pages1, pages2, minimumLongformSeconds, 0);
  }

  lemma {:induction false} SameVerdicts(examined: seq<FeedEntry>, pages1: map<string, PageFetch>,
                                        pages2: map<string, PageFetch>, minimumLongformSeconds: int, i: nat)
    requires forall e | e in examined :: PageOf(pages1, e.videoId) == PageOf(pages2, e.videoId)
    ensures FirstStop(examined, pages1, minimumLongformSeconds, i) ==
            FirstStop(examined, pages2, minimumLongformSeconds, i)
    decreases |examined| - i
  {
    if i < |examined| {
      assert examined[i] in examined;
      SameVerdicts(examined, pages1, pages2, minimumLongformSeconds, i + 1);
    }
  }

  /** A watch page without a canonical link never counts as a Short, and
      one without a length never passes a positive minimum. */
  lemma MissingPageFieldsDefault(minimumLongformSeconds: int)
    ensures forall len :: !VideoPageDetails(PageLoaded(WatchPage(None, len))).value.value.isShort
    ensures minimumLongformSeconds > 0 ==> forall href ::
      !EntryQualifies(FeedEntry("", ""), map["" := PageLoaded(WatchPage(href, None))], minimumLongformSeconds)
  {
  }

  // ---------------------------------------------------------------------
  // Entry point

  /** `LatestVideoOptions`; absent fields are `None`. */
  datatype LatestVideoOptions = LatestVideoOptions(
    channelId: Option<string>, fallbackVideoId: Option<string>, minimumLongformSeconds: Option<int>)

  function OptionsOrNone(options: Option<LatestVideoOptions>): LatestVideoOptions {
    options.GetOr(LatestVideoOptions(None, None, None))
  }

  /** `options?.fallbackVideoId ?? "dQw4w9WgXcQ"`. */
  function FallbackVideoIdOf(options: Option<LatestVideoOptions>): string {
    OptionsOrNone(options).fallbackVideoId.GetOr(DefaultFallbackVideoId)
  }

  /** `options?.minimumLongformSeconds ?? 180`. */
  function MinimumLongformSecondsOf(options: Option<LatestVideoOptions>): int {
    OptionsOrNone(options).minimumLongformSeconds.GetOr(DefaultMinimumLongformSeconds)
  }

  /** `options?.channelId?.trim()`, read as empty when absent. */
  function ConfiguredChannelId(options: Option<LatestVideoOptions>): string {
    var o := OptionsOrNone(options);
    if o.channelId.Some? then Trim(o.channelId.value) else ""
  }

  /** `configuredChannelId || await resolveChannelId(channelUrl)`, with
      `None` for a resolution that throws. */
  function ChannelIdOf(options: Option<LatestVideoOptions>, resolvedChannelId: Option<string>): Option<string> {
    var configured := ConfiguredChannelId(options);
    if configured != [] then Some(configured) else resolvedChannelId
  }

  /** The feed text of the chosen channel, `None` when no channel id was
      found or its feed request fails. */
  function FeedOf(options: Option<LatestVideoOptions>, resolvedChannelId: Option<string>,
                  feeds: map<string, string>): Option<string> {
    var channelId := ChannelIdOf(options, resolvedChannelId);
    if channelId.Some? && channelId.value in feeds then Some(feeds[channelId.value]) else None
  }

  /** `getLatestYouTubeVideo` with its lookups supplied: `resolvedChannelId`
      is what resolving the channel page yields (`None` when it throws),
      `feeds` maps a channel id to its feed text (absent: the request
      fails). It never fails: the result is the fallback video under the
      default title or an entry of the chosen channel's feed, and its title
      is never empty. */
  function GetLatestYouTubeVideo(options: Option<LatestVideoOptions>, resolvedChannelId: Option<string>,
                                 feeds: map<string, string>, pages: map<string, PageFetch>): (v: LatestVideo)
    ensures v.title != []
    ensures var feed := FeedOf(options, resolvedChannelId, feeds);
      || v == BuildVideoResult(FallbackVideoIdOf(options), DefaultTitle)
      || (feed.Some? && exists i | 0 <= i < |ParseFeedEntries(feed.value)| ::
            v == BuildVideoResult(ParseFeedEntries(feed.value)[i].videoId,
                                  TitleOr(ParseFeedEntries(feed.value)[i].title)))
  {
    var feed := FeedOf(options, resolvedChannelId, feeds);
    var minimum := MinimumLongformSecondsOf(options);
    match SelectVideo(feed, pages, minimum)
    case Ok(video) => video
    case Err(_) => BuildVideoResult(FallbackVideoIdOf(options), DefaultTitle)
  }

  /** The lookup yields the fallback video under the default title when no
      channel id is found, the channel's feed fails to load or holds no
      entry, or a watch-page fetch rejects before an entry qualifies. */
  lemma LatestVideoFallsBack(options: Option<LatestVideoOptions>, resolvedChannelId: Option<string>,
                             feeds: map<string, string>, pages: map<string, PageFetch>)
    requires var channelId := ChannelIdOf(options, resolvedChannelId);
      || channelId.None? || channelId.value !in feeds
      || ParseFeedEntries(feeds[channelId.value]) == []
      || AbortsOnPage(ParseFeedEntries(feeds[channelId.value]), pages, MinimumLongformSecondsOf(options))
    ensures GetLatestYouTubeVideo(options, resolvedChannelId, feeds, pages) ==
      BuildVideoResult(FallbackVideoIdOf(options), DefaultTitle)
  {
    var feed := FeedOf(options, resolvedChannelId, feeds);
    assert SelectVideo(feed, pages, MinimumLongformSecondsOf(options)).Err?;
  }

  /** Otherwise the lookup yields an entry of the channel's feed, under its
      title or the default title. */
  lemma LatestVideoFromFeed(options: Option<LatestVideoOptions>, resolvedChannelId: Option<string>,
                            feeds: map<string, string>, pages: map<string, PageFetch>)
    requires var channelId := ChannelIdOf(options, resolvedChannelId);
      && channelId.Some? && channelId.value in feeds
      && ParseFeedEntries(feeds[channelId.value]) != []
      && !AbortsOnPage(ParseFeedEntries(feeds[channelId.value]), pages, MinimumLongformSecondsOf(options))
    ensures var entries := ParseFeedEntries(feeds[ChannelIdOf(options, resolvedChannelId).value]);
      exists i | 0 <= i < |entries| :: GetLatestYouTubeVideo(options, resolvedChannelId, feeds, pages) ==
        BuildVideoResult(entries[i].videoId, TitleOr(entries[i].title))
  {
    var xml := feeds[ChannelIdOf(options, resolvedChannelId).value];
    var minimum := MinimumLongformSecondsOf(options);
    assert FeedOf(options, resolvedChannelId, feeds) == Some(xml);
    var r := SelectFromEntries(ParseFeedEntries(xml), pages, minimum);
    assert SelectVideo(Some(xml), pages, minimum) == r;
    assert r.Ok?;
  }

  /** Without options the fallback is `dQw4w9WgXcQ` and the minimum 180
      seconds; `??` keeps a supplied empty fallback id. */
  lemma LatestVideoDefaults(fallbackVideoId: string)
    ensures FallbackVideoIdOf(None) == DefaultFallbackVideoId
    ensures MinimumLongformSecondsOf(None) == DefaultMinimumLongformSeconds
    ensures FallbackVideoIdOf(Some(LatestVideoOptions(None, Some(fallbackVideoId), None))) == fallbackVideoId
  {
  }

  /** A configured channel id that is not blank after trimming is used
      as is, so the result does not depend on channel resolution. */
  lemma ConfiguredChannelSkipsResolution(options: Option<LatestVideoOptions>,
                                         resolved1: Option<string>, resolved2: Option<string>,
                                         feeds: map<string, string>, pages: map<string, PageFetch>)
    requires ConfiguredChannelId(options) != []
    ensures ChannelIdOf(options, resolved1) == Some(ConfiguredChannelId(options))
    ensures GetLatestYouTubeVideo(options, resolved1, feeds, pages) ==
            GetLatestYouTubeVideo(options, resolved2, feeds, pages)
  {
  }
}

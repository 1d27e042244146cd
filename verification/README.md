# thoughtaken core, modelled in Dafny

This project models the logic of the thoughtaken marketing site (a Next.js
application) and proves properties of it. It covers six parts:

- **The contact endpoint** (`POST` in `app/api/contact/route.ts`). This is an
  ordered chain of checks, and the first failure decides the reply:
  - bot → 403;
  - honeypot → silent `{ ok: true }`;
  - minimum fill time → 400;
  - per-client sliding-window rate limit → 429;
  - required fields, then name and message length → 400;
  - spam test, then e-mail shape → 400;
  - mail configuration → 500 naming the missing settings.

  A full pass hands one message to the mail provider. Alongside the chain
  sit the HTML escaper and paragraph formatter, and the client-address
  header fallback. The process-wide rate-limit ledger is pruned and appended
  in place. Modules: `ContactHtml`, `ContactRateLimit` (class `RateLimiter`
  over a map) and `ContactRoute`.
- **The latest-video lookup** (`app/lib/youtube.ts`, module `YouTube`). It
  covers:
  - the watch and embed URLs;
  - the XML entity decoder;
  - the feed-entry extraction;
  - the selection loop over the first twelve entries;
  - the Short/length derivation of a watch page;
  - the never-failing entry point with its defaults.

  Network answers are parameters: the feed text per channel, the watch
  pages that load, and the result of channel resolution.
- **The masonry layout** (`app/lib/gallery-images.ts`, module
  `GalleryImages`): round-robin placement into columns, as a method over an
  array of columns.
- **Gallery file names** (`app/lib/gallery-loader.ts`, module
  `GalleryLoader`): alt text from a file name, the image-extension filter,
  the `src` mapping, and the fallback to the built-in list.
- **The product carousel** (`app/components/Products.tsx`, module
  `Products`): class `Carousel` with the per-product active-index and
  slide-direction arrays, updated one slot at a time.
- **The social cards** (`app/components/Socials.tsx`, module `Socials`):
  enabled entries, the featured entry and its middle slot, and the order
  classes.

Shared modules:

- `Wrappers` defines `Option` and `Result`.
- `Text` defines JavaScript's `trim` whitespace set, `replaceAll` with a
  string pattern, ASCII lower-casing, `indexOf`/`includes` and `join`.
- `EscapeDecode` relates the feed-title decoder of `app/lib/youtube.ts` to
  the contact endpoint's HTML escaper: on text without `&`, decoding undoes
  escaping up to trimming.

Regular expressions are written as explicit scanners and predicates over
characters. Each module's comments say which regular expression a scanner
stands for.

## Model

| member | source | states |
|---|---|---|
| Text.Trim | app/api/contact/route.ts:81-84 | the result of `trim` is an infix of the input, with no whitespace at either end, empty exactly when the input is all whitespace, and equal to the input when neither end is whitespace |
| Text.TrimDropsOnlyWhitespace | app/api/contact/route.ts:81-84 | everything `trim` drops is JavaScript whitespace: the characters before the result are the leading whitespace, and every character after it is whitespace |
| Text.TrimIdempotent | app/api/contact/route.ts:81-84 | trimming twice is trimming once |
| Text.ReplaceCharConcat | app/api/contact/route.ts:38-43 | `replaceAll` with a one-character pattern distributes over concatenation |
| Text.IndexOfIsFirst | app/lib/youtube.ts:61 | the search returns the first occurrence at or after the start index, and none only when there is none |
| ContactHtml.EscapeHtmlIsSinglePass | app/api/contact/route.ts:37-44 | the five passes, the ampersand first, equal escaping every character once (`&`→`&amp;`, `<`→`&lt;`, `>`→`&gt;`, `"`→`&quot;`, `'`→`&#39;`, everything else kept), so no entity is escaped twice |
| ContactHtml.EscapeHtmlChar | app/api/contact/route.ts:37-44 | on one character the chain of passes yields that character's entity, or the character itself |
| ContactHtml.EscapeHtmlConcat | app/api/contact/route.ts:37-44 | escaping distributes over concatenation |
| ContactHtml.EscapeHtml | app/api/contact/route.ts:37-44 | the result equals escaping each character once; it has no raw `<`, `>`, `"` or `'` and every `&` in it starts one of the five entities; decoding the five entities in one left-to-right pass gives back the input, so escaping loses nothing |
| ContactHtml.ToHtmlParagraph | app/api/contact/route.ts:46-48 | every character except the line feed is escaped once and each line feed becomes `<br />`; the only markup in the result is `<br />`: each `<` opens one and each `>` closes one, there are no quotes, and every `&` starts an entity |
| ContactRateLimit.Recent | app/api/contact/route.ts:56-58 | the pruned list holds exactly the stored timestamps less than ten minutes old; it is all of them when all are recent and none when none is |
| ContactRateLimit.RecentConcat | app/api/contact/route.ts:56-58 | pruning a concatenation prunes each half and concatenates: the filter keeps survivors in stored order |
| ContactRateLimit.RecentSingle | app/api/contact/route.ts:56-58 | a single timestamp survives exactly when it is less than ten minutes old; with `RecentConcat` this fixes the pruned list completely |
| ContactRateLimit.LimitStep | app/api/contact/route.ts:55-68 | one limiter call refuses iff the pruned count is at least 5; the client's entry becomes the pruned list in stored order, plus `now` only when admitted; no other client's entry changes |
| ContactRateLimit.LimitStepBounded | app/api/contact/route.ts:55-68 | if no client holds more than 5 timestamps before a call, none does after it |
| ContactRateLimit.WindowElapsedAdmits | app/api/contact/route.ts:56-67 | once every stored timestamp is at least a window old, the next submission is admitted and the entry restarts as `[now]` |
| ContactRateLimit.BurstVerdicts | app/api/contact/route.ts:55-68 | for calls inside one window, the `i`-th call is refused exactly when the stored count plus `i` reaches 5 |
| ContactRateLimit.SixthSubmissionInWindowIsRefused | app/api/contact/route.ts:55-68 | from an empty ledger, six submissions of one client in one window: five admitted, the sixth refused |
| ContactRateLimit.RateLimiter.constructor | app/api/contact/route.ts:33 | the ledger starts empty, which satisfies the quota invariant |
| ContactRateLimit.RateLimiter.TooManyRecentSubmissions | app/api/contact/route.ts:55-68 | the in-place update gives the verdict and new ledger of `LimitStep`: refused iff the pruned count is at least 5; the client's entry is the pruned list plus `now` when admitted; other entries unchanged; the quota invariant is kept |
| ContactRoute.TrimField | app/api/contact/route.ts:80-85 | a string field becomes its trimmed text, an absent field stays undefined, a number or other value becomes the type error that `.trim()` raises; the field is truthy exactly when it is a string holding a non-whitespace character |
| ContactRoute.FirstSegment | app/api/contact/route.ts:51 | `split(",")[0]` is the longest comma-free prefix, ending at the first comma or the end |
| ContactRoute.ClientIp | app/api/contact/route.ts:50-53 | the trimmed first `x-forwarded-for` entry if non-empty, else a non-empty `x-real-ip`, else `"unknown"`; never empty |
| ContactRoute.ForwardedIpIsOneEntry | app/api/contact/route.ts:51 | an address taken from `x-forwarded-for` holds no comma and has no surrounding whitespace |
| ContactRoute.UrlMatchesDoNotNest | app/api/contact/route.ts:131 | two link matches never overlap, so the left-to-right global match counts each of them |
| ContactRoute.UrlCountSeesAll | app/api/contact/route.ts:131 | links starting at increasing positions are all counted by the global match |
| ContactRoute.UrlCountIsLinkStarts | app/api/contact/route.ts:131 | the left-to-right count from any position equals the number of positions from there at which a link (`http://`, `https://` or `www.`) starts |
| ContactRoute.LinkStartsAfterMatch | app/api/contact/route.ts:131 | after a match the next link start lies past its end, so the match skips no link |
| ContactRoute.UrlCount | app/api/contact/route.ts:131 | the match count of the lower-cased message is the number of positions where a link starts |
| ContactRoute.ThreeLinksAreSpam | app/api/contact/route.ts:131-137 | three `http://`, `https://` or `www.` occurrences, in any letter case, make the message spam |
| ContactRoute.IsSpam | app/api/contact/route.ts:131-137 | a message is spam iff more than two link starts occur in it, or a suspicious pattern occurs in any letter case (`<script`, `<iframe`, `[url]`, `[link]`, `href=`, or the words `viagra` and `casino` between word boundaries) |
| ContactRoute.ScriptTagIsSpam | app/api/contact/route.ts:132-137 | a `<script` in any letter case makes the message spam |
| ContactRoute.EmailShapeExamples | app/api/contact/route.ts:139-144 | the e-mail shape accepts `jane@example.com` and rejects a missing dot, an empty local part and embedded whitespace |
| ContactRoute.EmailShaped | app/api/contact/route.ts:12 | an accepted address has exactly one `@`, not at either end, and no whitespace |
| ContactRoute.MissingEnvKeys | app/api/contact/route.ts:146-156 | the missing list only names the four required settings, and is empty iff all four are non-blank after trimming |
| ContactRoute.MissingEnvKeysNamesBlank | app/api/contact/route.ts:146-156 | each required setting is in the missing list iff its value is absent or blank after trimming |
| ContactRoute.MissingEnvKeysInCheckOrder | app/api/contact/route.ts:152-156 | the missing list follows the check order `MAILJET_API_KEY`, `MAILJET_API_SECRET`, `MAILJET_FROM_EMAIL`, `CONTACT_TO`, each at most once; a blank `CONTACT_TO` is named last |
| ContactRoute.CollectMissingEnvKeys | app/api/contact/route.ts:152-156 | the list built by appending one key per failed check is the missing-settings list, in check order |
| ContactRoute.FieldFailure | app/api/contact/route.ts:107-144 | no rule fails iff all three fields are present strings, the name has 2 to 80 characters, the message 15 to 2000, the message is not spam and the e-mail is well shaped; any failure is a 400 rejection, and the first failing rule in the order fields present, name length, message length, spam, e-mail shape names the error |
| ContactRoute.BotIsBlockedFirst | app/api/contact/route.ts:72-78 | a bot gets 403, nothing is sent, and the ledger is untouched |
| ContactRoute.HoneypotAcceptsSilently | app/api/contact/route.ts:80-89 | a non-blank `company` gets `{ ok: true }` with nothing sent and the ledger untouched, when every other field is a string or absent |
| ContactRoute.TooFastIsRejected | app/api/contact/route.ts:85-97 | a missing or non-numeric start time, or one less than 2500 ms ago, gets 400 before the rate limiter, with the ledger untouched, when every field is a string or absent and the honeypot is blank |
| ContactRoute.UnreadableBodyFails | app/api/contact/route.ts:80-84 | a body that cannot be read, or a field that is present but not a string, gets the generic 500 reply with nothing sent and the ledger untouched |
| ContactRoute.SpamIsBlocked | app/api/contact/route.ts:107-137 | an admitted request with present fields and valid name and message lengths whose message is spam gets the 400 spam reply and nothing is sent |
| ContactRoute.ThreeLinksAreBlocked | app/api/contact/route.ts:131-137 | such a request whose message has three link starts gets exactly the 400 spam reply, no message, and the limiter's new ledger |
| ContactRoute.ScriptTagIsBlocked | app/api/contact/route.ts:131-137 | such a request whose message contains `<script` in any letter case gets exactly the 400 spam reply, no message, and the limiter's new ledger |
| ContactRoute.Post | app/api/contact/route.ts:72-246 | the ledger changes exactly for requests that reach the limiter, and then by one limiter call (a slot is used even when a later rule rejects); a message goes out exactly when the request passes the bot, honeypot, fill-time and rate-limit checks and the field rules, and the configuration is complete |
| ContactRoute.OverQuotaIsRefused | app/api/contact/route.ts:99-105 | an over-quota client gets 429 and nothing is sent, before any field rule runs |
| ContactRoute.PostKeepsLedgerBounded | app/api/contact/route.ts:99-105 | every request keeps every client within 5 stored timestamps |
| ContactRoute.PastRateLimit | app/api/contact/route.ts:107-231 | past the limiter, a failing field rule's rejection is the whole reply with nothing sent; a message is composed iff the field rules pass and the configuration is complete, and it is the composed message; the reply is `{ ok: true }` when the provider accepted it and the generic 500 when the call failed; valid fields with missing settings get the 500 reply naming them |
| ContactRoute.SentMailMeetsRules | app/api/contact/route.ts:107-231 | a sent message comes from string fields that meet every rule; it is the composed message, and the reply is `{ ok: true }` iff delivery succeeded |
| ContactRoute.ComposeMail | app/api/contact/route.ts:146-213 | the message replies to the submitter, its subject is `THOUGHTAKEN Contact \| name`, it is sent from the trimmed `MAILJET_FROM_EMAIL` to the trimmed `CONTACT_TO` (both non-empty when no setting is missing), its sender name is the trimmed `MAILJET_FROM_NAME` when not blank and `ThoughtTaken` otherwise; the HTML message part is `ToHtmlParagraph` of the message; the name and e-mail in the HTML part are inert and decode back to the values; the message part carries no markup but `<br />` |
| ContactRoute.ComposeMailTextPart | app/api/contact/route.ts:190 | the text part opens with `Name: ` and the name, then `Email: ` and the address, and ends with `Message:` and the message itself |
| ContactRoute.MissingConfigReply | app/api/contact/route.ts:158-166 | the reply is a 500 whose error starts with the missing-configuration text and names every missing setting |
| ContactRoute.MissingConfigNeverSends | app/api/contact/route.ts:146-166 | a valid submission with any setting missing gets the 500 reply naming the missing settings in check order (a blank `CONTACT_TO` last), and nothing is sent |
| ContactRoute.DeliveryFailureFails | app/api/contact/route.ts:226-245 | a valid, admitted submission with complete settings sends the composed message, and when the provider call fails the reply is the generic 500 with the limiter's new ledger |
| ContactRoute.HandlePost | app/api/contact/route.ts:72-246 | the early-return handler over the in-place limiter yields the reply, message and ledger of `Post`, and keeps the quota invariant |
| YouTube.BuildVideoResult | app/lib/youtube.ts:39-46 | the result keeps the id and title |
| YouTube.UrlsIdentifyVideo | app/lib/youtube.ts:43-44 | the watch URL and the embed URL both read back to the video's own id |
| YouTube.DecodeXmlEntities | app/lib/youtube.ts:48-56 | the decoded text has no whitespace at either end; text without `&` is only trimmed |
| YouTube.DecodeXmlEntitiesTwice | app/lib/youtube.ts:49-54 | the passes run in sequence, so `&amp;lt;` decodes to `<` |
| YouTube.DecodeXmlEntitiesTrims | app/lib/youtube.ts:55 | whitespace around a raw title without `&` never reaches the decoded title |
| EscapeDecode.DecodeXmlEntitiesInvertsEscape | app/lib/youtube.ts:48-56 | decoding the HTML escape of a text without `&` gives back the text, trimmed; `DecodeXmlEntitiesTwice` shows why `&` must be excluded |
| EscapeDecode.DecodePass | app/lib/youtube.ts:49-54 | on escaped text without a raw `&`, the pass for one entity turns exactly that entity's occurrences back into its character and leaves every other entity and character alone |
| EscapeDecode.DecodePasses | app/lib/youtube.ts:49-54 | the five passes in the decoder's order (`&amp;`, `&quot;`, `&#39;`, `&lt;`, `&gt;`) restore the escaped text |
| EscapeDecode.ReplaceEntityBlock | app/lib/youtube.ts:49-54 | one pass over a text that starts with an entity replaces that entity exactly when it is the pattern: no occurrence of an entity starts inside another |
| Text.ReplaceSkip | app/lib/youtube.ts:49-54 | `replaceAll` copies a prefix that lacks the pattern's first character unchanged |
| YouTube.MatchElement | app/lib/youtube.ts:61 | `open([^<]+)close` searched from an index finds the earliest match and the end of its capture; no match means none exists at or after the index |
| YouTube.ElementOfText | app/lib/youtube.ts:61 | tags around a non-empty text without `<` are an element match that captures exactly that text |
| YouTube.ElementsDoNotOverlap | app/lib/youtube.ts:61 | two id (or title) elements never overlap: a later one starts at or after the end of an earlier one |
| YouTube.SearchCovers | app/lib/youtube.ts:61 | the earliest element match ends no later than any other match after the search start, so taking it never rules out a later piece of the pattern |
| YouTube.WellFormedIsPattern | app/lib/youtube.ts:61 | a recorded match (opening tag, id element, title element, closing tag, in order) is a match of the feed pattern at those positions, and its captures are the runs after the open tags |
| YouTube.PatternIsWellFormed | app/lib/youtube.ts:61 | conversely, a match of the pattern at given positions is a well-formed recorded match |
| YouTube.NoTitleElement | app/lib/youtube.ts:61 | with no title element after the earliest id element, no match starts at the opening tag |
| YouTube.NoEntryClose | app/lib/youtube.ts:61 | with no closing tag after the earliest title element, no match starts at the opening tag |
| YouTube.FoundEntryLazy | app/lib/youtube.ts:61 | the match built from the earliest pieces makes the lazy gaps' choices |
| YouTube.MatchEntryAt | app/lib/youtube.ts:61 | at an opening tag, the result is a well-formed match starting there with the lazy choices, and there is none exactly when no match of the pattern starts there |
| YouTube.MatchAfterId | app/lib/youtube.ts:61 | once the earliest id element is fixed, the rest of the pattern is found exactly when a match starts at the opening tag |
| YouTube.MatchFromEarlierTag | app/lib/youtube.ts:59-63 | when no match starts at an opening tag, none starts anywhere after it |
| YouTube.ScanEntriesMatchAll | app/lib/youtube.ts:59-63 | the scan is `matchAll`: each match is the leftmost match at or after the end of the previous one, with the lazy choices, and after the last no match remains |
| YouTube.MatchAllInOrder | app/lib/youtube.ts:59-63 | the matches are well formed and each starts after the previous one ends |
| YouTube.MatchAllEmpty | app/lib/youtube.ts:59-63 | the match list is empty exactly when no match starts at or after the start index |
| YouTube.FirstMatchUnique | app/lib/youtube.ts:61 | the leftmost lazy match from an index is unique |
| YouTube.SameStartSameParts | app/lib/youtube.ts:61 | two lazy matches that start at the same opening tag are the same match: same id element, title element and closing tag |
| YouTube.MatchAllUnique | app/lib/youtube.ts:59-63 | the text alone determines the match list: two lists that both satisfy the `matchAll` description are equal |
| YouTube.ParseFeedEntriesMatches | app/lib/youtube.ts:58-69 | the entries are the matches in document order, none exactly when the feed holds no match; each id is the captured id, found between id tags at its match's position, and each title the decoded captured title |
| YouTube.ParseFeedEntriesDecodes | app/lib/youtube.ts:64-68 | one entry per match, holding its captured id and its decoded title, which has no whitespace at either end |
| YouTube.VideoPageDetails | app/lib/youtube.ts:71-93 | a rejected fetch rejects with its error, a response that is not ok gives no details, a loaded page gives details whose URL is its canonical link (empty when missing) and whose length is its `lengthSeconds` (0 when missing), with `isShort` iff the canonical URL contains `/shorts/`; a missing canonical link gives an empty URL that is no Short, a missing length gives 0 |
| YouTube.Examined | app/lib/youtube.ts:133 | `slice(0, 12)` is the prefix of exactly `min(12, n)` entries |
| YouTube.FirstStop | app/lib/youtube.ts:133-155 | the index found is where the loop stops (a rejected page fetch or a qualifying entry), none before it stops the loop, and no index is found only when no examined entry stops it |
| YouTube.FirstStopRejects | app/lib/youtube.ts:133-155 | the loop's first stop is a rejected page fetch exactly when some examined page fetch rejects before any examined entry qualifies |
| YouTube.SelectFromEntries | app/lib/youtube.ts:127-167 | no entries give the empty-feed error; the selection fails exactly when there are no entries or a page fetch rejects before an entry qualifies; otherwise it is one of the entries under a non-empty title |
| YouTube.SelectLongformEntry | app/lib/youtube.ts:127-167 | the loop yields the selection: the first examined long-form non-Short entry, the error of a page fetch that rejects first, else the newest entry, else the empty-feed error |
| YouTube.FirstQualifyingWins | app/lib/youtube.ts:133-155 | when an examined entry qualifies and the loop stops nowhere before it, that entry is returned with its title or the default title |
| YouTube.PageRejectionAborts | app/lib/youtube.ts:134 | when an examined entry's page fetch rejects and the loop stops nowhere before it, the lookup fails with that error |
| YouTube.NoneQualifiesFallsBackToNewest | app/lib/youtube.ts:157-167 | when no examined entry qualifies and no examined page fetch rejects, the newest entry is returned |
| YouTube.OnlyFirstTwelveExamined | app/lib/youtube.ts:133 | watch pages beyond the first twelve entries cannot change the result |
| YouTube.EntryQualifiesSpec | app/lib/youtube.ts:134-148 | an entry is selectable exactly when its watch page loads, its canonical link does not contain `/shorts/`, and its length reaches the minimum |
| YouTube.MissingPageFieldsDefault | app/lib/youtube.ts:85-91 | a page without a canonical link is never a Short; one without a length never passes a positive minimum |
| YouTube.SelectedIdInFeed | app/lib/youtube.ts:58-69 | a selected video's id is non-empty and occurs between id tags in the feed text |
| YouTube.SelectVideo | app/lib/youtube.ts:95-170 | a feed that fails to load and a feed without entries are errors; the lookup fails exactly in those cases or when a page fetch rejects first; a result names an id found between id tags in the feed, under a non-empty title |
| YouTube.FindLatestLongformVideo | app/lib/youtube.ts:95-170 | the method yields the result or error of `SelectVideo` |
| YouTube.GetLatestYouTubeVideo | app/lib/youtube.ts:204-238 | the lookup never fails: the result is the fallback video under the default title or an entry of the chosen channel's feed, with a non-empty title |
| YouTube.LatestVideoFallsBack | app/lib/youtube.ts:220-237 | no channel id, a feed that fails to load or has no entry, or a page fetch that rejects before an entry qualifies gives the fallback video under the default title |
| YouTube.LatestVideoFromFeed | app/lib/youtube.ts:220-228 | otherwise the result is an entry of the channel's feed under its title or the default title |
| YouTube.LatestVideoDefaults | app/lib/youtube.ts:209-210 | without options the fallback id is `dQw4w9WgXcQ` and the minimum 180 seconds; a supplied fallback id is used even when empty |
| YouTube.ConfiguredChannelSkipsResolution | app/lib/youtube.ts:208-221 | a configured channel id that is non-blank after trimming is used, and the result does not depend on channel resolution |
| GalleryImages.Masonry | app/lib/gallery-images.ts:25-31 | the layout has exactly `columnCount` columns, column `c` holding every `columnCount`-th image from index `c` |
| GalleryImages.ToMasonryColumns | app/lib/gallery-images.ts:25-31 | pushing each image onto column `index % columnCount` in a loop builds exactly that layout, in a fresh array |
| GalleryImages.MasonryPush | app/lib/gallery-images.ts:27-29 | one more image lands in column `index % columnCount` and nowhere else |
| GalleryImages.ImagePlacement | app/lib/gallery-images.ts:27-29 | the image at input index `i` sits in column `i % n` at position `i / n` |
| GalleryImages.StrideElements | app/lib/gallery-images.ts:27-29 | within a column, the `j`-th image is input image `c + j·n`, so columns keep input order |
| GalleryImages.ColumnSizes | app/lib/gallery-images.ts:27-29 | no column is longer than an earlier one, and sizes differ by at most one |
| GalleryImages.MasonryKeepsImages | app/lib/gallery-images.ts:26-30 | the columns hold exactly the input images, as a multiset and in total count; empty input gives empty columns |
| GalleryLoader.StripExtension | app/lib/gallery-loader.ts:10 | the stem is a prefix of the name |
| GalleryLoader.StripExtensionSpec | app/lib/gallery-loader.ts:10 | the stem drops a final `.` plus one or more characters other than `/` and `.`; a name without such a suffix is kept whole |
| GalleryLoader.Extname | app/lib/gallery-loader.ts:23 | the extension is empty, or a suffix of the name starting with `.` |
| GalleryLoader.ImageFileSpec | app/lib/gallery-loader.ts:23 | a name passes the filter iff it has a non-empty stem and, after its last dot, one of `.jpg .jpeg .png .webp .gif .avif` in any ASCII letter case |
| GalleryLoader.CollapseSeparators | app/lib/gallery-loader.ts:11 | the collapsed text holds no `-` or `_` |
| GalleryLoader.CollapseRun | app/lib/gallery-loader.ts:11 | a maximal run of `-`/`_` becomes a single space and the text around it is collapsed independently |
| GalleryLoader.CollapseKeepsPlainText | app/lib/gallery-loader.ts:11 | a stem without `-` or `_` is left as it is |
| GalleryLoader.AltFromFilename | app/lib/gallery-loader.ts:9-12 | the alt text is never empty, has no surrounding whitespace, and holds no `-` or `_` |
| GalleryLoader.AltFallback | app/lib/gallery-loader.ts:10-11 | a name that is blank after stripping and collapsing gets `Gallery image`, any other the trimmed text |
| GalleryLoader.ImageFileNames | app/lib/gallery-loader.ts:21-23 | the kept names are exactly the regular files that pass the extension filter |
| GalleryLoader.ToGalleryImage | app/lib/gallery-loader.ts:25-28 | each kept file `f` maps to `src` `/gallary/` + `f` and the alt text of `f` |
| GalleryLoader.GetGalleryImages | app/lib/gallery-loader.ts:14-34 | the result is never empty: the built-in list when the directory cannot be read or has no image file, else one image per kept file in order |
| GalleryLoader.GalleryFromDirectory | app/lib/gallery-loader.ts:20-30 | every image of a readable directory comes from one of its regular image files, and every such file has its image |
| Products.StepIndex | app/components/Products.tsx:42-49 | with no images the index is 0; from an index in range the step lands in range |
| Products.StepNeighbours | app/components/Products.tsx:48-49 | a forward step moves to the next image and wraps from the last to the first; a backward step moves to the previous image and wraps from the first to the last |
| Products.StepWraps | app/components/Products.tsx:48-49 | forward from the last image is 0; back from 0 is the last image |
| Products.StepInverse | app/components/Products.tsx:48-49 | a forward step and a backward step, in either order, restore the index |
| Products.StepForwardLands | app/components/Products.tsx:48-49 | `k` forward steps from `i` land on `(i + k) % count`, so repeated stepping visits every image |
| Products.JsRemainder | app/components/Products.tsx:49 | JavaScript's `%`: the result is smaller than the divisor in magnitude, has the dividend's sign (0 for 0), and differs from the dividend by a multiple of the divisor; on a non-negative dividend it is the Euclidean remainder |
| Products.JsRemainderUnique | app/components/Products.tsx:49 | those properties leave exactly one value, so they define JavaScript's `%` |
| Products.Carousel.constructor | app/components/Products.tsx:11-16 | every product starts on index 0, sliding with direction 1, and the carousel is valid |
| Products.Carousel.GoToImage | app/components/Products.tsx:18-31 | only slot `productIndex` of each array changes: the direction from the image on show, and the target index; a target among the product's images keeps the carousel valid |
| Products.Carousel.StepImage | app/components/Products.tsx:33-52 | only slot `productIndex` of each array changes: the direction given, and the stepped index (0 with no images); the carousel stays valid |
| Socials.ActiveSocials | app/components/Socials.tsx:15 | the cards are exactly the enabled entries |
| Socials.ActiveSocialsConcat | app/components/Socials.tsx:15 | filtering keeps the configured order |
| Socials.FeaturedSocial | app/components/Socials.tsx:16 | the featured entry is an enabled featured entry, and there is none iff no enabled entry is featured |
| Socials.FeaturedIsFirstEnabledFeatured | app/components/Socials.tsx:15-16 | the featured entry is the first configured entry that is both enabled and featured |
| Socials.OtherPlatforms | app/components/Socials.tsx:19-21 | the other cards are exactly the enabled entries of a different platform |
| Socials.OtherPlatformsConcat | app/components/Socials.tsx:19-21 | the platform filter distributes over concatenation, so the other cards keep their configured order |
| Socials.OrderedSocials | app/components/Socials.tsx:17-23 | only enabled entries are shown |
| Socials.NoFeaturedKeepsOrder | app/components/Socials.tsx:17-23 | without a featured entry the cards are the enabled entries in configured order |
| Socials.Arrange | app/components/Socials.tsx:18-22 | the featured card goes in slot 1, or in slot 0 when it is alone, and removing it leaves the other cards in order |
| Socials.FeaturedPlacement | app/components/Socials.tsx:17-22 | with a featured entry, it sits at index 1 when another-platform entry exists and at 0 otherwise; the other-platform entries keep their order, the first before it and the rest after |
| Socials.FeaturedPlatformOnce | app/components/Socials.tsx:19-21 | the featured card is the only card of its platform, so it appears once; every enabled entry of another platform is kept |
| Socials.OrderValue | app/components/Socials.tsx:40-41 | the card's CSS order value is its index plus one for the first two cards and 3 for every later card |
| Socials.OrderClass | app/components/Socials.tsx:40-41 | the class of each card is one of the three order classes, the one whose order value is the card's `OrderValue` (`md:order-1` at index 0, `md:order-2` at 1, `md:order-3` later) |
| Socials.OrderClassKeepsListOrder | app/components/Socials.tsx:40-41 | the order classes never put a card before an earlier one, and separate the first two cards from the rest |

## Left out

- Mail delivery is not modelled: the provider request, the Basic-auth base64 header, the `toLocaleString` submission time and the styled HTML template around the escaped values. The model keeps the message's addressing, subject, text part and the three escaped HTML fragments. The provider's answer is a boolean parameter, `false` when the request throws or returns an error status.
- The `isbot` classifier is a library with its own signature list, so its verdict is a boolean parameter.
- `Date.now()` and `process.env` are parameters. Timestamps are whole milliseconds.
- The development-mode error detail appended to the 500 reply depends on `NODE_ENV` and on exception messages, so it is left out. The model uses the production text.
- Concurrent requests interleaving inside the limiter are not modelled. Each call runs to completion.
- Regular expressions are written as scanners over characters. The `i` flag is modelled as ASCII case folding, which is exact for these ASCII-only patterns without the `u` flag.
- `.length` in the route counts UTF-16 code units. The model counts Dafny characters, so text outside the Basic Multilingual Plane counts as 1 where the source counts 2.
- The YouTube network layer is left out: the fetches, `getHandlePath` (it relies on the WHATWG URL parser), channel-id scraping and `console.info` logging. The feed text (absent when its fetch fails), the result of channel resolution and, per video id, the outcome of the watch-page fetch are parameters. That outcome is a loaded page, a response that is not ok, or a rejected fetch with its error message; an id with no outcome given counts as a response that is not ok. A loaded page is reduced to its canonical link and its `lengthSeconds` digits as a number.
- YouTube.ParseFeedEntriesMatches: the `[\s\S]*?` gaps and the `matchAll` iteration are modelled by a scanner over the feed text, proved equal to the leftmost-lazy match sequence. A round trip from generated feed text back to entries is not proved.
- GalleryLoader.GetGalleryImages: keeps directory order and does not model the `localeCompare(…, { numeric: true })` sort, which depends on the host's collation. Membership and the fallback do not depend on order.
- `fs.readdir`, `path.join` and `path.extname` are replaced by a list of (name, is-regular-file) pairs. The model includes an `extname` for names without `/`.
- `toLowerCase` on the extension is modelled as ASCII lower-casing. No non-ASCII character lower-cases onto one of the six extensions, so the filter's outcome is the same.
- GalleryImages.ToMasonryColumns: requires a positive whole `columnCount`. With zero columns the source returns no columns for an empty list and throws on any image, because `index % 0` is `NaN`. A fractional count yields fractional indices. Neither case is modelled.
- Products.Carousel.GoToImage: reads the current index from the array. The source reads it from the state captured at render time, which is the same unless two updates are batched. A target outside the product's images is stored as given, as in the source, and the validity invariant is then only promised for in-range targets.
- Products.Carousel.StepImage and Products.Carousel.GoToImage: require `productIndex` to name a configured product. The source only calls them from the cards it renders, one per product.
- The number of images of each product comes from the site configuration. That file is not part of this model, so the counts are a constructor parameter.
- app/components/StatsStrip.tsx is left out: it is floating-point counters driven by timers and observers.
- The other UI components, pages, layout, manifest, robots and sitemap are left out as presentation or static metadata. This includes the social icons and handles, and the carousel's rendering and animation.

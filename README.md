# Hackathon site logic, modelled in Dafny

The site is a single-page React application that presents a team's hackathon
projects, their development journal, testimonials and interactive demos.
Beneath the animation sit small pieces of logic, and this project models them
and proves what they do:

- the rewriting of Google Drive and YouTube links into embeddable URLs, and
  the autoplay flag the video modal adds;
- three inline markup scanners:
  - keyword and `**bold**` highlighting on project pages;
  - `[kw-colour]…[/kw-colour]` tags in journal entries;
  - backtick runs turned into `<code>` in the functionality matrix;
- tag colour classification, in the two diverging copies on the home page and
  the project page;
- grouping and ordering:
  - journal entries by author, sorted by station number or by date;
  - testimonials by known country, with marker sizes and the highlight rule;
  - the code directory tree, flattened in preorder;
- small state machines:
  - the command palette and its wrap-around active index;
  - the testimonial carousel;
  - the typing effects and chat logs of the demos;
  - the vibe-coding playground;
  - the hero image selector;
  - the route table, the Ctrl/Cmd+K shortcut and the scroll flag of the shell.

One Dafny module models one source file. `Text` holds the JavaScript string
operations these files share:

- `indexOf`/`includes`;
- ASCII `toLowerCase`;
- the lazy `.*?` scan up to a closing delimiter;
- number formatting;
- the truncating `%`.

`Types` holds the record shapes the pages consume.

Timers (`setTimeout`, `setInterval`) become explicit steps. A pending timer
is a queued value, and `Reply`, `Complete` or `Tick` is the moment it fires.
React state updates become methods of a class whose fields are the
component's state. Rendered JSX becomes lists of segments (`Plain`,
`Highlight(colour)`, `Strong`) or rows. Strings are sequences of characters.

## Model

| member | source | states |
|---|---|---|
| VideoModal.FileMatchFrom | components/VideoModal.tsx:16 | `url.match(/file\/d\/([^/]+)/)` from a position: a match found is a `file/d/` followed by a non-`/` character at or after it; the captured id is non-empty, `/`-free and maximal (ends at a `/` or the end) |
| VideoModal.FileMatchLeftmost | components/VideoModal.tsx:16 | the match found is the leftmost one: no `file/d/` match starts before it, and when none is found no match exists at all |
| VideoModal.YouTubeId | components/VideoModal.tsx:26-35 | the id cut from a `watch?v=` link holds no `&`; the one cut from a `youtu.be/` link holds no `?`; without either host the id is empty; the id is always a substring of the URL |
| VideoModal.EmbedUrl | components/VideoModal.tsx:11-42 | the result is empty exactly when the URL is; otherwise it is the URL unchanged, a Drive preview URL (only for a URL mentioning `drive.google.com`) or a `https://www.youtube.com/embed/` URL |
| VideoModal.DriveEmbedRoundTrip | components/VideoModal.tsx:15-21 | a Drive preview URL built from a file id still mentions `drive.google.com` and its leftmost `file/d/` match captures the same id |
| VideoModal.LeftmostFileMatch | components/VideoModal.tsx:16 | when no `f` precedes position `at` and `file/d/<id>/` occurs there, the regular expression captures exactly `<id>` at `at` |
| VideoModal.YouTubeEmbedShape | components/VideoModal.tsx:24-39 | a built YouTube embed URL contains `/embed/`; it mentions `drive.google.com` or matches `file/d/` only through its id |
| VideoModal.EmbedUrlIdempotent | components/VideoModal.tsx:11-42 | rewriting an already rewritten URL changes nothing, for every input |
| VideoModal.WithAutoplay | components/VideoModal.tsx:47-52 | a URL without `youtube.com/embed` is unchanged; a YouTube embed gets 11 more characters, its old text as prefix, then `&` if it already holds a `?` and `?` otherwise |
| ProjectPage.ResultVideoSource | pages/ProjectPage.tsx:29-60 | the project page's copy of the rewrite, used by the result iframe, is empty exactly when its input is, and yields the input, a Drive preview URL or a YouTube embed URL |
| ProjectPage.ModalExtendsResultVideo | pages/ProjectPage.tsx:449 | the modal shows the same URL as the project page, with at most `?autoplay=1` or `&autoplay=1` added, and adds nothing to a non-YouTube URL |
| ProjectPage.KeywordAtFrom | pages/ProjectPage.tsx:21-27 | the first listed keyword, from index `k`, matching at a position with ASCII case ignored; none earlier in the list matches there, and a none result means none matches |
| ProjectPage.HitAt | pages/ProjectPage.tsx:64-68 | a match of the combined regular expression at a position spans a non-empty slice that spells the matched keyword or `**x**` |
| ProjectPage.TokensJoin | pages/ProjectPage.tsx:68-74 | the gaps and matches of the split scan concatenate back to the scanned text |
| ProjectPage.ColorOf | pages/ProjectPage.tsx:76-83 | the colour is primary, secondary or accent exactly when the counter is 0, 1 or 2 modulo 3 |
| ProjectPage.IsKeywordIff | pages/ProjectPage.tsx:81 | a part is a keyword exactly when its lower-cased text equals some keyword's lower-cased text |
| ProjectPage.StripMarks | pages/ProjectPage.tsx:90 | `slice(2, -2)`: for a part of length 4 or more, the part is its first two characters, the result, then its last two; shorter parts give the empty string |
| ProjectPage.KeywordCount | pages/ProjectPage.tsx:84 | the number of keyword parts never exceeds the number of parts |
| ProjectPage.Render | pages/ProjectPage.tsx:79-94 | `parts.map(…)` yields exactly one segment per part |
| ProjectPage.CountStep | pages/ProjectPage.tsx:82-84 | passing one more part advances the keyword count by one exactly when that part is a keyword |
| ProjectPage.CountBetween | pages/ProjectPage.tsx:82-84 | past a keyword part and any run of non-keyword parts after it, the keyword count is exactly one higher |
| ProjectPage.CountNone | pages/ProjectPage.tsx:77-84 | with no keyword part before position `j`, the counter there is still zero |
| ProjectPage.NextKeywordColour | pages/ProjectPage.tsx:82-85 | keyword colours cycle in order: the next keyword part after one drawn with counter `c` is drawn with counter `c + 1` |
| ProjectPage.FirstKeywordColour | pages/ProjectPage.tsx:76-85 | the first keyword part is drawn in the first colour of the cycle |
| ProjectPage.RenderPart | pages/ProjectPage.tsx:79-93 | the callback: a keyword part is highlighted in the colour of the current counter, which then advances by one; otherwise the counter is unchanged and a part starting and ending with `**` is bold with the marks stripped, any other part plain |
| ProjectPage.RenderParts | pages/ProjectPage.tsx:76-94 | the loop with the mutable `keywordCounter` yields exactly `Render(kws, parts)`: part `i` coloured by the number of keyword parts before it |
| ProjectPage.RenderRichText | pages/ProjectPage.tsx:62-95 | empty text renders nothing; otherwise one segment per part of the corrected split, whose parts spell the text exactly, each a keyword highlighted in its cycling colour, a bold run or plain text |
| ProjectPage.KeywordsValid | pages/ProjectPage.tsx:21-27 | every keyword is non-empty and does not start with `*`, so each match makes progress and none competes with a bold run |
| ProjectPage.PartsNoBold | pages/ProjectPage.tsx:74 | with no bold run in the text, the parts concatenate back to the text |
| ProjectPage.PrefixKeyword | pages/ProjectPage.tsx:64-68 | a keyword preceded in the list by one of its prefixes can never be the alternative that matches |
| ProjectPage.MultimodalAiShadowed | pages/ProjectPage.tsx:21-27 | `multimodal AI` never matches: `multimodal` is listed first |
| ProjectPage.MultimodalModelShadowed | pages/ProjectPage.tsx:21-27 | `multimodal model` never matches: `multimodal` is listed first |
| ProjectPage.FlashAudioShadowed | pages/ProjectPage.tsx:21-27 | `gemini-2.5-flash-native-audio-preview-09-2025` never matches: `gemini-2.5-flash` is listed first |
| ProjectPage.FlashImageShadowed | pages/ProjectPage.tsx:21-27 | `gemini-2.5-flash-image` never matches: `gemini-2.5-flash` is listed first |
| ProjectPage.ShadowedKeyword | pages/ProjectPage.tsx:64-68 | a keyword whose lower-cased prefix is an earlier keyword is never the first match |
| ProjectPage.BoldTokens | pages/ProjectPage.tsx:65-68 | on `**x**` with a star-free single-line `x`, the scan finds one bold match and two empty gaps |
| ProjectPage.BoldShape | pages/ProjectPage.tsx:81-90 | `**x**` is not a keyword, starts and ends with `**`, and loses exactly its marks to `slice(2, -2)` |
| ProjectPage.BoldRunRepeated | pages/ProjectPage.tsx:65-93 | as written: `**x**` renders as bold `x` followed by a second, plain `x`, because the inner capture group is also a split piece |
| ProjectPage.IntendedPiecesJoin | pages/ProjectPage.tsx:74 | without the inner capture, the split pieces concatenate back to the scanned text |
| ProjectPage.IntendedParts | pages/ProjectPage.tsx:65-74 | corrected split: the non-empty parts concatenate back to the text exactly, so no text is shown twice |
| ProjectPage.BoldRunOnce | pages/ProjectPage.tsx:65-93 | with the corrected split, `**x**` renders as a single bold `x` |
| ProjectPage.LayoutFor | pages/ProjectPage.tsx:266-276 | `sso`, `ask-smart` and `miscellaneous-tutor` select their own layouts, each exactly for its id; every other id gets the default layout |
| TagThemes.Strip | pages/ProjectPage.tsx:118 | `replace(/[\s-]/g, '')`: no whitespace or `-` remains, and every kept character comes from the input |
| TagThemes.Normalize | pages/ProjectPage.tsx:118 | a normalised tag holds no whitespace, no `-` and no upper-case ASCII letter |
| TagThemes.NormalizeIdempotent | pages/HomePage.tsx:26 | normalising twice is normalising once |
| TagThemes.AnyKeyword | pages/ProjectPage.tsx:122 | `some(kw => lowerTag.includes(kw))`: true exactly when some keyword occurs in the tag |
| TagThemes.AnyKeywordAppend | pages/ProjectPage.tsx:117-151 | matching a concatenated list is matching either part |
| TagThemes.FirstRule | pages/ProjectPage.tsx:120-150 | the first theme whose list matches; no earlier theme matches, and a none result means no theme matches |
| TagThemes.Classify | pages/ProjectPage.tsx:117-151 | a non-slate theme belongs to the first rule that matches the normalised tag; slate means no rule matches |
| TagThemes.ClassifyNormalized | pages/HomePage.tsx:25-26 | classifying a normalised tag gives the same theme as the raw tag |
| TagThemes.ClassifyIsChain | pages/ProjectPage.tsx:117-151 | the rule-list classifier equals the source's chain of five `if (some(...)) return` checks with a slate default |
| TagThemes.HomePageTheme | pages/HomePage.tsx:25-60 | the home page's `getTagColorClass` is the five-step chain over its own keyword lists |
| TagThemes.ProjectPageTheme | pages/ProjectPage.tsx:117-151 | the project page's `getTagColorClass` is the same chain, with `client-sideai` added to the pedagogy list and `deepseekapi`, `vanillajs` to the tech list |
| TagThemes.NoneMatch | pages/ProjectPage.tsx:122 | a tag lacking a character of each keyword matches none of them |
| TagThemeComparison.ClientSideAiNeverMatches | pages/ProjectPage.tsx:118-121 | `client-sideai` never matches, because a normalised tag holds no `-` |
| TagThemeComparison.DeepSeekIsApi | pages/ProjectPage.tsx:133 | a normalised tag holding `deepseekapi` holds `api`, which is on both tech lists |
| TagThemeComparison.CopiesAgreeElsewhere | pages/HomePage.tsx:25-60 | for every tag not containing `vanillajs` once normalised, the two copies give the same theme |
| TagThemeComparison.VanillaJsHomePage | pages/HomePage.tsx:25-60 | "Vanilla JS" is slate on the home page |
| TagThemeComparison.VanillaJsProjectPage | pages/ProjectPage.tsx:133 | "Vanilla JS" is cyan on the project page |
| HomePage.VisibleTags | pages/HomePage.tsx:131-133 | no tags render no list; the featured card shows every tag; other cards show the first `min(n, 5)` tags in order |
| HomePage.Badges | pages/HomePage.tsx:133-136 | one badge per visible tag, in order, coloured by the home page's classifier |
| HomePage.ProjectRoute | pages/HomePage.tsx:376-393 | a card's route is `/project` followed by decimal digits; `CardRoutesDistinct` and `App.ProjectRoutesRender` say which |
| HomePage.FirstRoute | pages/HomePage.tsx:376 | the featured card links to `/project1` |
| HomePage.OtherCard | pages/HomePage.tsx:390-393 | the project at `index` of the others links to `/project{index + 2}` and is not featured |
| HomePage.Cards | pages/HomePage.tsx:375-393 | one card per project: the first featured with route `/project1`, project `i` routed to `/project{i + 1}` |
| HomePage.CardRoutesDistinct | pages/HomePage.tsx:376-393 | no two cards share a route |
| JournalPage.EntriesOfCount | pages/JournalPage.tsx:8-15 | an author's list holds every entry of that author as often as the journal does, and nothing else |
| JournalPage.GroupByAuthor | pages/JournalPage.tsx:8-15 | the `reduce`/`push` loop keys exactly the authors present, each with its entries in journal order |
| JournalPage.NoEntriesOf | pages/JournalPage.tsx:8-15 | an author with no entry has an empty list |
| JournalPage.MemberEntries | pages/JournalPage.tsx:170 | `entriesByAuthor[name] \|\| []`: the group when present, the empty list otherwise |
| JournalPage.DistinctInitials | pages/JournalPage.tsx:19 | the three colour names differ in their first letter, so the tags of different colours differ |
| JournalPage.Open | pages/JournalPage.tsx:19 | an opening tag starts `[k` and carries its colour's initial as fifth character |
| JournalPage.Close | pages/JournalPage.tsx:19 | a closing tag starts `[/` and carries its colour's initial as sixth character |
| JournalPage.TagEnd | pages/JournalPage.tsx:19 | a match of one colour's alternative starts with that colour's opening tag and ends within the text |
| JournalPage.PartsJoin | pages/JournalPage.tsx:19-21 | the parts kept after `filter(Boolean)` are non-empty and concatenate back to the text |
| JournalPage.RemoveAll | pages/JournalPage.tsx:23 | removing the tags never lengthens the text |
| JournalPage.RenderContent | pages/JournalPage.tsx:17-32 | one segment per non-empty part, each rendered by its leading tag |
| JournalPage.NoTagsPlain | pages/JournalPage.tsx:19-31 | text without `[` renders as one plain segment, or as nothing when empty |
| JournalPage.TaggedHighlight | pages/JournalPage.tsx:19-30 | `[kw-c]x[/kw-c]` with tag-free `x` renders as one highlight of `x` in colour `c` |
| JournalPage.TaggedText | pages/JournalPage.tsx:23 | removing both tags from `[kw-c]x[/kw-c]` gives back `x` |
| JournalPage.TaggedMatch | pages/JournalPage.tsx:19 | the pattern matches `[kw-c]x[/kw-c]` with tag-free `x` at its start, up to its end |
| JournalPage.RenderOpened | pages/JournalPage.tsx:22-30 | a part starting with the opening tag of `c` is highlighted in `c`, with the tags of `c` removed, whichever colour is tried first |
| JournalPage.MismatchedNoMatch | pages/JournalPage.tsx:19 | `[kw-c]x[/kw-d]` with `c != d` matches no alternative anywhere |
| JournalPage.MismatchedNoMatchAtStart | pages/JournalPage.tsx:19 | at the start of `[kw-c]x[/kw-d]`, the lazy run finds no closing tag of `c`, and no other opening tag is there |
| JournalPage.MismatchedNoMatchInside | pages/JournalPage.tsx:19 | past the start of `[kw-c]x[/kw-d]`, no alternative matches |
| JournalPage.MismatchedParts | pages/JournalPage.tsx:19-21 | a mismatched pair stays one part |
| JournalPage.MismatchedHighlight | pages/JournalPage.tsx:22-30 | that part is still highlighted in colour `c`, showing `x` followed by the foreign closing tag |
| JournalPage.FirstTagWins | pages/JournalPage.tsx:19 | at a position starting with one colour's tag, the combined expression takes that colour's alternative |
| JournalPage.RemoveTagsOnlyClose | pages/JournalPage.tsx:23 | `/\[\/?kw-c\]/g` also removes a lone closing tag |
| JournalPage.ReplaceFirst | pages/JournalPage.tsx:173 | `replace('Station ', '')` changes nothing when the pattern is absent, and introduces only characters of the text or the replacement |
| JournalPage.ReplaceFirstPrefix | pages/JournalPage.tsx:173 | replacing a leading `Station ` by nothing leaves the rest |
| JournalPage.DigitRun | pages/JournalPage.tsx:173 | the length of the longest leading run of decimal digits |
| JournalPage.ParseInt | pages/JournalPage.tsx:173 | `parseInt` gives NaN (none) on text with no digit at all |
| JournalPage.ParseIntNat | pages/JournalPage.tsx:173 | parsing a number's decimal form gives back the number |
| JournalPage.StationOfNumber | pages/JournalPage.tsx:173 | `Station n` has station number `n` |
| JournalPage.StationNumber | pages/JournalPage.tsx:173 | `getStationNumber`: a date with no digit has station number 0 (`\|\| 0`); `StationOfNumber` gives `Station n` the number `n` |
| JournalPage.StationTenAfterNine | pages/JournalPage.tsx:172-176 | `Station 10` precedes `Station 9` as a string, but its station number is larger |
| JournalPage.StationTenFirst | pages/JournalPage.tsx:176 | by `localeCompare` taken as code-point order, `Station 10` sorts before `Station 9` |
| JournalPage.LexLessTransitive | pages/JournalPage.tsx:176 | string order is transitive |
| JournalPage.LexLessTotal | pages/JournalPage.tsx:176 | any two different strings are ordered one way or the other |
| JournalPage.LexLessIrreflexive | pages/JournalPage.tsx:176 | no string precedes itself |
| JournalPage.LexLessPrefix | pages/JournalPage.tsx:176 | a common prefix does not change the order of two strings |
| JournalPage.OrderFor | pages/JournalPage.tsx:171-176 | only `EL AKKAD SAMI` is sorted by station number; every other member by date |
| JournalPage.ComparatorsConsistent | pages/JournalPage.tsx:174-176 | both comparators are strict weak orders, so a stable sort is well defined |
| JournalPage.StableSortPermutes | pages/JournalPage.tsx:174-176 | sorting keeps exactly the same entries (a permutation) |
| JournalPage.StableSortSorted | pages/JournalPage.tsx:174-176 | the sorted entries are in comparator order |
| JournalPage.StableSortStable | pages/JournalPage.tsx:174-176 | entries the comparator ties keep their relative order |
| JournalPage.StableSortIdempotent | pages/JournalPage.tsx:174-176 | sorting a second time changes nothing |
| JournalPage.SortedUnchanged | pages/JournalPage.tsx:174-176 | an already sorted list is left as it is |
| JournalPage.StationsInNumberOrder | pages/JournalPage.tsx:171-174 | SAMI's `Station 10` sorts after `Station 9` |
| JournalPage.InsertInPlace | pages/JournalPage.tsx:174-176 | one insertion step on the array: the prefix becomes the specified insertion, the rest is untouched |
| JournalPage.SortInPlace | pages/JournalPage.tsx:174-176 | the in-place array sort leaves the array equal to the stable sort of its old contents |
| JournalPage.SortMemberEntries | pages/JournalPage.tsx:171-177 | a member's array is sorted in place with the comparator that member's name selects |
| JournalPage.SortedEntries | pages/JournalPage.tsx:170-177 | a member's displayed entries are the stable sort of the member's group |
| JournalPage.TimelineCardOf | pages/JournalPage.tsx:50-53 | a card shows the entry's date and title and one rendered paragraph per content paragraph |
| JournalPage.Timeline | pages/JournalPage.tsx:40-62 | one stop per entry, and a connector after every stop except the last |
| JournalPage.ConnectorCount | pages/JournalPage.tsx:58 | a timeline of `n > 0` entries has `n - 1` connectors, an empty one none |
| JournalPage.AuthorSection | pages/JournalPage.tsx:124-150 | SAMI's entries are shown as a horizontal timeline, everyone else's as a column of cards |
| JournalPage.RenderPage | pages/JournalPage.tsx:169-179 | one section per team member, in team order |
| JournalPage.SectionOf | pages/JournalPage.tsx:170-178 | one member's section: the entries grouped under the member's name (none when absent), sorted as the member's branch demands, is exactly that member's section of all entries |
| CommandPalette.Filter | components/CommandPalette.tsx:31-33 | the kept links come from the list, each matches the term ignoring case, and every matching link is kept |
| CommandPalette.FilterAppend | components/CommandPalette.tsx:31-33 | filtering preserves order: filtering a concatenation concatenates the filtered parts |
| CommandPalette.EmptyTermKeepsAll | components/CommandPalette.tsx:31-33 | the empty term keeps every link |
| CommandPalette.AllTenWithoutTerm | components/CommandPalette.tsx:12-23 | with no term, all 10 links are listed |
| CommandPalette.Down | components/CommandPalette.tsx:48 | with links and a numeric index the new index is in range; with no links the `% 0` gives NaN, which stays NaN |
| CommandPalette.Up | components/CommandPalette.tsx:51 | the same for `(prev - 1 + n) % n` |
| CommandPalette.UpUndoesDown | components/CommandPalette.tsx:48-51 | ArrowDown then ArrowUp, or the reverse, restores the index |
| CommandPalette.DownTimesAt | components/CommandPalette.tsx:48 | `k` ArrowDowns move index `i` to `(i + k) mod n` |
| CommandPalette.FullCycle | components/CommandPalette.tsx:48 | `n` ArrowDowns come back to the start |
| CommandPalette.Palette.constructor | components/CommandPalette.tsx:26-27 | closed, empty search, index 0, nothing visited |
| CommandPalette.Palette.SetIsOpen | components/CommandPalette.tsx:25 | the parent's setter changes the open flag only |
| CommandPalette.Palette.ChangeSearch | components/CommandPalette.tsx:41-43 | the term is stored, and a changed term resets the index to 0 |
| CommandPalette.Palette.KeyDown | components/CommandPalette.tsx:45-60 | arrows move the index by `Down`/`Up`; Enter on an existing entry navigates to its path and closes; Escape closes; the search term is kept |
| CommandPalette.Palette.Close | components/CommandPalette.tsx:62-65 | closes and clears the term, which resets the index when it was not already empty |
| CommandPalette.Palette.ClickLink | components/CommandPalette.tsx:105 | clicking link `i` navigates to its path, then closes and clears the term |
| TestimonialCarousel.CountryFlag | components/TestimonialCarousel.tsx:6-14 | the four known countries get their regional-indicator flag, every other country the globe |
| TestimonialCarousel.Step | components/TestimonialCarousel.tsx:42-44 | `(page + d + n) % n` stays in range, moves forward with wrap-around for `d = 1` and backward for `d = -1` |
| TestimonialCarousel.StepBackUndoesStep | components/TestimonialCarousel.tsx:42-44 | paginating forward then back, or back then forward, returns to the page |
| TestimonialCarousel.AdvanceIsRemainder | components/TestimonialCarousel.tsx:46-51 | `k` auto-advance ticks move page `p` to `(p + k) mod n` |
| TestimonialCarousel.FullRound | components/TestimonialCarousel.tsx:46-51 | `n` ticks come back to the same page |
| TestimonialCarousel.SwipeOutcome | components/TestimonialCarousel.tsx:33-80 | a swipe advances only with negative velocity, goes back only with positive velocity, and never moves with zero offset or velocity |
| TestimonialCarousel.ShortSlowSwipeStays | components/TestimonialCarousel.tsx:33-80 | a swipe whose offset and velocity are both at most 100 in size stays on the page |
| TestimonialCarousel.Carousel.constructor | components/TestimonialCarousel.tsx:40 | page 0, direction 0 |
| TestimonialCarousel.Carousel.Current | components/TestimonialCarousel.tsx:53-54 | the shown testimonial is one of the list |
| TestimonialCarousel.Carousel.Paginate | components/TestimonialCarousel.tsx:42-44 | the page becomes `Step(page, n, d)` and the direction `d` |
| TestimonialCarousel.Carousel.Tick | components/TestimonialCarousel.tsx:46-51 | a tick is `paginate(1)` |
| TestimonialCarousel.Carousel.ClickDot | components/TestimonialCarousel.tsx:97 | dot `i` shows page `i`, direction 1 when `i` is after the page and -1 otherwise, including the current dot |
| TestimonialCarousel.Carousel.DragEnd | components/TestimonialCarousel.tsx:73-80 | a drag paginates forward or back by its swipe outcome and otherwise changes nothing |
| GlobalEngagementMap.FirstSeenIff | components/GlobalEngagementMap.tsx:13-24 | a country has a group exactly when it is known and some testimonial is from it |
| GlobalEngagementMap.FirstSeenDistinct | components/GlobalEngagementMap.tsx:13-24 | each country is listed once |
| GlobalEngagementMap.GroupByCountry | components/GlobalEngagementMap.tsx:13-24 | the `forEach`/`push` loop keys the known countries seen, in first-seen order, each with its non-empty group in input order |
| GlobalEngagementMap.GroupSizesSum | components/GlobalEngagementMap.tsx:15-22 | the group sizes add up to the number of testimonials from known countries |
| GlobalEngagementMap.MaxCount | components/GlobalEngagementMap.tsx:34 | `Math.max(0, ...sizes)`: no size exceeds it, and it is a size or 0 when there are none |
| GlobalEngagementMap.MarkerSizeGrows | components/GlobalEngagementMap.tsx:69 | marker size is at least 16 and strictly grows with the count |
| GlobalEngagementMap.Markers | components/GlobalEngagementMap.tsx:66-91 | one marker per group in key order, with its count, size `16 + (count - 1) * 4`, highlight iff `count == maxCount && maxCount > 1`, label iff `count > 1` |
| GlobalEngagementMap.HighlightRules | components/GlobalEngagementMap.tsx:70-91 | a group of one is never highlighted nor labelled; when some group has two or more, some marker is highlighted; no marker is larger than a highlighted one |
| GlobalEngagementMap.GlobeView.ActiveTestimonials | components/GlobalEngagementMap.tsx:33 | no active country, or one without a group, means no active testimonials; an active country with a group gives exactly that group |
| GlobalEngagementMap.GlobeView.Enter | components/GlobalEngagementMap.tsx:81 | hovering a marker makes its country active |
| GlobalEngagementMap.GlobeView.Leave | components/GlobalEngagementMap.tsx:82 | leaving it clears the active country |
| InteractiveDemo.Typewriter.SetText | components/InteractiveDemo.tsx:7-14 | new text resets the display; the effect runs only for non-empty text |
| InteractiveDemo.Typewriter.Tick | components/InteractiveDemo.tsx:15-22 | the corrected callback (see Findings): while running, a tick appends `text[i]` read before `i++`; at the end it stops; the display stays a prefix of the text |
| InteractiveDemo.Typewriter.Ticks | components/InteractiveDemo.tsx:15-22 | with the corrected callback, after `k` ticks the display is the first `min(i + k, \|text\|)` characters of the text |
| InteractiveDemo.TypeOut | components/InteractiveDemo.tsx:7-22 | with the corrected callback, setting a text and ticking `\|text\|` times shows the whole text, as the hook is evidently meant to |
| InteractiveDemo.QueuedTypewriter.SetText | components/InteractiveDemo.tsx:7-14 | the effect as written: the display is emptied, the counter reset, and the interval runs only for non-empty text |
| InteractiveDemo.QueuedTypewriter.Tick | components/InteractiveDemo.tsx:15-22 | the callback as written: while characters remain, `text.charAt(i)` is appended with `i` read before `i++` if React runs the updater at dispatch and after it otherwise (`""` past the end); at the end it stops |
| InteractiveDemo.TypeOutAsWritten | components/InteractiveDemo.tsx:7-22 | as written, with only the first updater possibly run at dispatch, `\|text\|` ticks show `text[0] + text[2..]` or `text[1..]`: a text of two or more characters loses one and is never shown whole |
| InteractiveDemo.HelloAsWritten | components/InteractiveDemo.tsx:15-22 | as written, "Hello" is shown as "Hllo" |
| InteractiveDemo.SplitOn | components/InteractiveDemo.tsx:77 | `split('\n')` gives at least one piece, none with a newline, and joins back to the text |
| InteractiveDemo.StripStars | components/InteractiveDemo.tsx:77 | `replace(/\*\*/g, '')`: no `**` remains, only stars are removed, text without `*` is unchanged |
| InteractiveDemo.OutputLines | components/InteractiveDemo.tsx:77 | one displayed line per newline-separated piece, with its `**` removed |
| InteractiveDemo.StripStarsKeepsLetters | components/InteractiveDemo.tsx:77 | every character other than `*` survives the removal |
| InteractiveDemo.Portal.SetRawOutput | components/InteractiveDemo.tsx:38-40 | a changed output restarts the typing effect; an unchanged one leaves it as it is |
| InteractiveDemo.Portal.Generate | components/InteractiveDemo.tsx:42-62 | blank input or a pending generation does nothing; otherwise loading starts, the output is cleared and a timer is queued |
| InteractiveDemo.Portal.Reply | components/InteractiveDemo.tsx:46-50 | the timer stores the result and ends loading |
| InteractiveDemo.Portal.Shown | components/InteractiveDemo.tsx:74-77 | output shows only when something is typed and nothing loads, as its cleaned lines |
| InteractiveDemo.TopicOf | components/InteractiveDemo.tsx:147-175 | `photosynthesis` anywhere, ignoring case, wins; then `quiz`; else the general reply |
| InteractiveDemo.TopicIgnoresCase | components/InteractiveDemo.tsx:147 | lower-casing the input does not change the topic |
| InteractiveDemo.PhotosynthesisFirst | components/InteractiveDemo.tsx:149 | any input containing `photosynthesis` in any case gets the lesson, even if it mentions a quiz |
| InteractiveDemo.FillLast | components/InteractiveDemo.tsx:177-182 | only the last message changes: its question is kept, its reply set by topic, HTML only for the lesson |
| InteractiveDemo.Tutor.Send | components/InteractiveDemo.tsx:137-144 | blank input does nothing; otherwise exactly one unanswered message is appended, the input cleared, loading set and the question queued; sending is allowed while loading |
| InteractiveDemo.Tutor.Reply | components/InteractiveDemo.tsx:144-184 | the oldest timer answers its own question into whatever message is last now |
| InteractiveDemo.QuickSecondQuestion | components/InteractiveDemo.tsx:137-185 | two questions sent before the first reply: the first question is never answered and the second ends with its own reply |
| InteractiveDemo.AskSmart.constructor | components/InteractiveDemo.tsx:235-237 | starts with the sample conversation and no analysis |
| InteractiveDemo.AskSmart.Analyze | components/InteractiveDemo.tsx:239-262 | blank input or a pending analysis does nothing; otherwise loading starts and the old analysis is cleared |
| InteractiveDemo.AskSmart.Complete | components/InteractiveDemo.tsx:243-250 | the timer stores the canned analysis and ends loading |
| InteractiveDemo.AskSmart.Shown | components/InteractiveDemo.tsx:266-288 | skeleton while loading, the analysis when there is one, nothing otherwise |
| InteractiveDemo.DemoFor | components/InteractiveDemo.tsx:298-309 | each project id has a demo exactly when the project page gives it a dedicated layout, and the demo is that layout's |
| VibeCodingPlayground.SnippetText | components/VibeCodingPlayground.tsx:24-65 | every generated snippet is non-empty |
| VibeCodingPlayground.SnippetFor | components/VibeCodingPlayground.tsx:24-62 | ignoring case: `button` gives the button, else `card` the card, else `login` or `form` the form, else the fallback comment; each case exactly |
| VibeCodingPlayground.CodeForVibe | components/VibeCodingPlayground.tsx:24-65 | `getCodeForVibe`: the button snippet whenever `button` occurs in any case; the fallback comment exactly when none of `button`, `card`, `login`, `form` occurs |
| VibeCodingPlayground.CodeIgnoresCase | components/VibeCodingPlayground.tsx:25 | the code depends on the lower-cased vibe only |
| VibeCodingPlayground.ButtonWins | components/VibeCodingPlayground.tsx:26 | a vibe mentioning a button gets the button snippet, whatever else it says |
| VibeCodingPlayground.CardBeforeForm | components/VibeCodingPlayground.tsx:31 | a card request without a button gets the card, even when it mentions a form |
| VibeCodingPlayground.Typewriter.SetText | components/VibeCodingPlayground.tsx:6-9 | empty text keeps the previous display and starts nothing; other text resets the display and starts typing |
| VibeCodingPlayground.Typewriter.Tick | components/VibeCodingPlayground.tsx:10-17 | the corrected callback (see Findings): while running a tick appends the character at the counter read before `i++`, so the display stays a prefix of the text; at the end it stops |
| VibeCodingPlayground.Playground.SetCode | components/VibeCodingPlayground.tsx:69-71 | a changed non-empty code restarts typing; the empty code leaves the display |
| VibeCodingPlayground.Playground.Generate | components/VibeCodingPlayground.tsx:73-98 | refused only for the exact empty vibe or while loading (whitespace is accepted); otherwise loading starts, the code is cleared and the vibe queued |
| VibeCodingPlayground.Playground.Reply | components/VibeCodingPlayground.tsx:77-80 | the timer stores the code for its vibe and ends loading |
| FunctionalityMatrix.NextTick | components/FunctionalityMatrix.tsx:107 | the first backtick at or after a position, or none |
| FunctionalityMatrix.ScanSource | components/FunctionalityMatrix.tsx:107 | the scanned pieces spell the scanned text back |
| FunctionalityMatrix.ScanTicks | components/FunctionalityMatrix.tsx:107 | every backtick the scan leaves in a text piece opens no run: the next character is a backtick, or no backtick follows |
| FunctionalityMatrix.TicksRunPieces | components/FunctionalityMatrix.tsx:107 | a text, a replaced run and pieces whose backticks open no run keep that property together |
| FunctionalityMatrix.Pieces | components/FunctionalityMatrix.tsx:107 | the pieces spell the text, every code run is non-empty and backtick-free, no text piece holds a pair the regex would match, and every backtick left in a text piece opens no run at its place in the text, so runs pair left to right |
| FunctionalityMatrix.Rewrite | components/FunctionalityMatrix.tsx:107 | the `replace` call: a text with no backtick comes back unchanged; `RunBecomesCode` gives a run's replacement |
| FunctionalityMatrix.UnpairedKept | components/FunctionalityMatrix.tsx:107 | a lone backtick is left as it is |
| FunctionalityMatrix.EmptyPairKept | components/FunctionalityMatrix.tsx:107 | an empty pair of backticks is left as it is |
| FunctionalityMatrix.RunBecomesCode | components/FunctionalityMatrix.tsx:107 | `` a`x`b `` with backtick-free parts becomes `a<code …>x</code>b` |
| FunctionalityMatrix.HtmlAppend | components/FunctionalityMatrix.tsx:107 | the rewrite of concatenated pieces is the concatenated rewrites |
| FunctionalityMatrix.PortalSection.MouseEnter | components/FunctionalityMatrix.tsx:75 | the goal tooltip is shown after the mouse enters |
| FunctionalityMatrix.PortalSection.MouseLeave | components/FunctionalityMatrix.tsx:76 | it is hidden after the mouse leaves |
| CodeDirectory.RowOf | components/CodeDirectory.tsx:71-84 | a row shows its own item at its own depth, indented `24 * level + 8` pixels, with the folder icon iff it is a folder and a badge iff its count is truthy |
| CodeDirectory.Rows | components/CodeDirectory.tsx:64-94 | `DirectoryTree`: every row is drawn as its item and depth say |
| CodeDirectory.RowCount | components/CodeDirectory.tsx:64-94 | one row per tree node |
| CodeDirectory.RowLevels | components/CodeDirectory.tsx:64-94 | every row's level lies between the starting level and the starting level plus the tree's depth minus one, and that deepest level is reached |
| CodeDirectory.RowsPreorder | components/CodeDirectory.tsx:67-89 | the first row is at the starting level, no row is shallower, and each row is at most one level deeper than the one before |
| CodeDirectory.RowsTopLevel | components/CodeDirectory.tsx:67 | the rows at the starting level show exactly the given items, in order |
| CodeDirectory.RowsParent | components/CodeDirectory.tsx:89 | every deeper row shows a child of the item of a row one level up before it, with no shallower row between them |
| CodeDirectory.RowsAppend | components/CodeDirectory.tsx:67 | rows of consecutive items are the rows of each, in order |
| CodeDirectory.StructureShape | components/CodeDirectory.tsx:15-48 | the site's tree has 11 nodes and depth 4 |
| CodeDirectory.StructureRows | components/CodeDirectory.tsx:15-48 | the site's tree renders 11 rows, with deepest level 3 |
| HeroImageSelector.CategoriesComplete | components/HeroImageSelector.tsx:13 | the tab list names each of the five categories once |
| HeroImageSelector.Filter | components/HeroImageSelector.tsx:18 | exactly the images of the active category |
| HeroImageSelector.FilterAppend | components/HeroImageSelector.tsx:18 | filtering keeps the original order |
| HeroImageSelector.TabsPartition | components/HeroImageSelector.tsx:13-18 | the five tabs together show every image exactly once |
| HeroImageSelector.SelectThenCloseAppend | components/HeroImageSelector.tsx:20-23 | call logs made of select-then-close steps stay well formed when extended |
| HeroImageSelector.Selector.constructor | components/HeroImageSelector.tsx:16 | the active category starts as `Countries`, with no calls made |
| HeroImageSelector.Selector.Visible | components/HeroImageSelector.tsx:18-25 | nothing when closed; otherwise exactly the active category's images |
| HeroImageSelector.Selector.ChooseCategory | components/HeroImageSelector.tsx:58 | a tab sets the active category |
| HeroImageSelector.Selector.ClickImage | components/HeroImageSelector.tsx:20-23 | clicking image `i` calls `onSelect` with its URL, then `onClose` |
| HeroImageSelector.Selector.Dismiss | components/HeroImageSelector.tsx:36-48 | the backdrop or the close button calls `onClose` only |
| App.TrimSlashes | App.tsx:246-257 | the path with its trailing slashes removed: a prefix, not ending in `/`, with only slashes cut |
| App.Lookup | App.tsx:246-257 | the page of the first route that matches, ignoring case and trailing slashes; none exactly when no route matches, since there is no catch-all |
| App.TrailingSlashIgnored | App.tsx:246-257 | adding a trailing slash to a path does not change what it matches |
| App.CaseIgnored | App.tsx:246-257 | lower-casing a path does not change what it matches |
| App.RouteKey | App.tsx:246-257 | each route is matched by its own path, the root by the empty key |
| App.RouteKeysDistinct | App.tsx:246-257 | no two routes share a key, so no path matches two routes |
| App.NavigateByKey | App.tsx:246-257 | a path with a route's key renders that route's page |
| App.NavigateRoute | App.tsx:246-257 | every route's own path renders its page |
| App.TeamAnyCase | App.tsx:248 | `/Team` and `/team/` render the team page |
| App.RoutePathsDistinct | App.tsx:246-257 | 10 routes with distinct paths |
| App.ProjectRoutesRender | App.tsx:250-252 | `/project1`, `/project2` and `/project3` render the first three projects |
| App.FourthProjectUnrouted | App.tsx:246-257 | a fourth project, if added, would link to an unrouted `/project4` |
| App.PaletteLinksRouted | App.tsx:246-257 | every command palette link has a route |
| App.PaletteOpenAfterKey | App.tsx:221-227 | the palette flips exactly on `k` with Meta or Ctrl |
| App.ShortcutTwice | App.tsx:221-227 | pressing the shortcut twice restores the palette |
| App.Shell.OnKeyDown | App.tsx:221-227 | the shortcut flips the palette's open flag and changes nothing else |
| App.Shell.OnScroll | App.tsx:198 | `isScrolled` holds exactly when `scrollY > 10` |

## Left out

- Mouse-driven card tilt, framer-motion animation, the constellation background, the
  globe rotation and all other purely visual effects, such as float
  arithmetic on DOM rectangles or CSS strings.
- Real time: `setTimeout` and `setInterval` delays are not durations here.
  Each pending timer is queued, and a `Reply`, `Complete` or `Tick` step fires
  the oldest one. Cancellation by effect clean-up is modelled only where it
  changes what is shown, namely the typing effect restarting on new text.
- I/O and foreign calls: navigation is recorded as a path, `onSelect` and
  `onClose` as a call log; iframes, the clipboard, focus and scrolling are
  not modelled.
- Static content (data.ts, the non-core pages and components) except the
  constants the modelled logic reads.
- Text.Lower: only ASCII letters are lower-cased; JavaScript's full Unicode
  case mapping is not modelled.
- Strings are sequences of Unicode characters, not UTF-16 code units, so
  lengths of texts holding astral characters (emoji) differ from
  JavaScript's.
- JournalPage.LexLess: `localeCompare` is modelled as code-point order, not
  a locale collation.
- ProjectPage.RenderRichText: the non-string input branch of the guard
  (`typeof text !== 'string'`) is not modelled, since Dafny's types rule it
  out.
- ProjectPage.HitAt: `.` in the bold pattern does not match line
  terminators, as in JavaScript, but regular-expression backtracking in
  general is replaced by the dedicated scanner.
- JournalPage.GroupByAuthor: the grouping object is module-level and sorted
  in place on every render. The model sorts a copy of each group, so it does
  not capture the sorted order carrying over between renders. That is
  harmless because sorting is idempotent (`JournalPage.StableSortIdempotent`).
- GlobalEngagementMap.Known: object keys inherited from `Object.prototype`
  (such as `constructor`) are not modelled; only the four listed countries
  count as known. The same holds for TestimonialCarousel.CountryFlag, whose
  `flags[country] || '🌐'` would find such a key too.
- GlobalEngagementMap.Markers: `Object.entries` order is taken as
  first-insertion order, which holds for the country names (none is an
  integer-like key).
- InteractiveDemo.FillLast: the source mutates the last message object in
  place before copying the array. The model replaces it by value, so aliasing
  of message objects is not captured.
- TestimonialCarousel.Carousel.constructor: requires a non-empty list. With
  no testimonials the source would index `testimonials[0]` and fail to
  render.
- TestimonialCarousel.SwipeOutcome: offsets and velocities are real numbers,
  not IEEE doubles.
- CodeDirectory.RowOf: a `count` of 0 renders a stray `0` text node in
  React (`0 && …`); the model shows no badge and does not model that text. No
  item of the site's tree has a zero count.
- App.Shell.OnScroll: `scrollY` is a real number, not an IEEE double.
- InteractiveDemo.QueuedTypewriter.Tick: whether React runs a queued updater
  at dispatch depends on its internal bookkeeping of pending updates and on
  the kind of root, which the entry point (not part of this model) creates.
  The model makes it a parameter of each tick. `TypeOutAsWritten` takes the
  case of a concurrent root, where at most the first updater runs at
  dispatch.
- App.Lookup: the hash router's percent-decoding of the path and any
  basename are not modelled. Case folding is ASCII-only, which suffices
  because every route path is ASCII.

## Findings

| source | as written | input that shows it | evidently intended | confidence | as-written member | corrected member |
|---|---|---|---|---|---|---|
| pages/ProjectPage.tsx:65 | the bold pattern `\*\*(.*?)\*\*` has an inner capture group, so `split` also returns the bold text itself as a separate part, which is rendered as plain text right after the bold run | a paragraph `**x**` (any star-free, single-line `x` that is not a keyword) | the bold text appears once, in bold; the parts spell the paragraph exactly (`ProjectPage.IntendedParts`, used by `ProjectPage.RenderRichText`) | not executed | ProjectPage.BoldRunRepeated | ProjectPage.BoldRunOnce |
| components/InteractiveDemo.tsx:17-18 | the interval callback queues `prev => prev + text.charAt(i)` and then runs `i++`; React runs a queued updater at the next render, so it reads the counter after the increment | the text "Hello" under a concurrent root: the first updater runs at dispatch and appends `H`, the later ones append `charAt(2)` to `charAt(5) == ""`, showing "Hllo" | each tick appends the character at the counter before the increment, so the display grows into the whole text (`InteractiveDemo.TypeOut`) | not executed; depends on the root the entry point creates | InteractiveDemo.HelloAsWritten | InteractiveDemo.TypeOut |
| components/VibeCodingPlayground.tsx:12-13 | the same callback, character for character, so the same character is lost | any generated snippet, such as the button snippet, typed under a concurrent root | the display is a prefix of the text and grows by the next character (`VibeCodingPlayground.Typewriter.Tick`) | not executed; depends on the root the entry point creates | InteractiveDemo.TypeOutAsWritten | VibeCodingPlayground.Typewriter.Tick |


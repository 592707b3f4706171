# Blog browser core in Dafny

A model of the logic of a small client-side blog browser. It has three parts:

- **The blog store (`useBlogStore`).** One object holds the posts, the authors, a loading flag, an error message and the two filter criteria of the list view. Its actions are:
  - `fetchBlogs`: fetch the posts and enrich each one with one to three tags, a reading time and a creation date;
  - `fetchUsers`: fetch the users and attach each post's author;
  - the two setters, for the query and the tag.

  Its queries are `getFilteredBlogs` (a case-insensitive text search combined with a tag filter) and `getBlogById`.
- **The text helpers.** These are `calculateReadTime` (word count over reading speed, rounded up), `truncateText` and `generateSlug`. `generateSlug` is a pipeline of lower-casing, trimming and three regular-expression replacements.
- **The tag filter.** It shows an "All" badge followed by one badge per distinct tag, in sorted order, with the current choice drawn filled. Clicking a badge chooses that tag, or none for "All".

The modules follow the program:

| module | what |
|---|---|
| `BlogTypes` | the records: `Blog`, `User`, and `BlogWithAuthor` with its optional fields as `Option` |
| `BlogStore` | the enrichment helpers, the filter and lookup, and the store as a class `Store` whose methods update its fields |
| `BlogHelpers` | the text helpers |
| `TagFilter` | the tag list, the badges and the click |

Three support modules give JavaScript's behaviour explicitly:

- `JsMath`: the truncating `%` and `Math.ceil` of a quotient.
- `JsString`: the following built-ins.
  - `toLowerCase` on ASCII letters.
  - `trim` over the ECMAScript white-space set.
  - `includes`.
  - `split(' ')` and `split(/\s+/)` lengths.
  - The default string order of `sort`.
- `JsArray`: `find`, `filter`, `slice` with a negative end, `flatMap`, `new Set` order, and `sort`.

`Wrappers` holds `Option`.

Randomness, the network and the clock are inputs to the model:

- **The tag shuffle.** `[...allTags].sort(() => 0.5 - Math.random())` becomes an argument `shuffled`. The lemmas about it take any permutation of the vocabulary (`IsShuffle`).
- **A request.** Its outcome is a `Response`, one of three:
  - `Ok(value)`: an `ok` response with its decoded body;
  - `NotOk`: a response that is not `ok`;
  - `Threw(JsError(message) | NonError)`: the request or the decoding threw.
- **A creation date.** It is its distance from now, `DaysBeforeNow(days)`.

`fetchBlogs` sets its first state before it awaits anything. The model splits it into `StartFetchBlogs`, for that first `set`, and `FinishFetchBlogs`, for the state once the request has settled. `FetchBlogs` is the two in sequence. `LoadData` is `fetchBlogs` followed by `fetchUsers`. The list page does this on load (src/pages/BlogList.tsx:12-18). The detail page does it only while no post is loaded (src/pages/BlogDetails.tsx:16-24).

## Model

| member | source | states |
|---|---|---|
| BlogStore.GenerateTags | src/store/blogStore.ts:22-27 | the tags are a prefix of the shuffled vocabulary; for an id of zero or more there are `min(id % 3 + 1, |shuffled|)` of them |
| BlogStore.TagsOfPost | src/store/blogStore.ts:22-27 | for an id of zero or more and any shuffle of the eight-tag vocabulary: exactly `id % 3 + 1` tags (so one to three), pairwise distinct, all from the vocabulary |
| BlogStore.NoTagsForMinusOne | src/store/blogStore.ts:24-26 | with JavaScript's `%`, id -1 gives `numTags` 0 and no tag, for any order of the tags (an instance of `TagsOfNegativeId`) |
| BlogStore.TagsOfNegativeId | src/store/blogStore.ts:24-26 | for a negative id and any shuffle of the eight-tag vocabulary, JavaScript's `%` and `slice` give one tag when 3 divides the id, none when `-id % 3` is 1 (so `numTags` is 0), and seven when it is 2 (so `slice(0, -1)`) |
| BlogStore.PostReadTime | src/store/blogStore.ts:30-34 | the store's reading time is at least one; it is the smallest `m` with `m * 200 >= spaces + 1`, where `spaces + 1` is the length of `body.split(' ')` |
| BlogStore.DaysAgo | src/store/blogStore.ts:37-38 | `generateDate`'s day offset: `id % 30`, within 0..29 for an id of zero or more, and within -29..0 for a negative id |
| BlogStore.Enrich | src/store/blogStore.ts:60-65 | an enriched post keeps `userId`, `id`, `title` and `body`, has no author, and carries the generated tags, the reading time and the date |
| BlogStore.EnrichAll | src/store/blogStore.ts:60-65 | the enrichment `map` keeps the length and enriches `posts[i]` at position `i` |
| BlogStore.FetchedBlogsPrepared | src/store/blogStore.ts:22-34 | every fetched post with an id of zero or more keeps its fields, has no author, and has one to three distinct vocabulary tags, a reading time of at least one, and a day offset below 30 |
| BlogStore.AuthorOf | src/store/blogStore.ts:86 | `users.find`: no author exactly when no user has the post's `userId`; otherwise the author is the first user with that id |
| BlogStore.AttachAuthors | src/store/blogStore.ts:84-87 | the `map` keeps the length and sets `author` to the looked-up user at every position |
| BlogStore.AttachAuthorsSpec | src/store/blogStore.ts:84-87 | attaching authors changes no field but `author`; the author is absent exactly when no user matches, and otherwise is the first match; prepared posts stay prepared |
| BlogStore.MatchesSearch | src/store/blogStore.ts:107-109 | the search test: the query is empty, or its lower-cased form occurs in the lower-cased title or in the lower-cased body |
| BlogStore.MatchesTag | src/store/blogStore.ts:111-112 | the tag test: no tag is chosen (null or `""`), or the post has tags and they include the chosen one; a post without tags fails it |
| BlogStore.FilterBlogs | src/store/blogStore.ts:103-116 | a post is in the result exactly when it passes both the search and the tag test; the result is an order-keeping subsequence of the posts; each post occurs in the result as often as in the posts when it passes and not at all otherwise; with an empty query and no tag (null or `""`) the result is all the posts |
| BlogStore.SearchIgnoresCase | src/store/blogStore.ts:107-109 | the search test gives the same answer for a query and its lower-cased form |
| BlogStore.BlogById | src/store/blogStore.ts:118-121 | no post exactly when no post has the id; otherwise the first post with the id |
| BlogStore.FailureMessage | src/store/blogStore.ts:56-73 | the stored error: "Failed to fetch blogs" for a response that is not `ok`, the message of a thrown `Error`, and "An error occurred" for anything else thrown |
| BlogStore.FilterBySearchExample | src/__tests__/store/blogStore.test.ts:40-55 | the query "React" keeps only the React post of the test's two posts |
| BlogStore.FilterByTagExample | src/__tests__/store/blogStore.test.ts:57-71 | the tag "TypeScript" keeps only the TypeScript post |
| BlogStore.BlogByIdExample | src/__tests__/store/blogStore.test.ts:73-86 | id 1 finds the React post |
| BlogStore.Store.constructor | src/store/blogStore.ts:44-50 | the initial state: no posts, no users, not loading, no error, an empty query, no tag |
| BlogStore.Store.StartFetchBlogs | src/store/blogStore.ts:53 | loading is on, the error is cleared, and nothing else changes |
| BlogStore.Store.FinishFetchBlogs | src/store/blogStore.ts:54-73 | on success the posts become the enriched response; on failure the posts stay and the failure message is stored; loading is off; users and criteria are unchanged |
| BlogStore.Store.FetchBlogs | src/store/blogStore.ts:52-74 | after the call, loading is off. On success the posts are the enriched response and there is no error. On failure the posts stay and the error is the failure message. Users, query and tag never change |
| BlogStore.Store.FetchUsers | src/store/blogStore.ts:76-93 | on success the users are replaced and every post gets its looked-up author; on failure nothing changes; loading and error are never touched |
| BlogStore.Store.LoadData | src/pages/BlogList.tsx:12-18 | fetching posts and then users leaves prepared posts in the response's order: the post at each position keeps the `userId`, `id`, `title` and `body` of the response's post there. With both requests successful, each post's author is the first user with its `userId`. A failed post request stores its message and keeps the old posts. The whole new list of posts is given: the enriched response, or the old posts after a failed request, with authors attached again exactly when the user request succeeds. Users become the response's users after a successful user request and stay as they were otherwise |
| BlogStore.Store.SetSearchQuery | src/store/blogStore.ts:95-97 | only the query changes, to the given one |
| BlogStore.Store.SetSelectedTag | src/store/blogStore.ts:99-101 | only the chosen tag changes, to the given one |
| BlogStore.Store.FilteredBlogs | src/store/blogStore.ts:103-116 | on the store's own state: membership exactly by both tests, every passing post as often as in the posts, as an order-keeping subsequence, reading but not changing the state |
| BlogStore.Store.GetBlogById | src/store/blogStore.ts:118-121 | on the store's own state: the first post with the id, or none exactly when no post has it |
| BlogStore.InitialStateExample | src/__tests__/store/blogStore.test.ts:21-24 | a new store has no posts, an empty query and no tag |
| BlogStore.SettersExample | src/__tests__/store/blogStore.test.ts:26-38 | setting "React" and "TypeScript" stores them |
| BlogStore.FetchBlogsSucceedsExample | src/__tests__/store/blogStore.test.ts:88-106 | fetching one post "Test Blog" stores one post with that title, with loading off and no error |
| BlogStore.FetchBlogsFailsExample | src/__tests__/store/blogStore.test.ts:108-119 | a response that is not `ok` stores "Failed to fetch blogs", with loading off |
| BlogHelpers.CalculateReadTime | src/utils/blogHelpers.ts:11-14 | for a positive speed, the reading time is at least one minute |
| BlogHelpers.ReadTimeCountsWords | src/utils/blogHelpers.ts:11-14 | the reading time is the number of white-space-separated words over the speed, rounded up, with a text without words counted as one word |
| BlogHelpers.ReadTimeExamples | src/__tests__/utils/blogHelpers.test.ts:6-14 | 200 words take one minute and 250 words take two, at 200 words a minute |
| BlogHelpers.ReadTimeOfEmptyText | src/utils/blogHelpers.ts:12 | as written, the empty text takes one minute |
| BlogHelpers.ReadTimeByWords | src/__tests__/utils/blogHelpers.test.ts:16-18 | the corrected reading time is zero exactly when the text has no word, and otherwise agrees with `calculateReadTime` |
| BlogHelpers.ReadTimeByWordsOfEmptyText | src/__tests__/utils/blogHelpers.test.ts:16-18 | the corrected reading time of the empty text is zero |
| BlogHelpers.TruncateText | src/utils/blogHelpers.ts:37-40 | a text no longer than the limit comes back unchanged. A longer one ends in "..." after `slice(0, maxLength)` with its white space removed: only white space on either side of the kept part, and no white space at the kept part's own ends; and for a limit of zero or more it is at most three characters longer than the limit |
| BlogHelpers.TruncateLongExample | src/__tests__/utils/blogHelpers.test.ts:32-37 | 200 `a`s cut at 100 give at most 104 characters, ending in "..." |
| BlogHelpers.TruncateShortExample | src/__tests__/utils/blogHelpers.test.ts:39-42 | "Short text" comes back unchanged at the limit 100 and at the default limit 150 |
| BlogHelpers.RemoveUnkeptShape | src/utils/blogHelpers.ts:51 | every character left is a word character, white space or a dash taken from the input, and an input of such characters only is left unchanged |
| BlogHelpers.StripDashes | src/utils/blogHelpers.ts:53 | the result is the input with only dashes removed before and after it, and it neither starts nor ends with a dash |
| BlogHelpers.SlugShape | src/utils/blogHelpers.ts:47-54 | every slug has only `[a-z0-9-]`, no dash at either end and no two dashes in a row |
| BlogHelpers.RemoveUnkeptAppend | src/utils/blogHelpers.ts:51 | removing the characters that are neither word characters, white space nor dashes works character by character: on a concatenation it is the concatenation of the two removals |
| BlogHelpers.CollapseTwoWords | src/utils/blogHelpers.ts:52 | two separator-free words with a non-empty run of white space, `_` or `-` between them are joined by exactly one dash |
| BlogHelpers.CollapseShape | src/utils/blogHelpers.ts:52 | the collapse leaves no two dashes in a row, and every other character it leaves is a non-separator of its input |
| BlogHelpers.SlugOfSlug | src/utils/blogHelpers.ts:47-54 | a string of slug shape is its own slug |
| BlogHelpers.SlugIdempotent | src/utils/blogHelpers.ts:47-54 | generating a slug twice gives the same as once |
| BlogHelpers.SlugOfTwoWords | src/__tests__/utils/blogHelpers.test.ts:46-48 | "Hello World" gives "hello-world" |
| BlogHelpers.SlugDropsPunctuation | src/__tests__/utils/blogHelpers.test.ts:50-52 | "Hello, World!" gives "hello-world" |
| BlogHelpers.SlugCollapsesSpaces | src/__tests__/utils/blogHelpers.test.ts:54-56 | "Hello   World" gives "hello-world" |
| BlogHelpers.SlugTrimsSpaces | src/__tests__/utils/blogHelpers.test.ts:58-60 | "  Hello World  " gives "hello-world" |
| TagFilter.TagsOf | src/components/blog/TagFilter.tsx:9 | `blog.tags || []`: the post's tags, or none when it has no tag list |
| TagFilter.AllTags | src/components/blog/TagFilter.tsx:8-10 | a tag is listed exactly when some post carries it (posts without tags add nothing); no tag is listed twice; the list is sorted |
| TagFilter.AllTagsStrictlySorted | src/components/blog/TagFilter.tsx:10 | the listed tags are in strictly increasing string order |
| TagFilter.AllTagsEmpty | src/components/blog/TagFilter.tsx:8-12 | the list is empty exactly when no post carries a tag |
| TagFilter.Render | src/components/blog/TagFilter.tsx:12 | the filter renders nothing exactly when there is no tag |
| TagFilter.RenderedBadges | src/components/blog/TagFilter.tsx:14-34 | the "All" badge comes first and chooses null; it is followed by one badge per listed tag, in order, each choosing its tag. A badge is filled exactly when it chooses the current tag |
| TagFilter.BadgesChooseDistinct | src/components/blog/TagFilter.tsx:18-34 | no two badges choose the same thing |
| TagFilter.OneBadgeFilled | src/components/blog/TagFilter.tsx:19-28 | with no tag chosen, or a listed tag chosen, exactly one badge is filled: the one choosing it |
| TagFilter.UnknownTagFillsNothing | src/components/blog/TagFilter.tsx:19-28 | a chosen tag that is not listed fills no badge |
| TagFilter.ClickFillsBadge | src/components/blog/TagFilter.tsx:21-30 | after a click on a badge, that badge is drawn filled |
| TagFilter.ShownTagKeepsAPost | src/components/blog/TagFilter.tsx:8-10 | choosing a listed tag with an empty query leaves at least one post in `getFilteredBlogs` |
| TagFilter.Click | src/components/blog/TagFilter.tsx:21-30 | "All" sets the chosen tag to null, and a tag badge sets it to its tag; nothing else in the store changes |
| JsString.SplitLength | src/store/blogStore.ts:32 | `split(' ').length` is the number of spaces plus one |
| JsString.SplitOnWhiteSpaceLength | src/utils/blogHelpers.ts:12 | `split(/\s+/).length` is the number of maximal white-space runs plus one, so at least one |
| JsString.SplitOfTrimmed | src/utils/blogHelpers.ts:12 | on a trimmed string, `split(/\s+/).length` is the number of words, except that the empty string still gives one piece |
| JsString.Less | src/components/blog/TagFilter.tsx:10 | the default `sort` order: the first differing character decides, and a proper prefix comes first |
| JsString.LessIrreflexive | src/components/blog/TagFilter.tsx:10 | no string sorts before itself |
| JsString.LessTransitive | src/components/blog/TagFilter.tsx:10 | the order is transitive |
| JsString.LessTotal | src/components/blog/TagFilter.tsx:10 | of two different strings, one sorts before the other |
| JsString.Includes | src/store/blogStore.ts:108-109 | `includes` holds exactly when the needle occurs at some position of the haystack |
| JsString.TrimUnique | src/utils/blogHelpers.ts:12 | `trim` is determined: any split of a string into white space, a part that neither starts nor ends with white space, and white space has that part as its trim |
| JsString.WordCountOfTrim | src/utils/blogHelpers.ts:12 | trimming changes no word count |
| JsString.Trim | src/utils/blogHelpers.ts:39 | `trim` leaves a part of the string with only white space on either side of it, and the part neither starts nor ends with white space |
| JsString.ToLowerCase | src/utils/blogHelpers.ts:49 | `toLowerCase` keeps the length and lowers each character on its own (ASCII capitals only) |
| JsArray.Find | src/store/blogStore.ts:120 | `find` gives nothing exactly when no element passes, and otherwise the first passing element |
| JsArray.SliceTo | src/utils/blogHelpers.ts:39 | `slice(0, end)` is a prefix of length `min(end, length)` for `end` of zero or more, and `max(length + end, 0)` for a negative `end` |
| JsArray.FlatMap | src/components/blog/TagFilter.tsx:9 | `flatMap` holds exactly the elements of the lists it maps the input to |
| JsArray.Dedup | src/components/blog/TagFilter.tsx:9 | the `Set` holds each element of the input once, and nothing else |
| JsMath.Rem | src/store/blogStore.ts:24 | `%` agrees with Euclidean remainder on a dividend of zero or more, and for a negative dividend lies in `(-b, 0]` |
| JsMath.CeilDiv | src/utils/blogHelpers.ts:13 | `Math.ceil(a / b)` is the least `r` with `a <= r * b` |
| JsArray.Filter | src/store/blogStore.ts:106 | `filter` keeps exactly the passing elements, in order, each as often as in the input, and keeps everything when all pass |
| JsArray.Sort | src/components/blog/TagFilter.tsx:10 | `sort` gives a sorted permutation |

## Left out

- Network: `fetch`, `response.json()` and the API base URL are not modelled. Each request's outcome is the `Response` argument of its action.
- Concurrency: overlapping calls of `fetchBlogs` and `fetchUsers` and their last-write-wins races are not modelled. Between `StartFetchBlogs` and `FinishFetchBlogs`, nothing else happens to the store.
- Randomness: the `Math.random` comparator is replaced by the shuffle it produces, given as an argument. Which tags a post gets is therefore not determined.
- Clock: `new Date()`, `setDate` and `toISOString` in `generateDate` are not modelled. A date is its day offset (`DaysBeforeNow`).
- `formatDate` (src/utils/blogHelpers.ts:22-29) is not modelled: it is locale formatting by `Intl.DateTimeFormat`.
- Logging: the `console.error` of a failed `fetchUsers` is not modelled. Its state effect, that nothing changes, is.
- Rendering: the React markup, class names, routing, the other components and pages, and the test runner configuration are not modelled. The model keeps only what `TagFilter` shows (`Render`) and what a badge's click does (`Click`).
- JsString.ToLowerCase: lowers ASCII letters only. Full Unicode lowering can turn some characters into ASCII letters (`"İ"` becomes `"i̇"`, the Kelvin sign becomes `"k"`), and those then survive `generateSlug` and change the search. Every other non-ASCII capital is left as it is, so the model's search differs from the program's whenever one occurs. For example, `"Éclair"` matches the query `"é"` in the program but not in the model.
- JsString.Less: compares characters by their code; JavaScript's default `sort` compares UTF-16 code units. The two differ only for characters outside the Basic Multilingual Plane. Strings are `seq<char>`, not UTF-16.
- BlogHelpers.CalculateReadTime: the speed is a positive integer. A fractional or non-positive `wordsPerMinute`, which JavaScript accepts, is not modelled.
- BlogHelpers.TruncateText: the limit is an integer; a fractional `maxLength` is not modelled. `length` and `slice` count characters, where JavaScript counts UTF-16 code units. So a text with characters outside the Basic Multilingual Plane is cut at a different place: `truncateText("😀😀", 3)` cuts the text in the program (length 4) but returns it unchanged in the model (length 2).
- BlogStore.TagsOfPost: stated only for ids of zero or more, as the posts of the API have them. For negative ids, `GenerateTags` follows JavaScript's `%` and `slice` (see `TagsOfNegativeId`, which gives the count for every negative id).
- JsMath.Rem: for a negative dividend the contract promises only that the remainder lies in `(-b, 0]`, not its exact value `-((-a) % b)`. The tag count, which is where the store uses `%` on a negative id, is stated by `BlogStore.TagsOfNegativeId` for every negative id: one tag, none, or seven.
- BlogStore.DaysAgo: for a negative id the contract promises only an offset in `(-30, 0]`, the range `JsMath.Rem` gives.
- Numbers: post and user ids are integers, and equality uses `===` on them.

## Findings

| source | as written | input that shows it | evidently intended | confidence | as-written member | corrected member |
|---|---|---|---|---|---|---|
| src/utils/blogHelpers.ts:12 | `''.trim().split(/\s+/)` is `['']`, so a text without words counts as one word and takes one minute | `calculateReadTime('')` is 1, while src/__tests__/utils/blogHelpers.test.ts:16-18 expects 0 | a text without words takes zero minutes | not executed | BlogHelpers.ReadTimeOfEmptyText | BlogHelpers.ReadTimeByWords |

`CalculateReadTime` models the helper as written. `ReadTimeByWords` is the corrected definition, with the test's expectation proved. No other part of the model depends on either: the store uses its own `calculateReadTime`, which is `BlogStore.PostReadTime`.

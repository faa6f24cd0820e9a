# Soundboard crawler core, modelled in Dafny

This project models the crawl-and-store pipeline of the generic-soundboard
repository, together with its name-normalisation helpers, and proves what each
service promises.

- **Post store** (`DatabaseService`): a map from post id to record. It is
  initialized lazily from a JSON snapshot file. `upsertPost` reports whether the id
  was new, stamps the record and writes the whole map back.
- **Realm of Darkness crawl** (`crawlPosts`): initialize the store, fetch and
  parse the listing page, upsert every post in order, and count new posts, updated
  posts and failed upserts.
- **Listing parser** (`RealmOfDarknessParser`) and **generic page parser**
  (`ParserService`): map and filter document-ordered elements into records, with
  the `trim() || null` and `attr || null` defaults.
- **Name formatters**: the mobile-app generator's app, folder and package names,
  and the content tool's `sanitizeFilename`.

The modules follow the source files:
- `common.dfy` holds `Common`: null-or-value, and thrown errors as data.
- `text.dfy` holds `Text`: the JavaScript string primitives on ASCII.
- `parser_service.dfy` holds `ParserService`.
- `realm_parser.dfy` holds `RealmOfDarknessParser`.
- `database.dfy` holds `Database`.
- `crawler.dfy` holds `RealmOfDarknessCrawler`.
- `mobile_app.dfy` holds `MobileAppGenerator`.
- `naming.dfy` holds `Naming`.

Pure code is modelled as functions with lemmas. Code that changes state is a
class whose methods are proved equal to a function of the old state:
- `DatabaseService` has fields `posts`, `initialized` and `disk`.
- `RealmOfDarknessCrawler` has a `db` field.

The `.each` and `for` loops are `while` loops with invariants.

Inputs from outside the program become parameters:
- A page arrives as the elements and attributes the Cheerio selectors pick.
- The fetched listing is a `Result` of its articles.
- The clock reading of each upsert is a number.
- Whether each file-system call succeeds is a boolean (`Io`, `accepts`).
- The snapshot file is the store's `disk` field. It is an ordinary field, not a
  ghost one, because `init` reads it back.

Three behaviours of the code the model keeps:
- `upsertPost` replaces the record; it does not merge the previous one. Only
  `crawledAt` is carried over, and it becomes `undefined` when the old record has
  none.
- An article id without `"post-"` is kept as it is, not turned into null.
- Posts with a null id are not skipped. They are all stored under the key null.

## Model

| member | source | states |
|---|---|---|
| Text.ToLower | src/services/mobile-app.generator.js:305 | `toLowerCase` on ASCII: same length, each upper-case letter replaced by its lower-case letter (code point plus 32), every other character unchanged, no upper-case letter left, and `\w`, `\s` and `[a-z0-9]` membership kept (upper-case letters join `[a-z0-9]`) |
| Text.Drop | src/services/mobile-app.generator.js:306 | `replace(/[^\w\s]/g, '')`: no character of the class is left, the text never grows, and text without the class is unchanged; with `DropAppend` and `DropAll` this fixes the result on every input |
| Text.DropAppend | src/services/mobile-app.generator.js:306 | removing a class splits over concatenation |
| Text.DropAll | src/services/mobile-app.generator.js:306 | text made only of the class is removed entirely |
| Text.Strip | content-automation/src/utils/naming.js:4-6 | trimming a class from both ends: the result is an unbroken slice, everything cut off is in the class, the result neither starts nor ends with it, and it is empty exactly when all of the text is in it |
| Text.StripKeepsRest | content-automation/src/utils/naming.js:4 | removing a class containing the trimmed one gives the same text whether or not the text was trimmed first |
| Text.StripKeepsClasses | src/services/mobile-app.generator.js:293 | trimming keeps a character set and the absence of adjacent class members |
| Text.StripNothing | content-automation/src/utils/naming.js:6 | text that neither starts nor ends with the class is not changed by trimming |
| Text.DropEmpty | content-automation/src/utils/naming.js:5-6 | removing a class leaves nothing exactly when every character is in it |
| Text.ReplaceRunsThenDrop | content-automation/src/utils/naming.js:5 | a global run replacement by text of class k2, followed by removing k2, equals removing the class and then k2: the characters outside the class survive in order |
| Text.ReplaceRunsSeparates | src/services/mobile-app.generator.js:295 | replacing each `\s+` run by one space leaves no other white space and no two spaces side by side |
| Text.ReplaceRunsClass | src/services/mobile-app.generator.js:307 | run replacement by text of a set keeps the result inside that set |
| Text.ReplaceRunsByNothing | src/services/mobile-app.generator.js:318 | replacing runs by the empty string is removing the class |
| Text.ReplaceRunsFixesSingles | content-automation/src/utils/naming.js:5 | text whose class members are single copies of the replacement is unchanged |
| Text.Trim | content-automation/src/utils/naming.js:4 | the definition of `trim` as `Strip` of the white-space class, so `Strip`'s contract states it: an unbroken slice, only white space cut off, none left at either end, and empty exactly for all-white-space text |
| Text.ReplaceRuns | content-automation/src/utils/naming.js:5 | the definition of a global `replace(/k+/g, rep)`, never longer than the text when `rep` has at most one character. `ReplaceRunsPlainPrefix`, `ReplaceRunsRun` and `ReplaceRunsAppend` together fix it on every input: class-free text is kept, each maximal run becomes exactly one `rep`, and the text splits at any character outside the class |
| Text.ReplaceRunsPlainPrefix | content-automation/src/utils/naming.js:5 | a prefix with no character of the class is kept as it is, in front of the replaced rest |
| Text.ReplaceRunsRun | content-automation/src/utils/naming.js:5 | a whole maximal run at the front, followed by the end or a character outside the class, becomes exactly one copy of `rep` |
| Text.ReplaceRunsAppend | content-automation/src/utils/naming.js:5 | for all inputs: when the left part is empty or ends outside the class, replacing the runs of the concatenation is replacing those of each part |
| Text.ReplaceRunsJoin | content-automation/src/utils/naming.js:5 | a maximal run between two texts becomes exactly one `rep`, and the texts on either side are replaced on their own |
| Text.ReplaceRunsSplit | content-automation/src/utils/naming.js:5 | a class-free prefix, then a maximal run, then the rest: the prefix, one `rep`, and the replaced rest |
| Text.ToLowerAppend | src/services/mobile-app.generator.js:305 | lower-casing splits over concatenation |
| Text.IndexOf | src/services/realm-of-darkness.parser.js:22 | the first position where the pattern occurs, or none when it occurs nowhere |
| Text.ReplaceFirst | src/services/realm-of-darkness.parser.js:22 | `replace` with a string pattern: the text is unchanged when the pattern occurs nowhere; otherwise the prefix before the first occurrence is kept, the occurrence becomes the replacement, the rest is kept, and the length changes by the difference |
| Text.ReplaceFirstByNothing | src/services/realm-of-darkness.parser.js:22 | removing the first occurrence of a pattern leaves nothing exactly when the text is empty or is the pattern |
| Text.ReplaceFirstAtFront | src/services/realm-of-darkness.parser.js:22 | removing a pattern from a text that starts with it leaves the rest |
| Text.OrNull | src/services/parser.service.js:18 | the `attr`-or-null default is null exactly for an absent or empty attribute, otherwise the attribute |
| Text.TextOrNull | src/services/parser.service.js:17 | the `text`-or-null default is null exactly for empty text, otherwise the text |
| Text.TrimOrNull | src/services/realm-of-darkness.parser.js:54 | the trimmed-text-or-null default is null exactly for all-white-space text, otherwise the trimmed, non-empty text with no white space at either end |
| ParserService.LevelName | src/services/parser.service.js:40 | the level of a heading is "h1", "h2" or "h3" |
| ParserService.HeadingOf | src/services/parser.service.js:39-42 | the definition of one heading record, the element's name and trimmed text; `HeadingShape` states its shape |
| ParserService.KeepsLink | src/services/parser.service.js:56 | the definition of the filter: the href is present, non-empty and does not start with `#` |
| ParserService.LinkOf | src/services/parser.service.js:57-60 | the definition of the record pushed for a kept anchor, its trimmed text and its href; `LinkUrls` states the url's shape |
| ParserService.LinksOf | src/services/parser.service.js:53-63 | the definition of the filtered links in order; `LinksOfAppend`, `LinksOfLength`, `LinksOfSound` and `LinksOfComplete` state its properties |
| ParserService.ExtractHeadings | src/services/parser.service.js:36-45 | one heading per selected element, in document order, each the element's name and its trimmed text |
| ParserService.ExtractLinks | src/services/parser.service.js:52-64 | the links are exactly those of the anchors whose href is present, non-empty and does not start with `#`, in document order |
| ParserService.Parse | src/services/parser.service.js:11-24 | the title is the title text or null when that is empty (not trimmed); the description is the `content` attribute or null; headings and links as above |
| ParserService.LinksOfAppend | src/services/parser.service.js:54-62 | the link filter distributes over concatenation, so document order is kept |
| ParserService.LinksOfLength | src/services/parser.service.js:53-63 | there are never more links than anchors, and exactly as many when every anchor passes the filter |
| ParserService.LinksOfSound | src/services/parser.service.js:55-60 | every link comes from a kept anchor: its url is the href and its text the anchor's trimmed text |
| ParserService.LinksOfComplete | src/services/parser.service.js:56-60 | every kept anchor yields its link |
| ParserService.LinkUrls | src/services/parser.service.js:56 | every link's url is non-empty and does not start with `#` |
| ParserService.HeadingShape | src/services/parser.service.js:39-42 | a heading's level is an h1–h3 name and its text is trimmed, with no white space at either end |
| RealmOfDarknessParser.PostId | src/services/realm-of-darkness.parser.js:22 | the id is null exactly when the attribute is absent, empty or exactly "post-" |
| RealmOfDarknessParser.PostIdStripsPrefix | src/services/realm-of-darkness.parser.js:22 | "post-" followed by a non-empty rest gives the rest ("post-10" gives "10") |
| RealmOfDarknessParser.PostIdKeepsOtherIds | src/services/realm-of-darkness.parser.js:22 | a non-empty id that does not contain "post-" is kept unchanged |
| RealmOfDarknessParser.ExtractTitle | src/services/realm-of-darkness.parser.js:51-57 | the title text is the trimmed text or null when it is all white space; the url is the href or null when it is absent or empty |
| RealmOfDarknessParser.ExtractPostUrl | src/services/realm-of-darkness.parser.js:65-67 | the continue-reading href, or null when it is absent or empty |
| RealmOfDarknessParser.ExtractDate | src/services/realm-of-darkness.parser.js:75-77 | the trimmed date text, or null when it is all white space |
| RealmOfDarknessParser.NamedLinkOf | src/services/realm-of-darkness.parser.js:85-91 | the author (and each category) name is trimmed or null, and its url is the href or null |
| RealmOfDarknessParser.CategoriesOf | src/services/realm-of-darkness.parser.js:99-109 | one category record per anchor: the k-th is `NamedLinkOf` the k-th anchor |
| RealmOfDarknessParser.ExtractCategories | src/services/realm-of-darkness.parser.js:99-109 | the `.each` push loop builds exactly `CategoriesOf` the anchors, in document order |
| RealmOfDarknessParser.ExtractThumbnail | src/services/realm-of-darkness.parser.js:117-127 | null exactly when there is no thumbnail image; otherwise each of url, alt, width and height is the attribute or null |
| RealmOfDarknessParser.ExtractExcerpt | src/services/realm-of-darkness.parser.js:135-137 | the trimmed excerpt text, or null when it is all white space |
| RealmOfDarknessParser.PostOf | src/services/realm-of-darkness.parser.js:21-30 | the definition of one post record, each field the extract helper above it, whose own contracts state the field |
| RealmOfDarknessParser.ParseArticle | src/services/realm-of-darkness.parser.js:21-30 | the post record of one article, built from the extract helpers |
| RealmOfDarknessParser.Parse | src/services/realm-of-darkness.parser.js:12-38 | one post per article, in document order, and `totalPosts` is the number of posts |
| Database.AfterSave | src/services/database.service.js:44-53 | a save either writes the whole map as the snapshot, or fails and is rethrown, changing nothing |
| Database.AfterInit | src/services/database.service.js:15-39 | init succeeds exactly when the directory is created and the file is either readable or missing and its replacement is written. On success the store is initialized, the map is the file's contents (or is unchanged when the file was missing), and the snapshot equals the map. A failure changes nothing |
| Database.Prepared | src/services/database.service.js:62 | an initialized store is left as it is; otherwise init runs |
| Database.Field | src/services/database.service.js:70 | the definition of `?.crawledAt`: a field of an object record, and `undefined` for a missing field or a record that is not an object; `UpsertRecord` and `UpsertTwice` state what it carries over |
| Database.Falsy | src/services/database.service.js:94 | the definition of the falsy values that `getPost` turns into null: `undefined`, null, false, 0 and the empty string; `Lookup` states its use |
| Database.AfterUpsert | src/services/database.service.js:61-75 | the definition of `upsertPost`: init if needed, the membership test, the set with both stamps, then the save; its properties are stated by `UpsertReportsNew`, `UpsertKeys`, `UpsertRecord`, `UpsertPersists`, `UpsertThenGet`, `UpsertTwice` and `UpsertKeepsOrder` |
| Database.Stamped | src/services/database.service.js:65-71 | the stored record is the post's own fields with `updatedAt` now and `crawledAt` carried over from the previous record (now for a new id) |
| Database.Lookup | src/services/database.service.js:94 | `getPost`'s `get(id)`-or-null is null exactly when the id is absent or its record is falsy, otherwise the record |
| Database.UpsertReportsNew | src/services/database.service.js:61-75 | upsert succeeds exactly when initialization and the save succeed, and then reports true exactly when the id was absent |
| Database.UpsertKeys | src/services/database.service.js:62-71 | once initialization succeeds, the key set is the old one plus the id and every other record is unchanged, even if the save then fails; a failed initialization changes nothing |
| Database.UpsertRecord | src/services/database.service.js:64-71 | the stored record has `updatedAt` now and `crawledAt` from the previous record (now for a new id); every other field is the post's own, and nothing else of the previous record survives |
| Database.UpsertPersists | src/services/database.service.js:44-47 | after a successful upsert the snapshot file equals the map |
| Database.UpsertThenGet | src/services/database.service.js:61-95 | getPost right after a successful upsert returns the stored record |
| Database.UpsertTwice | src/services/database.service.js:64-70 | a second upsert of a new id reports it as known, keeps the first `crawledAt` and sets `updatedAt` to the second time |
| Database.InitOnMissingFile | src/services/database.service.js:25-33 | init of a fresh store without a file gives an empty, initialized map and an empty snapshot |
| Database.InitIdempotent | src/services/database.service.js:15-33 | a second init after a successful one changes nothing |
| Database.ReloadRestores | src/services/database.service.js:20-24 | a fresh store over the file left by a successful upsert loads the same map (the snapshot being lossless, see Left out) |
| Database.UpsertKeepsOrder | src/services/database.service.js:67-70 | with the single clock reading of `Database.Stamped` and a clock that does not go back, upserts keep `crawledAt` no later than `updatedAt` in every record |
| Database.StampedAsWritten | src/services/database.service.js:65-71 | the record as written: `updatedAt` and a new post's `crawledAt` come from two clock readings |
| Database.TwoReadingsBreakOrder | src/services/database.service.js:67-69 | with two readings that differ, a new post is stamped as crawled after its last update |
| Database.OneReadingKeepsOrder | src/services/database.service.js:67-70 | with one reading, a new post's stamps are equal and an old post's `crawledAt` is no later than the new `updatedAt` |
| Database.ValuesOf | src/services/database.service.js:103 | as many values as keys, every key's value among them and every value some key's; in fact the value of each key in turn, in an enumeration listing every key once |
| Database.DatabaseService.constructor | src/services/database.service.js:6-10 | an empty map, not initialized, over the file as it is |
| Database.DatabaseService.Save | src/services/database.service.js:44-53 | the new state and outcome are those of `AfterSave` |
| Database.DatabaseService.Init | src/services/database.service.js:15-39 | the new state and outcome are those of `AfterInit` |
| Database.DatabaseService.Prepare | src/services/database.service.js:62 | the new state and outcome are those of `Prepared` |
| Database.DatabaseService.UpsertPost | src/services/database.service.js:61-75 | the new state and result are those of `AfterUpsert` |
| Database.DatabaseService.HasPost | src/services/database.service.js:82-85 | initializes if needed, then answers whether the id is a key |
| Database.DatabaseService.GetPost | src/services/database.service.js:92-95 | initializes if needed, then answers `Lookup` |
| Database.DatabaseService.GetAllPosts | src/services/database.service.js:101-104 | initializes if needed, then returns one value per key, every key exactly once |
| RealmOfDarknessCrawler.Count | src/services/realm-of-darkness.crawler.js:40-51 | each upsert outcome increments exactly one of the three counters and leaves the other two: `true` the new counter, `false` the updated counter, a thrown error the error counter |
| RealmOfDarknessCrawler.PostObject | src/services/realm-of-darkness.crawler.js:40 | the definition of the post handed to `upsertPost`: an object of the parsed post's eight fields, a null field for each null value; `UpsertRecord` states how the store keeps it |
| RealmOfDarknessCrawler.Run | src/services/realm-of-darkness.crawler.js:38-52 | the definition of the loop: the posts are upserted in order and a failure does not stop it; its properties are stated by `RunStep`, `RunCounts`, `RunKeys`, `RunCountsNew` and `SameIdCountedOnce` |
| RealmOfDarknessCrawler.ParsedPosts | src/services/realm-of-darkness.crawler.js:28 | one parsed post per article |
| RealmOfDarknessCrawler.Crawl | src/services/realm-of-darkness.crawler.js:19-60 | the crawl fails exactly when init or the fetch fails. Otherwise `total` is the number of parsed posts and equals `new + updated + errors` |
| RealmOfDarknessCrawler.RealmOfDarknessCrawler.constructor | src/services/realm-of-darkness.crawler.js:7-12 | the crawler makes its own store: the `db` is fresh and is the empty, uninitialized store over the given file |
| RealmOfDarknessCrawler.RealmOfDarknessCrawler.CrawlPosts | src/services/realm-of-darkness.crawler.js:19-60 | the new store and the result are those of `Crawl` |
| RealmOfDarknessCrawler.RealmOfDarknessCrawler.UpsertAll | src/services/realm-of-darkness.crawler.js:31-52 | `total` is the number of posts; the store and the counters are those of the in-order loop `Run` |
| RealmOfDarknessCrawler.RealmOfDarknessCrawler.UpsertOne | src/services/realm-of-darkness.crawler.js:39-51 | one iteration: the upsert, then the counter its outcome names |
| RealmOfDarknessCrawler.RunStep | src/services/realm-of-darkness.crawler.js:38-52 | the loop over i + 1 posts is the loop over the first i followed by the upsert of post i |
| RealmOfDarknessCrawler.RunCounts | src/services/realm-of-darkness.crawler.js:38-52 | every post increments exactly one counter: `new + updated + errors` is the number of posts |
| RealmOfDarknessCrawler.RunKeys | src/services/realm-of-darkness.crawler.js:40 | in an initialized store the loop adds every post's id to the keys, null ids all under one key null, and leaves other records alone |
| RealmOfDarknessCrawler.RunCountsNew | src/services/realm-of-darkness.crawler.js:40-51 | `new` counts exactly the saved posts whose id was absent when processed, and `errors` exactly the failed saves; a failure does not stop later posts |
| RealmOfDarknessCrawler.SameIdCountedOnce | src/services/realm-of-darkness.crawler.js:38-46 | when every save succeeds, posts sharing one id unknown to the store are counted new once and never again, and none fails |
| RealmOfDarknessCrawler.FailedFirstSaveNeverNew | src/services/database.service.js:64-73 | the id is set before the save, so when the first of the posts sharing an unknown id fails to save, none of them is ever counted new |
| RealmOfDarknessCrawler.RepeatedIdCrawl | src/services/realm-of-darkness.crawler.js:31-52 | a crawl whose articles all share one new id, with every save succeeding, reports one new post and the rest as updated |
| MobileAppGenerator.AppNameStem | src/services/mobile-app.generator.js:293-295 | the text before the suffix has only word characters and plain spaces, no two white-space characters in a row, and the title's non-space word characters in order; `AppNameStemJoins` states where the spaces go |
| MobileAppGenerator.FormatAppName | src/services/mobile-app.generator.js:292-297 | the app name always ends with " Soundboard", and what precedes it is the stem above |
| MobileAppGenerator.AppNameCanDoubleSpace | src/services/mobile-app.generator.js:293-296 | as written, "w !" for a word w gives "w  Soundboard", with two spaces in a row |
| MobileAppGenerator.FormatAppNameTrimmed | src/services/mobile-app.generator.js:292-297 | trimming last: the name ends with " Soundboard", the stem has only word characters and spaces, the whole name has no two white-space characters in a row, and the word characters are kept; `FormatAppNameTrimmedJoins` states where the spaces go |
| MobileAppGenerator.Collapsed | src/services/mobile-app.generator.js:294-295 | punctuation removed and white-space runs collapsed: word characters and single spaces only |
| MobileAppGenerator.CollapsedJoins | src/services/mobile-app.generator.js:294-295 | for all texts: a white-space run between text ending and text starting with a word character becomes exactly one space, and each side is collapsed on its own |
| MobileAppGenerator.CollapsedFixesWords | src/services/mobile-app.generator.js:294-295 | words separated by single spaces are left as they are |
| MobileAppGenerator.AppNameStemJoins | src/services/mobile-app.generator.js:292-297 | two space-separated word texts joined by any white-space run stem to the two joined by one space, and the app name is that followed by " Soundboard" |
| MobileAppGenerator.FormatAppNameTrimmedJoins | src/services/mobile-app.generator.js:292-297 | the corrected name of two word texts joined by any white-space run is the two joined by one space, followed by " Soundboard" |
| MobileAppGenerator.FormatFolderName | src/services/mobile-app.generator.js:304-308 | only `[a-z0-9_]`, never longer than the title, and exactly the title's lower-cased letters and digits in order once underscores are removed; `FolderNameJoins` states where the underscores go |
| MobileAppGenerator.FolderNameJoins | src/services/mobile-app.generator.js:305-307 | for all texts: a white-space run between text ending and text starting with a word character becomes exactly one underscore, and each side is formatted on its own |
| MobileAppGenerator.FolderNameOfWords | src/services/mobile-app.generator.js:305-307 | two `[a-z0-9_]` words joined by any white-space run give the two joined by one underscore |
| MobileAppGenerator.FolderNameFixesFolderChars | src/services/mobile-app.generator.js:305-307 | a `[a-z0-9_]` text is its own folder name |
| MobileAppGenerator.FolderNameKeepsEdgeRuns | src/services/mobile-app.generator.js:305-307 | the title is not trimmed, so leading or trailing white space becomes a leading or trailing underscore |
| MobileAppGenerator.PackageSuffix | src/services/mobile-app.generator.js:316-318 | only `[a-z0-9_]`, and the title's lower-cased letters and digits in order once underscores are removed |
| MobileAppGenerator.FormatPackageName | src/services/mobile-app.generator.js:315-320 | "com.hayarsdev." followed by exactly `PackageSuffix` of the title, so only `[a-z0-9_]` and no white space; with `PackageSuffixFixesSanitised` an already sanitised word string is kept as the suffix |
| MobileAppGenerator.PackageSuffixFixesSanitised | src/services/mobile-app.generator.js:316-318 | a string of `[a-z0-9_]` is its own package suffix |
| MobileAppGenerator.PackageSuffixIdempotent | src/services/mobile-app.generator.js:316-318 | the package suffix of a package suffix is itself |
| MobileAppGenerator.FolderAndPackageAgree | src/services/mobile-app.generator.js:304-319 | the folder name and the package suffix keep the same letters and digits |
| Naming.Hyphenated | content-automation/src/utils/naming.js:2-5 | after lower-casing, trimming and one hyphen per `[^a-z0-9]+` run: only `[a-z0-9-]`, no double hyphen, never longer than the text, and the lower-cased letters and digits in order |
| Naming.Slug | content-automation/src/utils/naming.js:2-6 | the hyphen-stripped slug is well formed, keeps the letters and digits in order, and is empty exactly when the text has none; `SlugJoins` states where the hyphens go |
| Naming.SlugJoins | content-automation/src/utils/naming.js:2-6 | two slugs joined by any run of characters outside `[a-z0-9]` (with no upper-case letter) give the two joined by exactly one hyphen |
| Naming.SlugRunsFixed | content-automation/src/utils/naming.js:5 | hyphenating a well-formed slug changes nothing |
| Naming.SanitizeFilename | content-automation/src/utils/naming.js:1-8 | at most 50 characters, a prefix of the slug, only `[a-z0-9-]`, no leading hyphen, no double hyphen, and empty exactly when the lower-cased text has no letter or digit; `SanitizeJoins` states where the hyphens go |
| Naming.SanitizeJoins | content-automation/src/utils/naming.js:1-8 | two slugs joined by such a run, 50 characters or fewer together, give the file name with exactly one hyphen between them |
| Naming.SlugFixesSlugs | content-automation/src/utils/naming.js:2-6 | a well-formed slug is its own slug |
| Naming.SanitizeTwice | content-automation/src/utils/naming.js:6-7 | sanitising a file name again leaves it unchanged exactly when it is empty or does not end with a hyphen |
| Naming.SanitizeShort | content-automation/src/utils/naming.js:7 | text of at most 50 characters is not cut |
| Naming.SanitizeIdempotentWhenShort | content-automation/src/utils/naming.js:6-7 | a slug within the limit is the file name, and sanitising again changes nothing |
| Naming.TruncationCanEndWithHyphen | content-automation/src/utils/naming.js:6-7 | 49 letters or digits followed by " b" give a name ending in a hyphen, which a second sanitising changes |

## Left out

- Cheerio's selectors and HTML parsing are foreign code. A page or an article arrives as the elements and attributes the selectors pick, and a `load` failure in either `parse` is not modelled.
- `CrawlerService.fetchPage`, axios and the network are I/O. The fetched page is a parameter: its articles, or the fetch error.
- `crawlPostDetail` calls a `parseDetail` that no source file defines.
- File-system calls are not modelled beyond their outcomes. Directory creation, the read and each write either succeed or fail, as parameters; a failed write is taken to leave the old file intact. `dbPath` is not modelled.
- JSON round-tripping of the snapshot is taken as lossless. In particular the model does not capture that `Object.fromEntries` turns the null key into the string "null", or that `undefined` fields are dropped on reload.
- Database.ValuesOf: the order of `Array.from(map.values())` (the Map's insertion order) is not modelled; any enumeration of the keys is allowed.
- Database.Stamped: reads the clock once per upsert, where the source reads it twice (see Findings).
- AppNameStem: its own contract states the characters, the single spacing and the word characters kept. Where each white-space run's space goes is stated separately: `CollapsedJoins` for every text split at a white-space run, and `AppNameStemJoins` for word texts.
- FormatAppNameTrimmed: as for `AppNameStem`, where the spaces go is stated by `FormatAppNameTrimmedJoins` for two word texts joined by white space, not by the function's own contract.
- SanitizeFilename: its own contract states the characters, length and prefix relation. The hyphen between two slugs is stated by `SlugJoins` and `SanitizeJoins`. For text that is not two slugs joined by a separator, no lemma spells the slug out.
- Database.UpsertKeepsOrder: holds only for the single clock reading of `Stamped`. With the two readings of lines 67-69 of `database.service.js` a new post can be stamped as crawled after its update, as `TwoReadingsBreakOrder` shows.
- The clock is a parameter, and `toISOString` formatting is abstracted to the instant it denotes.
- JavaScript values are modelled without floating-point numbers, NaN or symbols. Spreading a non-object post is not modelled: a post is given by its own fields.
- Logging (`logger.info/error`) has no effect on the modelled state.
- Strings are restricted to ASCII. Unicode case mapping and Unicode white space in `toLowerCase`, `trim` and `\s` are out of reach.
- The rest of `MobileAppGenerator` (directory copy, file writes, configuration rewrites, `_getRandomColor`), `OpenAIService`, `ContentService`, both `index.js` entry points and `logger.js` are file, process, network and logging plumbing.
- `RealmOfDarknessParser.Parse`'s `options` and `ParserService.parse`'s `options` are unused by the source.

## Findings

| source | as written | input that shows it | evidently intended | confidence | as-written member | corrected member |
|---|---|---|---|---|---|---|
| src/services/mobile-app.generator.js:293-296 | trims first, then removes `[^\w\s]`, so a space before trailing punctuation reaches the suffix | title "Hello !" gives "Hello  Soundboard" | no white space left next to the suffix: a single space before "Soundboard" | medium, not executed | MobileAppGenerator.AppNameCanDoubleSpace | MobileAppGenerator.FormatAppNameTrimmed |
| src/services/database.service.js:67-69 | `updatedAt` and a new post's `crawledAt` read `new Date()` separately | the clock ticks from 0 to 1 between the two readings: `crawledAt` 1 is after `updatedAt` 0 | one reading for both, so that `crawledAt` is never after `updatedAt` | low (needs a millisecond tick between adjacent calls), not executed | Database.TwoReadingsBreakOrder | Database.OneReadingKeepsOrder |

# Blog-to-LinkedIn poster: a Dafny model of `share.py`

`share.py` checks a Medium RSS feed. When the newest entry's link differs from the link
stored in `last.txt`, it composes a promotional LinkedIn post and publishes it. It records
the link only after publishing succeeds. This project models the deterministic part of
that script, with its I/O taken out, and proves what it promises.

- **Topic detection** (`Category`). `detect_category` lower-cases the title. It then tries
  the rows of `CATEGORY_KEYWORDS` in order: AI, Programming, Web Dev, Career. The first
  row with a keyword that occurs as a raw substring wins, and `General` is the default.
  The model is a first-match search over the table (`FirstMatch`). It is proved to:
  - return only those five names;
  - return row `k` exactly when row `k` matches and no earlier row does;
  - fall through to `General` exactly when no keyword occurs;
  - give a title and its lower-cased form the same category.
- **Feed normalisation** (`Feed`). `get_latest` derives two fields.
  - The excerpt is the first line of the stripped summary, cut to 200 characters. It is
    proved to be a prefix of the stripped text, at most 200 characters, without a newline,
    and shorter than 200 only when the line ended.
  - The hashtags come from the first six tag terms: `#` plus each term stripped,
    title-cased and with its spaces removed. They are proved to keep the order of the
    terms, to start with `#` and to contain no space.
- **Post text** (`Compose`). The weekday, category and comment tables, and `compose_post`.
  - A post is four paragraphs separated by blank lines: the opening line, the excerpt with
    `...`, the link and the comment prompt.
  - A fifth paragraph, the space-joined hashtags, is appended once, and only when there
    are hashtags. That line splits back into exactly those hashtags.
  - The category lookup never falls back to the default.
  - Every weekday 0..6 gets an opener from the table, and no two weekdays share one.
  - The prompt index is the hash modulo 4, always in 0..3.
- **Run step** (`Runner`). A `Poster` object holds the contents of `last.txt`. Its `Run`
  method follows the main block, and the value-level `Step` function specifies it.
  - When the link equals the stored one, nothing is published and nothing changes.
  - A failed publish leaves the file unchanged, so the next run tries again.
  - Only a successful publish overwrites the file, and that write is the last action.
- **String builtins** (`Text`). The Python string operations these parts use: `in`,
  `strip()`, `lower()`, `title()`, `replace(" ", "")`, `split(sep)` and
  `sep.join(...)`. Each has a property it is proved against, for example:
  - `Contains` is equivalent to an occurrence at some position;
  - `Split` and `Join` are inverse to each other;
  - `title()` is described character by character and is idempotent.

The weekday of `datetime.now()` and the value of `hash(title)` are parameters. The
publisher's success or failure is a boolean parameter of the run.

`read_last` strips the file's contents, but `write_last` stores the link unchanged. A link
with no white space at either end is therefore posted once (`NoRepostAfterSuccess`). A
link with white space at its start or its end never matches what was stored, so it is
posted again on every run (`PaddedLinkIsReposted`). Between them the two lemmas cover
every link.

Other iterations of the poster in the repository add a Markov-chain intro generator, a
corpus that grows by one line per run, and a stop-word hashtag extractor. None of these
appears in `share.py`: it uses a fixed template and takes its hashtags from the feed's
category terms. The model follows this code.

## Model

| member | source | states |
|---|---|---|
| `Text.Strip` | share.py:28 | the result of `strip()` neither starts nor ends with white space (Python's `str.isspace` set) and is no longer than the input |
| `Text.StripIsTrim` | share.py:28 | `strip()` returns a slice of the input, and everything it removes around that slice is white space |
| `Text.StripIdempotent` | share.py:43 | stripping a stripped string changes nothing |
| `Text.TitleAt` | share.py:32 | `title()` upper-cases a letter at the start or after a non-letter, lower-cases every other letter, and keeps the rest, at every position |
| `Text.TitleIdempotent` | share.py:32 | title-casing twice is title-casing once |
| `Text.RemoveSpaces` | share.py:32 | `replace(" ", "")` leaves no space and never lengthens the string |
| `Text.RemoveSpacesKeepsOthers` | share.py:32 | every character other than a space is kept as many times as it occurs |
| `Text.RemoveSpacesOfSpaceless` | share.py:32 | a string without spaces is left as it is |
| `Text.ContainsIffOccurs` | share.py:61 | the `kw in t` test holds exactly when `kw` occurs in `t` at some position |
| `Text.Split` | share.py:28 | `split(sep)` yields at least one piece, no piece holds the separator, and the first piece is the prefix up to the first separator or the whole string |
| `Text.JoinSplit` | share.py:28 | joining the pieces of a split with the separator gives back the string |
| `Text.SplitJoin` | share.py:109 | splitting a join gives back the pieces when none holds the separator |
| `Text.Lower` | share.py:59 | the ASCII model of `lower()` keeps the length, turns each upper-case letter into its lower-case partner, keeps every other character and leaves no upper-case letter; `LowerIdempotent` shows lower-casing twice is lower-casing once |
| `Text.LowerIdempotent` | share.py:59 | lower-casing an already lower-cased string changes nothing |
| `Text.Title` | share.py:32 | the ASCII model of `title()` keeps the length; its character-by-character rule is stated in `TitleAt` |
| `Text.Contains` | share.py:61 | the `kw in t` substring test, defined by its body; its meaning is stated in `ContainsIffOccurs` |
| `Text.Join` | share.py:109 | `sep.join(xs)`, defined by its body; it is the inverse of `Split` by `JoinSplit` and `SplitJoin` |
| `Category.MatchesAny` | share.py:61 | `any(kw in t for kw in keywords)`, defined by its body: some keyword of the row is a substring of `t` |
| `Category.FirstMatch` | share.py:60-63 | the search returns `General` or the name of a row of the table |
| `Category.FirstMatchIsFirst` | share.py:60-62 | in a table with distinct names, the search returns row `k` exactly when row `k` matches and no earlier row does |
| `Category.FirstMatchGeneral` | share.py:60-63 | the search returns `General` exactly when no row matches |
| `Category.DetectCategory` | share.py:52-63 | the category is always one of AI, Programming, Web Dev, Career or General |
| `Category.DetectCategoryFirstMatch` | share.py:52-62 | first match wins in the order AI, Programming, Web Dev, Career, tested on the lower-cased title |
| `Category.DetectCategoryGeneral` | share.py:52-63 | `General` exactly when no keyword of any category occurs as a raw substring of the lower-cased title |
| `Category.DetectCategoryIgnoresCase` | share.py:59 | a title and its lower-cased form get the same category |
| `Category.DetectCategoryExampleAIWithPython` | share.py:53-54 | "AI with Python" matches both AI and Programming and is filed under AI |
| `Category.DetectCategoryExampleRawSubstring` | share.py:53-61 | "Java Training" is filed under AI, because "training" contains "ai" |
| `Feed.Excerpt` | share.py:28 | the excerpt is a prefix of the stripped text, at most 200 characters long and free of newlines, and it is shorter than 200 only where the text has a newline or ends |
| `Feed.ExcerptOfShortLine` | share.py:28 | a stripped one-line summary of at most 200 characters is kept whole |
| `Feed.Hashtag` | share.py:32 | a hashtag starts with `#` and contains no space |
| `Feed.Hashtags` | share.py:31-32 | one hashtag per term, in order, for the first six terms only; each starts with `#` and has no space |
| `Feed.HashtagExample` | share.py:32 | the term " machine learning " becomes "#" + "MachineLearning" |
| `Feed.GetLatest` | share.py:17-39 | title and link pass through; the excerpt is a prefix of the stripped summary, at most 200 characters and free of newlines, cut short only at a newline or the end; there is one hashtag per tag term, in order, for the first six terms, each made by `Hashtag` |
| `Compose.WeekdayIntro` | share.py:96 | the opener is a value of the weekday table or the default "Check out"; which one is stated in `WeekdayIntroFromTable` |
| `Compose.WeekdayIntroFromTable` | share.py:66-96 | weekdays 0..6 are exactly the keys of the weekday table, so each gets an opener from the table other than "Check out"; only other values get "Check out" |
| `Compose.WeekdayIntrosDistinct` | share.py:65-73 | no two weekdays 0..6 share an opener |
| `Compose.CategoryIntro` | share.py:98 | the category opener is always one of the values of `CATEGORY_INTROS` |
| `Compose.CategoryIntroNeverFallsBack` | share.py:98 | every detected category is a key of `CATEGORY_INTROS`, so the lookup never uses its default |
| `Compose.PromptIndex` | share.py:99 | the prompt index is in 0..3 and congruent to the hash modulo 4 (floored modulo, negative hashes included) |
| `Compose.CommentPrompt` | share.py:86-99 | the comment is one of the four prompts |
| `Compose.ComposePost` | share.py:94-111 | `compose_post`, defined by its template; its shape is stated in `ComposePostParagraphs` and `ComposePostTagBlock` |
| `Compose.ComposePostParagraphs` | share.py:101-111 | the post is its paragraphs separated by blank lines: opening line, excerpt with "...", link, prompt, and the hashtag line only when there are hashtags |
| `Compose.ComposePostTagBlock` | share.py:108-109 | with hashtags, the post is the post without them followed by a blank line and the tags joined by spaces |
| `Compose.HashtagLineRoundTrip` | share.py:32-109 | the hashtag line splits back on spaces into exactly the hashtags produced from the feed |
| `Runner.ReadLast` | share.py:41-45 | `read_last` returns the stripped file contents, which neither start nor end with white space |
| `Runner.Step` | share.py:141-156 | nothing is published exactly when the link equals the stored one; it is posted exactly when it is new and publishing succeeds; the file changes to the link only then |
| `Runner.StepPublishesComposedPost` | share.py:142-150 | the publisher is given the post composed from the entry's title, link, excerpt and hashtags |
| `Runner.RetryAfterFailure` | share.py:149-156 | a new link whose publish fails leaves the file unchanged, so the next run with the same entry calls the publisher again and posts if it succeeds |
| `Runner.NoRepostAfterSuccess` | share.py:144-156 | a new link that `strip()` leaves unchanged is posted, and the next run with that entry does nothing and changes nothing |
| `Runner.PaddedLinkIsReposted` | share.py:41-49 | a link that `strip()` changes (white space at either end) is never equal to what `read_last` returns: it is posted, stored as is, and is new again on the next run |
| `Runner.Poster.Run` | share.py:141-156 | the run changes the stored contents and reports its outcome exactly as `Step` says; a known link or a failed publish leaves the stored contents unchanged |

## Left out

- Feed fetching and parsing with `feedparser`, and the HTML-to-text and cover-image extraction with `BeautifulSoup` (share.py:18-19, 26-27, 35-37), are foreign library calls. An `Entry` carries the title, the link, the summary's plain text and the tag terms. An empty feed, on which `feed.entries[0]` raises, is not modelled.
- The LinkedIn request in `share_linkedin` (share.py:114-138) is network I/O. Publishing is a boolean outcome passed to the run, and any exception it raises counts as failure. The cover image is not modelled.
- Configuration from environment variables (share.py:10-12) is left out. The file I/O of `read_last`/`write_last` (share.py:41-49) is replaced by a `stored` field holding the file's contents, with a missing file read as "".
- `datetime.now().weekday()` and the per-process salted `hash(title)` (share.py:95, 99) are nondeterministic, so they are integer parameters.
- The `print` messages at share.py:145 and 153 are output only. `exit()` is a return from `Run`.
- Runner.Step: `publishOk` stands for the whole `try` body at share.py:150-151 completing, that is, the LinkedIn request and the success print. The model assumes standard output can encode the ✅ of that print. If it cannot, the print raises after the post went out, the `except` at share.py:152-154 runs (and its own print of ❌ may raise as well), and `write_last` at share.py:156 is never reached. The published link is then not recorded, and it is posted again on every later run. `Poster.Run` and `NoRepostAfterSuccess` describe only the case where the print succeeds.
- Text.Lower: covers ASCII letters only, because Python's Unicode case mapping is not modelled; other characters are kept.
- Category.DetectCategoryIgnoresCase: states only that a title and its lower-cased form get the same category. It says nothing about upper-cased titles: share.py never upper-cases, and under Python's full Unicode case mapping an upper-cased title can be filed differently (`"aı".upper()` is `"AI"`).
- Text.TitleAt: only ASCII letters count as cased, because Python's Unicode cased/title-case tables are not modelled.
- build_model.py is a call into `markovify` plus file reads and writes, with no algorithm of its own.
- The Markov sentence generator, its retry and fallback logic, the intro corpus and the stop-word hashtag extractor are not in `share.py`, so they are not part of this model.

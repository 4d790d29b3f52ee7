/** The post text: the weekday, category and comment tables and `compose_post` of share.py. */
module Compose {
  import opened Text
  import opened Category
  import Feed

  /** `WEEKDAY_INTROS`, keyed by `datetime.weekday()` (0 is Monday). */
  const WeekdayIntros: map<int, string> := map[
    0 := "Kickstart your week with",
    1 := "Take your Tuesday further with",
    2 := "Midweek read:",
    3 := "Almost Friday! Check out",
    4 := "Wrap your week with",
    5 := "Perfect weekend read:",
    6 := "Sunday insights:"
  ]

  /** The opener used for a weekday missing from `WEEKDAY_INTROS`. */
  const DefaultWeekdayIntro: string := "Check out"

  /** `CATEGORY_INTROS`. */
  const CategoryIntros: map<string, string> := map[
    "AI" := "Explore cutting-edge AI insights",
    "Programming" := "Sharpen your programming skills",
    "Web Dev" := "Dive into web development",
    "Career" := "Boost your career journey",
    "General" := "Check out this post"
  ]

  /** `COMMENT_PROMPTS`. */
  const CommentPrompts: seq<string> := [
    "What\U{2019}s your experience with this?",
    "Drop your thoughts below \U{1F447}",
    "Have questions? Ask away!",
    "How will you apply this?"
  ]

  /** `WEEKDAY_INTROS.get(wd, "Check out")`. */
  function WeekdayIntro(weekday: int): (r: string)
    ensures r in WeekdayIntros.Values || r == DefaultWeekdayIntro
  {
    if weekday in WeekdayIntros then WeekdayIntros[weekday] else DefaultWeekdayIntro
  }

  /** Every weekday `datetime.weekday()` can return has its own opener;
      only a value outside 0..6 would get the default. */
  lemma WeekdayIntroFromTable(weekday: int)
    ensures weekday in WeekdayIntros <==> 0 <= weekday <= 6
    ensures 0 <= weekday <= 6 ==> WeekdayIntro(weekday) in WeekdayIntros.Values &&
                                  WeekdayIntro(weekday) != DefaultWeekdayIntro
    ensures !(0 <= weekday <= 6) ==> WeekdayIntro(weekday) == DefaultWeekdayIntro
  {
  }

  /** No two weekdays share an opener: the seven openers already differ in
      their first letter. */
  lemma WeekdayIntrosDistinct(a: int, b: int)
    requires 0 <= a <= 6 && 0 <= b <= 6 && a != b
    ensures WeekdayIntro(a) != WeekdayIntro(b)
  {
    assert WeekdayIntro(a)[0] != WeekdayIntro(b)[0];
  }

  /** `CATEGORY_INTROS.get(cat, CATEGORY_INTROS["General"])`. */
  function CategoryIntro(category: string): (r: string)
    ensures r in CategoryIntros.Values
  {
    if category in CategoryIntros then CategoryIntros[category] else CategoryIntros[General]
  }

  /** Every category `detect_category` returns is a key of `CATEGORY_INTROS`,
      so the lookup of `compose_post` never falls back. */
  lemma CategoryIntroNeverFallsBack(title: string)
    ensures DetectCategory(title) in CategoryIntros
    ensures CategoryIntro(DetectCategory(title)) == CategoryIntros[DetectCategory(title)]
  {
  }

  /** `h % len(COMMENT_PROMPTS)` with Python's floored `%`: the index in
      0..3 congruent to the hash modulo 4. (Dafny's `%` agrees with Python's
      for a positive divisor, negative hashes included.) */
  function PromptIndex(titleHash: int): (i: nat)
    ensures i < |CommentPrompts|
    ensures (titleHash - i) % |CommentPrompts| == 0
  {
    titleHash % |CommentPrompts|
  }

  /** `COMMENT_PROMPTS[hash(title) % len(COMMENT_PROMPTS)]`. */
  function CommentPrompt(titleHash: int): (r: string)
    ensures r in CommentPrompts
  {
    CommentPrompts[PromptIndex(titleHash)]
  }

  /** `compose_post(title, url, excerpt, hashtags)`, with the weekday of
      `datetime.now()` and the value of `hash(title)` passed in. */
  function ComposePost(title: string, url: string, excerpt: string, hashtags: seq<string>,
                       weekday: int, titleHash: int): (r: string)
  {
    var weekIntro := WeekdayIntro(weekday);
    var catIntro := CategoryIntro(DetectCategory(title));
    var comment := CommentPrompt(titleHash);
    var text := weekIntro + " " + catIntro + " \"" + title + "\"? \U{1F680}\n\n" +
                excerpt + "...\n\n" +
                url + "\n\n" +
                comment;
    if hashtags != [] then text + "\n\n" + Join(" ", hashtags) else text
  }

  /** The opening line of a post: weekday opener, category opener taken
      straight from the table, and the quoted title. */
  function Opening(title: string, weekday: int): (r: string) {
    WeekdayIntro(weekday) + " " + CategoryIntros[DetectCategory(title)] + " \"" + title + "\"? \U{1F680}"
  }

  /** The paragraphs of a post, in order: the opening line, the excerpt with
      an ellipsis, the link, the comment prompt, and the hashtag line only
      when there are hashtags. */
  function Paragraphs(title: string, url: string, excerpt: string, hashtags: seq<string>,
                      weekday: int, titleHash: int): (r: seq<string>)
  {
    [Opening(title, weekday), excerpt + "...", url, CommentPrompts[PromptIndex(titleHash)]] +
    (if hashtags == [] then [] else [Join(" ", hashtags)])
  }

  /** A post is its paragraphs separated by blank lines: four of them without
      hashtags, five with, the hashtag line once and last. */
  lemma ComposePostParagraphs(title: string, url: string, excerpt: string, hashtags: seq<string>,
                              weekday: int, titleHash: int)
    ensures ComposePost(title, url, excerpt, hashtags, weekday, titleHash) ==
            Join("\n\n", Paragraphs(title, url, excerpt, hashtags, weekday, titleHash))
    ensures |Paragraphs(title, url, excerpt, hashtags, weekday, titleHash)| == if hashtags == [] then 4 else 5
  {
    var opening := Opening(title, weekday);
    var comment := CommentPrompt(titleHash);
    var text := ComposePost(title, url, excerpt, [], weekday, titleHash);
    ComposePostLines(title, url, excerpt, weekday, titleHash);
    JoinFour("\n\n", opening, excerpt + "...", url, comment);
    if hashtags == [] {
      assert Paragraphs(title, url, excerpt, hashtags, weekday, titleHash) ==
             [opening, excerpt + "...", url, comment];
    } else {
      assert Paragraphs(title, url, excerpt, hashtags, weekday, titleHash) ==
             [opening, excerpt + "...", url, comment, Join(" ", hashtags)];
      assert ComposePost(title, url, excerpt, hashtags, weekday, titleHash) == text + "\n\n" + Join(" ", hashtags);
      JoinFive("\n\n", opening, excerpt + "...", url, comment, Join(" ", hashtags));
    }
  }

  /** The post without hashtags, cut at its blank lines. */
  lemma ComposePostLines(title: string, url: string, excerpt: string, weekday: int, titleHash: int)
    ensures ComposePost(title, url, excerpt, [], weekday, titleHash) ==
            Opening(title, weekday) + "\n\n" + (excerpt + "...") + "\n\n" + url + "\n\n" + CommentPrompt(titleHash)
  {
    CategoryIntroNeverFallsBack(title);
    var head := WeekdayIntro(weekday) + " " + CategoryIntro(DetectCategory(title)) + " \"" + title;
    Regroup(head, excerpt, url, CommentPrompt(titleHash));
  }

  /** Moves the blank lines of the template's literals to the paragraph boundaries. */
  lemma Regroup(head: string, excerpt: string, url: string, comment: string)
    ensures head + "\"? \U{1F680}\n\n" + excerpt + "...\n\n" + url + "\n\n" + comment ==
            (head + "\"? \U{1F680}") + "\n\n" + (excerpt + "...") + "\n\n" + url + "\n\n" + comment
  {
    var nl := "\n\n";
    assert "\"? \U{1F680}\n\n" == "\"? \U{1F680}" + nl;
    assert "...\n\n" == "..." + nl;
    assert head + ("\"? \U{1F680}" + nl) == (head + "\"? \U{1F680}") + nl;
    assert (head + "\"? \U{1F680}") + nl + excerpt + ("..." + nl) ==
           (head + "\"? \U{1F680}") + nl + (excerpt + "...") + nl;
  }

  lemma JoinFour(sep: string, a: string, b: string, c: string, d: string)
    ensures Join(sep, [a, b, c, d]) == a + sep + b + sep + c + sep + d
  {
    var xs := [a, b, c, d];
    assert xs[1..] == [b, c, d] && xs[1..][1..] == [c, d] && xs[1..][1..][1..] == [d];
    assert Join(sep, [c, d]) == c + sep + d;
    assert Join(sep, [b, c, d]) == b + sep + (c + sep + d);
    assert Join(sep, xs) == a + sep + (b + sep + (c + sep + d));
    assert a + sep + (b + sep + (c + sep + d)) == a + sep + b + sep + (c + sep + d);
    assert a + sep + b + sep + (c + sep + d) == a + sep + b + sep + c + sep + d;
  }

  lemma JoinFive(sep: string, a: string, b: string, c: string, d: string, e: string)
    ensures Join(sep, [a, b, c, d, e]) == a + sep + b + sep + c + sep + d + sep + e
  {
    var xs := [a, b, c, d, e];
    assert xs[1..] == [b, c, d, e];
    JoinFour(sep, b, c, d, e);
    assert Join(sep, xs) == a + sep + (b + sep + c + sep + d + sep + e);
    assert a + sep + (b + sep + c + sep + d + sep + e) == a + sep + b + sep + c + sep + d + sep + e;
  }

  /** The hashtag block is the post without hashtags, then a blank line and
      the tags joined by single spaces: it is added once, at the end. */
  lemma ComposePostTagBlock(title: string, url: string, excerpt: string, hashtags: seq<string>,
                            weekday: int, titleHash: int)
    requires hashtags != []
    ensures ComposePost(title, url, excerpt, hashtags, weekday, titleHash) ==
            ComposePost(title, url, excerpt, [], weekday, titleHash) + "\n\n" + Join(" ", hashtags)
  {
  }

  /** The hashtag line of a post splits back, on spaces, into exactly the
      hashtags `get_latest` produced. */
  lemma HashtagLineRoundTrip(terms: seq<string>)
    requires Feed.Hashtags(terms) != []
    ensures Split(Join(" ", Feed.Hashtags(terms)), ' ') == Feed.Hashtags(terms)
  {
    SplitJoin(Feed.Hashtags(terms), ' ');
  }
}

/** The two normalisations `get_latest` applies to the newest feed entry:
    the excerpt of its summary and the hashtags made from its category terms. */
module Feed {
  import opened Text

  /** The longest excerpt kept from the summary. */
  const ExcerptLimit: nat := 200
  /** The most hashtags kept from the entry's category terms. */
  const MaxHashtags: nat := 6

  /** The newest feed entry, as far as `get_latest` uses it: its title, its
      link, the plain text of its summary and the terms of its tags. */
  datatype Entry = Entry(title: string, link: string, summaryText: string, tagTerms: seq<string>)

  /** What `get_latest` hands to the main block (the cover image is not modelled). */
  datatype Latest = Latest(title: string, url: string, excerpt: string, hashtags: seq<string>)

  /** `text.strip().split("\n")[0][:200]`. The excerpt is a prefix of the
      stripped text, at most 200 characters long and without a newline, and it
      stops short of 200 characters only at a newline or at the end of the text. */
  function Excerpt(text: string): (r: string)
    ensures |r| <= ExcerptLimit && '\n' !in r
    ensures r <= Strip(text)
    ensures |r| < ExcerptLimit ==> |r| == |Strip(text)| || Strip(text)[|r|] == '\n'
  {
    var stripped := Strip(text);
    var line := Split(stripped, '\n')[0];
    var r := line[..if |line| < ExcerptLimit then |line| else ExcerptLimit];
    assert r <= line && line <= stripped;
    assert forall c :: c in r ==> c in line;
    r
  }

  /** A first line that fits is kept whole. */
  lemma ExcerptOfShortLine(text: string)
    requires '\n' !in Strip(text) && |Strip(text)| <= ExcerptLimit
    ensures Excerpt(text) == Strip(text)
  {
  }

  /** `"#" + t.strip().title().replace(" ", "")`. */
  function Hashtag(term: string): (r: string)
    ensures |r| >= 1 && r[0] == '#' && ' ' !in r
  {
    "#" + RemoveSpaces(Title(Strip(term)))
  }

  /** The hashtag list of line 32: one tag per term, for the first six terms, in order. */
  function Hashtags(terms: seq<string>): (r: seq<string>)
    ensures |r| == if |terms| < MaxHashtags then |terms| else MaxHashtags
    ensures forall i :: 0 <= i < |r| ==> r[i] == Hashtag(terms[i])
    ensures forall i :: 0 <= i < |r| ==> |r[i]| >= 1 && r[i][0] == '#' && ' ' !in r[i]
  {
    var n := if |terms| < MaxHashtags then |terms| else MaxHashtags;
    seq(n, i requires 0 <= i < n => Hashtag(terms[i]))
  }

  /** A multi-word term becomes one capitalised word: " machine learning " gives "#MachineLearning". */
  lemma HashtagExample(term: string)
    requires term == " machine learning "
    ensures Hashtag(term) == "#" + "MachineLearning"
  {
    var stripped := Strip(term);
    StripExample(term);
    var titled := Title(stripped);
    TitleExample(stripped);
    RemoveSpacesExample(titled);
  }

  lemma StripExample(s: string)
    requires s == " machine learning "
    ensures Strip(s) == "machine learning"
  {
    var inner := s[1..|s| - 1];
    assert inner == "machine learning";
    assert s[0] == ' ' && !IsSpace(s[1..][0]);
    assert StripLeft(s) == s[1..];
    assert s[1..][..|s| - 2] == inner && s[1..][|s| - 2] == ' ' && !IsSpace(inner[|inner| - 1]);
    assert StripRight(s[1..]) == inner;
  }

  lemma TitleExample(s: string)
    requires s == "machine learning"
    ensures Title(s) == "Machine Learning"
  {
    forall i | 0 <= i < |s| ensures Title(s)[i] == "Machine Learning"[i] {
      TitleAt(s, i);
    }
  }

  lemma RemoveSpacesExample(s: string)
    requires s == "Machine Learning"
    ensures RemoveSpaces(s) == "MachineLearning"
  {
    assert s == "Machine" + (" " + "Learning");
    RemoveSpacesOfTwoWords("Machine", "Learning");
  }

  /** `get_latest` without the feed and HTML parsing. */
  function GetLatest(e: Entry): (r: Latest)
    ensures r.title == e.title && r.url == e.link
    ensures |r.excerpt| <= ExcerptLimit && '\n' !in r.excerpt
    ensures r.excerpt <= Strip(e.summaryText)
    ensures |r.excerpt| < ExcerptLimit ==>
              |r.excerpt| == |Strip(e.summaryText)| || Strip(e.summaryText)[|r.excerpt|] == '\n'
    ensures |r.hashtags| == if |e.tagTerms| < MaxHashtags then |e.tagTerms| else MaxHashtags
    ensures forall i :: 0 <= i < |r.hashtags| ==> r.hashtags[i] == Hashtag(e.tagTerms[i])
    ensures forall i :: 0 <= i < |r.hashtags| ==> |r.hashtags[i]| >= 1 && r.hashtags[i][0] == '#' && ' ' !in r.hashtags[i]
  {
    Latest(e.title, e.link, Excerpt(e.summaryText), Hashtags(e.tagTerms))
  }
}

/** The main block of share.py: skip a post already shared, otherwise compose
    and publish it, and record its link only when publishing succeeded. */
module Runner {
  import opened Text
  import opened Feed
  import opened Compose

  /** What one run did. `PostFailed` and `Posted` carry the text the
      publisher was called with; `NoNewPost` means it was not called. */
  datatype Outcome = NoNewPost | PostFailed(text: string) | Posted(text: string)

  /** `read_last()`: the contents of last.txt with surrounding white space
      stripped (a missing file reads as ""). */
  function ReadLast(stored: string): (r: string)
    ensures r == [] || (!IsSpace(r[0]) && !IsSpace(r[|r| - 1]))
  {
    Strip(stored)
  }

  /** One run, as a value: from the contents of last.txt, the newest entry,
      the weekday, the title's hash and the publisher's verdict, to the new
      contents of last.txt and what happened. */
  function Step(stored: string, e: Entry, weekday: int, titleHash: int, publishOk: bool): (r: (string, Outcome))
    ensures r.1 == NoNewPost <==> e.link == ReadLast(stored)
    ensures r.1.Posted? <==> e.link != ReadLast(stored) && publishOk
    ensures r.0 == if r.1.Posted? then e.link else stored
  {
    var latest := GetLatest(e);
    if latest.url == ReadLast(stored) then (stored, NoNewPost)
    else
      var text := ComposePost(latest.title, latest.url, latest.excerpt, latest.hashtags, weekday, titleHash);
      if publishOk then (latest.url, Posted(text)) else (stored, PostFailed(text))
  }

  /** The text handed to the publisher is the composed post of the entry. */
  lemma StepPublishesComposedPost(stored: string, e: Entry, weekday: int, titleHash: int, publishOk: bool)
    requires e.link != ReadLast(stored)
    ensures Step(stored, e, weekday, titleHash, publishOk).1.text ==
            ComposePost(e.title, e.link, Excerpt(e.summaryText), Hashtags(e.tagTerms), weekday, titleHash)
  {
  }

  /** A failed post is retried: a new link whose publish fails leaves the
      file unchanged, so the next run with the same entry calls the publisher
      again, and posts when the publisher succeeds. */
  lemma RetryAfterFailure(stored: string, e: Entry, weekday: int, titleHash: int,
                          weekday2: int, titleHash2: int, publishOk2: bool)
    requires e.link != ReadLast(stored)
    ensures Step(stored, e, weekday, titleHash, false).1.PostFailed?
    ensures Step(stored, e, weekday, titleHash, false).0 == stored
    ensures Step(Step(stored, e, weekday, titleHash, false).0, e, weekday2, titleHash2, publishOk2).1 != NoNewPost
    ensures publishOk2 ==> Step(Step(stored, e, weekday, titleHash, false).0, e, weekday2, titleHash2, publishOk2).1.Posted?
  {
  }

  /** A link without surrounding white space is posted once: after a new link
      has been posted, the next run with the same entry does nothing. */
  lemma NoRepostAfterSuccess(stored: string, e: Entry, weekday: int, titleHash: int,
                             weekday2: int, titleHash2: int, publishOk2: bool)
    requires Strip(e.link) == e.link
    requires e.link != ReadLast(stored)
    ensures Step(stored, e, weekday, titleHash, true).1.Posted?
    ensures Step(Step(stored, e, weekday, titleHash, true).0, e, weekday2, titleHash2, publishOk2) ==
            (e.link, NoNewPost)
  {
  }

  /** `write_last` stores the link as it is while `read_last` strips it, so a
      link with white space at either end never matches what was stored: it is
      new on the first run, and it is posted again on every run after that. */
  lemma PaddedLinkIsReposted(stored: string, e: Entry, weekday: int, titleHash: int,
                             weekday2: int, titleHash2: int, publishOk2: bool)
    requires Strip(e.link) != e.link
    ensures Step(stored, e, weekday, titleHash, true).1.Posted?
    ensures Step(stored, e, weekday, titleHash, true).0 == e.link
    ensures Step(Step(stored, e, weekday, titleHash, true).0, e, weekday2, titleHash2, publishOk2).1 != NoNewPost
  {
    if ReadLast(stored) == e.link {
      StripOfStripped(e.link);
    }
  }

  /** The state of the main block: the contents of last.txt. */
  class Poster {
    /** The contents of last.txt; "" when the file does not exist. */
    var stored: string

    constructor (stored: string)
      ensures this.stored == stored
    {
      this.stored := stored;
    }

    /** `read_last()`. */
    function LastPosted(): string
      reads this
    {
      ReadLast(stored)
    }

    /** One run of the main block. The publisher's verdict is a parameter. */
    method Run(e: Entry, weekday: int, titleHash: int, publishOk: bool) returns (outcome: Outcome)
      modifies this
      ensures (stored, outcome) == Step(old(stored), e, weekday, titleHash, publishOk)
      ensures old(LastPosted()) == e.link ==> outcome == NoNewPost && stored == old(stored)
      ensures !publishOk ==> stored == old(stored)
    {
      var latest := GetLatest(e);
      if latest.url == LastPosted() {
        return NoNewPost;
      }
      var text := ComposePost(latest.title, latest.url, latest.excerpt, latest.hashtags, weekday, titleHash);
      if !publishOk {
        return PostFailed(text);
      }
      stored := latest.url;
      return Posted(text);
    }
  }
}

/** Topic detection: `CATEGORY_KEYWORDS` and `detect_category` of share.py. */
module Category {
  import opened Text

  /** The category returned when no keyword matches. */
  const General: string := "General"

  /** `CATEGORY_KEYWORDS`, in the dictionary's insertion order, which is the
      order in which `detect_category` tries the categories. */
  const CategoryKeywords: seq<(string, seq<string>)> := [
    ("AI", ["ai", "machine learning", "deep learning"]),
    ("Programming", ["programming", "code", "development", "python", "java", "c "]),
    ("Web Dev", ["web", "html", "css", "javascript", "react", "node"]),
    ("Career", ["career", "job", "interview", "resume"])
  ]

  /** `any(kw in t for kw in keywords)`. */
  predicate MatchesAny(keywords: seq<string>, t: string) {
    exists kw :: kw in keywords && Contains(t, kw)
  }

  /** No two rows of a table carry the same name, and none is called `General`. */
  predicate WellNamed(table: seq<(string, seq<string>)>) {
    (forall j :: 0 <= j < |table| ==> table[j].0 != General) &&
    (forall j, k :: 0 <= j < k < |table| ==> table[j].0 != table[k].0)
  }

  /** The `for` loop of `detect_category`: the name of the first row one of
      whose keywords occurs in `t`, or `General`. */
  function FirstMatch(table: seq<(string, seq<string>)>, t: string): (r: string)
    ensures r == General || exists row :: row in table && row.0 == r
  {
    if table == [] then General
    else if MatchesAny(table[0].1, t) then table[0].0
    else FirstMatch(table[1..], t)
  }

  /** First match wins: the search returns row `k` exactly when row `k`
      matches and no earlier row does. */
  lemma {:induction false} FirstMatchIsFirst(table: seq<(string, seq<string>)>, t: string, k: nat)
    requires WellNamed(table) && k < |table|
    ensures FirstMatch(table, t) == table[k].0 <==>
            MatchesAny(table[k].1, t) && forall j :: 0 <= j < k ==> !MatchesAny(table[j].1, t)
  {
    if !MatchesAny(table[0].1, t) {
      if k == 0 {
        var r := FirstMatch(table[1..], t);
        if r != General {
          var row :| row in table[1..] && row.0 == r;
          var m :| 0 <= m < |table| - 1 && table[1..][m] == row;
          assert table[m + 1].0 == r;
        }
      } else {
        assert WellNamed(table[1..]) by {
          forall j, i | 0 <= j < i < |table| - 1 ensures table[1..][j].0 != table[1..][i].0 {
            assert table[1..][j] == table[j + 1] && table[1..][i] == table[i + 1];
          }
        }
        FirstMatchIsFirst(table[1..], t, k - 1);
        assert forall j :: 0 < j < k ==> table[j] == table[1..][j - 1];
      }
    }
  }

  /** The search falls through to `General` exactly when no row matches. */
  lemma {:induction false} FirstMatchGeneral(table: seq<(string, seq<string>)>, t: string)
    requires forall j :: 0 <= j < |table| ==> table[j].0 != General
    ensures FirstMatch(table, t) == General <==> forall j :: 0 <= j < |table| ==> !MatchesAny(table[j].1, t)
  {
    if table != [] && !MatchesAny(table[0].1, t) {
      FirstMatchGeneral(table[1..], t);
      assert forall j :: 0 < j < |table| ==> table[j] == table[1..][j - 1];
    }
  }

  /** `detect_category(title)`: the categories are tried in order on the
      lower-cased title. The result is always one of the four keys or `General`. */
  function DetectCategory(title: string): (r: string)
    ensures r in {"AI", "Programming", "Web Dev", "Career", General}
  {
    FirstMatch(CategoryKeywords, Lower(title))
  }

  /** Whether some keyword of row `k` of `CATEGORY_KEYWORDS` is a substring of the lower-cased title. */
  predicate CategoryMatches(k: nat, title: string)
    requires k < |CategoryKeywords|
  {
    MatchesAny(CategoryKeywords[k].1, Lower(title))
  }

  /** First match wins in the fixed order AI, Programming, Web Dev, Career. */
  lemma DetectCategoryFirstMatch(title: string, k: nat)
    requires k < |CategoryKeywords|
    ensures DetectCategory(title) == CategoryKeywords[k].0 <==>
            CategoryMatches(k, title) && forall j :: 0 <= j < k ==> !CategoryMatches(j, title)
  {
    assert WellNamed(CategoryKeywords);
    FirstMatchIsFirst(CategoryKeywords, Lower(title), k);
    assert forall j :: 0 <= j < k ==>
      (CategoryMatches(j, title) <==> MatchesAny(CategoryKeywords[j].1, Lower(title)));
  }

  /** `General` is returned exactly when no keyword of any category occurs,
      as a raw substring, in the lower-cased title. */
  lemma DetectCategoryGeneral(title: string)
    ensures DetectCategory(title) == General <==>
            forall k, kw :: 0 <= k < |CategoryKeywords| && kw in CategoryKeywords[k].1 ==> !Occurs(kw, Lower(title))
  {
    FirstMatchGeneral(CategoryKeywords, Lower(title));
    forall kw: string {
      ContainsIffOccurs(Lower(title), kw);
    }
  }

  /** Case does not matter: a title and its lower-cased form get the same category. */
  lemma DetectCategoryIgnoresCase(title: string)
    ensures DetectCategory(Lower(title)) == DetectCategory(title)
  {
    LowerIdempotent(title);
  }

  /** "AI with Python" matches both AI and Programming; AI comes first and wins. */
  lemma DetectCategoryExampleAIWithPython(title: string)
    requires title == "AI with Python"
    ensures CategoryMatches(0, title) && CategoryMatches(1, title)
    ensures DetectCategory(title) == "AI"
  {
    var t := Lower(title);
    assert t[0..2] == "ai";
    assert t[8..14] == "python";
    ContainsAt(t, "ai", 0);
    ContainsAt(t, "python", 8);
    assert "python" in CategoryKeywords[1].1;
  }

  /** Keywords match as raw substrings: "Java Training" is filed under AI,
      because "training" contains "ai". */
  lemma DetectCategoryExampleRawSubstring(title: string)
    requires title == "Java Training"
    ensures DetectCategory(title) == "AI"
  {
    var t := Lower(title);
    assert t[7..9] == "ai";
    ContainsAt(t, "ai", 7);
  }
}

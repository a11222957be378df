/**
 * `determine_tags` (course.py:79-109): the category tags of an assignment,
 * from the whole lower-cased words of its name.
 */
module Tags {
  import opened PyText

  /** `keywords_to_tags` in its declaration order (course.py:80-92). */
  const Keywords: seq<(string, string)> := [
    ("quiz", "quiz"),
    ("lab", "lab"),
    ("assignment", "hw"),
    ("homework", "hw"),
    ("midterm", "exam"),
    ("midtermexam", "exam"),
    ("mid", "exam"),
    ("final", "exam"),
    ("finalexam", "exam"),
    ("presentation", "pre"),
    ("presentation:", "pre")
  ]

  /** Every tag the classifier can produce. */
  const AllTags: set<string> := {"quiz", "lab", "hw", "exam", "pre"}

  /** `set(name.lower().split())`, kept as the sequence of words. */
  function Words(name: string): seq<string> {
    Split(Lower(name))
  }

  /** The set comprehension of course.py:98-102: the tag of every keyword that is a word. */
  function KeywordTags(words: seq<string>): set<string> {
    set i | 0 <= i < |Keywords| && Keywords[i].0 in words :: Keywords[i].1
  }

  /** `determine_tags`: drop `exam` when another tag is present, fall back to `{"hw"}`. */
  function DetermineTags(name: string): (tags: set<string>)
    ensures tags != {} && tags <= AllTags
    ensures "exam" in tags ==> tags == {"exam"}
  {
    var found := KeywordTags(Words(name));
    OnlyElement(found, "exam");
    var kept := if "exam" in found && |found| > 1 then found - {"exam"} else found;
    if kept == {} then {"hw"} else kept
  }

  /** A set of at most one element that holds `x` is `{x}`. */
  lemma OnlyElement<T>(s: set<T>, x: T)
    ensures x in s && |s| <= 1 ==> s == {x}
  {
    if x in s {
      assert |s - {x}| == |s| - 1;
    }
  }

  /** Some word of the name is a keyword for `exam`. */
  predicate ExamWord(words: seq<string>) {
    "midterm" in words || "midtermexam" in words || "mid" in words
    || "final" in words || "finalexam" in words
  }

  /** Some word of the name is a keyword for a tag other than `exam`. */
  predicate OtherWord(words: seq<string>) {
    "quiz" in words || "lab" in words || "assignment" in words || "homework" in words
    || "presentation" in words || "presentation:" in words
  }

  /** Which keywords produce which tag, before the `exam` rule and the fallback. */
  lemma KeywordTagsSpec(words: seq<string>)
    ensures var found := KeywordTags(words);
      ("quiz" in found <==> "quiz" in words)
      && ("lab" in found <==> "lab" in words)
      && ("hw" in found <==> ("assignment" in words || "homework" in words))
      && ("exam" in found <==> ExamWord(words))
      && ("pre" in found <==> ("presentation" in words || "presentation:" in words))
      && found <= AllTags
  {
    var found := KeywordTags(words);
    if "quiz" in words { assert Keywords[0].1 in found; }
    if "lab" in words { assert Keywords[1].1 in found; }
    if "assignment" in words { assert Keywords[2].1 in found; }
    if "homework" in words { assert Keywords[3].1 in found; }
    if "midterm" in words { assert Keywords[4].1 in found; }
    if "midtermexam" in words { assert Keywords[5].1 in found; }
    if "mid" in words { assert Keywords[6].1 in found; }
    if "final" in words { assert Keywords[7].1 in found; }
    if "finalexam" in words { assert Keywords[8].1 in found; }
    if "presentation" in words { assert Keywords[9].1 in found; }
    if "presentation:" in words { assert Keywords[10].1 in found; }
  }

  /**
   * The classifier, tag by tag: `exam` only when an exam keyword is the sole
   * kind of keyword, `hw` for the homework keywords or when no keyword occurs.
   */
  lemma DetermineTagsSpec(name: string)
    ensures var tags := DetermineTags(name); var words := Words(name);
      ("quiz" in tags <==> "quiz" in words)
      && ("lab" in tags <==> "lab" in words)
      && ("pre" in tags <==> ("presentation" in words || "presentation:" in words))
      && ("exam" in tags <==> ExamWord(words) && !OtherWord(words))
      && ("hw" in tags <==> ("assignment" in words || "homework" in words
                             || (!ExamWord(words) && !OtherWord(words))))
  {
    var words := Words(name);
    var found := KeywordTags(words);
    KeywordTagsSpec(words);
    if "exam" in found {
      if OtherWord(words) {
        var other :| other in found && other != "exam";
        assert {"exam", other} <= found;
        assert |found| == |found - {"exam"}| + 1;
      } else {
        assert found == {"exam"};
      }
    }
  }

  /** The classification ignores the case of the name. */
  lemma DetermineTagsIgnoresCase(name: string)
    ensures DetermineTags(Lower(name)) == DetermineTags(name)
  {
    LowerIdempotent(name);
  }

  /** With no keyword among its words, a name is tagged `hw` alone. */
  lemma DefaultTag(name: string)
    requires forall i :: 0 <= i < |Keywords| ==> Keywords[i].0 !in Words(name)
    ensures DetermineTags(name) == {"hw"}
  {
    assert KeywordTags(Words(name)) == {};
  }

  /** A tag comes from a keyword only when it is a whole word of the lower-cased name, never part of a longer word. */
  lemma WholeWordOnly(name: string, keyword: string)
    ensures keyword in Words(name) <==> exists i: nat :: WordAt(Lower(name), i, keyword)
  {
    SplitWords(Lower(name), keyword);
  }
}

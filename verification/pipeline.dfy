/** The request-level pipeline: how many hashtags to ask for, the composition
    `optimize_hashtags` of extraction and ranking, and the POST branch of the
    `index` view with its fallback for an empty description. The tokenizer
    (`word_tokenize`) and the tagger (`pos_tag`) are parameters; both token
    counts the source takes come from the one `tokenize` parameter. */
module Pipeline {
  import opened Seqs
  import opened Ascii
  import opened Keywords
  import opened Ranking

  /** Texts of more than this many tokens get the larger hashtag count. */
  const LongTextTokens: nat := 20

  /** The number of hashtags asked for: five for a text of more than twenty
      tokens, three otherwise. */
  function HashtagCount(tokenCount: nat): (n: nat)
    ensures n == 3 || n == 5
    ensures n == 5 <==> tokenCount > LongTextTokens
  {
    if tokenCount > LongTextTokens then 5 else 3
  }

  /** Twenty tokens still get three hashtags; twenty-one get five. */
  lemma HashtagCountBoundary()
    ensures HashtagCount(20) == 3 && HashtagCount(21) == 5
  {
  }

  /** A longer text never gets fewer hashtags. */
  lemma HashtagCountMonotone(a: nat, b: nat)
    requires a <= b
    ensures HashtagCount(a) <= HashtagCount(b)
  {
  }

  /** `h` is the hashtag of a keyword-tagged token of `tagged` that is longer
      than three characters: '#' and the capitalized lower-cased token. */
  ghost predicate IsHashtagOf(tagged: seq<Tagged>, h: string) {
    exists i :: 0 <= i < |tagged| && IsKeywordTag(tagged[i].1) && |tagged[i].0| > 3
                && h == Format(Lower(tagged[i].0))
  }

  /** `optimize_hashtags(content)`: extract the keywords of the tagged tokens
      and rank them, asking for the number of hashtags the token count
      calls for. */
  function OptimizeHashtags(content: string, tokenize: string -> seq<string>,
                            tag: seq<string> -> seq<Tagged>): (r: seq<string>)
    ensures |r| <= HashtagCount(|tokenize(content)|)
    ensures NoDup(r)
    ensures forall h :: h in r ==> |h| >= 5 && h[0] == '#' && IsHashtagOf(tag(tokenize(content)), h)
  {
    var tokens := tokenize(content);
    var keywords := ExtractKeywords(tag(tokens));
    var num := HashtagCount(|tokens|);
    GenerateHashtagsDistinct(keywords, num);
    HashtagsOfTaggedTokens(tag(tokens), num);
    GenerateHashtags(keywords, num)
  }

  /** Every hashtag built from extracted keywords is the hashtag of one of
      the tagged tokens. */
  lemma HashtagsOfTaggedTokens(tagged: seq<Tagged>, num: int)
    ensures forall h :: h in GenerateHashtags(ExtractKeywords(tagged), num) ==> IsHashtagOf(tagged, h)
  {
    var keywords := ExtractKeywords(tagged);
    GenerateHashtagsFromKeywords(keywords, num);
    forall h | h in GenerateHashtags(keywords, num)
      ensures IsHashtagOf(tagged, h)
    {
      var w :| w in keywords && |w| > 3 && h == "#" + Capitalize(w);
      KeywordsComeFromTaggedTokens(tagged, w);
      var i :| 0 <= i < |tagged| && IsKeywordTag(tagged[i].1) && w == Lower(tagged[i].0);
      assert h == Format(Lower(tagged[i].0));
    }
  }

  /** Reading a hashtag back gives one of the extracted keywords: the text
      after '#', lower-cased, is a keyword of the tagged tokens. */
  lemma HashtagNamesKeyword(tagged: seq<Tagged>, h: string)
    requires IsHashtagOf(tagged, h)
    ensures |h| > 0 && Unformat(h) in ExtractKeywords(tagged)
  {
    var i :| 0 <= i < |tagged| && IsKeywordTag(tagged[i].1) && |tagged[i].0| > 3
             && h == Format(Lower(tagged[i].0));
    FormatRoundTrip(Lower(tagged[i].0));
  }

  /** The hashtag shown when the description is empty. */
  const NoDescription: string := "#NoDescription"

  /** No hashtag of a tagged token is the fallback: a formatted keyword has
      only lower-case letters after its first letter, and the fallback has an
      upper-case 'D'. */
  lemma FallbackIsNoHashtag(tagged: seq<Tagged>, h: string)
    requires IsHashtagOf(tagged, h)
    ensures h != NoDescription
  {
    var i :| 0 <= i < |tagged| && IsKeywordTag(tagged[i].1) && |tagged[i].0| > 3
             && h == Format(Lower(tagged[i].0));
    FormatLetterLower(Lower(tagged[i].0), 3);
    FallbackFourthUpper();
  }

  /** The fallback's fourth character is an upper-case letter. */
  lemma FallbackFourthUpper()
    ensures |NoDescription| > 3 && IsUpper(NoDescription[3])
  {
  }

  /** After '#' and the capital, a hashtag has no upper-case letter. */
  lemma FormatLetterLower(w: string, k: nat)
    requires 2 <= k <= |w|
    ensures !IsUpper(Format(w)[k])
  {
    var h := Format(w);
    assert h[k] == h[1..][1..][k - 2];
  }

  /** The POST branch of the `index` view, given the submitted description:
      the fallback when it is empty after stripping white space, otherwise
      the hashtags of the stripped text. */
  function Index(description: string, tokenize: string -> seq<string>,
                 tag: seq<string> -> seq<Tagged>): (r: seq<string>)
    ensures |r| <= 5
    ensures r == [NoDescription] <==> AllSpace(description)
  {
    var text := Strip(description);
    if text == [] then [NoDescription]
    else
      PipelineNeverFallsBack(text, tokenize, tag);
      OptimizeHashtags(text, tokenize, tag)
  }

  /** The pipeline's own result is never the fallback list. */
  lemma PipelineNeverFallsBack(content: string, tokenize: string -> seq<string>,
                               tag: seq<string> -> seq<Tagged>)
    ensures OptimizeHashtags(content, tokenize, tag) != [NoDescription]
  {
    var r := OptimizeHashtags(content, tokenize, tag);
    if |r| == 1 {
      FallbackIsNoHashtag(tag(tokenize(content)), r[0]);
    }
  }

  /** A description that is not blank gets exactly the pipeline's hashtags
      for its stripped text, which may be none at all. */
  lemma IndexRunsPipeline(description: string, tokenize: string -> seq<string>,
                          tag: seq<string> -> seq<Tagged>)
    requires !AllSpace(description)
    ensures Index(description, tokenize, tag) == OptimizeHashtags(Strip(description), tokenize, tag)
  {
  }

  /** A text whose nouns and adjectives are all at most three characters long
      gets no hashtag at all, and not the fallback either. */
  lemma ShortKeywordsYieldNothing(content: string, tokenize: string -> seq<string>,
                                  tag: seq<string> -> seq<Tagged>)
    requires forall t :: t in tag(tokenize(content)) && IsKeywordTag(t.1) ==> |t.0| <= 3
    ensures OptimizeHashtags(content, tokenize, tag) == []
  {
    var tagged := tag(tokenize(content));
    var keywords := ExtractKeywords(tagged);
    forall w | w in keywords
      ensures |w| <= 3
    {
      KeywordsComeFromTaggedTokens(tagged, w);
      var i :| 0 <= i < |tagged| && IsKeywordTag(tagged[i].1) && w == Lower(tagged[i].0);
      assert tagged[i] in tagged;
    }
    RankedKeywordsCount(keywords);
    var ranked := RankedKeywords(keywords);
    assert (set w | w in keywords && |w| > 3) == {};
    assert Take(ranked, HashtagCount(|tokenize(content)|)) == [];
  }
}

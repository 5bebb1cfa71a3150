# Hashtag generation, modelled in Dafny

A functional model of the hashtag pipeline of the Flask app
`Hashtags_generation_system/app.py`, with proofs of what it computes.

- **Keyword extraction** (`extract_keywords`). The tagged tokens of a text are
  filtered to nouns (a tag starting with `NN`) and plain adjectives (`JJ`),
  and each is lower-cased.
- **Ranking** (`generate_hashtags`). These steps run in order:
  1. Drop repeated keywords and keep first occurrences (`dict.fromkeys`).
  2. Keep keywords longer than three characters.
  3. Stable-sort them longest first (`sorted(..., key=len, reverse=True)`).
  4. Take the first `num_hashtags` (a Python slice).
  5. Format each as `#` followed by `str.capitalize()` of the keyword.
- **Count rule** (`optimize_hashtags`). A text of more than 20 tokens gets 5
  hashtags and any other text gets 3.
- **The POST branch of `index`**. The description is stripped with
  `str.strip()`. A blank description gives `["#NoDescription"]`, and any other
  description runs the pipeline on the stripped text.

The tokenizer (`word_tokenize`) and the part-of-speech tagger (`pos_tag`) are
parameters of the model: `tokenize: string -> seq<string>` and
`tag: seq<string> -> seq<Tagged>`. Being pure functions, the two
`word_tokenize` calls on the same text agree by construction.

Modules:

- `Seqs`: order-keeping filter, "occurs before", no-duplicates and first-index.
- `Ascii`: the model of Python's `lower`, `capitalize`, `isspace` and `strip`.
- `Keywords`: `extract_keywords`.
- `Ranking`: `generate_hashtags`.
- `Pipeline`: the count rule, `optimize_hashtags` and the `index` POST branch.

Behaviour as the code has it:

- De-duplication compares keywords exactly; it does not ignore case. Inside
  the pipeline this changes nothing, because extraction has already
  lower-cased every keyword. `generate_hashtags` called directly on `["Word",
  "word"]` keeps both spellings and yields `#Word` twice. The lemma
  `MixedCaseKeepsBothSpellings` shows this.
- `str.capitalize()` lower-cases everything after the first character; it does
  not keep the rest's case.

## Model

| member | source | states |
|---|---|---|
| Keywords.ExtractKeywords | Hashtags_generation_system/app.py:11-14 | No more keywords than tagged tokens. Every keyword is lower case. The lower-cased form of every token tagged `NN*` or `JJ` appears. |
| Keywords.IsKeywordTag | Hashtags_generation_system/app.py:14 | A tag marks a keyword exactly when it has the prefix `NN` or is exactly `JJ`; `JJR` and `JJS` are excluded. |
| Keywords.ExtractKeywordsInOrder | Hashtags_generation_system/app.py:14 | The keywords are exactly the noun/`JJ` tokens, lower-cased and in text order: the k-th keyword is the lower-cased token at the k-th keyword position. |
| Keywords.KeywordsComeFromTaggedTokens | Hashtags_generation_system/app.py:14 | Every keyword is the lower-cased form of some token tagged as a noun or `JJ`. |
| Keywords.ExtractKeywordsAppend | Hashtags_generation_system/app.py:14 | Extraction distributes over concatenation of tagged token lists. |
| Ascii.Lower | Hashtags_generation_system/app.py:14 | `str.lower()` keeps the length. Each capital becomes the small letter at the same alphabet position and every other character is kept, so no upper-case letter is left and a string with none comes back unchanged. |
| Ascii.LowerMapsLetters | Hashtags_generation_system/app.py:14 | In `word.lower()` each capital becomes the small letter at the same alphabet position, and every other character is kept. |
| Ranking.Dedup | Hashtags_generation_system/app.py:17 | `list(dict.fromkeys(keywords))` has no repeats and holds exactly the keywords. |
| Ranking.DedupFirstOccurrenceOrder | Hashtags_generation_system/app.py:17 | The de-duplicated list is in order of first occurrence in the input. |
| Ranking.DedupCharacterization | Hashtags_generation_system/app.py:17 | The de-duplicated list is the only list that holds every keyword in first-occurrence order. |
| Ranking.LongWords | Hashtags_generation_system/app.py:18 | The filter keeps exactly the words longer than three characters. |
| Ranking.SortByLengthDesc | Hashtags_generation_system/app.py:19 | The result is sorted longest first and is a permutation of the input. |
| Ranking.SortStable | Hashtags_generation_system/app.py:19 | The sort is stable: for each length, the words of that length keep their input order. |
| Ranking.SortCharacterization | Hashtags_generation_system/app.py:19 | The sort's result is the only arrangement that is sorted longest first and keeps each length's words in input order. |
| Ranking.RankedKeywordsSpec | Hashtags_generation_system/app.py:17-19 | `RankedKeywords`, the model of `sorted_keywords`: the ranked candidates have no repeats, are exactly the keywords longer than three characters, are sorted longest first, and break ties by first occurrence. |
| Ranking.RankedKeywordsCharacterization | Hashtags_generation_system/app.py:17-19 | Any list with those four properties equals `RankedKeywords`, so they define `sorted_keywords`. |
| Ranking.RankedKeywordsCount | Hashtags_generation_system/app.py:17-19 | The number of candidates is the number of distinct keywords longer than three characters. |
| Ranking.RankingExample | Hashtags_generation_system/app.py:17-19 | `forest, bright, dog, moonlight, forest` ranks as `moonlight, forest, bright`. |
| Ranking.Format | Hashtags_generation_system/app.py:20 | `f"#{word.capitalize()}"` is one character longer than the word. It starts with `#`, its first letter is not small and its later letters are not capital, and lower-casing the text after `#` gives the lower-cased word. |
| Ranking.FormatAll | Hashtags_generation_system/app.py:20 | The comprehension gives one hashtag per word, in order. The i-th is `#` and the capitalized i-th word: one character longer, first letter not small, later letters not capital, and equal to the word up to case. |
| Ranking.Take | Hashtags_generation_system/app.py:20 | `s[:n]` is a prefix of `s`. Its length is `min(n, len(s))` for `n >= 0`, and `max(len(s) + n, 0)` for negative `n`. |
| Ascii.Capitalize | Hashtags_generation_system/app.py:20 | `str.capitalize()` keeps the length, makes the first character not lower case, and leaves no upper-case letter after it. |
| Ascii.CapitalizeLower | Hashtags_generation_system/app.py:20 | Capitalizing only changes case: lower-casing the result gives the lower-cased input. |
| Ascii.CapitalizeInjective | Hashtags_generation_system/app.py:20 | Distinct lower-case words capitalize to distinct strings. |
| Ranking.FormatRoundTrip | Hashtags_generation_system/app.py:20 | Dropping the `#` and lower-casing a formatted lower-case keyword gives back the keyword. |
| Ranking.GenerateHashtags | Hashtags_generation_system/app.py:16-20 | There are at most `num_hashtags` hashtags (when non-negative) and no more than there are ranked candidates. |
| Ranking.GenerateHashtagsShape | Hashtags_generation_system/app.py:16-20 | Every hashtag starts with `#` and is at least five characters long. Lengths never increase along the list. |
| Ranking.GenerateHashtagsIsFormattedPrefix | Hashtags_generation_system/app.py:20 | The i-th hashtag is the formatted i-th ranked candidate. |
| Ranking.GenerateHashtagsLength | Hashtags_generation_system/app.py:16-20 | For `num >= 0`, the number of hashtags is the smaller of `num` and the number of distinct keywords longer than three characters. |
| Ranking.GenerateHashtagsFromKeywords | Hashtags_generation_system/app.py:16-20 | Every hashtag is `#` plus the capitalized form of an input keyword longer than three characters. |
| Ranking.GenerateHashtagsOrder | Hashtags_generation_system/app.py:16-20 | The keywords behind the hashtags come longest first, with ties in first-occurrence order. |
| Ranking.GenerateHashtagsPrefix | Hashtags_generation_system/app.py:16-20 | Raising the count only appends hashtags: the result for a smaller count is a prefix of the result for a larger one. |
| Ranking.GenerateHashtagsDistinct | Hashtags_generation_system/app.py:16-20 | Lower-case keywords give pairwise distinct hashtags. |
| Ranking.MixedCaseKeepsBothSpellings | Hashtags_generation_system/app.py:17-20 | Exact-equality de-duplication keeps `Word` and `word`, and both format to `#Word`. |
| Pipeline.HashtagCount | Hashtags_generation_system/app.py:23 | The count is 3 or 5, and it is 5 exactly when the text has more than 20 tokens. |
| Pipeline.HashtagCountBoundary | Hashtags_generation_system/app.py:23 | 20 tokens give 3 and 21 tokens give 5. |
| Pipeline.HashtagCountMonotone | Hashtags_generation_system/app.py:23 | More tokens never give a smaller count. |
| Pipeline.OptimizeHashtags | Hashtags_generation_system/app.py:22-25 | There are no more hashtags than the count rule allows, and no repeats. Each hashtag starts with `#`, has at least five characters, and is the hashtag of a noun/`JJ` token longer than three characters. |
| Pipeline.HashtagsOfTaggedTokens | Hashtags_generation_system/app.py:22-25 | Every hashtag built from the extracted keywords is `#` plus the capitalized, lower-cased form of a long noun/`JJ` token. |
| Pipeline.HashtagNamesKeyword | Hashtags_generation_system/app.py:22-25 | Reading a hashtag back (drop `#`, lower-case) gives one of the extracted keywords. |
| Pipeline.ShortKeywordsYieldNothing | Hashtags_generation_system/app.py:22-25 | A text whose nouns and adjectives all have at most three characters gets an empty hashtag list. |
| Ascii.Strip | Hashtags_generation_system/app.py:32 | `str.strip()` gives the infix between leading and trailing white space. It neither starts nor ends with white space, and it is empty exactly when the input is all white space. |
| Ascii.IsSpace | Hashtags_generation_system/app.py:32 | The characters `strip()` removes are exactly Python's `isspace` set: tab, line feed, `\x0b`, `\x0c`, carriage return, `\x1c`-`\x1f`, space, `\x85`, `\xa0`, `\u1680`, `\u2000`-`\u200a`, `\u2028`, `\u2029`, `\u202f`, `\u205f` and `\u3000`. |
| Pipeline.Index | Hashtags_generation_system/app.py:31-36 | At most five hashtags. The result is `["#NoDescription"]` exactly when the description is blank after stripping. |
| Pipeline.IndexRunsPipeline | Hashtags_generation_system/app.py:32-34 | A description that is not blank gets the pipeline's hashtags for its stripped text. |
| Pipeline.FallbackIsNoHashtag | Hashtags_generation_system/app.py:36 | `#NoDescription` is never the hashtag of a keyword: the pipeline makes every letter after the first lower case. |
| Pipeline.PipelineNeverFallsBack | Hashtags_generation_system/app.py:33-36 | The pipeline's own result is never the fallback list. |

## Left out

- Flask routing, `render_template`, `app.run` and the GET branch (where
  `hashtags` stays `None`): web serving, not hashtag logic.
- `request.form.get('description', '')`: the model takes the description
  string; a missing field is the empty string, which the model covers.
- `nltk.download` and the internals of `word_tokenize` and `pos_tag`: these
  are calls into a library. The model takes them as parameters and assumes
  only that they are functions.
- Ascii.Lower: case mapping covers ASCII letters only. Python's `str.lower()`
  also maps non-ASCII letters, which the model leaves unchanged.
- Ascii.Capitalize: as for `Lower`, only ASCII letters change case. Python
  also title-cases some non-ASCII first characters.
- Ascii.CapitalizeInjective, Ranking.GenerateHashtagsDistinct and the no-repeats
  promise of Pipeline.OptimizeHashtags, like the "keeps the length" clauses of
  Ascii.Lower and Ascii.Capitalize, hold for the ASCII-only case mapping and
  not for Python's full Unicode mapping. In Python, `'ﬀoo'` and `'ffoo'` are
  distinct lower-case words that both capitalize to `'Ffoo'`, and
  `'İ'.lower()` is two characters long.
- Ranking.GenerateHashtagsLength: stated for a non-negative count only. The
  app always passes 3 or 5. A negative count can only come from a direct
  call; the model then follows Python's slice (`Ranking.Take`).

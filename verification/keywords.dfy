/** Keyword extraction (`extract_keywords`): from the part-of-speech tagged
    tokens of a text, keep the nouns and plain adjectives, lower-cased. The
    tokenizer and the tagger are outside the model; their output, a sequence
    of (token, tag) pairs, is the input here. */
module Keywords {
  import opened Seqs
  import opened Ascii

  /** A token with its part-of-speech tag. */
  type Tagged = (string, string)

  /** A tag marks a keyword when it is a noun tag (any tag starting with
      "NN": NN, NNS, NNP, NNPS) or exactly the adjective tag "JJ"; the
      comparative "JJR" and superlative "JJS" do not count. */
  predicate IsKeywordTag(tag: string)
    ensures IsKeywordTag(tag) <==> (|tag| >= 2 && tag[0] == 'N' && tag[1] == 'N') || tag == "JJ"
  {
    "NN" <= tag || tag == "JJ"
  }

  /** The lower-cased tokens whose tag marks a keyword, in text order,
      duplicates included. */
  function ExtractKeywords(tagged: seq<Tagged>): (r: seq<string>)
    ensures |r| <= |tagged|
    ensures forall w :: w in r ==> IsLowerCase(w)
    ensures forall i :: 0 <= i < |tagged| && IsKeywordTag(tagged[i].1) ==> Lower(tagged[i].0) in r
  {
    if |tagged| == 0 then []
    else
      var rest := ExtractKeywords(tagged[1..]);
      assert forall i :: 1 <= i < |tagged| ==> tagged[i] == tagged[1..][i - 1];
      (if IsKeywordTag(tagged[0].1) then [Lower(tagged[0].0)] else []) + rest
  }

  /** The positions from `start` on that hold keyword-tagged tokens, in
      increasing order. */
  function KeywordPositions(tagged: seq<Tagged>, start: nat): (ps: seq<nat>)
    requires start <= |tagged|
    ensures forall k :: 0 <= k < |ps| ==> start <= ps[k] < |tagged| && IsKeywordTag(tagged[ps[k]].1)
    ensures forall i :: start <= i < |tagged| && IsKeywordTag(tagged[i].1) ==> i in ps
    ensures forall k, l :: 0 <= k < l < |ps| ==> ps[k] < ps[l]
    decreases |tagged| - start
  {
    if start == |tagged| then []
    else (if IsKeywordTag(tagged[start].1) then [start] else []) + KeywordPositions(tagged, start + 1)
  }

  /** Extraction keeps exactly the keyword-tagged tokens, lower-cased, in their
      original relative order: the k-th keyword is the lower-cased token at the
      k-th keyword position. */
  lemma {:induction false} ExtractKeywordsInOrder(tagged: seq<Tagged>, start: nat)
    requires start <= |tagged|
    ensures |ExtractKeywords(tagged[start..])| == |KeywordPositions(tagged, start)|
    ensures forall k :: 0 <= k < |ExtractKeywords(tagged[start..])| ==>
              ExtractKeywords(tagged[start..])[k] == Lower(tagged[KeywordPositions(tagged, start)[k]].0)
    decreases |tagged| - start
  {
    if start < |tagged| {
      ExtractKeywordsInOrder(tagged, start + 1);
      ExtractKeywordsStep(tagged, start);
      var r' := ExtractKeywords(tagged[start + 1..]);
      var ps' := KeywordPositions(tagged, start + 1);
      if IsKeywordTag(tagged[start].1) {
        ConsIndex(Lower(tagged[start].0), r');
        ConsIndex(start, ps');
      }
    }
  }

  /** Extracting from position `start` on: the token at `start`, if it is a
      keyword, then the keywords after it. */
  lemma ExtractKeywordsStep(tagged: seq<Tagged>, start: nat)
    requires start < |tagged|
    ensures ExtractKeywords(tagged[start..])
            == (if IsKeywordTag(tagged[start].1) then [Lower(tagged[start].0)] else [])
               + ExtractKeywords(tagged[start + 1..])
  {
    assert tagged[start..][0] == tagged[start];
    assert tagged[start..][1..] == tagged[start + 1..];
  }

  /** Every keyword is the lower-cased form of some keyword-tagged token. */
  lemma KeywordsComeFromTaggedTokens(tagged: seq<Tagged>, w: string)
    requires w in ExtractKeywords(tagged)
    ensures exists i :: 0 <= i < |tagged| && IsKeywordTag(tagged[i].1) && w == Lower(tagged[i].0)
  {
    ExtractKeywordsInOrder(tagged, 0);
    assert tagged[0..] == tagged;
    var r := ExtractKeywords(tagged);
    var k :| 0 <= k < |r| && r[k] == w;
    var i := KeywordPositions(tagged, 0)[k];
    assert IsKeywordTag(tagged[i].1) && w == Lower(tagged[i].0);
  }

  /** Extraction distributes over concatenation of tagged sequences, so a
      keyword of an earlier token always precedes a keyword of a later one. */
  lemma {:induction false} ExtractKeywordsAppend(a: seq<Tagged>, b: seq<Tagged>)
    ensures ExtractKeywords(a + b) == ExtractKeywords(a) + ExtractKeywords(b)
  {
    if |a| > 0 {
      assert (a + b)[0] == a[0];
      assert (a + b)[1..] == a[1..] + b;
      ExtractKeywordsAppend(a[1..], b);
    } else {
      assert a + b == b;
    }
  }
}

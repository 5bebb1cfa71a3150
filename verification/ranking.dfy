/** Hashtag ranking (`generate_hashtags`): de-duplicate the keywords keeping
    first occurrences, keep those longer than three characters, stable-sort
    them by length with the longest first, take the first `num_hashtags` and
    format each as "#" followed by the capitalized keyword. */
module Ranking {
  import opened Seqs
  import opened Ascii

  /* ---------------------------------------------------------------------- */
  /* De-duplication: list(dict.fromkeys(keywords))                           */
  /* ---------------------------------------------------------------------- */

  /** The keywords with every repeat of an earlier keyword dropped. A Python
      dict keeps its keys in insertion order and a repeated key keeps its
      first position, so the list of keys is the first occurrences in order.
      Equality is exact: "Word" and "word" are different keys. */
  function Dedup(s: seq<string>): (r: seq<string>)
    ensures NoDup(r)
    ensures forall w :: w in r <==> w in s
  {
    if |s| == 0 then []
    else
      var init := s[..|s| - 1];
      var last := s[|s| - 1];
      assert s == init + [last];
      var d := Dedup(init);
      if last in d then d else d + [last]
  }

  /** The elements of `q` come in strictly increasing order of their first
      occurrence in `s` (which also rules out repeats). */
  ghost predicate InFirstOccurrenceOrder(s: seq<string>, q: seq<string>) {
    forall i, j :: 0 <= i < j < |q| ==>
      FirstIndex(s, q[i]) < FirstIndex(s, q[j])
  }

  /** De-duplication lists the keywords by first occurrence. */
  lemma {:induction false} DedupFirstOccurrenceOrder(s: seq<string>)
    ensures InFirstOccurrenceOrder(s, Dedup(s))
  {
    if |s| > 0 {
      var init := s[..|s| - 1];
      var last := s[|s| - 1];
      assert s == init + [last];
      DedupFirstOccurrenceOrder(init);
      var d := Dedup(init);
      FirstOccurrenceOrderExtend(init, last, d);
      if last !in d {
        FirstIndexAppend(init, last, last);
        forall w | w in d
          ensures FirstIndex(s, w) < FirstIndex(s, last)
        {
          FirstIndexAppend(init, last, w);
        }
        FirstOccurrenceOrderAppend(s, d, last);
      }
    }
  }

  /** Appending to `s` does not disturb the order of elements already in it. */
  lemma FirstOccurrenceOrderExtend(s: seq<string>, z: string, q: seq<string>)
    requires InFirstOccurrenceOrder(s, q)
    requires forall w :: w in q ==> w in s
    ensures InFirstOccurrenceOrder(s + [z], q)
  {
    forall w | w in q
      ensures FirstIndex(s + [z], w) == FirstIndex(s, w)
    {
      FirstIndexAppend(s, z, w);
    }
  }

  /** An element first occurring after all of `q` may follow `q`. */
  lemma FirstOccurrenceOrderAppend(s: seq<string>, q: seq<string>, x: string)
    requires InFirstOccurrenceOrder(s, q)
    requires forall w :: w in q ==> FirstIndex(s, w) < FirstIndex(s, x)
    ensures InFirstOccurrenceOrder(s, q + [x])
  {
    var r := q + [x];
    forall i, j | 0 <= i < j < |r|
      ensures FirstIndex(s, r[i]) < FirstIndex(s, r[j])
    {
      assert r[i] == q[i];
      if j < |q| {
        assert r[j] == q[j];
      }
    }
  }

  /** Two sequences with the same elements, both in first-occurrence order
      of the same `s`, are equal. */
  lemma {:induction false} FirstOccurrenceOrderUnique(s: seq<string>, a: seq<string>, b: seq<string>)
    requires InFirstOccurrenceOrder(s, a) && InFirstOccurrenceOrder(s, b)
    requires forall w :: w in a <==> w in b
    ensures a == b
  {
    assert |a| > 0 ==> a[0] in b;
    assert |b| > 0 ==> b[0] in a;
    if |a| > 0 && |b| > 0 {
      assert a[0] == b[0] by {
        assert a[0] in b && b[0] in a;
        var p :| 0 <= p < |b| && b[p] == a[0];
        var q :| 0 <= q < |a| && a[q] == b[0];
      }
      assert InFirstOccurrenceOrder(s, a[1..]) by {
        forall i, j | 0 <= i < j < |a[1..]|
          ensures FirstIndex(s, a[1..][i]) < FirstIndex(s, a[1..][j])
        {
          assert a[1..][i] == a[i + 1] && a[1..][j] == a[j + 1];
        }
      }
      assert InFirstOccurrenceOrder(s, b[1..]) by {
        forall i, j | 0 <= i < j < |b[1..]|
          ensures FirstIndex(s, b[1..][i]) < FirstIndex(s, b[1..][j])
        {
          assert b[1..][i] == b[i + 1] && b[1..][j] == b[j + 1];
        }
      }
      forall w
        ensures w in a[1..] <==> w in b[1..]
      {
        FirstOccurrenceTail(s, a, w);
        FirstOccurrenceTail(s, b, w);
      }
      FirstOccurrenceOrderUnique(s, a[1..], b[1..]);
      assert a == [a[0]] + a[1..] && b == [b[0]] + b[1..];
    }
  }

  lemma FirstOccurrenceTail(s: seq<string>, a: seq<string>, w: string)
    requires InFirstOccurrenceOrder(s, a) && |a| > 0
    ensures w in a[1..] <==> w in a && w != a[0]
  {
    if w in a[1..] {
      var k :| 0 <= k < |a[1..]| && a[1..][k] == w;
      assert a[k + 1] == w;
    }
    if w in a && w != a[0] {
      var k :| 0 <= k < |a| && a[k] == w;
      assert a[1..][k - 1] == w;
    }
  }

  /** The de-duplicated keywords are the only sequence that holds every
      keyword once, in first-occurrence order. */
  lemma DedupCharacterization(s: seq<string>, q: seq<string>)
    requires InFirstOccurrenceOrder(s, q)
    requires forall w :: w in q <==> w in s
    ensures q == Dedup(s)
  {
    DedupFirstOccurrenceOrder(s);
    FirstOccurrenceOrderUnique(s, q, Dedup(s));
  }

  /* ---------------------------------------------------------------------- */
  /* Length filter and stable sort                                          */
  /* ---------------------------------------------------------------------- */

  /** A keyword long enough to become a hashtag: more than three characters. */
  predicate IsLong(w: string) { |w| > 3 }

  function LongWords(s: seq<string>): (r: seq<string>)
    ensures forall w :: w in r <==> w in s && |w| > 3
  {
    Filter(IsLong, s)
  }

  function HasLength(n: nat): string -> bool {
    (w: string) => |w| == n
  }

  /** The words of length `n` in `s`, in their order in `s`. */
  function OfLength(s: seq<string>, n: nat): (r: seq<string>)
    ensures forall w :: w in r <==> w in s && |w| == n
  {
    Filter(HasLength(n), s)
  }

  predicate SortedByLengthDesc(s: seq<string>) {
    forall i, j :: 0 <= i < j < |s| ==> |s[i]| >= |s[j]|
  }

  /** Inserts `w` into a sequence sorted longest first, in front of the first
      word that is not longer than `w`. */
  function Insert(w: string, s: seq<string>): (r: seq<string>)
    requires SortedByLengthDesc(s)
    ensures SortedByLengthDesc(r)
    ensures forall x :: x in r <==> x == w || x in s
  {
    if |s| == 0 || |w| >= |s[0]| then [w] + s
    else
      assert s == [s[0]] + s[1..];
      var t := Insert(w, s[1..]);
      assert forall i :: 0 <= i < |t| ==> t[i] in t;
      [s[0]] + t
  }

  /** Insertion adds `w` and nothing else. */
  lemma {:induction false} InsertPermutation(w: string, s: seq<string>)
    requires SortedByLengthDesc(s)
    ensures multiset(Insert(w, s)) == multiset(s) + multiset{w}
  {
    if |s| > 0 && |w| < |s[0]| {
      InsertPermutation(w, s[1..]);
      assert s == [s[0]] + s[1..];
    }
  }

  /** `sorted(s, key=len, reverse=True)`: Python's sort is stable even when
      reversed, so words of equal length keep their order. Insertion from
      the back of the input puts each word in front of the later words of
      equal length. */
  function SortByLengthDesc(s: seq<string>): (r: seq<string>)
    ensures SortedByLengthDesc(r)
    ensures multiset(r) == multiset(s)
  {
    if |s| == 0 then []
    else
      assert s == [s[0]] + s[1..];
      InsertPermutation(s[0], SortByLengthDesc(s[1..]));
      Insert(s[0], SortByLengthDesc(s[1..]))
  }

  lemma {:induction false} InsertOfLength(w: string, s: seq<string>, n: nat)
    requires SortedByLengthDesc(s)
    ensures OfLength(Insert(w, s), n) == IfLength(w, n) + OfLength(s, n)
  {
    if |s| == 0 || |w| >= |s[0]| {
      assert Insert(w, s) == [w] + s;
      OfLengthPrepend(w, s, n);
    } else {
      var t := Insert(w, s[1..]);
      assert Insert(w, s) == [s[0]] + t;
      SortedTail(s);
      InsertOfLength(w, s[1..], n);
      OfLengthPrepend(s[0], t, n);
      OfLengthPrepend(s[0], s[1..], n);
      assert [s[0]] + s[1..] == s;
      IfLengthCommute(s[0], w, n, OfLength(s[1..], n));
    }
  }

  /** `[w]` when `w` has length `n`, and nothing otherwise. */
  function IfLength(w: string, n: nat): (r: seq<string>)
    ensures r == [] || r == [w]
  {
    if |w| == n then [w] else []
  }

  /** Two words of different lengths cannot both have length `n`. */
  lemma IfLengthCommute(a: string, b: string, n: nat, rest: seq<string>)
    requires |a| != |b|
    ensures IfLength(a, n) + (IfLength(b, n) + rest) == IfLength(b, n) + (IfLength(a, n) + rest)
  {
  }

  /** The words of length `n` in a sequence with `a` in front of `t`. */
  lemma OfLengthPrepend(a: string, t: seq<string>, n: nat)
    ensures OfLength([a] + t, n) == IfLength(a, n) + OfLength(t, n)
  {
    assert ([a] + t)[1..] == t;
  }

  /** The sort is stable: for every length, the words of that length appear
      in the result exactly as they appear in the input. */
  lemma {:induction false} SortStable(s: seq<string>, n: nat)
    ensures OfLength(SortByLengthDesc(s), n) == OfLength(s, n)
  {
    if |s| > 0 {
      SortStable(s[1..], n);
      InsertOfLength(s[0], SortByLengthDesc(s[1..]), n);
    }
  }

  /** A sequence sorted longest first is determined by its words of each
      length: two such sequences that agree length by length are equal. */
  lemma {:induction false} SortedLayersEqual(q: seq<string>, r: seq<string>)
    requires SortedByLengthDesc(q) && SortedByLengthDesc(r)
    requires forall n: nat :: OfLength(q, n) == OfLength(r, n)
    ensures q == r
  {
    assert |q| > 0 ==> q[0] in OfLength(q, |q[0]|);
    assert |r| > 0 ==> r[0] in OfLength(r, |r[0]|);
    if |q| > 0 && |r| > 0 {
      var n := |q[0]|;
      assert |r[0]| == n by {
        assert q[0] in OfLength(r, n);
        assert r[0] in OfLength(q, |r[0]|);
      }
      OfLengthCons(q, n);
      OfLengthCons(r, n);
      assert q[0] == OfLength(q, n)[0] == OfLength(r, n)[0] == r[0];
      forall m: nat
        ensures OfLength(q[1..], m) == OfLength(r[1..], m)
      {
        OfLengthCons(q, m);
        OfLengthCons(r, m);
        assert OfLength(q, m) == OfLength(r, m);
        if m == n {
          assert OfLength(q[1..], m) == OfLength(q, m)[1..];
          assert OfLength(r[1..], m) == OfLength(r, m)[1..];
        } else {
          assert OfLength(q[1..], m) == OfLength(q, m);
          assert OfLength(r[1..], m) == OfLength(r, m);
        }
      }
      SortedTail(q);
      SortedTail(r);
      SortedLayersEqual(q[1..], r[1..]);
      assert q == [q[0]] + q[1..] && r == [r[0]] + r[1..];
    }
  }

  lemma OfLengthCons(s: seq<string>, n: nat)
    requires |s| > 0
    ensures OfLength(s, n) == IfLength(s[0], n) + OfLength(s[1..], n)
  {
  }

  lemma SortedTail(s: seq<string>)
    requires SortedByLengthDesc(s) && |s| > 0
    ensures SortedByLengthDesc(s[1..])
  {
    forall i, j | 0 <= i < j < |s[1..]|
      ensures |s[1..][i]| >= |s[1..][j]|
    {
      assert s[1..][i] == s[i + 1] && s[1..][j] == s[j + 1];
    }
  }

  /** The stable sort is the only arrangement of the input that is sorted
      longest first and keeps every length's words in input order. */
  lemma SortCharacterization(s: seq<string>, q: seq<string>)
    requires SortedByLengthDesc(q)
    requires forall n: nat :: OfLength(q, n) == OfLength(s, n)
    ensures q == SortByLengthDesc(s)
  {
    forall n: nat
      ensures OfLength(q, n) == OfLength(SortByLengthDesc(s), n)
    {
      SortStable(s, n);
    }
    SortedLayersEqual(q, SortByLengthDesc(s));
  }

  /* ---------------------------------------------------------------------- */
  /* Ranking                                                                */
  /* ---------------------------------------------------------------------- */

  /** `sorted_keywords`: the hashtag candidates in rank order. */
  function RankedKeywords(keywords: seq<string>): seq<string> {
    SortByLengthDesc(LongWords(Dedup(keywords)))
  }

  /** Words of equal length are in first-occurrence order of `s`. */
  ghost predicate TiesInFirstOccurrenceOrder(s: seq<string>, q: seq<string>) {
    forall i, j :: 0 <= i < j < |q| && |q[i]| == |q[j]| ==>
      FirstIndex(s, q[i]) < FirstIndex(s, q[j])
  }

  /** The words of one length of a tie-ordered sequence are in first-occurrence
      order. */
  lemma LayerInFirstOccurrenceOrder(s: seq<string>, q: seq<string>, n: nat)
    requires TiesInFirstOccurrenceOrder(s, q)
    ensures InFirstOccurrenceOrder(s, OfLength(q, n))
  {
    var f := OfLength(q, n);
    forall a, b | 0 <= a < b < |f|
      ensures FirstIndex(s, f[a]) < FirstIndex(s, f[b])
    {
      assert f[a] in f && f[b] in f;
      assert Before(f, f[a], f[b]);
      FilterReflectsOrder(HasLength(n), q, f[a], f[b]);
      var i, j :| 0 <= i < j < |q| && q[i] == f[a] && q[j] == f[b];
      assert |q[i]| == |q[j]|;
    }
    assert InFirstOccurrenceOrder(s, f);
  }

  /** The ranked candidates: each long keyword exactly once, longest first,
      and keywords of equal length in first-occurrence order. */
  lemma RankedKeywordsSpec(keywords: seq<string>)
    ensures NoDup(RankedKeywords(keywords))
    ensures forall w :: w in RankedKeywords(keywords) <==> w in keywords && |w| > 3
    ensures SortedByLengthDesc(RankedKeywords(keywords))
    ensures TiesInFirstOccurrenceOrder(keywords, RankedKeywords(keywords))
  {
    var r := RankedKeywords(keywords);
    RankedKeywordsMembers(keywords);
    forall i, j | 0 <= i < j < |r| && |r[i]| == |r[j]|
      ensures FirstIndex(keywords, r[i]) < FirstIndex(keywords, r[j])
    {
      RankedTieOrder(keywords, i, j);
    }
    assert NoDup(r) by {
      forall i, j | 0 <= i < j < |r|
        ensures r[i] != r[j]
      {
        if |r[i]| == |r[j]| {
          RankedTieOrder(keywords, i, j);
        }
      }
    }
  }

  lemma RankedKeywordsMembers(keywords: seq<string>)
    ensures forall w :: w in RankedKeywords(keywords) <==> w in keywords && |w| > 3
  {
    var r := RankedKeywords(keywords);
    forall w
      ensures w in r <==> w in LongWords(Dedup(keywords))
    {
      assert w in r <==> w in multiset(r);
    }
  }

  lemma RankedTieOrder(keywords: seq<string>, i: nat, j: nat)
    requires i < j < |RankedKeywords(keywords)|
    requires |RankedKeywords(keywords)[i]| == |RankedKeywords(keywords)[j]|
    ensures FirstIndex(keywords, RankedKeywords(keywords)[i]) < FirstIndex(keywords, RankedKeywords(keywords)[j])
  {
    var d := Dedup(keywords);
    var f := LongWords(d);
    var r := RankedKeywords(keywords);
    var x, y := r[i], r[j];
    var n := |x|;
    SortStable(f, n);
    assert Before(r, x, y);
    FilterKeepsOrder(HasLength(n), r, x, y);
    FilterReflectsOrder(HasLength(n), f, x, y);
    FilterReflectsOrder(IsLong, d, x, y);
    var a, b :| 0 <= a < b < |d| && d[a] == x && d[b] == y;
    DedupFirstOccurrenceOrder(keywords);
  }

  /** The only sequence with the properties of `RankedKeywordsSpec` is the
      ranked list itself, so those properties define the ranking. */
  lemma RankedKeywordsCharacterization(keywords: seq<string>, q: seq<string>)
    requires forall w :: w in q <==> w in keywords && |w| > 3
    requires SortedByLengthDesc(q)
    requires TiesInFirstOccurrenceOrder(keywords, q)
    ensures q == RankedKeywords(keywords)
  {
    var r := RankedKeywords(keywords);
    RankedKeywordsSpec(keywords);
    forall n: nat
      ensures OfLength(q, n) == OfLength(r, n)
    {
      LayerInFirstOccurrenceOrder(keywords, q, n);
      LayerInFirstOccurrenceOrder(keywords, r, n);
      FirstOccurrenceOrderUnique(keywords, OfLength(q, n), OfLength(r, n));
    }
    SortedLayersEqual(q, r);
  }

  /** There are as many ranked candidates as distinct keywords longer than
      three characters. */
  lemma RankedKeywordsCount(keywords: seq<string>)
    ensures |RankedKeywords(keywords)| == |set w | w in keywords && |w| > 3|
  {
    var r := RankedKeywords(keywords);
    RankedKeywordsSpec(keywords);
    NoDupCardinality(r);
    assert (set w | w in r) == (set w | w in keywords && |w| > 3);
  }

  /* ---------------------------------------------------------------------- */
  /* Take and format                                                        */
  /* ---------------------------------------------------------------------- */

  /** Python's slice `s[:n]`: the first `n` elements, all of them when `n`
      exceeds the length, and for negative `n` all but the last `-n`. */
  function Take<T>(s: seq<T>, n: int): (r: seq<T>)
    ensures r <= s
    ensures 0 <= n ==> |r| == if n < |s| then n else |s|
    ensures n < 0 ==> |r| == if |s| + n > 0 then |s| + n else 0
  {
    if 0 <= n then (if n < |s| then s[..n] else s)
    else if |s| + n > 0 then s[..|s| + n]
    else []
  }

  /** `f"#{word.capitalize()}"`: '#', then the word with its first letter
      capital and every later letter small; only the case changes. */
  function Format(w: string): (h: string)
    ensures |h| == |w| + 1 && h[0] == '#'
    ensures |w| > 0 ==> !IsLower(h[1])
    ensures |w| > 0 ==> IsLowerCase(h[2..])
    ensures Lower(h[1..]) == Lower(w)
    ensures h[1..] == Capitalize(w)
  {
    var h := "#" + Capitalize(w);
    assert h[1..] == Capitalize(w);
    CapitalizeLower(w);
    assert |w| > 0 ==> h[2..] == Capitalize(w)[1..];
    h
  }

  /** Reading a hashtag back: the keyword is the lower-cased text after '#'. */
  function Unformat(h: string): string
    requires |h| > 0
  {
    Lower(h[1..])
  }

  /** Formatting a lower-case keyword is undone by `Unformat`. */
  lemma FormatRoundTrip(w: string)
    requires IsLowerCase(w)
    ensures Unformat(Format(w)) == w
  {
    CapitalizeRoundTrip(w);
  }

  /** The list comprehension of `generate_hashtags`: one hashtag per word,
      in order, each '#' and the capitalized word. */
  function FormatAll(ws: seq<string>): (hs: seq<string>)
    ensures |hs| == |ws|
    ensures forall i :: 0 <= i < |ws| ==>
              |hs[i]| == |ws[i]| + 1 && hs[i][0] == '#' && Lower(hs[i][1..]) == Lower(ws[i])
              && (|ws[i]| > 0 ==> !IsLower(hs[i][1]) && IsLowerCase(hs[i][2..]))
  {
    seq(|ws|, i requires 0 <= i < |ws| => Format(ws[i]))
  }

  /** `generate_hashtags(keywords, num_hashtags)`. */
  function GenerateHashtags(keywords: seq<string>, num: int): (r: seq<string>)
    ensures 0 <= num ==> |r| <= num
    ensures |r| <= |RankedKeywords(keywords)|
  {
    FormatAll(Take(RankedKeywords(keywords), num))
  }

  /** Every hashtag is at least five characters long and starts with '#',
      and the hashtags never get longer from one to the next. */
  lemma GenerateHashtagsShape(keywords: seq<string>, num: int)
    ensures forall h :: h in GenerateHashtags(keywords, num) ==> |h| >= 5 && h[0] == '#'
    ensures var r := GenerateHashtags(keywords, num);
            forall i, j :: 0 <= i < j < |r| ==> |r[i]| >= |r[j]|
  {
    RankedKeywordsSpec(keywords);
    var ranked := RankedKeywords(keywords);
    assert forall i :: 0 <= i < |ranked| ==> ranked[i] in ranked;
  }

  /** The hashtags are the formatted first entries of the ranked list. */
  lemma GenerateHashtagsIsFormattedPrefix(keywords: seq<string>, num: int)
    ensures forall i :: 0 <= i < |GenerateHashtags(keywords, num)| ==>
              GenerateHashtags(keywords, num)[i] == Format(RankedKeywords(keywords)[i])
  {
  }

  /** For a non-negative count the number of hashtags is the smaller of the
      count and the number of distinct keywords longer than three characters. */
  lemma GenerateHashtagsLength(keywords: seq<string>, num: int)
    requires 0 <= num
    ensures var m := |set w | w in keywords && |w| > 3|;
            |GenerateHashtags(keywords, num)| == if num < m then num else m
  {
    RankedKeywordsCount(keywords);
  }

  /** Every hashtag is '#' followed by the capitalized form of an input
      keyword longer than three characters. */
  lemma GenerateHashtagsFromKeywords(keywords: seq<string>, num: int)
    ensures forall h :: h in GenerateHashtags(keywords, num) ==>
              exists w :: w in keywords && |w| > 3 && h == "#" + Capitalize(w)
  {
    var r := GenerateHashtags(keywords, num);
    forall h | h in r
      ensures exists w :: w in keywords && |w| > 3 && h == "#" + Capitalize(w)
    {
      var i :| 0 <= i < |r| && r[i] == h;
      HashtagOfCandidate(keywords, num, i);
    }
  }

  /** The i-th hashtag comes from the i-th ranked candidate. */
  lemma HashtagOfCandidate(keywords: seq<string>, num: int, i: nat)
    requires i < |GenerateHashtags(keywords, num)|
    ensures var w := RankedKeywords(keywords)[i];
            w in keywords && |w| > 3 && GenerateHashtags(keywords, num)[i] == "#" + Capitalize(w)
  {
    var ranked := RankedKeywords(keywords);
    RankedKeywordsMembers(keywords);
    assert ranked[i] in ranked;
  }

  /** The keywords behind the hashtags come longest first, equal lengths in
      first-occurrence order. */
  lemma GenerateHashtagsOrder(keywords: seq<string>, num: int)
    ensures var ranked := RankedKeywords(keywords);
            var n := |GenerateHashtags(keywords, num)|;
            && SortedByLengthDesc(ranked[..n])
            && TiesInFirstOccurrenceOrder(keywords, ranked[..n])
  {
    RankedKeywordsSpec(keywords);
  }

  /** Raising the count only appends hashtags; it never reorders or
      replaces the earlier ones. */
  lemma GenerateHashtagsPrefix(keywords: seq<string>, n: int, m: int)
    requires 0 <= n <= m
    ensures GenerateHashtags(keywords, n) <= GenerateHashtags(keywords, m)
  {
    var a := GenerateHashtags(keywords, n);
    var b := GenerateHashtags(keywords, m);
    assert |a| <= |b|;
    assert forall i :: 0 <= i < |a| ==> a[i] == b[i];
  }

  /** Keywords that are already lower case give pairwise distinct hashtags. */
  lemma GenerateHashtagsDistinct(keywords: seq<string>, num: int)
    requires forall w :: w in keywords ==> IsLowerCase(w)
    ensures NoDup(GenerateHashtags(keywords, num))
  {
    var r := GenerateHashtags(keywords, num);
    var ranked := RankedKeywords(keywords);
    RankedKeywordsSpec(keywords);
    forall i, j | 0 <= i < j < |r|
      ensures r[i] != r[j]
    {
      assert ranked[i] in ranked && ranked[j] in ranked;
      CapitalizeInjective(ranked[i], ranked[j]);
      assert r[i][1..] == Capitalize(ranked[i]);
    }
  }

  /** Called directly on mixed-case keywords, de-duplication is by exact
      equality, so two spellings of one word both survive and format to the
      same hashtag. */
  lemma MixedCaseKeepsBothSpellings()
    ensures GenerateHashtags(["Word", "word"], 3) == ["#Word", "#Word"]
  {
    MixedCaseRanked();
    MixedCaseFormatAll();
    TakeAll(["Word", "word"], 3);
  }

  lemma TakeAll<T>(s: seq<T>, n: int)
    requires |s| <= n
    ensures Take(s, n) == s
  {
  }

  lemma MixedCaseFormatAll()
    ensures FormatAll(["Word", "word"]) == ["#Word", "#Word"]
  {
    MixedCaseFormat();
    var hs := FormatAll(["Word", "word"]);
    assert hs == [hs[0], hs[1]];
  }

  lemma MixedCaseRanked()
    ensures RankedKeywords(["Word", "word"]) == ["Word", "word"]
  {
    var k := ["Word", "word"];
    assert FirstIndex(k, "Word") == 0;
    assert FirstIndex(k, "word") == 1 by {
      assert k[1..][0] == "word";
    }
    RankedKeywordsCharacterization(k, k);
  }

  lemma MixedCaseFormat()
    ensures Format("Word") == "#Word" && Format("word") == "#Word"
  {
    assert Lower("ord") == "ord";
    assert Capitalize("Word") == "W" + "ord";
    assert Capitalize("word") == "W" + "ord";
    assert "#" + ("W" + "ord") == "#Word";
  }

  /** A worked ranking: the repeated "forest" counts once, "dog" is too
      short, "moonlight" is longest, and "forest" and "bright" tie on length
      and keep their first-occurrence order. */
  lemma RankingExample()
    ensures RankedKeywords(["forest", "bright", "dog", "moonlight", "forest"])
            == ["moonlight", "forest", "bright"]
  {
    ExampleMembers();
    ExampleTies();
    ExampleSorted();
    RankedKeywordsCharacterization(["forest", "bright", "dog", "moonlight", "forest"],
                                   ["moonlight", "forest", "bright"]);
  }

  lemma ExampleSorted()
    ensures SortedByLengthDesc(["moonlight", "forest", "bright"])
  {
  }

  lemma ExampleMembers()
    ensures forall w :: w in ["moonlight", "forest", "bright"] <==>
                        w in ["forest", "bright", "dog", "moonlight", "forest"] && |w| > 3
  {
  }

  lemma ExampleTies()
    ensures TiesInFirstOccurrenceOrder(["forest", "bright", "dog", "moonlight", "forest"],
                                       ["moonlight", "forest", "bright"])
  {
    var k := ["forest", "bright", "dog", "moonlight", "forest"];
    assert FirstIndex(k, "forest") == 0;
    assert FirstIndex(k, "bright") == 1 by {
      assert k[1..][0] == "bright";
    }
  }
}

/** `decouper_rgpd` end to end: collapse the page text, keep the recitals, find
    where the articles start, take the special Article 1 and merge the article
    matches, sort, and report the article numbers missing below 100.

    The regular expressions are not modelled: an `Engine` gives, for each place
    where the source calls `re.search` or `re.finditer`, what that call returns
    on the text it is given. */
module Segmenter {
  import opened Wrappers
  import opened Text
  import opened Chunks
  import opened Sorting
  import opened Recitals
  import opened Articles

  datatype Engine = Engine(
    // `re.finditer(pattern_considerants, text)`: number and body of each recital match
    recitals: string -> seq<RawMatch>,
    // `re.search(r'CHAPITRE\s+I', text)`: start of the first match
    chapterStart: string -> Option<nat>,
    // `re.search(pattern_dernier, text)` for the given last recital number: end of the match
    afterRecital: (string, nat) -> Option<nat>,
    // `re.search(pattern, region)` for one Article 1 spelling: the captured body
    articleOne: (ArticleOnePattern, string) -> Option<string>,
    // `re.finditer(pattern_articles, region)`: number and body of each article match
    articles: string -> seq<RawMatch>)

  /** Why the source raises: `max()` of the recital numbers or `min()` of the
      article numbers is taken over an empty list (a ValueError). */
  datatype SegmentError = NoRecitalForFallback | NoArticles

  /** The chunk list, and the missing-article diagnostic the source prints. */
  datatype Segmentation = Segmentation(chunks: seq<Chunk>, missing: seq<nat>)

  /** Article numbers are checked for gaps in `range(1, 100)`. */
  const MissingLimit: nat := 100

  /** Python's `s[p:]`. */
  function Suffix(s: string, p: nat): (r: string)
    ensures |r| <= |s| && r == s[|s| - |r|..]
    ensures p <= |s| ==> |r| == |s| - p
  {
    if p <= |s| then s[p..] else []
  }

  /** `max(c['numero'] for c in cs)`. */
  function MaxNumero(cs: seq<Chunk>): (m: nat)
    requires cs != []
    ensures exists i :: 0 <= i < |cs| && cs[i].numero == m
    ensures forall i :: 0 <= i < |cs| ==> cs[i].numero <= m
  {
    if |cs| == 1 then cs[0].numero
    else
      var rest := MaxNumero(cs[1..]);
      assert forall i :: 1 <= i < |cs| ==> cs[i] == cs[1..][i - 1];
      if cs[0].numero >= rest then cs[0].numero else rest
  }

  /** The text the article patterns are run on: from the chapter marker when
      there is one; otherwise from the end of the match that runs from the last
      recital up to "Article 1", or the whole text when that fails too. The
      fallback needs the largest recital number, so it fails with no recitals. */
  function ArticleRegion(engine: Engine, text: string, recitals: seq<Chunk>): (r: Result<string, SegmentError>)
    ensures r.Failure? <==> engine.chapterStart(text).None? && recitals == []
    ensures r.Failure? ==> r.error == NoRecitalForFallback
    ensures r.Success? ==> |r.value| <= |text| && r.value == text[|text| - |r.value|..]
    ensures engine.chapterStart(text).Some? && engine.chapterStart(text).value <= |text| ==>
      r == Success(text[engine.chapterStart(text).value..])
    ensures engine.chapterStart(text).None? && recitals != [] ==>
      var end := engine.afterRecital(text, MaxNumero(recitals));
      r == if end.Some? then Success(Suffix(text, end.value)) else Success(text)
  {
    match engine.chapterStart(text)
    case Some(start) => Success(Suffix(text, start))
    case None =>
      if recitals == [] then Failure(NoRecitalForFallback)
      else
        match engine.afterRecital(text, MaxNumero(recitals))
        case Some(end) => Success(Suffix(text, end))
        case None => Success(text)
  }

  /** The Article 1 searches over one region. */
  function SearchIn(engine: Engine, region: string): ArticleOnePattern -> Option<string>
  {
    p => engine.articleOne(p, region)
  }

  /** The article dictionary the source builds over `region`. */
  ghost function ArticleTable(engine: Engine, region: string): Table
  {
    Merge(Candidates(FirstArticleOne(SearchIn(engine, region), ArticleOnePatterns), engine.articles(region)))
  }

  /** The article numbers of `cs`, in order. */
  function ArticleNumbers(cs: seq<Chunk>): (ns: seq<nat>)
    ensures forall n :: n in ns <==> exists i :: 0 <= i < |cs| && cs[i].kind == Article && cs[i].numero == n
  {
    if cs == [] then []
    else
      var rest := ArticleNumbers(cs[1..]);
      assert forall i :: 1 <= i < |cs| ==> cs[i] == cs[1..][i - 1];
      (if cs[0].kind == Article then [cs[0].numero] else []) + rest
  }

  /** `[i for i in range(lo, 100) if i not in numeros]`. */
  function MissingFrom(lo: nat, numeros: seq<nat>): (r: seq<nat>)
    ensures forall n :: n in r <==> lo <= n < MissingLimit && n !in numeros
    ensures forall a, b :: 0 <= a < b < |r| ==> r[a] < r[b]
    decreases MissingLimit - lo
  {
    if lo >= MissingLimit then []
    else
      var rest := MissingFrom(lo + 1, numeros);
      assert forall b :: 0 <= b < |rest| ==> lo < rest[b] by {
        forall b | 0 <= b < |rest| ensures lo < rest[b] { assert rest[b] in rest; }
      }
      (if lo in numeros then [] else [lo]) + rest
  }

  /** The article numbers in 1..99 that no article carries, ascending. */
  function Missing(numeros: seq<nat>): (r: seq<nat>)
    ensures forall n :: n in r <==> 1 <= n < MissingLimit && n !in numeros
    ensures forall a, b :: 0 <= a < b < |r| ==> r[a] < r[b]
  {
    MissingFrom(1, numeros)
  }

  /** What every successful run returns: sorted (recitals first, each group by
      number), every body longer than 50 characters with the title and id of its
      kind and number, ids shared only by recitals of the same number, and at
      least one article. */
  ghost predicate WellFormedOutput(cs: seq<Chunk>)
  {
    && Grouped(cs)
    && (forall i :: 0 <= i < |cs| ==> Derived(cs[i]) && |cs[i].contenu| > MinBody)
    && (forall i, j :: 0 <= i < j < |cs| ==>
          (cs[i].id == cs[j].id <==> cs[i].kind == Recital && cs[j].kind == Recital && cs[i].numero == cs[j].numero))
    && (exists i :: 0 <= i < |cs| && cs[i].kind == Article)
  }

  /** `missing` lists, in ascending order, exactly the numbers in 1..99 that no
      article of `cs` carries. */
  ghost predicate ReportsMissing(cs: seq<Chunk>, missing: seq<nat>)
  {
    && (forall n :: n in missing <==>
          1 <= n < MissingLimit && forall i :: 0 <= i < |cs| && cs[i].kind == Article ==> cs[i].numero != n)
    && (forall a, b :: 0 <= a < b < |missing| ==> missing[a] < missing[b])
  }

  method Segment(pageText: string, engine: Engine) returns (r: Result<Segmentation, SegmentError>)
    ensures var text := Collapse(pageText);
      var recitals := KeptRecitals(engine.recitals(text));
      var region := ArticleRegion(engine, text, recitals);
      && (r == Failure(NoRecitalForFallback) <==> region.Failure?)
      && (region.Success? ==>
            var table := ArticleTable(engine, region.value);
            && (r == Failure(NoArticles) <==> table.entries == map[])
            && (r.Success? ==>
                  && multiset(r.value.chunks) == multiset(recitals + Values(table))
                  && forall kind: Kind, n: nat ::
                       WithKey(r.value.chunks, kind, n) == WithKey(recitals + Values(table), kind, n)))
    ensures r.Success? ==> WellFormedOutput(r.value.chunks)
    ensures r.Success? ==> ReportsMissing(r.value.chunks, r.value.missing)
  {
    var text := Collapse(pageText);
    var chunks := ExtractRecitals(engine.recitals(text));
    ghost var recitals := chunks;
    var region := ArticleRegion(engine, text, chunks);
    if region.Failure? {
      return Failure(region.error);
    }
    var seed, _ := FindArticleOne(SearchIn(engine, region.value));
    var articles := MergeArticles(seed, engine.articles(region.value));
    ghost var table := ArticleTable(engine, region.value);
    assert articles == Values(table);
    assert forall c :: c in recitals ==> c.kind == Recital && |c.contenu| > MinBody && Derived(c) by {
      KeptRecitalsWellFormed(engine.recitals(text));
    }
    assert TableValid(table) by {
      MergeValid(Candidates(seed, engine.articles(region.value)));
    }
    chunks := chunks + articles;
    chunks := SortChunks(chunks);
    assert forall kind: Kind, n: nat :: WithKey(chunks, kind, n) == WithKey(recitals + articles, kind, n) by {
      forall kind: Kind, n: nat ensures WithKey(chunks, kind, n) == WithKey(recitals + articles, kind, n) {
        SortStable(recitals + articles, kind, n);
      }
    }
    var numeros := ArticleNumbers(chunks);
    assert && (forall c :: c in articles ==> c.kind == Article && |c.contenu| > MinBody && Derived(c))
                       && (forall n :: |WithKey(articles, Article, n)| <= 1)
                       && (articles == [] <==> table.entries == map[]) by {
      ValuesWellFormed(table);
    }
    assert numeros == [] <==> table.entries == map[] by {
      HasArticleIff(recitals, articles, chunks);
      NoArticleNumbers(chunks);
    }
    if numeros == [] {
      return Failure(NoArticles);
    }
    assert WellFormedOutput(chunks) by {
      OutputWellFormed(recitals, articles, chunks);
    }
    MissingArticles(chunks);
    r := Success(Segmentation(chunks, Missing(numeros)));
  }

  /** There are no article numbers exactly when `cs` holds no article. */
  lemma {:induction false} NoArticleNumbers(cs: seq<Chunk>)
    ensures ArticleNumbers(cs) == [] <==> !exists i :: 0 <= i < |cs| && cs[i].kind == Article
  {
    if cs != [] {
      NoArticleNumbers(cs[1..]);
      if cs[0].kind != Article {
        assert forall i :: 1 <= i < |cs| ==> cs[i] == cs[1..][i - 1];
        if exists i :: 0 <= i < |cs| && cs[i].kind == Article {
          var i :| 0 <= i < |cs| && cs[i].kind == Article;
          assert cs[1..][i - 1].kind == Article;
        }
      }
    }
  }

  /** A number is reported missing exactly when it lies in 1..99 and no article
      of `cs` carries it. */
  lemma MissingArticles(cs: seq<Chunk>)
    ensures ReportsMissing(cs, Missing(ArticleNumbers(cs)))
  {
    var ns := ArticleNumbers(cs);
    forall n ensures n in Missing(ns) <==>
      1 <= n < MissingLimit && forall i :: 0 <= i < |cs| && cs[i].kind == Article ==> cs[i].numero != n
    {
      assert n in ns <==> exists i :: 0 <= i < |cs| && cs[i].kind == Article && cs[i].numero == n;
    }
  }

  /** The values of a merged dictionary are well-formed articles, at most one per
      number, and there are some exactly when the dictionary is not empty. */
  lemma ValuesWellFormed(t: Table)
    requires TableValid(t)
    ensures forall c :: c in Values(t) ==> c.kind == Article && |c.contenu| > MinBody && Derived(c)
    ensures forall n :: |WithKey(Values(t), Article, n)| <= 1
    ensures Values(t) == [] <==> t.entries == map[]
  {
    ValuesOfSpec(t.entries, t.order);
    var v := Values(t);
    forall c | c in v ensures c.kind == Article && |c.contenu| > MinBody && Derived(c) {
      var i :| 0 <= i < |v| && v[i] == c;
      assert c == t.entries[t.order[i]];
    }
    forall n ensures |WithKey(v, Article, n)| <= 1 {
      DistinctOrderAtMostOne(t.entries, t.order, n);
    }
    if t.entries != map[] {
      var k :| k in t.entries;
      assert k in t.order;
    }
  }

  /** The sorted list holds an article exactly when there are articles to sort. */
  lemma HasArticleIff(recitals: seq<Chunk>, articles: seq<Chunk>, sorted: seq<Chunk>)
    requires forall c :: c in recitals ==> c.kind == Recital
    requires forall c :: c in articles ==> c.kind == Article
    requires multiset(sorted) == multiset(recitals + articles)
    ensures (exists i :: 0 <= i < |sorted| && sorted[i].kind == Article) <==> articles != []
  {
    if articles != [] {
      assert articles[0] in multiset(recitals + articles);
      assert articles[0] in multiset(sorted);
      var j :| 0 <= j < |sorted| && sorted[j] == articles[0];
    }
    if exists i :: 0 <= i < |sorted| && sorted[i].kind == Article {
      var i :| 0 <= i < |sorted| && sorted[i].kind == Article;
      assert sorted[i] in multiset(sorted);
      assert sorted[i] in recitals + articles;
      assert sorted[i] in articles;
    }
  }

  /** The sorted union of well-formed recitals and of well-formed articles, at
      most one per number and at least one in all, is a well-formed output. */
  lemma OutputWellFormed(recitals: seq<Chunk>, articles: seq<Chunk>, sorted: seq<Chunk>)
    requires forall c :: c in recitals ==> c.kind == Recital && |c.contenu| > MinBody && Derived(c)
    requires forall c :: c in articles ==> c.kind == Article && |c.contenu| > MinBody && Derived(c)
    requires forall n :: |WithKey(articles, Article, n)| <= 1
    requires articles != []
    requires sorted == SortChunks(recitals + articles)
    ensures WellFormedOutput(sorted)
  {
    var all := recitals + articles;
    SortedIffGrouped(sorted);
    forall i | 0 <= i < |sorted| ensures Derived(sorted[i]) && |sorted[i].contenu| > MinBody {
      assert sorted[i] in multiset(sorted);
      assert sorted[i] in all;
    }
    forall i, j | 0 <= i < j < |sorted|
      ensures sorted[i].id == sorted[j].id <==>
        sorted[i].kind == Recital && sorted[j].kind == Recital && sorted[i].numero == sorted[j].numero
    {
      IdDeterminesKindAndNumber(sorted[i], sorted[j]);
      if sorted[i].kind == Article && sorted[j].kind == Article && sorted[i].numero == sorted[j].numero {
        var n := sorted[i].numero;
        TwoWithKey(sorted, i, j, Article, n);
        SortStable(all, Article, n);
        WithKeyAppend(recitals, articles, Article, n);
        WithKeyAbsent(recitals, Article, n);
        assert false;
      }
    }
    HasArticleIff(recitals, articles, sorted);
  }

  lemma {:induction false} WithKeyAbsent(s: seq<Chunk>, kind: Kind, n: nat)
    requires forall c :: c in s ==> c.kind != kind
    ensures WithKey(s, kind, n) == []
  {
    if s != [] {
      assert forall c :: c in s[1..] ==> c in s;
      WithKeyAbsent(s[1..], kind, n);
    }
  }

  /** Two positions with the same key put two elements in that key's subsequence. */
  lemma {:induction false} TwoWithKey(s: seq<Chunk>, i: nat, j: nat, kind: Kind, n: nat)
    requires i < j < |s|
    requires s[i].kind == kind && s[i].numero == n && s[j].kind == kind && s[j].numero == n
    ensures |WithKey(s, kind, n)| >= 2
  {
    if i == 0 {
      OneWithKey(s[1..], j - 1, kind, n);
    } else {
      TwoWithKey(s[1..], i - 1, j - 1, kind, n);
    }
  }

  lemma {:induction false} OneWithKey(s: seq<Chunk>, j: nat, kind: Kind, n: nat)
    requires j < |s| && s[j].kind == kind && s[j].numero == n
    ensures |WithKey(s, kind, n)| >= 1
  {
    if j > 0 {
      OneWithKey(s[1..], j - 1, kind, n);
    }
  }

  lemma {:induction false} DistinctOrderAtMostOne(entries: map<nat, Chunk>, order: seq<nat>, n: nat)
    requires forall i, j :: 0 <= i < j < |order| ==> order[i] != order[j]
    requires forall k :: k in entries ==> entries[k].numero == k
    ensures |WithKey(ValuesOf(entries, order), Article, n)| <= 1
    ensures n !in order ==> WithKey(ValuesOf(entries, order), Article, n) == []
  {
    if order != [] {
      var head := if order[0] in entries then [entries[order[0]]] else [];
      var rest := ValuesOf(entries, order[1..]);
      DistinctOrderAtMostOne(entries, order[1..], n);
      WithKeyAppend(head, rest, Article, n);
      if order[0] == n {
        assert n !in order[1..];
      }
    }
  }
}

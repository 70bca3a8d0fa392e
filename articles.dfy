/** Article extraction (`decouper_rgpd`, second half): the trial of the Article 1
    spellings in order, and the merge of the article matches into a dictionary
    keyed by number where a strictly longer body replaces a shorter one. */
module Articles {
  import opened Wrappers
  import opened Text
  import opened Chunks

  /** The four spellings of the first article's heading, tried in this order:
      "Article premier", "ARTICLE PREMIER", "Article 1er", "Article 1". */
  datatype ArticleOnePattern = ArticlePremier | ArticlePremierUpper | Article1er | Article1

  const ArticleOnePatterns: seq<ArticleOnePattern> := [ArticlePremier, ArticlePremierUpper, Article1er, Article1]

  /** The body captured by the first pattern of `ps` that matches, where `search`
      gives the captured body of one pattern, or None when it does not match. */
  function FirstArticleOne(search: ArticleOnePattern -> Option<string>, ps: seq<ArticleOnePattern>): (r: Option<string>)
    ensures r.None? <==> forall i :: 0 <= i < |ps| ==> search(ps[i]).None?
    ensures r.Some? ==> exists i :: 0 <= i < |ps| && search(ps[i]) == r
                                    && forall j :: 0 <= j < i ==> search(ps[j]).None?
  {
    if ps == [] then None
    else match search(ps[0])
      case Some(body) => Some(body)
      case None =>
        var r := FirstArticleOne(search, ps[1..]);
        assert forall i :: 1 <= i < |ps| ==> ps[i] == ps[1..][i - 1];
        r
  }

  /** The pattern loop with its `break`: `tried` is how many patterns were searched. */
  method FindArticleOne(search: ArticleOnePattern -> Option<string>) returns (hit: Option<string>, tried: nat)
    ensures hit == FirstArticleOne(search, ArticleOnePatterns)
    ensures 1 <= tried <= |ArticleOnePatterns|
    ensures forall j :: 0 <= j < tried - 1 ==> search(ArticleOnePatterns[j]).None?
    ensures hit.Some? ==> search(ArticleOnePatterns[tried - 1]) == hit
    ensures hit.None? ==> tried == |ArticleOnePatterns|
  {
    hit := None;
    tried := 0;
    var i := 0;
    while i < |ArticleOnePatterns|
      invariant 0 <= i <= |ArticleOnePatterns| && tried == i
      invariant hit.None?
      invariant forall j :: 0 <= j < i ==> search(ArticleOnePatterns[j]).None?
      invariant FirstArticleOne(search, ArticleOnePatterns) == FirstArticleOne(search, ArticleOnePatterns[i..])
    {
      assert ArticleOnePatterns[i..][1..] == ArticleOnePatterns[i + 1..];
      hit := search(ArticleOnePatterns[i]);
      tried := tried + 1;
      if hit.Some? {
        break;
      }
      i := i + 1;
    }
  }

  /** `articles_dict`: the entries by number, and the keys in insertion order
      (a Python dict keeps its first insertion position when a key is overwritten). */
  datatype Table = Table(entries: map<nat, Chunk>, order: seq<nat>)

  /** Whether merging `x` into `t` writes an entry (the source's `if` conditions). */
  predicate Writes(t: Table, x: RawMatch)
  {
    var contenu := Strip(x.body);
    |contenu| > MinBody && (x.numero !in t.entries || |contenu| > |t.entries[x.numero].contenu|)
  }

  /** One merge step: the entry for `m`'s number is written only when the stripped
      body is longer than 50 characters and the number is absent or the body is
      strictly longer than the one held. */
  function Put(t: Table, m: RawMatch): Table
  {
    var contenu := Strip(m.body);
    if Writes(t, m) then
      Table(t.entries[m.numero := ArticleChunk(m.numero, contenu)],
            if m.numero in t.entries then t.order else t.order + [m.numero])
    else t
  }

  /** The table after merging the candidates `ms` in order. */
  function Merge(ms: seq<RawMatch>): Table
  {
    if ms == [] then Table(map[], []) else Put(Merge(ms[..|ms| - 1]), ms[|ms| - 1])
  }

  /** The merge candidates: the Article 1 body first when one was found, then the
      matches of the article pattern in order. */
  function Candidates(seed: Option<string>, ms: seq<RawMatch>): seq<RawMatch>
  {
    (if seed.Some? then [RawMatch(1, seed.value)] else []) + ms
  }

  /** `articles_dict.values()`: the entries in insertion order. */
  function Values(t: Table): seq<Chunk>
  {
    ValuesOf(t.entries, t.order)
  }

  function ValuesOf(entries: map<nat, Chunk>, order: seq<nat>): seq<Chunk>
  {
    if order == [] then []
    else (if order[0] in entries then [entries[order[0]]] else []) + ValuesOf(entries, order[1..])
  }

  ghost predicate TableValid(t: Table)
  {
    && (forall i, j :: 0 <= i < j < |t.order| ==> t.order[i] != t.order[j])
    && (forall k :: k in t.entries <==> k in t.order)
    && (forall k :: k in t.entries ==>
          t.entries[k] == ArticleChunk(k, t.entries[k].contenu) && |t.entries[k].contenu| > MinBody)
  }

  /** The seed and the match loop of the source, over a local dictionary. */
  method MergeArticles(seed: Option<string>, ms: seq<RawMatch>) returns (articles: seq<Chunk>)
    ensures articles == Values(Merge(Candidates(seed, ms)))
  {
    var entries: map<nat, Chunk> := map[];
    var order: seq<nat> := [];
    if seed.Some? {
      var contenu := Strip(seed.value);
      if |contenu| > MinBody {
        entries := entries[1 := Chunk(Article, 1, "Article 1", contenu, "article_1")];
        order := order + [1];
      }
      SeedStep(seed.value);
    }
    assert Candidates(seed, []) == Candidates(seed, ms[..0]);
    for i := 0 to |ms|
      invariant Table(entries, order) == Merge(Candidates(seed, ms[..i]))
    {
      CandidatesStep(seed, ms, i);
      var numero := ms[i].numero;
      var contenu := Strip(ms[i].body);
      if |contenu| > MinBody {
        if numero !in entries || |contenu| > |entries[numero].contenu| {
          if numero !in entries {
            order := order + [numero];
          }
          entries := entries[numero := ArticleChunk(numero, contenu)];
        }
      }
    }
    assert ms[..|ms|] == ms;
    articles := Values(Table(entries, order));
  }

  /** The literal record the source writes for the special Article 1 is the
      article chunk of number 1, and it is the first merge step. */
  lemma SeedStep(body: string)
    ensures var contenu := Strip(body);
      Merge(Candidates(Some(body), [])) ==
        if |contenu| > MinBody then Table(map[1 := Chunk(Article, 1, "Article 1", contenu, "article_1")], [1])
        else Table(map[], [])
  {
    assert NatToString(1) == "1";
    var contenu := Strip(body);
    assert ArticleChunk(1, contenu) == Chunk(Article, 1, "Article 1", contenu, "article_1");
    assert Candidates(Some(body), []) == [RawMatch(1, body)];
    assert [RawMatch(1, body)][..0] == [];
    assert Merge([RawMatch(1, body)]) == Put(Table(map[], []), RawMatch(1, body));
  }

  lemma CandidatesStep(seed: Option<string>, ms: seq<RawMatch>, i: nat)
    requires i < |ms|
    ensures Merge(Candidates(seed, ms[..i + 1])) == Put(Merge(Candidates(seed, ms[..i])), ms[i])
  {
    var c := Candidates(seed, ms[..i + 1]);
    assert c[..|c| - 1] == Candidates(seed, ms[..i]);
  }

  /** Keys and insertion order agree, no key is inserted twice, and every entry is
      the article chunk of its own number with a body longer than 50 characters. */
  lemma {:induction false} MergeValid(ms: seq<RawMatch>)
    ensures TableValid(Merge(ms))
  {
    if ms != [] {
      MergeValid(ms[..|ms| - 1]);
    }
  }

  /** A number has an entry exactly when some candidate with that number has a
      stripped body longer than 50 characters. */
  lemma {:induction false} MergeKeys(ms: seq<RawMatch>)
    ensures forall k :: k in Merge(ms).entries <==>
      exists i :: 0 <= i < |ms| && ms[i].numero == k && |Strip(ms[i].body)| > MinBody
  {
    if ms != [] {
      var p := ms[..|ms| - 1];
      MergeKeys(p);
      assert forall i :: 0 <= i < |p| ==> ms[i] == p[i];
    }
  }

  /** The body kept for a number is at least as long as every candidate body for it. */
  lemma {:induction false} MergeKeepsLongest(ms: seq<RawMatch>, k: nat)
    requires k in Merge(ms).entries
    ensures forall i :: 0 <= i < |ms| && ms[i].numero == k ==>
      |Strip(ms[i].body)| <= |Merge(ms).entries[k].contenu|
  {
    if ms == [] {
      assert false;
    }
    var p := ms[..|ms| - 1];
    var x := ms[|ms| - 1];
    var t := Merge(p);
    assert Merge(ms) == Put(t, x);
    assert forall i :: 0 <= i < |p| ==> ms[i] == p[i];
    var kept := Merge(ms).entries[k].contenu;
    if Writes(t, x) && x.numero == k {
      assert kept == Strip(x.body);
      if k in t.entries {
        MergeKeepsLongest(p, k);
      } else {
        MergeKeys(p);
      }
    } else {
      assert k in t.entries && t.entries[k] == Merge(ms).entries[k];
      MergeKeepsLongest(p, k);
      MergeValid(p);
    }
  }

  /** Among the candidate bodies for a number, the one kept is the earliest of
      maximal length: some candidate carries it, and every earlier candidate for
      that number is strictly shorter. */
  lemma {:induction false} MergeKeepsEarliest(ms: seq<RawMatch>, k: nat)
    requires k in Merge(ms).entries
    ensures exists j :: (0 <= j < |ms| && ms[j].numero == k
      && Strip(ms[j].body) == Merge(ms).entries[k].contenu
      && forall i :: 0 <= i < j && ms[i].numero == k ==> |Strip(ms[i].body)| < |Merge(ms).entries[k].contenu|)
  {
    if ms == [] {
      assert false;
    }
    var p := ms[..|ms| - 1];
    var x := ms[|ms| - 1];
    var t := Merge(p);
    assert Merge(ms) == Put(t, x);
    assert forall i :: 0 <= i < |p| ==> ms[i] == p[i];
    var kept := Merge(ms).entries[k].contenu;
    if Writes(t, x) && x.numero == k {
      assert kept == Strip(x.body);
      if k in t.entries {
        MergeKeepsLongest(p, k);
      } else {
        MergeKeys(p);
      }
      assert forall i :: 0 <= i < |ms| - 1 && ms[i].numero == k ==> |Strip(ms[i].body)| < |kept|;
    } else {
      assert k in t.entries && t.entries[k] == Merge(ms).entries[k];
      MergeKeepsEarliest(p, k);
      var j :| 0 <= j < |p| && p[j].numero == k && Strip(p[j].body) == kept
        && forall i :: 0 <= i < j && p[i].numero == k ==> |Strip(p[i].body)| < |kept|;
      assert ms[j] == p[j];
    }
  }

  /** The entries in insertion order are exactly the table's entries, one per key. */
  lemma {:induction false} ValuesOfSpec(entries: map<nat, Chunk>, order: seq<nat>)
    requires forall k :: k in order ==> k in entries
    ensures |ValuesOf(entries, order)| == |order|
    ensures forall i :: 0 <= i < |order| ==> ValuesOf(entries, order)[i] == entries[order[i]]
  {
    if order != [] {
      ValuesOfSpec(entries, order[1..]);
    }
  }

  /** No two article chunks of a merged table share an id (nor a number). */
  lemma ArticleIdsDistinct(ms: seq<RawMatch>)
    ensures var v := Values(Merge(ms));
      forall i, j :: 0 <= i < j < |v| ==> v[i].numero != v[j].numero && v[i].id != v[j].id
  {
    var t := Merge(ms);
    MergeValid(ms);
    ValuesOfSpec(t.entries, t.order);
    var v := Values(t);
    forall i, j | 0 <= i < j < |v| ensures v[i].numero != v[j].numero && v[i].id != v[j].id {
      IdDeterminesKindAndNumber(v[i], v[j]);
    }
  }

  /** Of two matches for one number, the strictly longer body is kept. */
  lemma LongerDuplicateWins(a: RawMatch, b: RawMatch)
    requires a.numero == b.numero && |Strip(a.body)| > MinBody
    requires |Strip(b.body)| > |Strip(a.body)|
    ensures Merge([a, b]).entries[a.numero].contenu == Strip(b.body)
  {
    assert [a, b][..1] == [a];
    assert [a][..0] == [];
    assert Merge([a]) == Put(Table(map[], []), a);
    assert Merge([a, b]) == Put(Merge([a]), b);
  }

  /** A kept Article 1 body found by the special patterns is replaced only by a
      strictly longer match numbered 1: on a tie the special body stays. */
  lemma SeedWinsTies(seed: string, ms: seq<RawMatch>)
    requires |Strip(seed)| > MinBody
    requires forall i :: 0 <= i < |ms| && ms[i].numero == 1 ==> |Strip(ms[i].body)| <= |Strip(seed)|
    ensures 1 in Merge(Candidates(Some(seed), ms)).entries
    ensures Merge(Candidates(Some(seed), ms)).entries[1].contenu == Strip(seed)
  {
    var c := Candidates(Some(seed), ms);
    assert c[0] == RawMatch(1, seed);
    assert forall i :: 1 <= i < |c| ==> c[i] == ms[i - 1];
    MergeKeys(c);
    MergeKeepsLongest(c, 1);
    MergeKeepsEarliest(c, 1);
  }
}

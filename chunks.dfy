/** The chunk record written by the segmenter: `type`, `numero`, `titre`,
    `contenu` and `id`, and how the title and id derive from the number. */
module Chunks {
  import opened Text

  /** `'considérant'` or `'article'` in the record's `type` field. */
  datatype Kind = Recital | Article

  datatype Chunk = Chunk(kind: Kind, numero: nat, titre: string, contenu: string, id: string)

  /** One regex match as the segmenter reads it: the integer of the number group
      and the raw (unstripped) body group. */
  datatype RawMatch = RawMatch(numero: nat, body: string)

  /** A body is kept only when it is strictly longer than this many characters. */
  const MinBody: nat := 50

  function RecitalChunk(n: nat, contenu: string): (c: Chunk)
    ensures c.kind == Recital && c.numero == n && c.contenu == contenu
  {
    Chunk(Recital, n, "Considérant " + NatToString(n), contenu, "considerant_" + NatToString(n))
  }

  function ArticleChunk(n: nat, contenu: string): (c: Chunk)
    ensures c.kind == Article && c.numero == n && c.contenu == contenu
  {
    Chunk(Article, n, "Article " + NatToString(n), contenu, "article_" + NatToString(n))
  }

  /** The title and id of `c` are the ones its kind and number determine. */
  ghost predicate Derived(c: Chunk)
  {
    c == (if c.kind == Recital then RecitalChunk(c.numero, c.contenu)
          else ArticleChunk(c.numero, c.contenu))
  }

  /** Two derived chunks share an id exactly when they have the same kind and number:
      the "considerant_" and "article_" prefixes never collide, and decimal
      numbers are rendered injectively. */
  lemma IdDeterminesKindAndNumber(a: Chunk, b: Chunk)
    requires Derived(a) && Derived(b)
    ensures a.id == b.id <==> a.kind == b.kind && a.numero == b.numero
  {
    if a.id == b.id {
      assert a.id[0] == b.id[0];
      assert a.kind == b.kind;
      var p := if a.kind == Recital then "considerant_" else "article_";
      assert a.id == p + NatToString(a.numero) && b.id == p + NatToString(b.numero);
      PrefixCancel(p, NatToString(a.numero), NatToString(b.numero));
      NatToStringInjective(a.numero, b.numero);
    }
  }
}

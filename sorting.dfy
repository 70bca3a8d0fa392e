/** The final ordering of the chunk list: Python's stable `list.sort` with the key
    `(0 if type == 'considérant' else 1, numero)`, modelled as a stable insertion sort. */
module Sorting {
  import opened Chunks

  function Rank(k: Kind): nat
  {
    if k == Recital then 0 else 1
  }

  /** The sort key of `a` is at most that of `b` (tuples compare lexicographically). */
  predicate KeyLe(a: Chunk, b: Chunk)
  {
    Rank(a.kind) < Rank(b.kind) || (Rank(a.kind) == Rank(b.kind) && a.numero <= b.numero)
  }

  ghost predicate Sorted(s: seq<Chunk>)
  {
    forall i, j :: 0 <= i < j < |s| ==> KeyLe(s[i], s[j])
  }

  /** Recitals before articles, and each group ascending by number. */
  ghost predicate Grouped(s: seq<Chunk>)
  {
    && (forall i, j :: 0 <= i < j < |s| ==> !(s[i].kind == Article && s[j].kind == Recital))
    && (forall i, j :: 0 <= i < j < |s| && s[i].kind == s[j].kind ==> s[i].numero <= s[j].numero)
  }

  /** The chunks of `s` whose key is `(kind, n)`, in their order in `s`. */
  function WithKey(s: seq<Chunk>, kind: Kind, n: nat): seq<Chunk>
  {
    if s == [] then []
    else (if s[0].kind == kind && s[0].numero == n then [s[0]] else []) + WithKey(s[1..], kind, n)
  }

  /** Puts `x` before the first element whose key is not smaller, so `x` stays
      ahead of the elements with an equal key. */
  function Insert(x: Chunk, s: seq<Chunk>): (r: seq<Chunk>)
    requires Sorted(s)
    ensures Sorted(r)
    ensures multiset(r) == multiset(s) + multiset{x}
  {
    if s == [] then [x]
    else if KeyLe(x, s[0]) then
      PrependSorted(x, s);
      [x] + s
    else
      var t := Insert(x, s[1..]);
      assert s == [s[0]] + s[1..];
      PrependSorted(s[0], t);
      [s[0]] + t
  }

  /** Putting `a` in front of a sorted list keeps it sorted when `a`'s key is at
      most that of the list's first element, or of every element the list holds. */
  lemma PrependSorted(a: Chunk, t: seq<Chunk>)
    requires Sorted(t)
    requires (t != [] && KeyLe(a, t[0])) || (forall y :: y in multiset(t) ==> KeyLe(a, y))
    ensures Sorted([a] + t)
  {
    var r := [a] + t;
    forall i, j | 0 <= i < j < |r| ensures KeyLe(r[i], r[j]) {
      if i == 0 {
        assert r[j] == t[j - 1];
        assert r[j] in multiset(t);
      }
    }
  }

  /** `chunks.sort(key=...)`. */
  function SortChunks(s: seq<Chunk>): (r: seq<Chunk>)
    ensures Sorted(r)
    ensures multiset(r) == multiset(s)
  {
    if s == [] then []
    else
      assert s == [s[0]] + s[1..];
      Insert(s[0], SortChunks(s[1..]))
  }

  /** Inserting `x` puts it, for its own key, ahead of the elements of `s` with
      the same key, and leaves every other key's subsequence as it was. */
  lemma {:induction false} InsertWithKey(x: Chunk, s: seq<Chunk>, kind: Kind, n: nat)
    requires Sorted(s)
    ensures WithKey(Insert(x, s), kind, n) == WithKey([x], kind, n) + WithKey(s, kind, n)
  {
    if s == [] {
      assert WithKey([x], kind, n) + [] == WithKey([x], kind, n);
    } else if KeyLe(x, s[0]) {
      assert Insert(x, s) == [x] + s;
      WithKeyAppend([x], s, kind, n);
    } else {
      var t := Insert(x, s[1..]);
      assert Insert(x, s) == [s[0]] + t;
      SortedTail(s);
      InsertWithKey(x, s[1..], kind, n);
      WithKeyAppend([s[0]], t, kind, n);
      WithKeyAppend([s[0]], s[1..], kind, n);
      assert s == [s[0]] + s[1..];
      // `x` and `s[0]` have different keys, so one of them contributes nothing.
      assert WithKey([x], kind, n) == [] || WithKey([s[0]], kind, n) == [];
      var a, b, c := WithKey([s[0]], kind, n), WithKey([x], kind, n), WithKey(s[1..], kind, n);
      if a == [] {
        assert a + (b + c) == b + c && a + c == c;
      } else {
        assert b + c == c && b + (a + c) == a + c;
      }
    }
  }

  lemma SortedTail(s: seq<Chunk>)
    requires Sorted(s) && s != []
    ensures Sorted(s[1..])
  {
    forall i, j | 0 <= i < j < |s| - 1 ensures KeyLe(s[1..][i], s[1..][j]) {
      assert s[1..][i] == s[i + 1] && s[1..][j] == s[j + 1];
    }
  }

  lemma {:induction false} WithKeyAppend(a: seq<Chunk>, b: seq<Chunk>, kind: Kind, n: nat)
    ensures WithKey(a + b, kind, n) == WithKey(a, kind, n) + WithKey(b, kind, n)
  {
    if a != [] {
      assert (a + b)[1..] == a[1..] + b;
      WithKeyAppend(a[1..], b, kind, n);
    } else {
      assert a + b == b;
    }
  }

  /** The sort is stable: for every key, the chunks with that key keep their order. */
  lemma {:induction false} SortStable(s: seq<Chunk>, kind: Kind, n: nat)
    ensures WithKey(SortChunks(s), kind, n) == WithKey(s, kind, n)
  {
    if s != [] {
      SortStable(s[1..], kind, n);
      InsertWithKey(s[0], SortChunks(s[1..]), kind, n);
      assert s == [s[0]] + s[1..];
      WithKeyAppend([s[0]], s[1..], kind, n);
    }
  }

  /** Sorted by the key is the same as: recitals first, then articles, each by number. */
  lemma SortedIffGrouped(s: seq<Chunk>)
    ensures Sorted(s) <==> Grouped(s)
  {
  }
}

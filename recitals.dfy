/** Recital extraction (`decouper_rgpd`, first loop): every match of the recital
    pattern becomes a `considérant` chunk when its stripped body is longer than
    50 characters. Recitals are NOT deduplicated by number. */
module Recitals {
  import opened Text
  import opened Chunks

  /** The stripped body of `m` passes the strict `> 50` length filter. */
  predicate LongEnough(m: RawMatch)
  {
    |Strip(m.body)| > MinBody
  }

  /** The recital chunks kept from the matches `ms`, in match order. */
  function KeptRecitals(ms: seq<RawMatch>): seq<Chunk>
  {
    if ms == [] then []
    else
      var m := ms[|ms| - 1];
      KeptRecitals(ms[..|ms| - 1])
      + (if LongEnough(m) then [RecitalChunk(m.numero, Strip(m.body))] else [])
  }

  /** The loop over the recital matches, appending to the chunk list. */
  method ExtractRecitals(ms: seq<RawMatch>) returns (chunks: seq<Chunk>)
    ensures chunks == KeptRecitals(ms)
  {
    chunks := [];
    for i := 0 to |ms|
      invariant chunks == KeptRecitals(ms[..i])
    {
      assert ms[..i + 1][..i] == ms[..i];
      var numero := ms[i].numero;
      var contenu := Strip(ms[i].body);
      if |contenu| > MinBody {
        chunks := chunks + [RecitalChunk(numero, contenu)];
      }
    }
    assert ms[..|ms|] == ms;
  }

  /** The ascending positions of the matches whose body passes the filter. */
  function LongIndices(ms: seq<RawMatch>): seq<nat>
  {
    if ms == [] then []
    else LongIndices(ms[..|ms| - 1]) + (if LongEnough(ms[|ms| - 1]) then [|ms| - 1] else [])
  }

  /** The kept recitals are exactly the matches that pass the filter, one chunk per
      match (no deduplication), in match order. */
  lemma KeptRecitalsSelect(ms: seq<RawMatch>)
    ensures |KeptRecitals(ms)| == |LongIndices(ms)|
    ensures forall k :: 0 <= k < |LongIndices(ms)| ==>
      && LongIndices(ms)[k] < |ms|
      && LongEnough(ms[LongIndices(ms)[k]])
      && KeptRecitals(ms)[k] == RecitalChunk(ms[LongIndices(ms)[k]].numero, Strip(ms[LongIndices(ms)[k]].body))
    ensures forall k, l :: 0 <= k < l < |LongIndices(ms)| ==> LongIndices(ms)[k] < LongIndices(ms)[l]
    ensures forall i :: 0 <= i < |ms| && LongEnough(ms[i]) ==> i in LongIndices(ms)
  {
    LongIndicesValid(ms);
    LongIndicesComplete(ms);
    KeptRecitalsAt(ms);
  }

  lemma {:induction false} LongIndicesValid(ms: seq<RawMatch>)
    ensures forall k :: 0 <= k < |LongIndices(ms)| ==>
      LongIndices(ms)[k] < |ms| && LongEnough(ms[LongIndices(ms)[k]])
    ensures forall k, l :: 0 <= k < l < |LongIndices(ms)| ==> LongIndices(ms)[k] < LongIndices(ms)[l]
  {
    if ms != [] {
      var p := ms[..|ms| - 1];
      LongIndicesValid(p);
      var lp := LongIndices(p);
      assert LongIndices(ms) == lp + (if LongEnough(ms[|ms| - 1]) then [|ms| - 1] else []);
      forall k | 0 <= k < |lp| ensures ms[lp[k]] == p[lp[k]] {
      }
    }
  }

  lemma {:induction false} LongIndicesComplete(ms: seq<RawMatch>)
    ensures forall i :: 0 <= i < |ms| && LongEnough(ms[i]) ==> i in LongIndices(ms)
  {
    if ms != [] {
      var p := ms[..|ms| - 1];
      LongIndicesComplete(p);
      assert LongIndices(ms) == LongIndices(p) + (if LongEnough(ms[|ms| - 1]) then [|ms| - 1] else []);
      forall i | 0 <= i < |p| ensures ms[i] == p[i] {
      }
    }
  }

  lemma {:induction false} KeptRecitalsAt(ms: seq<RawMatch>)
    ensures |KeptRecitals(ms)| == |LongIndices(ms)|
    ensures forall k :: 0 <= k < |LongIndices(ms)| && LongIndices(ms)[k] < |ms| ==>
      KeptRecitals(ms)[k] == RecitalChunk(ms[LongIndices(ms)[k]].numero, Strip(ms[LongIndices(ms)[k]].body))
  {
    if ms != [] {
      var p := ms[..|ms| - 1];
      KeptRecitalsAt(p);
      LongIndicesValid(p);
      var lp := LongIndices(p);
      var m := ms[|ms| - 1];
      assert LongIndices(ms) == lp + (if LongEnough(m) then [|ms| - 1] else []);
      assert KeptRecitals(ms) == KeptRecitals(p) + (if LongEnough(m) then [RecitalChunk(m.numero, Strip(m.body))] else []);
      forall k | 0 <= k < |lp| ensures ms[lp[k]] == p[lp[k]] {
      }
    }
  }

  /** Every kept recital is a `considérant` chunk with a body longer than 50
      characters, and its title and id are those of its number. */
  lemma KeptRecitalsWellFormed(ms: seq<RawMatch>)
    ensures forall c :: c in KeptRecitals(ms) ==>
      c.kind == Recital && |c.contenu| > MinBody && Derived(c)
  {
    KeptRecitalsSelect(ms);
    forall c | c in KeptRecitals(ms)
      ensures c.kind == Recital && |c.contenu| > MinBody && Derived(c)
    {
      var k :| 0 <= k < |KeptRecitals(ms)| && KeptRecitals(ms)[k] == c;
    }
  }

  /** Two matches with the same number both survive, under the same id. */
  lemma RecitalsNotDeduplicated(m: RawMatch, m': RawMatch)
    requires LongEnough(m) && LongEnough(m') && m.numero == m'.numero
    ensures |KeptRecitals([m, m'])| == 2
    ensures KeptRecitals([m, m'])[0].id == KeptRecitals([m, m'])[1].id
  {
    assert [m, m'][..1] == [m];
    assert [m][..0] == [];
    assert KeptRecitals([m]) == [RecitalChunk(m.numero, Strip(m.body))];
  }
}

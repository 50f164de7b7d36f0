/**
 * The embedding gallery: the dictionary from lower-cased identity key to
 * representative embedding that enrollment writes and recognition reads.
 * It is kept as a sequence of entries so that the dictionary's iteration
 * order (first-insertion order, as in Python) is explicit.
 */
module Gallery {
  import opened Results
  import opened Vectors

  datatype Entry = Entry(key: string, vec: Embedding)

  type Gallery = seq<Entry>

  /** A dictionary never holds the same key twice. */
  predicate DistinctKeys(g: Gallery)
  {
    forall i, j :: 0 <= i < j < |g| ==> g[i].key != g[j].key
  }

  function Keys(g: Gallery): set<string>
  {
    set i | 0 <= i < |g| :: g[i].key
  }

  lemma KeysCons(e: Entry, g: Gallery)
    ensures Keys([e] + g) == {e.key} + Keys(g)
  {
    var c := [e] + g;
    forall x | x in Keys(c)
      ensures x in {e.key} + Keys(g)
    {
      var i :| 0 <= i < |c| && c[i].key == x;
      if i > 0 {
        assert g[i - 1].key == x;
      }
    }
    forall x | x in {e.key} + Keys(g)
      ensures x in Keys(c)
    {
      if x == e.key {
        assert c[0].key == x;
      } else {
        var i :| 0 <= i < |g| && g[i].key == x;
        assert c[i + 1].key == x;
      }
    }
  }

  /** `g[k]`, or None when `k` is absent. */
  function Find(g: Gallery, k: string): (r: Option<Embedding>)
    ensures r.None? <==> k !in Keys(g)
    ensures r.Some? ==> exists i :: 0 <= i < |g| && g[i] == Entry(k, r.value)
    decreases |g|
  {
    if g == [] then None
    else if g[0].key == k then Some(g[0].vec)
    else
      KeysCons(g[0], g[1..]);
      assert g == [g[0]] + g[1..];
      var r := Find(g[1..], k);
      assert r.Some? ==> exists i :: 0 <= i < |g[1..]| && g[1..][i] == Entry(k, r.value);
      r
  }

  /**
   * `g[k] = v`: an existing key keeps its position and takes the new
   * value; a new key is appended at the end.
   */
  function Put(g: Gallery, k: string, v: Embedding): (r: Gallery)
    ensures Keys(r) == Keys(g) + {k}
    ensures |r| == if k in Keys(g) then |g| else |g| + 1
    ensures forall i :: 0 <= i < |g| ==> r[i].key == g[i].key
    ensures forall i :: 0 <= i < |g| && g[i].key != k ==> r[i] == g[i]
    ensures DistinctKeys(g) ==> forall i :: 0 <= i < |g| && g[i].key == k ==> r[i] == Entry(k, v)
    ensures k !in Keys(g) ==> r[|g|] == Entry(k, v)
    decreases |g|
  {
    if g == [] then
      KeysCons(Entry(k, v), []);
      assert [Entry(k, v)] + [] == [Entry(k, v)];
      [Entry(k, v)]
    else
      assert g == [g[0]] + g[1..];
      KeysCons(g[0], g[1..]);
      if g[0].key == k then
        KeysCons(Entry(k, v), g[1..]);
        assert DistinctKeys(g) ==> forall i :: 0 < i < |g| ==> g[i].key != k;
        [Entry(k, v)] + g[1..]
      else
        assert DistinctKeys(g) ==> DistinctKeys(g[1..]);
        var rest := Put(g[1..], k, v);
        KeysCons(g[0], rest);
        [g[0]] + rest
  }

  /** Assignment keeps the keys distinct. */
  lemma PutKeepsKeysDistinct(g: Gallery, k: string, v: Embedding)
    requires DistinctKeys(g)
    ensures DistinctKeys(Put(g, k, v))
  {
    var r := Put(g, k, v);
    if k !in Keys(g) {
      assert k in Keys(r);
      assert r[|g|].key == k;
      forall i | 0 <= i < |g|
        ensures r[i].key != r[|g|].key
      {
        assert g[i].key in Keys(g);
      }
    }
  }

  /** After `g[k] = v`, looking up `k` yields `v` and every other key is unchanged. */
  lemma {:induction false} FindPut(g: Gallery, k: string, v: Embedding, k': string)
    requires DistinctKeys(g)
    ensures Find(Put(g, k, v), k') == if k' == k then Some(v) else Find(g, k')
    decreases |g|
  {
    if g != [] && g[0].key != k {
      FindPut(g[1..], k, v, k');
      assert Put(g, k, v)[1..] == Put(g[1..], k, v);
    } else if g != [] {
      assert Put(g, k, v)[1..] == g[1..];
      if k' == k {
        assert Find(Put(g, k, v), k') == Some(v);
      } else {
        assert Find(Put(g, k, v), k') == Find(g[1..], k');
      }
    }
  }
}

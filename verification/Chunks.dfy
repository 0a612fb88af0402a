/** Sequences cut into chunks. */
module Chunks {
  /** All chunks joined. */
  function Flat<T>(chunks: seq<seq<T>>): seq<T> {
    if chunks == [] then [] else chunks[0] + Flat(chunks[1..])
  }

  lemma {:induction false} FlatAppend<T>(a: seq<seq<T>>, b: seq<seq<T>>)
    ensures Flat(a + b) == Flat(a) + Flat(b)
  {
    if a == [] {
      assert a + b == b;
    } else {
      assert (a + b)[1..] == a[1..] + b;
      FlatAppend(a[1..], b);
    }
  }

  lemma NextChunk<T>(c: seq<seq<T>>, k: nat)
    requires k < |c|
    ensures Flat(c[..k + 1]) == Flat(c[..k]) + c[k]
  {
    assert c[..k + 1] == c[..k] + [c[k]];
    FlatAppend(c[..k], [c[k]]);
    assert [c[k]][1..] == [];
  }

  lemma Regroup<T>(a: seq<T>, b: seq<T>, c: seq<T>)
    ensures a + (b + c) == a + b + c
  {
  }
}

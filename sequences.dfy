/** Two generic operations on sequences, and the facts about them the model relies on. */
module Sequences {
  import opened Wrappers

  /** The present values among per-card results, in order. */
  function Kept<T>(rs: seq<Option<T>>): seq<T> {
    if rs == [] then []
    else
      var rest := Kept(rs[..|rs| - 1]);
      match rs[|rs| - 1]
      case Some(x) => rest + [x]
      case None => rest
  }

  /** The blocks laid end to end, in order. */
  function Flatten<T>(blocks: seq<seq<T>>): seq<T> {
    if blocks == [] then []
    else Flatten(blocks[..|blocks| - 1]) + blocks[|blocks| - 1]
  }

  lemma {:induction false} KeptAppend<T>(a: seq<Option<T>>, b: seq<Option<T>>)
    ensures Kept(a + b) == Kept(a) + Kept(b)
    decreases |b|
  {
    if b == [] {
      assert a + b == a;
    } else {
      var b' := b[..|b| - 1];
      assert (a + b)[..|a + b| - 1] == a + b';
      assert (a + b)[|a + b| - 1] == b[|b| - 1];
      KeptAppend(a, b');
    }
  }

  lemma {:induction false} KeptLength<T>(rs: seq<Option<T>>)
    ensures |Kept(rs)| <= |rs|
  {
    if rs != [] {
      KeptLength(rs[..|rs| - 1]);
    }
  }

  lemma {:induction false} KeptMembership<T>(rs: seq<Option<T>>, x: T)
    ensures x in Kept(rs) <==> exists i :: 0 <= i < |rs| && rs[i] == Some(x)
  {
    if rs != [] {
      var n := |rs| - 1;
      KeptMembership(rs[..n], x);
      if x in Kept(rs[..n]) {
        var i :| 0 <= i < n && rs[..n][i] == Some(x);
        assert rs[i] == Some(x);
      }
      if i :| 0 <= i < n && rs[i] == Some(x) {
        assert rs[..n][i] == Some(x);
      }
    }
  }

  lemma {:induction false} FlattenAppend<T>(a: seq<seq<T>>, b: seq<seq<T>>)
    ensures Flatten(a + b) == Flatten(a) + Flatten(b)
    decreases |b|
  {
    if b == [] {
      assert a + b == a;
    } else {
      var b' := b[..|b| - 1];
      assert (a + b)[..|a + b| - 1] == a + b';
      assert (a + b)[|a + b| - 1] == b[|b| - 1];
      FlattenAppend(a, b');
    }
  }

  /** Whatever is in the flattened sequence is in one of the blocks, and the other way round. */
  lemma {:induction false} FlattenMembership<T>(blocks: seq<seq<T>>, x: T)
    ensures x in Flatten(blocks) <==> exists i :: 0 <= i < |blocks| && x in blocks[i]
  {
    if blocks != [] {
      var n := |blocks| - 1;
      FlattenMembership(blocks[..n], x);
      if x in Flatten(blocks[..n]) {
        var i :| 0 <= i < n && x in blocks[..n][i];
        assert blocks[..n][i] == blocks[i];
      }
      if i :| 0 <= i < n && x in blocks[i] {
        assert blocks[..n][i] == blocks[i];
      }
    }
  }

  /** Flattening blocks that are all empty gives nothing. */
  lemma {:induction false} FlattenEmpty<T>(blocks: seq<seq<T>>)
    requires forall i :: 0 <= i < |blocks| ==> blocks[i] == []
    ensures Flatten(blocks) == []
  {
    if blocks != [] {
      var n := |blocks| - 1;
      assert forall i :: 0 <= i < n ==> blocks[..n][i] == blocks[i];
      FlattenEmpty(blocks[..n]);
    }
  }
}

/** What several modules need: optional values and the concatenation of a list of pieces. */
module Collections {

  datatype Option<T> = None | Some(value: T)

  /** All the pieces, one behind the other. */
  function Flatten<T>(ss: seq<seq<T>>): seq<T> {
    if ss == [] then [] else Flatten(ss[..|ss| - 1]) + ss[|ss| - 1]
  }

  lemma {:induction false} FlattenSnoc<T>(ss: seq<seq<T>>, s: seq<T>)
    ensures Flatten(ss + [s]) == Flatten(ss) + s
  {
    assert (ss + [s])[..|ss|] == ss;
  }

  /** The first pieces make a prefix of the whole. */
  lemma {:induction false} FlattenPrefix<T>(ss: seq<seq<T>>, k: nat)
    requires k <= |ss|
    ensures Flatten(ss[..k]) <= Flatten(ss)
    decreases |ss|
  {
    if k < |ss| {
      var front := ss[..|ss| - 1];
      assert front[..k] == ss[..k];
      FlattenPrefix(front, k);
    } else {
      assert ss[..k] == ss;
    }
  }

  lemma {:induction false} InFlatten<T>(ss: seq<seq<T>>, j: nat, x: T)
    requires j < |ss| && x in ss[j]
    ensures x in Flatten(ss)
    decreases |ss|
  {
    if j < |ss| - 1 {
      InFlatten(ss[..|ss| - 1], j, x);
    }
  }
}

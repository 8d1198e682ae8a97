/** Sequence helpers shared by the mapper, the parser and the roll-up. */
module Seqs {

  /** The pieces of `ss` joined end to end, in order. */
  function Flatten<T>(ss: seq<seq<T>>): seq<T>
    decreases |ss|
  {
    if ss == [] then [] else ss[0] + Flatten(ss[1..])
  }

  /** Joining one more piece at the end appends it. */
  lemma {:induction false} FlattenSnoc<T>(ss: seq<seq<T>>, last: seq<T>)
    ensures Flatten(ss + [last]) == Flatten(ss) + last
    decreases |ss|
  {
    if ss != [] {
      assert (ss + [last])[1..] == ss[1..] + [last];
      FlattenSnoc(ss[1..], last);
    } else {
      assert [last][1..] == [];
    }
  }
}

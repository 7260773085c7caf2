/** The list surgery the engine's backward loops perform: walking an array
    from its last entry to its first, replacing entry `i` in place or
    splicing it out (`splice(i, 1)`), while the entries after `i` already hold
    what the visited entries left. */
module ListOps {

  /** The list seen by a backward loop at index `i`: the untouched prefix up
      to and including `i`, then what the visited entries left. */
  lemma SpliceShape<T>(o: seq<T>, i: nat, tail: seq<T>, cur: seq<T>)
    requires i < |o| && cur == o[..i + 1] + tail
    ensures cur[i] == o[i] && cur[..i] == o[..i] && cur[i + 1..] == tail
  {
    assert o[..i + 1] == o[..i] + [o[i]];
  }

  /** Replacing entry `i` by `a`, or splicing it out, leaves the untouched
      prefix before `i` followed by the new tail. */
  lemma SpliceAt<T>(o: seq<T>, i: nat, tail: seq<T>, cur: seq<T>, a: T)
    requires i < |o| && cur == o[..i + 1] + tail
    ensures cur[i] == o[i]
    ensures cur[i := a] == o[..i] + ([a] + tail)
    ensures cur[..i] + cur[i + 1..] == o[..i] + tail
  {
    SpliceShape(o, i, tail, cur);
  }

  /** Replacing or splicing out entry `i` and then appending `extra` at the
      end: the prefix before `i`, the kept entry (if any) in front of the old
      tail, and the appended entries after it. */
  lemma SpliceRegroup<T>(o: seq<T>, i: nat, k: seq<T>, restKept: seq<T>, restExtra: seq<T>, extra: seq<T>, pre: seq<T>, post: seq<T>)
    requires i < |o| && pre == o[..i + 1] + (restKept + restExtra)
    requires post == pre[..i] + k + pre[i + 1..] + extra
    ensures post == o[..i] + (k + restKept) + (restExtra + extra)
  {
    SpliceShape(o, i, restKept + restExtra, pre);
  }

  /** Visiting from index `i` on is visiting `i`, then the rest. */
  lemma Unfold<T>(o: seq<T>, i: nat)
    requires i < |o|
    ensures o[i..][0] == o[i] && o[i..][1..] == o[i + 1..]
  {
  }
}

/** Ethernet frames as the receivers hand them out, and the record of what a run of receives returned. */
module Frames {
  import opened Machine

  type frame = seq<byte>

  const MAX_FRAME: nat := 1518

  /** The conventional-memory bounce buffer, shared with the DOS file layer. */
  const BOUNCE_SIZE: nat := 2048

  function Cut(f: frame, maxlen: nat): frame { if |f| <= maxlen then f else f[..maxlen] }

  lemma Limits()
    ensures MAX_FRAME == 1518 && BOUNCE_SIZE == 2048
  {
  }

  /** The longest prefix that fits. */
  lemma CutExactly(f: frame, maxlen: nat)
    ensures Cut(f, maxlen) <= f && |Cut(f, maxlen)| == if maxlen < |f| then maxlen else |f|
  {
  }

  /** What a receive with room for `maxlen` bytes found. */
  datatype Receipt<T> = Nothing | Got(item: T, maxlen: nat)

  /** What was taken, in order. */
  function Items<T>(log: seq<Receipt<T>>): seq<T>
  {
    if log == [] then [] else Items(log[..|log| - 1]) + Taken(log[|log| - 1])
  }

  function Taken<T>(r: Receipt<T>): seq<T> { if r.Got? then [r.item] else [] }

  /** What a receive returns when an item is handed out as `hand` says. */
  function Handed<T>(r: Receipt<T>, hand: (T, nat) -> frame): frame
  {
    if r.Got? then hand(r.item, r.maxlen) else []
  }

  /** What the receives returned: one answer each. */
  function Replies<T>(log: seq<Receipt<T>>, hand: (T, nat) -> frame): (r: seq<frame>)
    ensures |r| == |log| && forall i :: 0 <= i < |r| ==> r[i] == Handed(log[i], hand)
  {
    seq(|log|, i requires 0 <= i < |log| => Handed(log[i], hand))
  }

  lemma LogSnoc<T>(log: seq<Receipt<T>>, r: Receipt<T>, hand: (T, nat) -> frame)
    ensures Items(log + [r]) == Items(log) + Taken(r)
    ensures Replies(log + [r], hand) == Replies(log, hand) + [Handed(r, hand)]
  {
    assert (log + [r])[..|log|] == log;
  }

  /** Which receive took item `k`. */
  function Place<T>(log: seq<Receipt<T>>, k: nat): (i: nat)
    requires k < |Items(log)|
    ensures i < |log| && log[i].Got? && log[i].item == Items(log)[k]
    ensures |Items(log[..i])| == k
  {
    var n := |log| - 1;
    assert Items(log) == Items(log[..n]) + Taken(log[n]);
    if k < |Items(log[..n])| then
      var i := Place(log[..n], k);
      assert log[..n][..i] == log[..i];
      i
    else n
  }

  /** The item taken as number `k` is what its receive returned, as handed out for the room of that receive. */
  lemma RepliedItem<T>(log: seq<Receipt<T>>, hand: (T, nat) -> frame, k: nat)
    requires k < |Items(log)|
    ensures Replies(log, hand)[Place(log, k)] == hand(Items(log)[k], log[Place(log, k)].maxlen)
  {
  }
}

/** What one poll cycle is meant to broadcast, stated without walking the
feed: entry `i` is broadcast when its id was not seen before the cycle and
no older entry of the same feed carries the same id (the feed lists newest
first, so "older" means a higher index). The broadcasts are the fan-outs of
those entries, oldest first.
 */
module Broadcast {
  import opened Store

  /** One message per room, in room order, each carrying `text` verbatim. */
  function FanOut(text: string, rooms: seq<string>): (r: seq<Send>)
  {
    seq(|rooms|, k requires 0 <= k < |rooms| => Send(text, rooms[k]))
  }

  /** The concatenation of a sequence of sequences, in order. */
  function Flatten<T>(xss: seq<seq<T>>): (r: seq<T>)
  {
    if xss == [] then [] else xss[0] + Flatten(xss[1..])
  }

  lemma {:induction false} FlattenAppend<T>(a: seq<seq<T>>, b: seq<seq<T>>)
    ensures Flatten(a + b) == Flatten(a) + Flatten(b)
  {
    if a == [] {
      assert a + b == b;
    } else {
      assert (a + b)[1..] == a[1..] + b;
      FlattenAppend(a[1..], b);
      calc {
        Flatten(a + b);
        a[0] + Flatten(a[1..] + b);
        a[0] + (Flatten(a[1..]) + Flatten(b));
        (a[0] + Flatten(a[1..])) + Flatten(b);
      }
    }
  }

  lemma FlattenFrom<T>(xss: seq<seq<T>>, m: nat)
    requires m < |xss|
    ensures Flatten(xss[m..]) == xss[m] + Flatten(xss[m + 1..])
  {
    assert xss[m..][1..] == xss[m + 1..];
  }

  lemma FlattenFront<T>(xss: seq<seq<T>>, m: nat, x: nat)
    requires m < x <= |xss|
    ensures Flatten(xss[m..x]) == xss[m] + Flatten(xss[m + 1..x])
  {
    assert xss[m..x][1..] == xss[m + 1..x];
  }

  /** A position inside the first piece from `m` on lies before the end
      of that piece and after nothing. */
  lemma CutFirst<T>(xss: seq<seq<T>>, m: nat, pos: nat)
    requires m < |xss| && pos < |xss[m]|
    ensures |Flatten(xss[m..m])| <= pos < |Flatten(xss[m..m + 1])|
  {
    assert xss[m..m] == [];
    assert xss[m..m + 1] == [xss[m]];
    assert Flatten([xss[m]]) == xss[m] + Flatten([]);
  }

  /** A position that falls inside piece `x` when counting from `m + 1`
      falls inside it, shifted by `|xss[m]|`, when counting from `m`. */
  lemma CutShift<T>(xss: seq<seq<T>>, m: nat, x: nat, pos: nat)
    requires m < x < |xss| && |xss[m]| <= pos
    requires |Flatten(xss[m + 1..x])| <= pos - |xss[m]| < |Flatten(xss[m + 1..x + 1])|
    ensures |Flatten(xss[m..x])| <= pos < |Flatten(xss[m..x + 1])|
  {
    FlattenFront(xss, m, x);
    FlattenFront(xss, m, x + 1);
  }

  /** The piece, counting from `lo`, that holds position `pos` of the
      concatenation: every earlier piece ends at or before `pos`, and the
      piece itself extends past it. */
  function PieceAt<T>(xss: seq<seq<T>>, lo: nat, pos: nat): (p: nat)
    requires lo <= |xss|
    ensures lo <= p <= |xss|
    ensures pos < |Flatten(xss[lo..])| ==>
      && p < |xss|
      && |Flatten(xss[lo..p])| <= pos
      && pos < |Flatten(xss[lo..p + 1])|
    decreases |xss| - lo
  {
    if lo == |xss| then
      assert xss[lo..] == [];
      lo
    else
      FlattenFrom(xss, lo);
      if pos < |xss[lo]| then
        CutFirst(xss, lo, pos);
        lo
      else
        var p := PieceAt(xss, lo + 1, pos - |xss[lo]|);
        if pos < |Flatten(xss[lo..])| then
          CutShift(xss, lo, p, pos);
          p
        else
          p
  }

  lemma FlattenSnoc<T>(xss: seq<seq<T>>, m: nat)
    requires m < |xss|
    ensures Flatten(xss[..m + 1]) == Flatten(xss[..m]) + xss[m]
  {
    assert xss[..m + 1] == xss[..m] + [xss[m]];
    FlattenAppend(xss[..m], [xss[m]]);
    assert Flatten([xss[m]]) == xss[m];
  }

  /** Within the part from `lo` on, everything in `xss[lo..b]` comes before
      `xss[b]`, which comes before everything in `xss[b + 1..]`. */
  lemma FlattenAt<T>(xss: seq<seq<T>>, lo: nat, b: nat)
    requires lo <= b < |xss|
    ensures Flatten(xss[lo..]) == Flatten(xss[lo..b]) + (xss[b] + Flatten(xss[b + 1..]))
  {
    assert xss[lo..] == xss[lo..b] + xss[b..];
    FlattenAppend(xss[lo..b], xss[b..]);
    FlattenFrom(xss, b);
  }

  lemma FlattenWhole<T>(xss: seq<seq<T>>, a: nat)
    requires a < |xss|
    ensures Flatten(xss) == Flatten(xss[..a]) + (xss[a] + Flatten(xss[a + 1..]))
  {
    assert xss[0..] == xss;
    FlattenAt(xss, 0, a);
  }

  lemma {:induction false} FlattenAllEmpty<T>(xss: seq<seq<T>>)
    requires forall t :: 0 <= t < |xss| ==> xss[t] == []
    ensures Flatten(xss) == []
  {
    if xss != [] {
      FlattenAllEmpty(xss[1..]);
    }
  }

  lemma MulSucc(n: nat, m: nat)
    ensures (n + 1) * m == n * m + m
  {
  }

  /** When every piece has `w` elements, the concatenation has `|xss| * w`. */
  lemma {:induction false} FlattenUniformLength<T>(xss: seq<seq<T>>, w: nat)
    requires forall t :: 0 <= t < |xss| ==> |xss[t]| == w
    ensures |Flatten(xss)| == |xss| * w
  {
    if xss != [] {
      FlattenUniformLength(xss[1..], w);
      MulSucc(|xss| - 1, w);
    }
  }

  /** When every piece has `w` elements, element `k` of piece `t` lands at
      position `t * w + k`. */
  lemma {:induction false} FlattenUniform<T>(xss: seq<seq<T>>, w: nat, t: nat, k: nat)
    requires forall t :: 0 <= t < |xss| ==> |xss[t]| == w
    requires t < |xss| && k < w
    ensures t * w + k < |Flatten(xss)|
    ensures Flatten(xss)[t * w + k] == xss[t][k]
  {
    FlattenUniformLength(xss, w);
    var tail := xss[1..];
    FlattenUniformLength(tail, w);
    if t > 0 {
      FlattenUniform(tail, w, t - 1, k);
      var q := (t - 1) * w + k;
      MulSucc(t - 1, w);
      assert t * w + k == w + q;
      assert xss[t] == tail[t - 1];
    }
  }

  /** The ids of the entries at positions `from` and beyond. */
  function Ids(feed: seq<Entry>, from: nat): (ids: set<string>)
    requires from <= |feed|
  {
    set i | from <= i < |feed| :: feed[i].id
  }

  lemma IdsStep(feed: seq<Entry>, i: nat)
    requires i < |feed|
    ensures Ids(feed, i) == Ids(feed, i + 1) + {feed[i].id}
  {
  }

  /** Entry `i` is broadcast by a cycle that starts from `seen`. */
  predicate IsFresh(feed: seq<Entry>, seen: set<string>, i: nat)
    requires i < |feed|
  {
    && feed[i].id !in seen
    && forall j :: i < j < |feed| ==> feed[j].id != feed[i].id
  }

  /** An entry is fresh exactly when its id is neither in `seen` nor among
      the ids of the entries older than it. */
  lemma FreshIffUnseen(feed: seq<Entry>, seen: set<string>, i: nat)
    requires i < |feed|
    ensures IsFresh(feed, seen, i) <==> feed[i].id !in seen + Ids(feed, i + 1)
  {
    if feed[i].id in Ids(feed, i + 1) {
      var j :| i + 1 <= j < |feed| && feed[j].id == feed[i].id;
    }
  }

  /** The messages entry `i` contributes. */
  function Block(feed: seq<Entry>, seen: set<string>, rooms: seq<string>, i: nat): (r: seq<Send>)
    requires i < |feed|
  {
    if IsFresh(feed, seen, i) then FanOut(feed[i].summary, rooms) else []
  }

  /** The blocks in delivery order: position `t` holds the block of feed
      entry `|feed| - 1 - t`, so the oldest entry comes first. */
  function Blocks(feed: seq<Entry>, seen: set<string>, rooms: seq<string>): (r: seq<seq<Send>>)
  {
    seq(|feed|, t requires 0 <= t < |feed| => Block(feed, seen, rooms, |feed| - 1 - t))
  }

  /** The delivery slot of feed entry `i`: the oldest entry has slot 0. */
  function Slot(feed: seq<Entry>, i: nat): (t: nat)
    requires i < |feed|
    ensures t < |feed| && |feed| - 1 - t == i
  {
    |feed| - 1 - i
  }

  /** Entry `i`'s block sits at its delivery slot. */
  lemma BlockSlot(feed: seq<Entry>, seen: set<string>, rooms: seq<string>, i: nat)
    requires i < |feed|
    ensures |Blocks(feed, seen, rooms)| == |feed|
    ensures Blocks(feed, seen, rooms)[Slot(feed, i)] == Block(feed, seen, rooms, i)
  {
  }

  /** Everything a cycle over `feed` starting from `seen` broadcasts. */
  function Expected(feed: seq<Entry>, seen: set<string>, rooms: seq<string>): (r: seq<Send>)
  {
    Flatten(Blocks(feed, seen, rooms))
  }

  /** The positions below `hi` of entries that are broadcast. */
  function FreshIndices(feed: seq<Entry>, seen: set<string>, hi: nat): (r: set<nat>)
    requires hi <= |feed|
  {
    set i: nat | i < hi && IsFresh(feed, seen, i)
  }

  /** Oldest-first delivery: for feed positions `j < i`, entry `i` has
      delivery slot `a` and entry `j` the later slot `b`; everything before
      slot `a` is sent first, then entry `i`'s block, then the rest, and
      entry `j`'s block lies in that rest after the blocks between them. */
  lemma BlocksOrdered(feed: seq<Entry>, seen: set<string>, rooms: seq<string>, i: nat, j: nat)
    requires j < i < |feed|
    ensures Slot(feed, i) < Slot(feed, j)
    ensures Blocks(feed, seen, rooms)[Slot(feed, i)] == Block(feed, seen, rooms, i)
    ensures Blocks(feed, seen, rooms)[Slot(feed, j)] == Block(feed, seen, rooms, j)
    ensures Expected(feed, seen, rooms)
         == Flatten(Blocks(feed, seen, rooms)[..Slot(feed, i)])
          + (Block(feed, seen, rooms, i) + Flatten(Blocks(feed, seen, rooms)[Slot(feed, i) + 1..]))
    ensures Flatten(Blocks(feed, seen, rooms)[Slot(feed, i) + 1..])
         == Flatten(Blocks(feed, seen, rooms)[Slot(feed, i) + 1..Slot(feed, j)])
          + (Block(feed, seen, rooms, j) + Flatten(Blocks(feed, seen, rooms)[Slot(feed, j) + 1..]))
  {
    var bs := Blocks(feed, seen, rooms);
    BlockSlot(feed, seen, rooms, i);
    BlockSlot(feed, seen, rooms, j);
    FlattenWhole(bs, Slot(feed, i));
    FlattenAt(bs, Slot(feed, i) + 1, Slot(feed, j));
  }

  lemma FreshIndicesGrow(feed: seq<Entry>, seen: set<string>, n: nat)
    requires n < |feed| && IsFresh(feed, seen, n)
    ensures FreshIndices(feed, seen, n + 1) == FreshIndices(feed, seen, n) + {n}
  {
  }

  lemma FreshIndicesKeep(feed: seq<Entry>, seen: set<string>, n: nat)
    requires n < |feed| && !IsFresh(feed, seen, n)
    ensures FreshIndices(feed, seen, n + 1) == FreshIndices(feed, seen, n)
  {
  }

  lemma FreshIndicesStep(feed: seq<Entry>, seen: set<string>, n: nat)
    requires n < |feed|
    ensures |FreshIndices(feed, seen, n + 1)|
         == |FreshIndices(feed, seen, n)| + (if IsFresh(feed, seen, n) then 1 else 0)
  {
    if IsFresh(feed, seen, n) {
      FreshIndicesGrow(feed, seen, n);
      assert n !in FreshIndices(feed, seen, n);
    } else {
      FreshIndicesKeep(feed, seen, n);
    }
  }

  /** The blocks of the `n` oldest entries, in delivery order, carry one
      message per room for each of those entries that is broadcast. */
  lemma {:induction false} BlocksCount(feed: seq<Entry>, seen: set<string>, rooms: seq<string>, n: nat)
    requires n <= |feed|
    ensures |Flatten(Blocks(feed, seen, rooms)[|feed| - n..])| == |FreshIndices(feed, seen, n)| * |rooms|
  {
    var bs := Blocks(feed, seen, rooms);
    var m := |feed| - n;
    if n == 0 {
      assert FreshIndices(feed, seen, n) == {};
      assert bs[m..] == [];
    } else {
      BlocksCount(feed, seen, rooms, n - 1);
      FlattenFrom(bs, m);
      BlockSlot(feed, seen, rooms, n - 1);
      FreshIndicesStep(feed, seen, n - 1);
      MulSucc(|FreshIndices(feed, seen, n - 1)|, |rooms|);
    }
  }

  /** When every id of the feed is already seen, nothing is broadcast. */
  lemma BlocksEmptyWhenAllSeen(feed: seq<Entry>, seen: set<string>, rooms: seq<string>)
    requires Ids(feed, 0) <= seen
    ensures Expected(feed, seen, rooms) == []
  {
    var bs := Blocks(feed, seen, rooms);
    forall t | 0 <= t < |bs|
      ensures bs[t] == []
    {
      var i := |feed| - 1 - t;
      assert bs[t] == Block(feed, seen, rooms, i);
      assert feed[i].id in Ids(feed, 0);
      assert !IsFresh(feed, seen, i);
    }
    FlattenAllEmpty(bs);
  }

  /** With no id seen and no id repeated, every entry is broadcast, oldest
      first: the message for the `t`-th oldest entry and the `k`-th room
      sits at position `t * |rooms| + k`. */
  lemma BlocksAllFresh(feed: seq<Entry>, seen: set<string>, rooms: seq<string>, t: nat, k: nat)
    requires forall i :: 0 <= i < |feed| ==> feed[i].id !in seen
    requires forall i, j :: 0 <= i < j < |feed| ==> feed[i].id != feed[j].id
    requires t < |feed| && k < |rooms|
    ensures |Expected(feed, seen, rooms)| == |feed| * |rooms|
    ensures t * |rooms| + k < |Expected(feed, seen, rooms)|
    ensures Expected(feed, seen, rooms)[t * |rooms| + k] == Send(feed[|feed| - 1 - t].summary, rooms[k])
  {
    var bs := Blocks(feed, seen, rooms);
    forall u | 0 <= u < |bs|
      ensures bs[u] == FanOut(feed[|feed| - 1 - u].summary, rooms)
    {
      var i := |feed| - 1 - u;
      assert bs[u] == Block(feed, seen, rooms, i);
      assert IsFresh(feed, seen, i);
    }
    FlattenUniformLength(bs, |rooms|);
    FlattenUniform(bs, |rooms|, t, k);
  }
}

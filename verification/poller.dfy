/** One cycle of the feed poller: walk the fetched entries from the last
index down to the first (oldest first), and for every entry whose id is
not yet stored, store the id and then send its summary to every
subscribed room.
 */
module Poller {
  import opened Store
  import opened Broadcast

  /** The outcome of fetching and parsing the feed. */
  datatype Fetch = Fetched(entries: seq<Entry>) | FetchFailed

  /** One entry of the walk: skip it if its id is stored, otherwise store
      the id first and then fan its summary out to the rooms. */
  function Admit(e: Entry, s: State): (c: Cycle)
    ensures c.state == State(s.seen + {e.id}, s.rooms)
    ensures e.id in s.seen ==> c.sends == []
    ensures e.id !in s.seen ==>
      && |c.sends| == |s.rooms|
      && forall k :: 0 <= k < |s.rooms| ==> c.sends[k] == Send(e.summary, s.rooms[k])
  {
    if e.id in s.seen then Cycle(s, [])
    else Cycle(s.(seen := s.seen + {e.id}), FanOut(e.summary, s.rooms))
  }

  /** The walk over the entries at indices `n - 1` down to `0`. */
  function Run(feed: seq<Entry>, s: State, n: nat): (c: Cycle)
    requires n <= |feed|
    ensures c.state.rooms == s.rooms
    ensures s.seen <= c.state.seen
    decreases n
  {
    if n == 0 then Cycle(s, [])
    else
      var head := Admit(feed[n - 1], s);
      var rest := Run(feed, head.state, n - 1);
      Cycle(rest.state, head.sends + rest.sends)
  }

  /** With the ids of the entries older than `i` stored, admitting entry
      `i` sends exactly its block. */
  lemma AdmitIsBlock(feed: seq<Entry>, s0: State, s: State, i: nat)
    requires i < |feed|
    requires s == State(s0.seen + Ids(feed, i + 1), s0.rooms)
    ensures Admit(feed[i], s).state == State(s0.seen + Ids(feed, i), s0.rooms)
    ensures Admit(feed[i], s).sends == Block(feed, s0.seen, s0.rooms, i)
  {
    FreshIffUnseen(feed, s0.seen, i);
    IdsStep(feed, i);
  }

  /** Walking the entries below `n`, with the ids of the entries from `n`
      on already stored, sends the blocks of those entries in delivery order
      and ends with every id of the feed stored. */
  lemma {:induction false} RunMatchesReference(feed: seq<Entry>, s0: State, s: State, n: nat)
    requires n <= |feed|
    requires s == State(s0.seen + Ids(feed, n), s0.rooms)
    ensures Run(feed, s, n).state == State(s0.seen + Ids(feed, 0), s0.rooms)
    ensures Run(feed, s, n).sends == Flatten(Blocks(feed, s0.seen, s0.rooms)[|feed| - n..])
    decreases n
  {
    var bs := Blocks(feed, s0.seen, s0.rooms);
    if n == 0 {
      assert bs[|feed|..] == [];
    } else {
      var i := n - 1;
      AdmitIsBlock(feed, s0, s, i);
      var head := Admit(feed[i], s);
      RunMatchesReference(feed, s0, head.state, i);
      BlockSlot(feed, s0.seen, s0.rooms, i);
      FlattenFrom(bs, |feed| - n);
    }
  }

  /** One complete poll cycle over the fetched entries. */
  function Poll(feed: seq<Entry>, s: State): (c: Cycle)
    ensures c.state.rooms == s.rooms
    ensures c.state.seen == s.seen + Ids(feed, 0)
    ensures c.sends == Expected(feed, s.seen, s.rooms)
  {
    assert Blocks(feed, s.seen, s.rooms)[0..] == Blocks(feed, s.seen, s.rooms);
    RunMatchesReference(feed, s, s, |feed|);
    Run(feed, s, |feed|)
  }

  /** The poll cycle as the source writes it: a loop over the indices from
      the last down to the first. */
  method PollLoop(feed: seq<Entry>, s: State) returns (next: State, sends: seq<Send>)
    ensures next == State(s.seen + Ids(feed, 0), s.rooms)
    ensures sends == Expected(feed, s.seen, s.rooms)
  {
    var seen := s.seen;
    sends := [];
    var i: nat := |feed|;
    assert Ids(feed, i) == {};
    while i > 0
      invariant i <= |feed|
      invariant seen == s.seen + Ids(feed, i)
      invariant sends == Flatten(Blocks(feed, s.seen, s.rooms)[..|feed| - i])
    {
      i := i - 1;
      var entry := feed[i];
      AdmitIsBlock(feed, s, State(seen, s.rooms), i);
      FlattenSnoc(Blocks(feed, s.seen, s.rooms), |feed| - 1 - i);
      BlockSlot(feed, s.seen, s.rooms, i);
      if entry.id !in seen {
        seen := seen + {entry.id};
        sends := sends + FanOut(entry.summary, s.rooms);
      }
    }
    assert Blocks(feed, s.seen, s.rooms)[..|feed|] == Blocks(feed, s.seen, s.rooms);
    next := State(seen, s.rooms);
  }

  /** The walk when a send raises after `budget` successful sends: the
      exception ends the cycle, and every id whose fan-out had begun stays
      stored. */
  function RunUntilFailure(feed: seq<Entry>, s: State, n: nat, budget: nat): (c: Cycle)
    requires n <= |feed|
    ensures |c.sends| <= budget
    ensures c.state.rooms == s.rooms
    decreases n
  {
    if n == 0 then Cycle(s, [])
    else
      var head := Admit(feed[n - 1], s);
      if |head.sends| <= budget then
        var rest := RunUntilFailure(feed, head.state, n - 1, budget - |head.sends|);
        Cycle(rest.state, head.sends + rest.sends)
      else
        Cycle(head.state, head.sends[..budget])
  }

  /** A cycle cut short by a failing send delivers a prefix of the full
      cycle's messages, and stores no id the full cycle would not store. */
  lemma {:induction false} RunUntilFailurePrefix(feed: seq<Entry>, s: State, n: nat, budget: nat)
    requires n <= |feed|
    ensures
      var full := Run(feed, s, n);
      var cut := RunUntilFailure(feed, s, n, budget);
      && (budget >= |full.sends| ==> cut == full)
      && (budget < |full.sends| ==> cut.sends == full.sends[..budget])
      && cut.state.rooms == s.rooms
      && s.seen <= cut.state.seen <= full.state.seen
    decreases n
  {
    if n > 0 {
      var head := Admit(feed[n - 1], s);
      var restFull := Run(feed, head.state, n - 1);
      if |head.sends| <= budget {
        var k := budget - |head.sends|;
        RunUntilFailurePrefix(feed, head.state, n - 1, k);
        if k < |restFull.sends| {
          assert (head.sends + restFull.sends)[..budget] == head.sends + restFull.sends[..k];
        }
      } else {
        assert (head.sends + restFull.sends)[..budget] == head.sends[..budget];
      }
    }
  }

  /** Where a failing send cuts the walk: the send after the first
      `budget` falls in delivery slot `t` (`Broadcast.PieceAt`), the block of
      entry `|feed| - 1 - t`. That entry's id was stored before its first
      send, so it stays stored together with the ids of all older entries,
      and no newer id is stored. */
  lemma {:induction false} RunUntilFailureStores(feed: seq<Entry>, s0: State, s: State, n: nat, budget: nat)
    requires n <= |feed|
    requires s == State(s0.seen + Ids(feed, n), s0.rooms)
    ensures var bs := Blocks(feed, s0.seen, s0.rooms);
      var t := PieceAt(bs, |feed| - n, budget);
      budget < |Flatten(bs[|feed| - n..])| ==>
        && t < |feed|
        && RunUntilFailure(feed, s, n, budget).state == State(s0.seen + Ids(feed, |feed| - 1 - t), s0.rooms)
    decreases n
  {
    var bs := Blocks(feed, s0.seen, s0.rooms);
    var m := |feed| - n;
    if n > 0 && budget < |Flatten(bs[m..])| {
      var i := n - 1;
      AdmitIsBlock(feed, s0, s, i);
      BlockSlot(feed, s0.seen, s0.rooms, i);
      FlattenFrom(bs, m);
      var head := Admit(feed[i], s);
      assert Slot(feed, i) == m;
      assert head.sends == bs[m];
      if |head.sends| <= budget {
        var k := budget - |head.sends|;
        assert |feed| - i == m + 1;
        assert k < |Flatten(bs[m + 1..])|;
        RunUntilFailureStores(feed, s0, head.state, i, k);
        var t := PieceAt(bs, m + 1, k);
        assert PieceAt(bs, m, budget) == t;
        assert RunUntilFailure(feed, s, n, budget).state
            == RunUntilFailure(feed, head.state, i, k).state
            == State(s0.seen + Ids(feed, |feed| - 1 - t), s0.rooms);
      } else {
        assert PieceAt(bs, m, budget) == m;
        assert RunUntilFailure(feed, s, n, budget).state == head.state;
      }
    }
  }

  /** A poll cycle in which the send after the first `delivered` ones
      raises. */
  function PollUntilSendFailure(feed: seq<Entry>, s: State, delivered: nat): (c: Cycle)
    ensures var full := Poll(feed, s);
      && (delivered >= |full.sends| ==> c == full)
      && (delivered < |full.sends| ==> c.sends == full.sends[..delivered])
      && c.state.rooms == s.rooms
      && s.seen <= c.state.seen <= full.state.seen
    ensures delivered < |Poll(feed, s).sends| ==>
      exists i :: 0 <= i < |feed|
        && |Flatten(Blocks(feed, s.seen, s.rooms)[..Slot(feed, i)])| <= delivered
        && delivered < |Flatten(Blocks(feed, s.seen, s.rooms)[..Slot(feed, i) + 1])|
        && c.state == State(s.seen + Ids(feed, i), s.rooms)
  {
    RunUntilFailurePrefix(feed, s, |feed|, delivered);
    RunUntilFailureStores(feed, s, s, |feed|, delivered);
    var bs := Blocks(feed, s.seen, s.rooms);
    assert bs[0..] == bs;
    var t := PieceAt(bs, 0, delivered);
    assert delivered < |Poll(feed, s).sends| ==>
      bs[0..t] == bs[..Slot(feed, |feed| - 1 - t)] && bs[0..t + 1] == bs[..Slot(feed, |feed| - 1 - t) + 1];
    RunUntilFailure(feed, s, |feed|, delivered)
  }

  /** One iteration of the poller's outer loop: a failed fetch changes
      nothing, a send failure (`failure == Some(k)`: the send after the first
      `k` raises) cuts the cycle short. */
  function Tick(fetch: Fetch, failure: Option<nat>, s: State): (c: Cycle)
    ensures fetch.FetchFailed? ==> c == Cycle(s, [])
    ensures fetch.Fetched? && failure.None? ==> c == Poll(fetch.entries, s)
    ensures fetch.Fetched? ==> c.sends <= Poll(fetch.entries, s).sends
    ensures c.state.rooms == s.rooms
    ensures s.seen <= c.state.seen
  {
    match fetch
    case FetchFailed => Cycle(s, [])
    case Fetched(feed) =>
      match failure
      case None => Poll(feed, s)
      case Some(k) => PollUntilSendFailure(feed, s, k)
  }

  /** Re-running a cycle on the same feed sends nothing and changes nothing. */
  lemma PollIdempotent(feed: seq<Entry>, s: State)
    ensures var first := Poll(feed, s);
      Poll(feed, first.state) == Cycle(first.state, [])
  {
    var first := Poll(feed, s);
    BlocksEmptyWhenAllSeen(feed, first.state.seen, first.state.rooms);
  }

  /** A cycle sends one message per room for each entry it broadcasts. */
  lemma PollCount(feed: seq<Entry>, s: State)
    ensures |Poll(feed, s).sends| == |FreshIndices(feed, s.seen, |feed|)| * |s.rooms|
  {
    BlocksCount(feed, s.seen, s.rooms, |feed|);
    assert Blocks(feed, s.seen, s.rooms)[0..] == Blocks(feed, s.seen, s.rooms);
  }

  /** A broadcast entry's block sends its summary, verbatim, to each room
      in room order; with distinct rooms, each room gets it exactly once.
      An entry whose id is already stored contributes nothing. */
  lemma EntryBlock(feed: seq<Entry>, s: State, i: nat)
    requires i < |feed|
    ensures var block := Block(feed, s.seen, s.rooms, i);
      && (feed[i].id in s.seen ==> block == [])
      && (IsFresh(feed, s.seen, i) ==>
        && |block| == |s.rooms|
        && (forall k :: 0 <= k < |block| ==> block[k] == Send(feed[i].summary, s.rooms[k]))
        && (Distinct(s.rooms) ==>
              forall k, k' :: 0 <= k < |block| && 0 <= k' < |block| && block[k].room == block[k'].room ==> k == k'))
  {
  }

  /** No two entries broadcast by one cycle share an id. */
  lemma FreshIdsDistinct(feed: seq<Entry>, seen: set<string>)
    ensures forall a, b ::
      a in FreshIndices(feed, seen, |feed|) && b in FreshIndices(feed, seen, |feed|) && feed[a].id == feed[b].id
      ==> a == b
  {
  }

  /** Every unseen id of the feed is broadcast by the cycle, at its oldest
      occurrence: each unseen entry has a broadcast twin at the same or an
      older position. */
  lemma {:induction false} FreshOncePerId(feed: seq<Entry>, seen: set<string>, i: nat)
    requires i < |feed| && feed[i].id !in seen
    ensures exists j ::
      && i <= j < |feed|
      && IsFresh(feed, seen, j)
      && feed[j].id == feed[i].id
    decreases |feed| - i
  {
    if !IsFresh(feed, seen, i) {
      var j :| i < j < |feed| && feed[j].id == feed[i].id;
      FreshOncePerId(feed, seen, j);
    }
  }

  /** On a first cycle over a feed with distinct ids, every entry goes to
      every room, oldest first: message `t * |rooms| + k` carries the summary
      of the `t`-th oldest entry to the `k`-th room. */
  lemma FirstPollDeliversAll(feed: seq<Entry>, rooms: seq<string>, t: nat, k: nat)
    requires forall i, j :: 0 <= i < j < |feed| ==> feed[i].id != feed[j].id
    requires t < |feed| && k < |rooms|
    ensures var c := Poll(feed, State({}, rooms));
      && |c.sends| == |feed| * |rooms|
      && t * |rooms| + k < |c.sends|
      && c.sends[t * |rooms| + k] == Send(feed[|feed| - 1 - t].summary, rooms[k])
  {
    BlocksAllFresh(feed, {}, rooms, t, k);
  }

  /** One entry "a" with summary "Hello" and one subscribed room "!x". */
  lemma ScenarioSingleEntry()
    ensures Poll([Entry("a", "Hello")], State({}, ["!x"]))
         == Cycle(State({"a"}, ["!x"]), [Send("Hello", "!x")])
  {
    var feed := [Entry("a", "Hello")];
    assert feed[0].id == "a";
    assert Ids(feed, 0) == {"a"};
    assert IsFresh(feed, {}, 0);
    var bs := Blocks(feed, {}, ["!x"]);
    assert bs[0] == Block(feed, {}, ["!x"], 0);
    assert FanOut("Hello", ["!x"]) == [Send("Hello", "!x")];
    assert bs == [[Send("Hello", "!x")]];
    assert Flatten(bs) == [Send("Hello", "!x")] + Flatten(bs[1..]);
  }
}

/** The bot's persisted state and the messages it sends.

The two database tables become one immutable record: the set of feed item
ids ever seen (the `item` table) and the subscribed rooms (the `room` table),
kept as a sequence because the poller fans out in the order the store lists
them.
 */
module Store {

  /** One feed entry: its external identifier and the text sent verbatim. */
  datatype Entry = Entry(id: string, summary: string)

  /** One outgoing chat message: its text and the room it goes to. */
  datatype Send = Send(text: string, room: string)

  /** The persisted state: seen item ids and subscribed rooms in listing order. */
  datatype State = State(seen: set<string>, rooms: seq<string>)

  /** A new state together with the messages sent while reaching it. */
  datatype Cycle = Cycle(state: State, sends: seq<Send>)

  datatype Option<+T> = None | Some(value: T)

  /** No element occurs twice; the room table's primary key guarantees this. */
  predicate Distinct<T(==)>(xs: seq<T>)
  {
    forall i, j :: 0 <= i < j < |xs| ==> xs[i] != xs[j]
  }

  /** The position of the first occurrence of `x`. */
  function IndexOf<T(==)>(xs: seq<T>, x: T): (k: nat)
    requires x in xs
    ensures k < |xs| && xs[k] == x
    ensures x !in xs[..k]
  {
    if xs[0] == x then 0 else 1 + IndexOf(xs[1..], x)
  }

  /** `xs` with the element at position `k` taken out, the rest in order. */
  function RemoveAt<T>(xs: seq<T>, k: nat): (r: seq<T>)
    requires k < |xs|
    ensures |r| == |xs| - 1
    ensures forall i :: 0 <= i < k ==> r[i] == xs[i]
    ensures forall i :: k <= i < |r| ==> r[i] == xs[i + 1]
  {
    xs[..k] + xs[k + 1..]
  }

  /** Removing the only occurrence of `xs[k]` from a duplicate-free
      sequence keeps every other element and nothing else. */
  lemma RemoveAtDistinct<T>(xs: seq<T>, k: nat)
    requires k < |xs| && Distinct(xs)
    ensures Distinct(RemoveAt(xs, k))
    ensures forall x :: x in RemoveAt(xs, k) <==> x in xs && x != xs[k]
  {
    var r := RemoveAt(xs, k);
    forall x | x in xs && x != xs[k]
      ensures x in r
    {
      var i :| 0 <= i < |xs| && xs[i] == x;
      if i < k {
        assert r[i] == x;
      } else {
        assert r[i - 1] == x;
      }
    }
  }
}

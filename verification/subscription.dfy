/** The two chat commands. Each ignores messages the bot itself sent,
tests whether the room is subscribed, changes the room table at most once
and answers in the room that sent the command.
 */
module Subscription {
  import opened Store

  const SubscribedText := "You have subscribed successfully!"
  const AlreadySubscribedText := "You have already subscribed!"
  const UnsubscribedText := "You have successfully unsubscribed"
  const NotSubscribedText := "You haven't subscribed yet!"

  /** The state after a command and the reply sent to the room, if any. */
  datatype Response = Response(state: State, reply: Option<Send>)

  /** The subscribe command sent by `sender` in `room`, with `bot` the
      bot's own user id. */
  function Subscribe(sender: string, bot: string, room: string, s: State): (r: Response)
    ensures r.state.seen == s.seen
    ensures sender == bot ==> r == Response(s, None)
    ensures room in s.rooms ==> r.state == s
    ensures sender != bot ==>
      && (forall x :: x in r.state.rooms <==> x in s.rooms || x == room)
      && s.rooms <= r.state.rooms
      && r.reply == Some(Send(if room in s.rooms then AlreadySubscribedText else SubscribedText, room))
    ensures Distinct(s.rooms) ==> Distinct(r.state.rooms)
  {
    if sender == bot then Response(s, None)
    else if room !in s.rooms then
      Response(s.(rooms := s.rooms + [room]), Some(Send(SubscribedText, room)))
    else
      Response(s, Some(Send(AlreadySubscribedText, room)))
  }

  /** The unsubscribe command sent by `sender` in `room`: the first record
      for the room is deleted. */
  function Unsubscribe(sender: string, bot: string, room: string, s: State): (r: Response)
    ensures r.state.seen == s.seen
    ensures sender == bot ==> r == Response(s, None)
    ensures room !in s.rooms ==> r.state == s
    ensures sender != bot ==>
      r.reply == Some(Send(if room in s.rooms then UnsubscribedText else NotSubscribedText, room))
    ensures sender != bot && room in s.rooms ==> |r.state.rooms| == |s.rooms| - 1
    ensures sender != bot && room in s.rooms ==>
      exists k: nat :: k < |s.rooms| && s.rooms[k] == room && room !in s.rooms[..k]
        && r.state.rooms == s.rooms[..k] + s.rooms[k + 1..]
    ensures Distinct(s.rooms) ==> Distinct(r.state.rooms)
    ensures sender != bot && Distinct(s.rooms) ==>
      forall x :: x in r.state.rooms <==> x in s.rooms && x != room
  {
    if sender == bot then Response(s, None)
    else if room in s.rooms then
      var k := IndexOf(s.rooms, room);
      RemoveAtDistinctIf(s.rooms, k);
      Response(s.(rooms := RemoveAt(s.rooms, k)), Some(Send(UnsubscribedText, room)))
    else
      Response(s, Some(Send(NotSubscribedText, room)))
  }

  lemma RemoveAtDistinctIf<T>(xs: seq<T>, k: nat)
    requires k < |xs|
    ensures Distinct(xs) ==> Distinct(RemoveAt(xs, k))
    ensures Distinct(xs) ==> forall x :: x in RemoveAt(xs, k) <==> x in xs && x != xs[k]
  {
    if Distinct(xs) {
      RemoveAtDistinct(xs, k);
    }
  }

  /** A repeated subscribe changes nothing and answers "already". */
  lemma SubscribeIdempotent(sender: string, bot: string, room: string, s: State)
    requires sender != bot
    ensures var first := Subscribe(sender, bot, room, s);
      var second := Subscribe(sender, bot, room, first.state);
      && second.state == first.state
      && second.reply == Some(Send(AlreadySubscribedText, room))
      && |second.state.rooms| == |first.state.rooms|
  {
  }

  /** A repeated unsubscribe changes nothing and answers "not yet". */
  lemma UnsubscribeIdempotent(sender: string, bot: string, room: string, s: State)
    requires sender != bot && Distinct(s.rooms)
    ensures var first := Unsubscribe(sender, bot, room, s);
      var second := Unsubscribe(sender, bot, room, first.state);
      && second.state == first.state
      && second.reply == Some(Send(NotSubscribedText, room))
  {
  }

  /** Subscribing and then unsubscribing leaves the room unsubscribed and
      every other room as it was; when the room was not subscribed before,
      the state is restored exactly. */
  lemma SubscribeThenUnsubscribe(sender: string, bot: string, room: string, s: State)
    requires sender != bot && Distinct(s.rooms)
    ensures var after := Unsubscribe(sender, bot, room, Subscribe(sender, bot, room, s).state);
      && room !in after.state.rooms
      && (forall x :: x != room ==> (x in after.state.rooms <==> x in s.rooms))
      && after.reply == Some(Send(UnsubscribedText, room))
      && (room !in s.rooms ==> after.state == s)
  {
    if room !in s.rooms {
      var rooms := s.rooms + [room];
      assert IndexOf(rooms, room) == |s.rooms|;
      assert RemoveAt(rooms, |s.rooms|) == s.rooms;
    }
  }
}

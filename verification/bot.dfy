/** The bot as a whole: the poller's iterations and the two registered
commands, taken one whole event at a time in the order the event loop runs
them.
 */
module Bot {
  import opened Store
  import opened Poller
  import opened Subscription

  datatype Command = Subscribe | Unsubscribe

  datatype Event =
    | PollTick(fetch: Fetch, failure: Option<nat>)
    | Issued(command: Command, sender: string, room: string)

  /** The messages a command response sends: its reply, if any. */
  function Replies(r: Response): (sends: seq<Send>)
  {
    match r.reply
    case None => []
    case Some(m) => [m]
  }

  /** One event, handled by the poller or by the command's callback. */
  function Step(bot: string, e: Event, s: State): (c: Cycle)
    ensures Distinct(s.rooms) ==> Distinct(c.state.rooms)
    ensures s.seen <= c.state.seen
    ensures e.PollTick? ==> c.state.rooms == s.rooms
    ensures e.Issued? ==> c.state.seen == s.seen && |c.sends| <= 1
    ensures e.Issued? && e.sender == bot ==> c == Cycle(s, [])
  {
    match e
    case PollTick(fetch, failure) => Tick(fetch, failure, s)
    case Issued(Subscribe, sender, room) =>
      var r := Subscription.Subscribe(sender, bot, room, s);
      Cycle(r.state, Replies(r))
    case Issued(Unsubscribe, sender, room) =>
      var r := Subscription.Unsubscribe(sender, bot, room, s);
      Cycle(r.state, Replies(r))
  }

  /** A run of events in order; the messages of all of them, in order. */
  function Replay(bot: string, events: seq<Event>, s: State): (c: Cycle)
    ensures Distinct(s.rooms) ==> Distinct(c.state.rooms)
    ensures s.seen <= c.state.seen
    decreases |events|
  {
    if events == [] then Cycle(s, [])
    else
      var first := Step(bot, events[0], s);
      var rest := Replay(bot, events[1..], first.state);
      Cycle(rest.state, first.sends + rest.sends)
  }

  /** Commands the bot sends to itself have no effect at all. */
  lemma {:induction false} SelfCommandsIgnored(bot: string, events: seq<Event>, s: State)
    requires forall t :: 0 <= t < |events| ==> events[t].Issued? && events[t].sender == bot
    ensures Replay(bot, events, s) == Cycle(s, [])
    decreases |events|
  {
    if events != [] {
      assert events[0].Issued? && events[0].sender == bot;
      SelfCommandsIgnored(bot, events[1..], s);
    }
  }

  /** Commands alone never change which feed items are stored. */
  lemma {:induction false} CommandsKeepSeen(bot: string, events: seq<Event>, s: State)
    requires forall t :: 0 <= t < |events| ==> events[t].Issued?
    ensures Replay(bot, events, s).state.seen == s.seen
    decreases |events|
  {
    if events != [] {
      assert events[0].Issued?;
      CommandsKeepSeen(bot, events[1..], Step(bot, events[0], s).state);
    }
  }
}

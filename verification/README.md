# fefe-matrix, modelled in Dafny

fefe-matrix is a Matrix chat bot. It polls one RSS feed every 60 seconds. It
broadcasts each new feed entry to every subscribed room. Rooms subscribe and
unsubscribe with two chat commands. Two SQLite tables persist the state: the
ids of feed items already seen, and the subscribed room ids.

The project models the bot's logic over an in-memory state,
`State(seen: set<string>, rooms: seq<string>)`. The network, the feed parser,
the database and the chat client are replaced by values.

- `store.dfy` (module `Store`): the entities (`Entry`, `Send`, `State`,
  `Cycle`) and sequence helpers.
- `broadcast.dfy` (module `Broadcast`): a reference definition of what one
  poll cycle should send. It does not walk the feed. Entry `i` is *fresh*
  when its id is not in `seen` and no older entry of the same feed has the
  same id. The feed lists newest first, so an older entry has a higher
  index. The expected output is the fan-out of every fresh entry, oldest
  first.
- `poller.dfy` (module `Poller`): the poll cycle as the source writes it.
  It walks from the last index to the first, skips stored ids, stores a new
  id and then sends its summary to every room. `Run`/`Poll` is the
  functional form and `PollLoop` the loop form; both are proved equal to the
  reference definition. The module also covers the outer loop's error
  handling: a failed fetch, and a send that raises partway through a cycle.
- `subscription.dfy` (module `Subscription`): the `sub` and `unsub` command
  callbacks.
- `bot.dfy` (module `Bot`): the event loop as a replay of whole events
  (poll iterations and commands) in the order they run.

The room table has no `ORDER BY` in the source, so the order of
`query(Room).all()` is whatever the database returns. For a table whose only
column is a text primary key, SQLite will most likely answer from the key's
index, that is, in room id order. Listing rooms in subscription order is a
modelling choice, not a claim about SQLite: a new room is appended, and
unsubscribing removes the room's first record and keeps the other rooms in
order.

## Model

| member | source | states |
|---|---|---|
| Store.IndexOf | fefe_matrix/main.py:49-51 | the first record for the room is found: it holds the room and no earlier record does |
| Store.RemoveAt | fefe_matrix/main.py:51 | deleting one record keeps every other record, in order, and shortens the table by one |
| Store.RemoveAtDistinct | fefe_matrix/main.py:49-51 | in a duplicate-free room table (the primary key at line 79), deleting the room's record removes that room and nothing else, and the table stays duplicate-free |
| Poller.Admit | fefe_matrix/main.py:18-24 | the entry's id is stored either way. An already stored id sends nothing and changes nothing. A new id sends one message per room, in room order, with the summary verbatim |
| Poller.Run | fefe_matrix/main.py:17-24 | walking any number of entries never changes the rooms and never removes a stored id |
| Poller.AdmitIsBlock | fefe_matrix/main.py:19-24 | once the ids of all older entries are stored, admitting an entry sends exactly the reference block for it. That block is its fan-out if the entry is fresh and nothing otherwise |
| Poller.RunMatchesReference | fefe_matrix/main.py:17-24 | walking from index n-1 down to 0 sends the reference blocks of those entries oldest first, and leaves every id of the feed stored |
| Poller.Poll | fefe_matrix/main.py:17-24 | a complete cycle leaves the rooms unchanged and stores exactly the old ids plus every id in the feed (`seen` only grows). It sends exactly the fan-outs of the fresh entries, oldest first |
| Poller.PollLoop | fefe_matrix/main.py:17-24 | the reversed-index loop computes the same new state and the same messages as the reference definition |
| Broadcast.BlocksOrdered | fefe_matrix/main.py:17-18 | for feed positions j < i, every message of entry i comes before every message of entry j, so delivery is oldest first |
| Broadcast.BlocksCount | fefe_matrix/main.py:22-24 | the number of messages is the number of fresh entries times the number of rooms |
| Poller.PollCount | fefe_matrix/main.py:19-24 | a cycle sends (number of newly stored entries) × (number of rooms) messages |
| Poller.EntryBlock | fefe_matrix/main.py:19-24 | an entry whose id is already stored contributes nothing. A fresh entry sends its summary verbatim to each room in room order, and with distinct rooms each room receives it exactly once |
| Poller.FreshIdsDistinct | fefe_matrix/main.py:19-21 | no two entries broadcast by one cycle share an id |
| Poller.FreshOncePerId | fefe_matrix/main.py:19-21 | every id that was not stored before the cycle is broadcast, at its oldest occurrence in the feed |
| Broadcast.BlocksEmptyWhenAllSeen | fefe_matrix/main.py:19 | when every id of the feed is already stored, nothing is sent |
| Poller.PollIdempotent | fefe_matrix/main.py:19-21 | re-running a cycle on the same feed against the resulting state sends nothing and changes nothing |
| Broadcast.BlocksAllFresh | fefe_matrix/main.py:17-24 | with no id stored and no id repeated, message number t × (number of rooms) + k carries the summary of the t-th oldest entry to room k |
| Poller.FirstPollDeliversAll | fefe_matrix/main.py:17-24 | the first cycle over a feed with distinct ids sends every entry, oldest first, to every room, in room order |
| Poller.ScenarioSingleEntry | fefe_matrix/main.py:17-24 | a feed holding one entry ("a", "Hello"), polled with room "!x" subscribed, stores "a" and sends "Hello" to "!x" |
| Broadcast.FreshIffUnseen | fefe_matrix/main.py:19 | the per-entry lookup at line 19 finds nothing exactly when the entry is fresh in the reference sense |
| Poller.RunUntilFailure | fefe_matrix/main.py:17-26 | a walk whose send after the first `budget` raises sends at most `budget` messages and never changes the rooms |
| Poller.RunUntilFailurePrefix | fefe_matrix/main.py:19-26 | when a send raises, the cycle has sent a prefix of the full cycle's messages. It stored at least the old ids and no id the full cycle would not store, and the rooms are unchanged. With no failure it is the full cycle |
| Poller.RunUntilFailureStores | fefe_matrix/main.py:19-24 | when a send raises, the failing send lies in the block of one entry, after all messages of the older entries. The stored ids are then exactly the old ids plus the ids of that entry and every older one. The failing entry's id stays stored because it is committed before its first send |
| Poller.PollUntilSendFailure | fefe_matrix/main.py:15-26 | a cycle aborted by a failing send delivers exactly the first `delivered` messages of the full cycle and leaves the rooms unchanged. The failing send falls in the block of some entry i, after all messages of the older entries. Exactly the old ids plus the ids of entry i and every older entry are stored, so the entry whose fan-out had begun is not sent again |
| Poller.Tick | fefe_matrix/main.py:15-27 | a failed fetch leaves the state unchanged and sends nothing. Otherwise the sends are a prefix of the full cycle's sends, and the whole cycle when no send fails. The rooms never change and `seen` only grows |
| Subscription.Subscribe | fefe_matrix/main.py:31-41 | the bot's own messages are ignored, with no state change and no reply. Otherwise the room is subscribed afterwards, no other room is added, and the earlier rooms keep their order. The reply is "You have subscribed successfully!" when the room was absent and "You have already subscribed!" (with no change) when present. A duplicate-free table stays duplicate-free |
| Subscription.Unsubscribe | fefe_matrix/main.py:46-56 | the bot's own messages are ignored. Otherwise a subscribed room loses its first record: the table becomes the records before it followed by the records after it, in order. In a duplicate-free table that removes the room and nothing else, with the reply "You have successfully unsubscribed". An unsubscribed room gets "You haven't subscribed yet!" and no change. A duplicate-free table stays duplicate-free |
| Subscription.SubscribeIdempotent | fefe_matrix/main.py:34-41 | a second identical subscribe changes nothing, keeps the room count, and replies "already subscribed" |
| Subscription.UnsubscribeIdempotent | fefe_matrix/main.py:49-56 | a second identical unsubscribe changes nothing and replies "haven't subscribed yet" |
| Subscription.SubscribeThenUnsubscribe | fefe_matrix/main.py:34-56 | subscribe then unsubscribe leaves the room unsubscribed and every other room as it was. If the room was not subscribed before, the state is restored exactly |
| Bot.Step | fefe_matrix/main.py:63-65 | a poll iteration never changes the rooms. A command never changes the stored ids and sends at most one reply. A command from the bot itself does nothing. Every event keeps the rooms duplicate-free and never removes a stored id |
| Bot.Replay | fefe_matrix/main.py:60-66 | any sequence of events keeps the room table duplicate-free and never removes a stored id |
| Bot.SelfCommandsIgnored | fefe_matrix/main.py:31-48 | any run of commands sent by the bot's own user leaves the state unchanged and sends nothing |
| Bot.CommandsKeepSeen | fefe_matrix/main.py:30-57 | commands alone never change the stored feed ids |

## Left out

- Fetching and parsing the feed (line 16): network I/O and a third-party parser. The fetched entries are an input sequence, and a failed fetch or parse is the `FetchFailed` value.
- Entries without an `id` or `summary` field: the parser's data model is not part of this model. Every `Entry` has both fields.
- SQLAlchemy sessions, queries, commits, engine creation and schema setup (lines 19–22, 34–37, 49–52, 70–84): replaced by the immutable `State`. Commit durability and crash timing are not modelled.
- The Matrix client: bot construction, auto-join, command registration under the aliases `sub`/`subscribe` and `unsub`/`unsubscribe`, the coroutine callback and `start_bot` (lines 61–66). This is framework wiring. `Bot.Event` carries the command kind that the framework's alias lookup would produce.
- `asyncio.sleep(60)`, the endless `while True`, and the interleaving of the poller and the command callbacks at `await` points (lines 14, 24, 27). The model runs whole events one after another. A command arriving during a cycle's sends, which the source allows (it re-reads the room list per entry at line 22), is not modelled.
- Send failures are modelled only as "the send after the first k raises". Which exceptions occur, and the logging in the `except` branch (lines 25–26), are left out.
- All `logger` calls.
- Poller.RunUntilFailurePrefix: from an arbitrary starting state it only bounds the stored ids between the old ones and the full cycle's. Which ids stay stored after a failed send is stated by `Poller.RunUntilFailureStores`, from the state a cycle has reached at that point.
- Bot.Replay: states only the invariants (duplicate-free rooms, `seen` only grows), not the exact output of a run. Each step's output is stated by `Poller.Tick` and the two command functions.

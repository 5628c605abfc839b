# Sticky messages and the thread report of a moderation bot, in Dafny

This project models the two pieces of the bot that carry logic of their own.

**The sticky-message manager** keeps one designated message at the bottom of a
channel. Its state is a persisted table with at most one `StickyRecord`
(`channelId`, `messageId`, `message`) per channel. Beside the table it keeps four
in-memory structures:

- a cache keyed `sticky-cache-<channelId>`;
- a set of locked channels;
- a per-channel message counter;
- a per-channel cooldown deadline.

`StickyManager` (in `sticky_message.dfy`) holds all of these as fields. It also
keeps a ghost log of the successful deletes and sends made on the chat platform. The bot has no such list; the log only serves to state the order of calls.

Each call to the platform or the database is a parameter of the operation that
makes it. Fetch, delete and the database update are booleans: the call returned,
or it threw. A send is `Option<MessageId>`: the new message's id, or `None` when
it threw. The database update and delete also fail when the table has no row for
the channel, because the ORM throws when the row it is asked to change is missing.
The time is an explicit `now`, in seconds. A cooldown lasts `MESSAGE_COOLDOWN_SEC = 15`
and the counter trips at `MESSAGE_MAX = 5`, the defaults of `src/config.ts:13-14`.

- `IsNeedToUpdateMessage` is a function, so it reads the state and changes nothing.
- `PushMessageToBottom` takes the steps of the `try` block in order and stops at
  the first one that throws. The `finally` block's counter reset and unlock run on
  every path.
- `InitStickyMessage` loops over the rows read from the table, in the order read.
- `StickaoSet` and `StickaoRemove` (in `sticky_commands.dfy`) are the two moderator
  commands. Their replies are the bot's own reply texts.
- `sticky_scenarios.dfy` checks, from the contracts alone, two short sequences: the
  cooldown with the counter trip-wire, and a failed database update that leaves the
  table behind the platform.

**The thread report** (`thread_report.dfy`) is the TSV text that the
`active-threads` command attaches. It has a header row, then one row of four cells
per thread. Cells are joined by tabs and rows by newlines. Date formatting is the
parameter `formatDate`. `Split` is the inverse of the join, and `ReportParses`
uses it to show that the text reads back as the table.

## Model

| member | source | states |
|---|---|---|
| `StickyMessage.KeyInjective` | src/features/stickyMessage/index.ts:24 | Two `<prefix>-<id>` keys with the same prefix are equal exactly when their ids are. So a cache entry of one channel is never another channel's. |
| `StickyMessage.KeyFamiliesDisjoint` | src/features/stickyMessage/index.ts:13-15 | A `sticky-cache-…` key never equals a `sticky-lock-…` or `sticky-cooldown-…` key, and a lock key never equals a cooldown key, whatever the ids. |
| `StickyMessage.StickyManager.IsNeedToUpdateMessage` | src/features/stickyMessage/index.ts:88-92 | A repost is due when the channel's cooldown was never started, or when its counter has reached `MESSAGE_MAX`. It is not due exactly when the channel is inside its cooldown and has counted fewer than `MESSAGE_MAX` messages. |
| `StickyMessage.StickyManager.RestoreChannel` | src/features/stickyMessage/index.ts:24-26 | For one persisted row: the cache entry `sticky-cache-<id>` becomes the row, the counter becomes 0 and the cooldown deadline becomes `now + MESSAGE_COOLDOWN_SEC`. Nothing else changes. |
| `StickyMessage.CacheRowsHit` | src/features/stickyMessage/index.ts:23-24 | When the rows are saved to the cache in order, a row that no later row of the same channel overrides is what the cache holds under its channel's key. |
| `StickyMessage.CacheRowsMiss` | src/features/stickyMessage/index.ts:23-24 | Saving the rows leaves every key that is no row's cache key exactly as it was, present with the same record or absent. |
| `StickyMessage.SetRowsAt` | src/features/stickyMessage/index.ts:23-26 | Setting each row's channel to one value leaves every channel that has a row holding that value, and every other channel as it was. |
| `StickyMessage.StickyManager.InitFacts` | src/features/stickyMessage/index.ts:21-28 | After the start-up loop, every row's channel has counter 0 and is in cooldown, and with one row per channel each row is the cached record of its channel. A channel with no row keeps its cache entry, counter and deadline. |
| `StickyMessage.StickyManager.InitStickyMessage` | src/features/stickyMessage/index.ts:21-28 | The rows read from the table are processed in the order read. The cache, counters and deadlines become the result of saving each row, resetting its counter and starting its cooldown in turn. Every row's channel then has counter 0 and a started cooldown, and, with one row per channel as the table's key guarantees, each row is the cached record of its channel. Channels with no row keep their cache entry, counter and deadline. The table, locks and platform are untouched. If the read throws, nothing changes. |
| `StickyMessage.StickyManager.RepostSteps` | src/features/stickyMessage/index.ts:44-72 | The steps of the `try` block, stopping at the first that throws: a delete is logged only after a successful fetch, and a send only after the delete. Only when the fetch, delete, send and update all succeed and the table has a row for the channel does the row take the new id, with its message kept, the cache entry become that row and the cooldown restart. Otherwise the table, cache and deadlines are unchanged. Locks and counters are never touched. |
| `StickyMessage.StickyManager.PushMessageToBottom` | src/features/stickyMessage/index.ts:37-79 | On every path the channel's counter is 0 and the channel is unlocked. A delete is made only after a successful fetch, and a send only after the delete. On full success the stored `messageId` is the new id, with `channelId` and `message` kept. The cache entry is then that stored record and the cooldown is re-armed. If any step fails, including an update with no row for the channel, the table, cache and cooldowns stay as they were. The stored id changes only when the log has gained exactly the delete of the old message and the send of the new one. Every other channel's record, cache entry, lock, counter and deadline is unchanged. |
| `StickyCommands.StickaoSet` | src/commands/moderators/stickyMessage.ts:39-101 | Outside a guild slash command it returns silently. A missing or empty message gets an error reply, and so does a channel that is not a text channel. In those three cases nothing is sent and nothing changes. A send that throws escapes the handler and changes nothing. Otherwise the message is sent first. A successful upsert then sets the channel's record to (channel, sent id, text), overwriting any earlier record and so keeping one per channel, and caches that record. A failed upsert leaves the table and cache as they were, with the message already posted. Locks, counters and cooldowns never change. |
| `StickyCommands.StickaoRemove` | src/commands/moderators/stickyMessage.ts:119-161 | Presence is read from the cache. With no cache entry it replies "Not found" and changes nothing, even when the table has a row. With an entry and a successful delete, the row and then the cache entry are removed. If the delete throws, or the table has no row, both are kept and the error reply is given. Nothing is ever sent. |
| `ThreadReport.NatToString` | src/commands/moderators/activeThreads.ts:108 | A message count is written as a non-empty string of decimal digits that denotes exactly that count. It starts with `0` only for the count 0, and it is one digit exactly for counts below 10. |
| `ThreadReport.Table` | src/commands/moderators/activeThreads.ts:99-111 | The table has one more row than there are threads, and its first row is `ID`, `Name`, `Last Message`, `Message Count`. Row `i+1` has four cells: thread `i`'s id, its name, its last-message cell and its count. The last-message cell is `-` when the last message id is absent or empty, and otherwise the formatted date of that id. |
| `ThreadReport.SplitJoin` | src/commands/moderators/activeThreads.ts:112-113 | Splitting a join on its separator gives back the parts, when no part contains the separator. |
| `ThreadReport.HeaderJoined` | src/commands/moderators/activeThreads.ts:100 | The header row joined by tabs is exactly `ID`, `Name`, `Last Message` and `Message Count` with one tab character between neighbours. |
| `ThreadReport.Report` | src/commands/moderators/activeThreads.ts:99-113 | The report text of `generateReport` begins with the header line, and a newline follows it exactly when there is at least one thread. `ReportHasNoTrailingNewline` shows the text never ends in a newline, and `ReportParses` shows it reads back as the table. |
| `ThreadReport.ReportHasNoTrailingNewline` | src/commands/moderators/activeThreads.ts:112-113 | The report is never empty and its last character is never a newline. |
| `ThreadReport.ReportParses` | src/commands/moderators/activeThreads.ts:99-113 | When no cell holds a tab or a newline, the report splits on newlines into one line per thread plus the header. Each line splits on tabs into exactly its table row. |

## Left out

- The chat platform and the database are not modelled beyond the outcome of each call. A fetch, delete, send, update, upsert or read of the table either returns or throws, as the caller's parameter says. Message ids come from the caller.
- The model runs each operation as one sequential step. The interleaving of concurrent handlers at their `await` points is not modelled, and neither is the race that the advisory lock only narrows.
- The lock, cooldown, counter and cache helpers (`channelLock.js`, `messageCooldown.js`, `messageCounter.js`, `utils/cache.js`) are not part of this model. The lock is a set of channel ids, the counter and the deadlines are maps keyed by channel id, and the cache is a map from cache keys to records.
- `KeyFamiliesDisjoint` assumes that the lock and cooldown keys are formed as `<prefix>-<channelId>`, the way the cache key is. It justifies keeping the three key families in separate structures (a lock set, a cooldown map and the cache), since no key of one family can ever name an entry of another.
- `resetCooldown` re-arms the deadline to `now + MESSAGE_COOLDOWN_SEC`, the same as `startCooldown`. Tagging the cooldown with the new message is not modelled.
- `StickyMessage.StickyManager.CountMessage` stands for the counter increment. The event handler that increments it is not part of this model.
- `STICKY_MODAL_TIMEOUT` and the log lines written with `console.info` and `console.error` are not modelled. Replies are return values; their delivery is not modelled.
- `InitStickyMessage` takes the rows that the read returned as a parameter; it does not relate them to `records`. Its per-row cache guarantee assumes that no two rows share a channel, as the table's key on `channelId` ensures.
- `InitStickyMessage`: when the read throws, the start-up function itself rejects. The model states only that the state is unchanged on that path.
- In `StickaoSet`, `guildChatInput` stands for both the guild check and the chat-input check, and `isTextChannel` stands for both the channel-cache lookup and the type check.
- For the thread report, only the TSV text is modelled. The command's menu and action wiring, the reply with its file attachment, and the snowflake-to-date conversion and local-date formatting are left out. The date formatting is the parameter `formatDate`. Message counts are whole numbers.
- `ThreadReport.NatToString` takes message counts to be below 2^53. JavaScript writes larger numbers inexactly, and numbers of 10^21 and more in exponent form.
- `ThreadReport.ReportParses` requires every cell to be free of tabs and newlines, because a cell holding one cannot be read back. The report itself does not escape such characters.
- The profile inspector, emoji-spam prevention, news scraping, runtime configuration schema, bot bootstrap and registration files are not part of this model.
- A missing row for the channel makes `prisma.stickyMessage.update` throw inside the `try` (src/features/stickyMessage/index.ts:57-64), so `PushMessageToBottom` takes the caught failure path.

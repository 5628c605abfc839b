/** The moderator commands `stickao-set` and `stickao-remove`
    (src/commands/moderators/stickyMessage.ts), as transitions on the persisted
    sticky table and the cache of a StickyManager. */
module StickyCommands {
  import opened Wrappers
  import opened StickyMessage

  const INVALID_MESSAGE := "Please provide a valid message for the sticky message."
  const NOT_TEXT_CHANNEL := "Sticky text can create only in text channel."
  const CREATED := "Successfully created sticky message."
  const CREATE_FAILED := "An error occurred while creating the sticky message."
  const REMOVED := "Successfully removed the sticky message."
  const NOT_FOUND := "Not found message in this channel"
  const REMOVE_FAILED := "An error occurred while removing the sticky message."

  /** How a command handler ends: silently, with a reply to the moderator, or
      with an exception escaping to the bot framework. */
  datatype Outcome = Ignored | Replied(text: string) | Threw

  /** `stickao-set` in channel `c`. `guildChatInput` is whether the interaction is
      a slash command inside a server; `message` the option's value (None when
      omitted); `isTextChannel` whether `c` is a cached server text channel;
      `sendResult` the id of the posted message, or None when sending threw;
      `upsertOk` whether the database upsert succeeded. */
  method StickaoSet(m: StickyManager, guildChatInput: bool, c: ChannelId, message: Option<string>,
                    isTextChannel: bool, sendResult: Option<MessageId>, upsertOk: bool)
    returns (outcome: Outcome)
    requires m.Valid()
    modifies m
    ensures m.Valid()
    // the repost state of every channel is left alone
    ensures m.locked == old(m.locked) && m.counter == old(m.counter) && m.cooldown == old(m.cooldown)
    ensures !guildChatInput ==> outcome == Ignored && unchanged(m)
    ensures guildChatInput && (message == None || message == Some("")) ==>
      outcome == Replied(INVALID_MESSAGE) && unchanged(m)
    ensures guildChatInput && message.Some? && message.value != "" && !isTextChannel ==>
      outcome == Replied(NOT_TEXT_CHANNEL) && unchanged(m)
    ensures guildChatInput && message.Some? && message.value != "" && isTextChannel && sendResult == None ==>
      outcome == Threw && unchanged(m)
    // the message goes out before the upsert, so it stays posted even when the upsert fails
    ensures guildChatInput && message.Some? && message.value != "" && isTextChannel && sendResult.Some? ==>
      && m.platform == old(m.platform) + [Sent(c, message.value, sendResult.value)]
      && (upsertOk ==>
            && outcome == Replied(CREATED)
            && m.records == old(m.records)[c := StickyRecord(c, sendResult.value, message.value)]
            && m.cache == old(m.cache)[CacheKey(c) := m.records[c]])
      && (!upsertOk ==>
            outcome == Replied(CREATE_FAILED) && m.records == old(m.records) && m.cache == old(m.cache))
    // whatever happens, a channel's record changes only to the record of a message just sent
    ensures m.records != old(m.records) ==>
      m.records.Keys == old(m.records.Keys) + {c} &&
      exists id :: m.platform == old(m.platform) + [Sent(c, m.records[c].message, id)] && m.records[c].messageId == id
  {
    if !guildChatInput {
      return Ignored;
    }
    if message == None || message == Some("") {
      return Replied(INVALID_MESSAGE);
    }
    if !isTextChannel {
      return Replied(NOT_TEXT_CHANNEL);
    }
    if sendResult == None {
      return Threw;
    }
    var text := message.value;
    var sentId := sendResult.value;
    m.platform := m.platform + [Sent(c, text, sentId)];
    if upsertOk {
      var sticky := StickyRecord(c, sentId, text);
      m.records := m.records[c := sticky];
      forall d | CacheKey(d) == CacheKey(c) ensures d == c {
        KeyInjective(STICKY_CACHE_PREFIX, d, c);
      }
      m.cache := m.cache[CacheKey(c) := sticky];
      outcome := Replied(CREATED);
    } else {
      outcome := Replied(CREATE_FAILED);
    }
  }

  /** `stickao-remove` in channel `c`. Whether a sticky message exists is read
      from the cache; `deleteOk` is whether the database was reachable for the
      delete, which also fails when the table has no row for `c`. */
  method StickaoRemove(m: StickyManager, guildChatInput: bool, c: ChannelId, deleteOk: bool)
    returns (outcome: Outcome)
    requires m.Valid()
    modifies m
    ensures m.Valid()
    ensures m.locked == old(m.locked) && m.counter == old(m.counter)
    ensures m.cooldown == old(m.cooldown) && m.platform == old(m.platform)
    ensures !guildChatInput ==> outcome == Ignored && unchanged(m)
    ensures guildChatInput && CacheKey(c) !in old(m.cache) ==>
      outcome == Replied(NOT_FOUND) && unchanged(m)
    ensures guildChatInput && CacheKey(c) in old(m.cache) && deleteOk && c in old(m.records) ==>
      && outcome == Replied(REMOVED)
      && m.records == old(m.records) - {c}
      && m.cache == old(m.cache) - {CacheKey(c)}
    // the cache entry goes only after the row is gone
    ensures guildChatInput && CacheKey(c) in old(m.cache) && !(deleteOk && c in old(m.records)) ==>
      outcome == Replied(REMOVE_FAILED) && unchanged(m)
  {
    if !guildChatInput {
      return Ignored;
    }
    if CacheKey(c) in m.cache {
      if deleteOk && c in m.records {
        m.records := m.records - {c};
        m.cache := m.cache - {CacheKey(c)};
        outcome := Replied(REMOVED);
      } else {
        outcome := Replied(REMOVE_FAILED);
      }
    } else {
      outcome := Replied(NOT_FOUND);
    }
  }
}

/** The sticky-message manager: one designated message per channel is kept at
    the bottom of that channel by deleting and re-sending it once the channel's
    cooldown has elapsed or enough messages have piled up on top of it
    (src/features/stickyMessage/index.ts). */
module StickyMessage {
  import opened Wrappers
  import opened Config

  type ChannelId = string
  type MessageId = string

  const STICKY_LOCK_PREFIX := "sticky-lock"
  const STICKY_COOLDOWN_PREFIX := "sticky-cooldown"
  const STICKY_CACHE_PREFIX := "sticky-cache"

  /** One row of the persisted sticky-message table; `channelId` is its unique key. */
  datatype StickyRecord = StickyRecord(channelId: ChannelId, messageId: MessageId, message: string)

  /** A call to the chat platform that succeeded, and so changed what a channel shows. */
  datatype PlatformCall =
    | Deleted(channel: ChannelId, id: MessageId)
    | Sent(channel: ChannelId, content: string, id: MessageId)

  /** Everything the manager holds about one channel. */
  datatype ChannelView = ChannelView(
    record: Option<StickyRecord>,
    cached: Option<StickyRecord>,
    locked: bool,
    count: nat,
    deadline: Option<int>)

  /** The key scheme `<prefix>-<id>` of the in-memory cache. */
  function Key(prefix: string, id: string): string {
    prefix + "-" + id
  }

  /** The cache key under which a channel's sticky record is kept. */
  function CacheKey(c: ChannelId): string {
    Key(STICKY_CACHE_PREFIX, c)
  }

  /** Within one prefix, distinct ids give distinct keys. */
  lemma {:induction false} KeyInjective(prefix: string, a: string, b: string)
    ensures Key(prefix, a) == Key(prefix, b) <==> a == b
  {
    if Key(prefix, a) == Key(prefix, b) {
      assert a == Key(prefix, a)[|prefix| + 1..];
      assert b == Key(prefix, b)[|prefix| + 1..];
    }
  }

  /** The three sticky prefixes name disjoint key spaces: no cache key is ever
      a lock or a cooldown key, whatever the ids. */
  lemma {:induction false} KeyFamiliesDisjoint(a: string, b: string)
    ensures Key(STICKY_CACHE_PREFIX, a) != Key(STICKY_LOCK_PREFIX, b)
    ensures Key(STICKY_CACHE_PREFIX, a) != Key(STICKY_COOLDOWN_PREFIX, b)
    ensures Key(STICKY_LOCK_PREFIX, a) != Key(STICKY_COOLDOWN_PREFIX, b)
  {
    assert Key(STICKY_CACHE_PREFIX, a)[7] == 'c' && Key(STICKY_LOCK_PREFIX, b)[7] == 'l';
    assert Key(STICKY_CACHE_PREFIX, a)[8] == 'a' && Key(STICKY_COOLDOWN_PREFIX, b)[8] == 'o';
    assert Key(STICKY_LOCK_PREFIX, a)[7] == 'l' && Key(STICKY_COOLDOWN_PREFIX, b)[7] == 'c';
  }

  /** The cache after each row, in order, was saved under its channel's key. */
  function CacheRows(cache: map<string, StickyRecord>, rows: seq<StickyRecord>): map<string, StickyRecord>
    decreases |rows|
  {
    if rows == [] then cache
    else
      var last := rows[|rows| - 1];
      CacheRows(cache, rows[..|rows| - 1])[CacheKey(last.channelId) := last]
  }

  /** A per-channel map after the channel of each row, in order, was set to `v`. */
  function SetRows<V>(m: map<ChannelId, V>, rows: seq<StickyRecord>, v: V): map<ChannelId, V>
    decreases |rows|
  {
    if rows == [] then m
    else SetRows(m, rows[..|rows| - 1], v)[rows[|rows| - 1].channelId := v]
  }

  /** No two rows belong to the same channel, as in a table keyed by channel id. */
  ghost predicate DistinctChannels(rows: seq<StickyRecord>) {
    forall i, j :: 0 <= i < j < |rows| ==> rows[i].channelId != rows[j].channelId
  }

  /** Whether some row belongs to channel `c`. */
  ghost predicate HasRowFor(rows: seq<StickyRecord>, c: ChannelId) {
    exists i :: 0 <= i < |rows| && rows[i].channelId == c
  }

  /** A row that no later row of its channel overrides is what the cache holds
      for that channel. */
  lemma {:induction false} CacheRowsHit(cache: map<string, StickyRecord>, rows: seq<StickyRecord>, i: nat)
    requires i < |rows|
    requires forall j :: i < j < |rows| ==> rows[j].channelId != rows[i].channelId
    ensures CacheKey(rows[i].channelId) in CacheRows(cache, rows)
    ensures CacheRows(cache, rows)[CacheKey(rows[i].channelId)] == rows[i]
    decreases |rows|
  {
    var n := |rows| - 1;
    if i < n {
      KeyInjective(STICKY_CACHE_PREFIX, rows[n].channelId, rows[i].channelId);
      CacheRowsHit(cache, rows[..n], i);
    }
  }

  /** A key that no row's channel maps to keeps its cache entry, or its absence. */
  lemma {:induction false} CacheRowsMiss(cache: map<string, StickyRecord>, rows: seq<StickyRecord>, k: string)
    requires forall j :: 0 <= j < |rows| ==> CacheKey(rows[j].channelId) != k
    ensures k in CacheRows(cache, rows) <==> k in cache
    ensures k in cache ==> CacheRows(cache, rows)[k] == cache[k]
    decreases |rows|
  {
    if rows != [] {
      CacheRowsMiss(cache, rows[..|rows| - 1], k);
    }
  }

  /** After SetRows, a channel with a row holds `v`; any other channel keeps its entry. */
  lemma {:induction false} SetRowsAt<V>(m: map<ChannelId, V>, rows: seq<StickyRecord>, v: V, c: ChannelId)
    ensures HasRowFor(rows, c) ==> c in SetRows(m, rows, v) && SetRows(m, rows, v)[c] == v
    ensures !HasRowFor(rows, c) ==>
      (c in SetRows(m, rows, v) <==> c in m) && (c in m ==> SetRows(m, rows, v)[c] == m[c])
    decreases |rows|
  {
    if rows != [] {
      var n := |rows| - 1;
      SetRowsAt(m, rows[..n], v, c);
      if HasRowFor(rows, c) && rows[n].channelId != c {
        var i :| 0 <= i < |rows| && rows[i].channelId == c;
        assert rows[..n][i].channelId == c;
      }
      if HasRowFor(rows[..n], c) {
        var i :| 0 <= i < n && rows[..n][i].channelId == c;
        assert rows[i].channelId == c;
      }
    }
  }

  /** The process-wide state of the sticky-message subsystem together with the
      persisted table it mirrors and the calls it has made on the platform. */
  class StickyManager {
    /** The persisted table (prisma.stickyMessage), keyed by channel id. */
    var records: map<ChannelId, StickyRecord>
    /** The in-memory cache, keyed by CacheKey. */
    var cache: map<string, StickyRecord>
    /** Channels whose repost is in progress. */
    var locked: set<ChannelId>
    /** Messages seen per channel since its last repost; an absent channel counts 0. */
    var counter: map<ChannelId, nat>
    /** Per-channel cooldown deadline; an absent channel is not in cooldown. */
    var cooldown: map<ChannelId, int>
    /** A record of the successful deletes and sends on the platform, oldest
        first. The bot keeps no such list; it is here to state call order. */
    ghost var platform: seq<PlatformCall>

    /** At most one record per channel, and every cached sticky entry belongs
        to the channel its key names. */
    ghost predicate Valid()
      reads this
    {
      && (forall c :: c in records ==> records[c].channelId == c)
      && (forall c :: CacheKey(c) in cache ==> cache[CacheKey(c)].channelId == c)
    }

    /** A fresh process over a persisted table: nothing cached, locked, counted or cooling down. */
    constructor (persisted: map<ChannelId, StickyRecord>)
      requires forall c :: c in persisted ==> persisted[c].channelId == c
      ensures Valid()
      ensures records == persisted && cache == map[] && locked == {}
      ensures counter == map[] && cooldown == map[] && platform == []
    {
      records := persisted;
      cache := map[];
      locked := {};
      counter := map[];
      cooldown := map[];
      platform := [];
    }

    /** The counter of `c`; a channel never counted reads 0. */
    function GetCounter(c: ChannelId): nat
      reads this
    {
      if c in counter then counter[c] else 0
    }

    /** Whether `c` is still inside its cooldown at `now`; a channel whose
        cooldown was never started is not. */
    function IsCooldown(c: ChannelId, now: int): bool
      reads this
    {
      c in cooldown && now < cooldown[c]
    }

    /** What the manager holds about channel `c`, across all its maps. */
    function View(c: ChannelId): ChannelView
      reads this
    {
      ChannelView(
        if c in records then Some(records[c]) else None,
        if CacheKey(c) in cache then Some(cache[CacheKey(c)]) else None,
        c in locked,
        GetCounter(c),
        if c in cooldown then Some(cooldown[c]) else None)
    }

    /** Whether a repost is due in channel `c` at time `now`. It reads the state only. */
    function IsNeedToUpdateMessage(c: ChannelId, now: int): (need: bool)
      reads this
      ensures c !in cooldown ==> need
      ensures c in counter && counter[c] >= MESSAGE_MAX ==> need
      ensures !need <==> c in cooldown && now < cooldown[c] && GetCounter(c) < MESSAGE_MAX
    {
      !IsCooldown(c, now) || GetCounter(c) >= MESSAGE_MAX
    }

    /** One more qualifying message seen in channel `c` (done by an event handler
        outside the manager). */
    method CountMessage(c: ChannelId)
      modifies this
      ensures counter == old(counter)[c := old(GetCounter(c)) + 1]
      ensures records == old(records) && cache == old(cache) && locked == old(locked)
      ensures cooldown == old(cooldown) && platform == old(platform)
    {
      counter := counter[c := GetCounter(c) + 1];
    }

    /** The body of the start-up loop for one row: cache it under its
        channel's key, reset its channel's counter and start its cooldown. */
    method RestoreChannel(row: StickyRecord, now: int)
      requires Valid()
      modifies this
      ensures Valid()
      ensures records == old(records) && locked == old(locked) && platform == old(platform)
      ensures cache == old(cache)[CacheKey(row.channelId) := row]
      ensures counter == old(counter)[row.channelId := 0]
      ensures cooldown == old(cooldown)[row.channelId := now + MESSAGE_COOLDOWN_SEC]
    {
      forall d | CacheKey(d) == CacheKey(row.channelId) ensures d == row.channelId {
        KeyInjective(STICKY_CACHE_PREFIX, d, row.channelId);
      }
      cache := cache[CacheKey(row.channelId) := row];
      counter := counter[row.channelId := 0];
      cooldown := cooldown[row.channelId := now + MESSAGE_COOLDOWN_SEC];
    }

    /** Rebuilds the in-memory state at start-up from the rows read from the
        persisted table (`rows`, None when the read threw): each row is cached,
        its counter reset and its cooldown started. */
    method InitStickyMessage(rows: Option<seq<StickyRecord>>, now: int)
      requires Valid()
      modifies this
      ensures Valid()
      ensures records == old(records) && locked == old(locked) && platform == old(platform)
      ensures rows == None ==> cache == old(cache) && counter == old(counter) && cooldown == old(cooldown)
      ensures rows.Some? ==>
        && cache == CacheRows(old(cache), rows.value)
        && counter == SetRows(old(counter), rows.value, 0)
        && cooldown == SetRows(old(cooldown), rows.value, now + MESSAGE_COOLDOWN_SEC)
      // every row's channel: counter 0, cooldown started, and the row cached when
      // rows have distinct channels, as the table's unique key guarantees
      ensures rows.Some? ==> forall i :: 0 <= i < |rows.value| ==>
        GetCounter(rows.value[i].channelId) == 0 && IsCooldown(rows.value[i].channelId, now)
      ensures rows.Some? && DistinctChannels(rows.value) ==> forall i :: 0 <= i < |rows.value| ==>
        View(rows.value[i].channelId).cached == Some(rows.value[i])
      // channels without a row are untouched
      ensures rows.Some? ==> forall d :: !HasRowFor(rows.value, d) ==> View(d) == old(View(d))
    {
      if rows == None {
        return;
      }
      var rs := rows.value;
      for i := 0 to |rs|
        invariant Valid()
        invariant records == old(records) && locked == old(locked) && platform == old(platform)
        invariant cache == CacheRows(old(cache), rs[..i])
        invariant counter == SetRows(old(counter), rs[..i], 0)
        invariant cooldown == SetRows(old(cooldown), rs[..i], now + MESSAGE_COOLDOWN_SEC)
      {
        RestoreChannel(rs[i], now);
        assert rs[..i + 1][..i] == rs[..i];
      }
      assert rs[..|rs|] == rs;
      InitFacts(rs, now, old(cache), old(counter), old(cooldown));
    }

    /** What InitStickyMessage's final state says about each channel. */
    lemma InitFacts(rs: seq<StickyRecord>, now: int, cache0: map<string, StickyRecord>,
                    counter0: map<ChannelId, nat>, cooldown0: map<ChannelId, int>)
      requires cache == CacheRows(cache0, rs)
      requires counter == SetRows(counter0, rs, 0)
      requires cooldown == SetRows(cooldown0, rs, now + MESSAGE_COOLDOWN_SEC)
      ensures forall i :: 0 <= i < |rs| ==> GetCounter(rs[i].channelId) == 0 && IsCooldown(rs[i].channelId, now)
      ensures DistinctChannels(rs) ==> forall i :: 0 <= i < |rs| ==> View(rs[i].channelId).cached == Some(rs[i])
      ensures forall d :: !HasRowFor(rs, d) ==>
        && (CacheKey(d) in cache <==> CacheKey(d) in cache0)
        && (CacheKey(d) in cache ==> cache[CacheKey(d)] == cache0[CacheKey(d)])
        && (d in counter <==> d in counter0) && (d in counter ==> counter[d] == counter0[d])
        && (d in cooldown <==> d in cooldown0) && (d in cooldown ==> cooldown[d] == cooldown0[d])
    {
      forall i | 0 <= i < |rs| ensures GetCounter(rs[i].channelId) == 0 && IsCooldown(rs[i].channelId, now) {
        SetRowsAt(counter0, rs, 0, rs[i].channelId);
        SetRowsAt(cooldown0, rs, now + MESSAGE_COOLDOWN_SEC, rs[i].channelId);
      }
      if DistinctChannels(rs) {
        forall i | 0 <= i < |rs| ensures View(rs[i].channelId).cached == Some(rs[i]) {
          CacheRowsHit(cache0, rs, i);
        }
      }
      forall d | !HasRowFor(rs, d)
        ensures (CacheKey(d) in cache <==> CacheKey(d) in cache0)
        ensures CacheKey(d) in cache ==> cache[CacheKey(d)] == cache0[CacheKey(d)]
        ensures (d in counter <==> d in counter0) && (d in counter ==> counter[d] == counter0[d])
        ensures (d in cooldown <==> d in cooldown0) && (d in cooldown ==> cooldown[d] == cooldown0[d])
      {
        forall j | 0 <= j < |rs| ensures CacheKey(rs[j].channelId) != CacheKey(d) {
          KeyInjective(STICKY_CACHE_PREFIX, rs[j].channelId, d);
        }
        CacheRowsMiss(cache0, rs, CacheKey(d));
        SetRowsAt(counter0, rs, 0, d);
        SetRowsAt(cooldown0, rs, now + MESSAGE_COOLDOWN_SEC, d);
      }
    }

    /** The `try` block of PushMessageToBottom: fetch and delete the old message,
        send the content again, store the new id, cache the stored record and
        re-arm the cooldown, abandoning the rest at the first step that throws.
        An update finds nothing to change, and throws, when the table has no row
        for `c`. */
    method RepostSteps(c: ChannelId, sticky: StickyRecord, now: int,
                       fetchOk: bool, deleteOk: bool, sendResult: Option<MessageId>, updateOk: bool)
      requires Valid()
      modifies this
      ensures Valid()
      ensures counter == old(counter) && locked == old(locked)
      ensures platform == old(platform)
        + (if fetchOk && deleteOk then [Deleted(c, sticky.messageId)] else [])
        + (if fetchOk && deleteOk && sendResult.Some? then [Sent(c, sticky.message, sendResult.value)] else [])
      ensures fetchOk && deleteOk && sendResult.Some? && updateOk && c in old(records) ==>
        && records == old(records)[c := StickyRecord(c, sendResult.value, old(records)[c].message)]
        && cache == old(cache)[CacheKey(c) := records[c]]
        && cooldown == old(cooldown)[c := now + MESSAGE_COOLDOWN_SEC]
      ensures !(fetchOk && deleteOk && sendResult.Some? && updateOk && c in old(records)) ==>
        records == old(records) && cache == old(cache) && cooldown == old(cooldown)
    {
      if !fetchOk || !deleteOk {
        return;
      }
      platform := platform + [Deleted(c, sticky.messageId)];
      if sendResult == None {
        return;
      }
      var newId := sendResult.value;
      platform := platform + [Sent(c, sticky.message, newId)];
      if !updateOk || c !in records {
        return;
      }
      var entity := records[c].(messageId := newId);
      records := records[c := entity];
      forall d | CacheKey(d) == CacheKey(c) ensures d == c {
        KeyInjective(STICKY_CACHE_PREFIX, d, c);
      }
      cache := cache[CacheKey(c) := entity];
      cooldown := cooldown[c := now + MESSAGE_COOLDOWN_SEC];
    }

    /** Moves the sticky message `sticky` of channel `c` to the bottom: lock the
        channel, run the repost steps, then, whichever step failed or none, reset
        the counter and unlock the channel. */
    method PushMessageToBottom(c: ChannelId, sticky: StickyRecord, now: int,
                               fetchOk: bool, deleteOk: bool, sendResult: Option<MessageId>, updateOk: bool)
      requires Valid()
      modifies this
      ensures Valid()
      // finally: always
      ensures counter == old(counter)[c := 0] && locked == old(locked) - {c}
      ensures GetCounter(c) == 0 && c !in locked
      // the platform sees the delete only after a successful fetch, and the send only after the delete
      ensures platform == old(platform)
        + (if fetchOk && deleteOk then [Deleted(c, sticky.messageId)] else [])
        + (if fetchOk && deleteOk && sendResult.Some? then [Sent(c, sticky.message, sendResult.value)] else [])
      // full success
      ensures fetchOk && deleteOk && sendResult.Some? && updateOk && c in old(records) ==>
        && records == old(records)[c := StickyRecord(c, sendResult.value, old(records)[c].message)]
        && cache == old(cache)[CacheKey(c) := records[c]]
        && cooldown == old(cooldown)[c := now + MESSAGE_COOLDOWN_SEC]
        && IsCooldown(c, now)
      // any failure: table, cache and cooldown untouched
      ensures !(fetchOk && deleteOk && sendResult.Some? && updateOk && c in old(records)) ==>
        records == old(records) && cache == old(cache) && cooldown == old(cooldown)
      // the stored id moves only once the old message is gone and the new one is out
      ensures records != old(records) ==>
        platform == old(platform) + [Deleted(c, sticky.messageId), Sent(c, sticky.message, records[c].messageId)]
      // no other channel is touched
      ensures forall d :: d != c ==> View(d) == old(View(d))
    {
      locked := locked + {c};
      RepostSteps(c, sticky, now, fetchOk, deleteOk, sendResult, updateOk);
      counter := counter[c := 0];
      locked := locked - {c};
      forall d | d != c ensures CacheKey(d) != CacheKey(c) {
        KeyInjective(STICKY_CACHE_PREFIX, d, c);
      }
    }
  }
}

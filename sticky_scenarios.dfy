/** Two short sequences of operations on the sticky-message manager, checked from the contracts alone. */
module StickyScenarios {
  import opened Wrappers
  import opened Config
  import opened StickyMessage
  import opened StickyCommands

  /** A channel with no cooldown yet wants a repost; right after a successful
      repost it does not; five messages later it does again, cooldown or not. */
  method CooldownAndTripWire(now: int) {
    var m := new StickyManager(map[]);
    var o := StickaoSet(m, true, "general", Some("read the rules"), true, Some("m1"), true);
    assert o == Replied(CREATED);
    assert m.IsNeedToUpdateMessage("general", now);

    m.PushMessageToBottom("general", m.records["general"], now, true, true, Some("m2"), true);
    assert m.records["general"] == StickyRecord("general", "m2", "read the rules");
    assert !m.IsNeedToUpdateMessage("general", now + 1);

    m.CountMessage("general");
    m.CountMessage("general");
    m.CountMessage("general");
    m.CountMessage("general");
    assert !m.IsNeedToUpdateMessage("general", now + 1);
    m.CountMessage("general");
    assert m.IsNeedToUpdateMessage("general", now + 1);
  }

  /** The database update fails after the delete and the send: the new message
      is on the platform, yet the table and the cache still name the old one. */
  method UpdateFailureDiverges(now: int) {
    var old1 := StickyRecord("general", "m1", "read the rules");
    var m := new StickyManager(map["general" := old1]);
    m.InitStickyMessage(Some([old1]), now);
    assert m.View("general").cached == Some(old1);

    m.PushMessageToBottom("general", old1, now + 20, true, true, Some("m2"), false);
    assert m.platform == [Deleted("general", "m1"), Sent("general", "read the rules", "m2")];
    assert m.records["general"].messageId == "m1";
    assert m.View("general").cached == Some(old1);
    assert m.GetCounter("general") == 0 && "general" !in m.locked;
  }
}

/** The two runtime settings the sticky-message subsystem reads, at their
    default values (src/config.ts:13-14). */
module Config {
  /** Seconds a channel stays in cooldown after its sticky message was (re)posted. */
  const MESSAGE_COOLDOWN_SEC: nat := 15

  /** Messages seen since the last repost that force a repost even inside the cooldown. */
  const MESSAGE_MAX: nat := 5
}

/** The statuses of a channel, and of a key in its list. */
module ChannelStatus {
  const STATUS_ENABLED := 1
  const MANUALLY_DISABLED := 2
  const AUTO_DISABLED := 3
}

/** The Discord snowflake ids both stores are keyed by, as opaque strings. */
module Ids {
  type UserId = string
  type GuildId = string
}

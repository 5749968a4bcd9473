/** The remaining commands, reduced to their decisions: /dice's range validation
    and the admin gate of /clear and /embed. */
module Commands {
  import opened Wrappers
  import opened Platform
  import opened Gate

  /** /dice's defaults for an omitted min or max. */
  const DiceDefaultMin: int := 1
  const DiceDefaultMax: int := 6

  /** An optional argument, or its default when omitted. */
  function ArgOr(arg: Option<int>, default: int): int
  {
    if arg.Some? then arg.value else default
  }

  /** The range is rejected with a message, or a roll in [low, high] is drawn. */
  datatype DiceReply = InvalidRange | Roll(low: int, high: int)

  /** /dice: min and max default to 1 and 6; reject unless 1 <= min <= max <= 100,
      otherwise roll over exactly [min, max]. */
  function Dice(min: Option<int>, max: Option<int>): (reply: DiceReply)
    ensures reply.Roll? <==> 1 <= ArgOr(min, DiceDefaultMin) <= ArgOr(max, DiceDefaultMax) <= 100
    ensures reply.Roll? ==> reply.low == ArgOr(min, DiceDefaultMin) && reply.high == ArgOr(max, DiceDefaultMax)
    ensures min.None? && max.None? ==> reply == Roll(1, 6)
  {
    var lo := ArgOr(min, DiceDefaultMin);
    var hi := ArgOr(max, DiceDefaultMax);
    if lo < 1 || hi > 100 || lo > hi then InvalidRange else Roll(lo, hi)
  }

  /** /clear: denied, or a purge of up to count messages in the current channel. */
  datatype ClearReply = ClearDenied | Purge(limit: int)

  function Clear(caller: seq<Role>, count: int): (reply: ClearReply)
    ensures reply.Purge? <==> IsAuthorized(caller)
    ensures reply.Purge? ==> reply.limit == count
  {
    if IsAuthorized(caller) then Purge(count) else ClearDenied
  }

  /** /embed: denied, the colour argument is not hexadecimal (nothing is sent), or
      the optional text message and then the embed are sent to the target channel. */
  datatype EmbedReply = EmbedDenied | BadColor | Announce(channel: ChannelId, text: Option<string>)

  /** The target is the channel argument or else the current channel; the text
      message is sent only when the msg argument is non-empty. */
  function Embed(caller: seq<Role>, colorParses: bool, msg: Option<string>,
                 channel: Option<ChannelId>, current: ChannelId): (reply: EmbedReply)
    ensures reply == EmbedDenied <==> !IsAuthorized(caller)
    ensures reply.Announce? <==> IsAuthorized(caller) && colorParses
    ensures reply.Announce? ==>
              reply.channel == (if channel.Some? then channel.value else current) &&
              (reply.text.Some? <==> msg.Some? && msg.value != []) &&
              (reply.text.Some? ==> reply.text == msg)
  {
    if !IsAuthorized(caller) then EmbedDenied
    else if !colorParses then BadColor
    else
      var target := if channel.Some? then channel.value else current;
      var text := if msg.Some? && msg.value != [] then msg else None;
      Announce(target, text)
  }
}

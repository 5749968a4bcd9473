/** The gateway reaction handlers: on_raw_reaction_add and on_raw_reaction_remove.
    Each reads the binding store and chooses which role request, if any, to issue;
    neither writes the store. */
module Router {
  import opened Wrappers
  import opened Platform
  import opened Bindings

  /** A raw reaction payload: who reacted, on which message, with which emoji
      (already rendered with str()). The payload's guild id is used only to look
      the guild up, so the handlers below take bot.get_guild(payload.guild_id)
      directly, as an optional guild view. */
  datatype ReactionEvent = ReactionEvent(userId: UserId, messageId: MessageId, emoji: Emoji)

  /** How the lookup chain ended: bot.get_guild found nothing (the handler then
      fails on guild.get_member before any request), the member is not in the guild,
      the reaction is not bound, the bound role no longer exists, or everything
      resolved. */
  datatype Resolution =
    | NoGuild
    | MemberGone
    | NoBinding
    | DanglingRole(role: RoleId)
    | Found(member: UserId, role: RoleId)

  /** The lookup chain both handlers share, in the source's order: guild, member,
      binding, role. */
  function ResolveEvent(mapping: Mapping, guild: Option<GuildView>, ev: ReactionEvent): (res: Resolution)
    ensures res.Found? <==> guild.Some? && ev.userId in guild.value.members &&
                            Resolve(mapping, ev.messageId, ev.emoji).Some? &&
                            Resolve(mapping, ev.messageId, ev.emoji).value in guild.value.roles
    ensures res.Found? ==> res.member == ev.userId &&
                           Some(res.role) == Resolve(mapping, ev.messageId, ev.emoji)
    ensures res == NoGuild <==> guild.None?
    ensures res == MemberGone <==> guild.Some? && ev.userId !in guild.value.members
    ensures res == NoBinding <==> guild.Some? && ev.userId in guild.value.members &&
                                  Resolve(mapping, ev.messageId, ev.emoji).None?
    ensures res.DanglingRole? <==> guild.Some? && ev.userId in guild.value.members &&
                                   Resolve(mapping, ev.messageId, ev.emoji).Some? &&
                                   Resolve(mapping, ev.messageId, ev.emoji).value !in guild.value.roles
    ensures res.DanglingRole? ==> Some(res.role) == Resolve(mapping, ev.messageId, ev.emoji)
  {
    if guild.None? then NoGuild
    else if ev.userId !in guild.value.members then MemberGone
    else match Resolve(mapping, ev.messageId, ev.emoji)
      case None => NoBinding
      case Some(r) => if r in guild.value.roles then Found(ev.userId, r) else DanglingRole(r)
  }

  /** on_raw_reaction_add: ignore the bot's own reactions; otherwise grant exactly the
      bound role when member, binding and role all resolve, and issue nothing else. */
  function OnReactionAdd(mapping: Mapping, botId: UserId, guild: Option<GuildView>, ev: ReactionEvent)
    : (req: Option<RoleRequest>)
    ensures ev.userId == botId ==> req.None?
    ensures req.Some? <==> ev.userId != botId && guild.Some? && ev.userId in guild.value.members &&
                           Resolve(mapping, ev.messageId, ev.emoji).Some? &&
                           Resolve(mapping, ev.messageId, ev.emoji).value in guild.value.roles
    ensures req.Some? ==> req.value == Grant(ev.userId, mapping[ev.messageId][ev.emoji])
  {
    if ev.userId == botId then None
    else match ResolveEvent(mapping, guild, ev)
      case Found(member, role) => Some(Grant(member, role))
      case _ => None
  }

  /** on_raw_reaction_remove: the same chain without the bot-identity check; revokes
      exactly the bound role when member, binding and role all resolve. */
  function OnReactionRemove(mapping: Mapping, guild: Option<GuildView>, ev: ReactionEvent)
    : (req: Option<RoleRequest>)
    ensures req.Some? <==> guild.Some? && ev.userId in guild.value.members &&
                           Resolve(mapping, ev.messageId, ev.emoji).Some? &&
                           Resolve(mapping, ev.messageId, ev.emoji).value in guild.value.roles
    ensures req.Some? ==> req.value == Revoke(ev.userId, mapping[ev.messageId][ev.emoji])
  {
    match ResolveEvent(mapping, guild, ev)
    case Found(member, role) => Some(Revoke(member, role))
    case _ => None
  }

  /** The two handlers differ only in the request kind and in the bot check: for any
      user other than the bot, add grants exactly the role remove would revoke. */
  lemma AddRemoveAgree(mapping: Mapping, botId: UserId, guild: Option<GuildView>, ev: ReactionEvent)
    requires ev.userId != botId
    ensures OnReactionAdd(mapping, botId, guild, ev).Some? <==> OnReactionRemove(mapping, guild, ev).Some?
    ensures OnReactionAdd(mapping, botId, guild, ev).Some? ==>
              OnReactionAdd(mapping, botId, guild, ev).value.role ==
              OnReactionRemove(mapping, guild, ev).value.role
  {
  }

  /** The remove handler has no bot-identity check: when the bot's own reaction on a
      bound message is removed and the bot resolves as a member, the bound role is
      revoked from the bot, whereas the add handler ignores the bot's reactions. */
  lemma RemoveDoesNotSkipBot(mapping: Mapping, botId: UserId, guild: GuildView, ev: ReactionEvent)
    requires ev.userId == botId && botId in guild.members
    requires Resolve(mapping, ev.messageId, ev.emoji).Some?
    requires Resolve(mapping, ev.messageId, ev.emoji).value in guild.roles
    ensures OnReactionAdd(mapping, botId, Some(guild), ev) == None
    ensures OnReactionRemove(mapping, Some(guild), ev) ==
            Some(Revoke(botId, Resolve(mapping, ev.messageId, ev.emoji).value))
  {
  }

  /** An event whose (message, emoji) was never bound issues no request, whichever
      way it goes. */
  lemma UnboundEventIgnored(mapping: Mapping, botId: UserId, guild: Option<GuildView>, ev: ReactionEvent)
    requires Resolve(mapping, ev.messageId, ev.emoji).None?
    ensures OnReactionAdd(mapping, botId, guild, ev).None?
    ensures OnReactionRemove(mapping, guild, ev).None?
  {
  }

  /** A duplicated add event issues the same request again (the store is read-only to
      the handler), and applying that grant a second time leaves the member's roles as
      the first application did. */
  lemma DuplicateAddHarmless(mapping: Mapping, botId: UserId, guild: Option<GuildView>,
                             ev: ReactionEvent, held: set<RoleId>)
    requires OnReactionAdd(mapping, botId, guild, ev).Some?
    ensures var req := OnReactionAdd(mapping, botId, guild, ev).value;
            Apply(Apply(held, req), req) == Apply(held, req)
  {
    ApplyIdempotent(held, OnReactionAdd(mapping, botId, guild, ev).value);
  }

  /** End to end: after an admin binds (m, e) to role R on the empty store, a member's
      add reaction on (m, e) issues exactly Grant(member, R) and the matching remove
      issues exactly Revoke(member, R), provided member and role resolve in the guild. */
  lemma BindThenReact(req: BindRequest, botId: UserId, guild: GuildView, user: UserId)
    requires Accepted(req).Some?
    requires user != botId && user in guild.members && req.role.id in guild.roles
    ensures var mapping := BindStep(map[], req).0;
            var ev := ReactionEvent(user, Accepted(req).value, req.emoji);
            OnReactionAdd(mapping, botId, Some(guild), ev) == Some(Grant(user, req.role.id)) &&
            OnReactionRemove(mapping, Some(guild), ev) == Some(Revoke(user, req.role.id))
  {
  }
}

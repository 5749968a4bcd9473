/** What the chat platform hands the bot: identifiers, roles, the guild caches that
    get_member and get_role consult, and the role requests the bot can issue. */
module Platform {
  import Text

  type UserId = nat
  type GuildId = nat
  type ChannelId = nat
  type RoleId = nat

  /** A guild role as the platform reports it: its id and its display name. */
  datatype Role = Role(id: RoleId, name: string)

  /** The view of one guild that the gateway handlers consult: the ids that
      guild.get_member and guild.get_role resolve. */
  datatype GuildView = GuildView(members: set<UserId>, roles: set<RoleId>)

  /** The membership-mutation requests the bot issues: member.add_roles and
      member.remove_roles with a single role. */
  datatype RoleRequest = Grant(member: UserId, role: RoleId) | Revoke(member: UserId, role: RoleId)

  /** The effect of a role request on the set of roles a member holds, as the
      platform applies it: granting a held role or revoking an absent one changes nothing. */
  function Apply(held: set<RoleId>, req: RoleRequest): (after: set<RoleId>)
    ensures req.Grant? ==> req.role in after && after - {req.role} == held - {req.role}
    ensures req.Revoke? ==> req.role !in after && after + {req.role} == held + {req.role}
  {
    match req
    case Grant(_, r) => held + {r}
    case Revoke(_, r) => held - {r}
  }

  /** Applying the same request twice leaves the member where applying it once does,
      so a duplicated gateway event is harmless. */
  lemma ApplyIdempotent(held: set<RoleId>, req: RoleRequest)
    ensures Apply(Apply(held, req), req) == Apply(held, req)
  {
  }

  /** A member's mention as the platform renders it: "<@" id ">". */
  function Mention(id: UserId): (s: string)
    ensures |s| >= 4 && s[0] == '<' && s[1] == '@' && s[|s| - 1] == '>'
    ensures Text.AllDigits(s[2..|s| - 1]) && Text.DigitsValue(s[2..|s| - 1]) == id
    ensures |s| == 4 || s[2] != '0'
  {
    var s := "<@" + Text.ShowNat(id) + ">";
    assert s[2..|s| - 1] == Text.ShowNat(id);
    s
  }
}

/** The welcome registry: welcome_settings, a map from guild id to a title /
    description / channel record, the /welcome command that writes it, and the
    on_member_join handler that reads it. */
module Welcome {
  import opened Wrappers
  import opened Platform
  import opened Gate
  import Text

  /** One guild's welcome configuration; the description is a template in which
      "{member}" stands for the joining member. */
  datatype WelcomeSetting = WelcomeSetting(title: string, description: string, channel: ChannelId)

  type Settings = map<GuildId, WelcomeSetting>

  /** The ephemeral replies of /welcome. */
  datatype WelcomeReply = NotPermitted | MissingFields | Saved | Removed | NotSet | UnknownMode

  /** Python truthiness of an optional text argument: absent and "" are both false. */
  predicate Given(arg: Option<string>)
  {
    arg.Some? && arg.value != []
  }

  /** A stored record whose text fields are all set. */
  predicate Complete(s: WelcomeSetting)
  {
    s.title != [] && s.description != []
  }

  /** Every guild's record is complete: a configuration is never partially set. */
  ghost predicate AllComplete(settings: Settings)
  {
    forall g | g in settings :: Complete(settings[g])
  }

  /** /welcome as a step on the registry: the new map and the reply. */
  function WelcomeStep(settings: Settings, caller: seq<Role>, guild: GuildId, mode: string,
                       title: Option<string>, description: Option<string>, channel: Option<ChannelId>)
    : (res: (Settings, WelcomeReply))
    ensures res.1 == NotPermitted <==> !IsAuthorized(caller)
    ensures res.1 == Saved <==>
              IsAuthorized(caller) && Text.AsciiLower(mode) == "add" &&
              Given(title) && Given(description) && channel.Some?
    ensures res.1 == Saved ==>
              res.0 == settings[guild := WelcomeSetting(title.value, description.value, channel.value)]
    ensures res.1 == MissingFields <==>
              IsAuthorized(caller) && Text.AsciiLower(mode) == "add" &&
              !(Given(title) && Given(description) && channel.Some?)
    ensures res.1 == Removed <==>
              IsAuthorized(caller) && Text.AsciiLower(mode) == "remove" && guild in settings
    ensures res.1 == Removed ==> res.0 == settings - {guild}
    ensures res.1 == NotSet <==>
              IsAuthorized(caller) && Text.AsciiLower(mode) == "remove" && guild !in settings
    ensures res.1 == UnknownMode <==>
              IsAuthorized(caller) && Text.AsciiLower(mode) != "add" && Text.AsciiLower(mode) != "remove"
    ensures res.1 != Saved && res.1 != Removed ==> res.0 == settings
    ensures AllComplete(settings) ==> AllComplete(res.0)
  {
    if !IsAuthorized(caller) then (settings, NotPermitted)
    else if Text.AsciiLower(mode) == "add" then
      if !(Given(title) && Given(description) && channel.Some?) then (settings, MissingFields)
      else (settings[guild := WelcomeSetting(title.value, description.value, channel.value)], Saved)
    else if Text.AsciiLower(mode) == "remove" then
      if guild in settings then (settings - {guild}, Removed) else (settings, NotSet)
    else (settings, UnknownMode)
  }

  /** The process-wide registry. It starts empty; /welcome is its only writer. */
  class WelcomeRegistry {
    var settings: Settings

    ghost predicate Valid()
      reads this
    {
      AllComplete(settings)
    }

    constructor ()
      ensures Valid() && settings == map[]
    {
      settings := map[];
    }

    /** /welcome: gate, then add (all three fields required, the guild's record
        replaced wholesale) or remove (the guild's key deleted, or "not set"). */
    method Configure(caller: seq<Role>, guild: GuildId, mode: string,
                     title: Option<string>, description: Option<string>, channel: Option<ChannelId>)
      returns (reply: WelcomeReply)
      requires Valid()
      modifies this
      ensures Valid()
      ensures (settings, reply) == WelcomeStep(old(settings), caller, guild, mode, title, description, channel)
    {
      if !IsAuthorized(caller) {
        return NotPermitted;
      }
      var lowered := Text.AsciiLower(mode);
      if lowered == "add" {
        if !(Given(title) && Given(description) && channel.Some?) {
          return MissingFields;
        }
        settings := settings[guild := WelcomeSetting(title.value, description.value, channel.value)];
        reply := Saved;
      } else if lowered == "remove" {
        if guild in settings {
          settings := settings - {guild};
          reply := Removed;
        } else {
          reply := NotSet;
        }
      } else {
        reply := UnknownMode;
      }
    }
  }

  /** The joining member: its id and the guild it joined. */
  datatype Member = Member(id: UserId, guildId: GuildId)

  /** The placeholder the description template may contain. */
  const Placeholder: string := "{member}"

  /** The role every new member is given, looked up by name. */
  const AutoRoleName: string := "脆友"

  /** The embed sent to the welcome channel. */
  datatype WelcomeMessage = WelcomeMessage(channel: ChannelId, title: string, description: string)

  /** What on_member_join issues: the auto-role grant and the welcome message. */
  datatype JoinEffects = JoinEffects(grant: Option<RoleRequest>, welcome: Option<WelcomeMessage>)

  /** A mention shares no character with the placeholder. */
  lemma MentionAvoidsPlaceholder(id: UserId)
    ensures Text.Disjoint(Mention(id), Placeholder)
  {
    var s := Mention(id);
    forall k | 0 <= k < |s| ensures s[k] !in Placeholder {
      if 2 <= k < |s| - 1 {
        assert Text.IsDigit(s[k]);
      }
    }
  }

  /** The template with every "{member}" replaced by the member's mention; the
      result contains no placeholder. */
  function Render(template: string, id: UserId): (text: string)
    ensures text == Text.Replace(template, Placeholder, Mention(id))
    ensures Text.Free(text, Placeholder)
    ensures Text.Free(template, Placeholder) ==> text == template
  {
    MentionAvoidsPlaceholder(id);
    Text.ReplaceLeavesNoOccurrence(template, Placeholder, Mention(id));
    if Text.Free(template, Placeholder) then
      Text.ReplaceFree(template, Placeholder, Mention(id));
      Text.Replace(template, Placeholder, Mention(id))
    else
      Text.Replace(template, Placeholder, Mention(id))
  }

  /** How member.add_roles answers the auto-role grant: it succeeds, it raises
      Forbidden (caught and printed), or it raises anything else, which ends the
      handler before the welcome is looked up. */
  datatype GrantOutcome = GrantDone | GrantForbidden | GrantFailed

  /** The auto-role grant stops the handler: the role resolves and add_roles fails
      with an exception other than Forbidden. */
  predicate GrantAborts(guildRoles: seq<Role>, outcome: GrantOutcome)
  {
    FindByName(guildRoles, AutoRoleName).Some? && outcome == GrantFailed
  }

  /** on_member_join: grant the role named AutoRoleName when the guild has one; then,
      unless that grant raised something other than Forbidden, send exactly one
      welcome message to the stored channel when the guild has a setting, with the
      stored title and the rendered description. */
  function OnMemberJoin(settings: Settings, guildRoles: seq<Role>, member: Member, outcome: GrantOutcome)
    : (fx: JoinEffects)
    ensures fx.grant.Some? <==> exists i | 0 <= i < |guildRoles| :: guildRoles[i].name == AutoRoleName
    ensures fx.grant.Some? ==>
              fx.grant.value == Grant(member.id, FindByName(guildRoles, AutoRoleName).value.id)
    ensures fx.welcome.Some? <==> member.guildId in settings && !(fx.grant.Some? && outcome == GrantFailed)
    ensures fx.welcome.Some? ==>
              var s := settings[member.guildId];
              fx.welcome.value.channel == s.channel && fx.welcome.value.title == s.title &&
              fx.welcome.value.description == Text.Replace(s.description, Placeholder, Mention(member.id)) &&
              Text.Free(fx.welcome.value.description, Placeholder)
  {
    var grant := match FindByName(guildRoles, AutoRoleName)
      case Some(role) => Some(Grant(member.id, role.id))
      case None => None;
    var welcome :=
      if GrantAborts(guildRoles, outcome) then None
      else if member.guildId in settings then
        var s := settings[member.guildId];
        Some(WelcomeMessage(s.channel, s.title, Render(s.description, member.id)))
      else None;
    JoinEffects(grant, welcome)
  }

  /** End to end: after an admin saves ("Welcome", "Hi {member}!", c) for guild g, a
      member joining g gets exactly one message, to c, titled "Welcome", reading
      "Hi " + mention + "!", unless the auto-role grant aborted the handler. */
  lemma SaveThenJoin(settings: Settings, caller: seq<Role>, g: GuildId, c: ChannelId, id: UserId,
                     guildRoles: seq<Role>, outcome: GrantOutcome)
    requires IsAuthorized(caller)
    ensures var after := WelcomeStep(settings, caller, g, "add", Some("Welcome"),
                                     Some("Hi " + (Placeholder + "!")), Some(c)).0;
            OnMemberJoin(after, guildRoles, Member(id, g), outcome).welcome ==
              if GrantAborts(guildRoles, outcome) then None
              else Some(WelcomeMessage(c, "Welcome", "Hi " + (Mention(id) + "!")))
  {
    assert Text.AsciiLower("add") == "add";
    Text.ReplaceSingle("Hi ", "!", Placeholder, Mention(id));
  }

  /** After a successful remove, a member joining that guild gets no welcome. */
  lemma RemoveThenJoin(settings: Settings, caller: seq<Role>, g: GuildId, mode: string,
                       guildRoles: seq<Role>, id: UserId, outcome: GrantOutcome)
    requires WelcomeStep(settings, caller, g, mode, None, None, None).1 == Removed
    ensures OnMemberJoin(WelcomeStep(settings, caller, g, mode, None, None, None).0,
                         guildRoles, Member(id, g), outcome).welcome.None?
  {
  }
}

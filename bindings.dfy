/** The reaction-role binding store: reaction_role_mapping, a map from message id
    to emoji to role id, and the /reactionrole command that writes it. */
module Bindings {
  import opened Wrappers
  import opened Platform
  import opened Gate
  import Text

  type MessageId = int
  type Emoji = string

  /** message id -> emoji -> role id. */
  type Mapping = map<MessageId, map<Emoji, RoleId>>

  /** The lookup the gateway handlers perform: the role bound to (m, e), if any.
      A missing key is the "no binding" outcome, never an error. */
  function Resolve(mapping: Mapping, m: MessageId, e: Emoji): (r: Option<RoleId>)
    ensures r.Some? <==> m in mapping && e in mapping[m]
    ensures r.Some? ==> r.value == mapping[m][e]
  {
    if m in mapping && e in mapping[m] then Some(mapping[m][e]) else None
  }

  /** What the channel the command runs in reports back: the message ids that
      fetch_message finds there, and whether add_reaction succeeds. */
  datatype ChannelView = ChannelView(fetchable: set<MessageId>, reactionAccepted: bool)

  /** One /reactionrole invocation: the caller's roles, the message-id argument as
      typed, the emoji, the role to grant, and the channel's answers. */
  datatype BindRequest = BindRequest(caller: seq<Role>, message: string, emoji: Emoji,
                                     role: Role, channel: ChannelView)

  /** The ephemeral reply: denied by the gate, one of the three failures caught by
      the command's exception handler, or success naming the emoji and the role. */
  datatype BindReply =
    | NotPermitted
    | InvalidMessageId
    | FetchFailed
    | ReactionFailed
    | Bound(emoji: Emoji, roleName: string)

  /** Recording (m, e) -> r: the inner map for m is created only when m has none,
      the role for (m, e) is replaced, every other binding is kept. */
  function Store(mapping: Mapping, m: MessageId, e: Emoji, r: RoleId): (mapping': Mapping)
    ensures mapping'.Keys == mapping.Keys + {m}
    ensures m in mapping ==> mapping'[m].Keys == mapping[m].Keys + {e}
    ensures m !in mapping ==> mapping'[m] == map[e := r]
    ensures Resolve(mapping', m, e) == Some(r)
    ensures forall m', e' | m' != m || e' != e :: Resolve(mapping', m', e') == Resolve(mapping, m', e')
  {
    var inner := if m in mapping then mapping[m] else map[];
    mapping[m := inner[e := r]]
  }

  /** The message id a request binds, when it gets past the gate, int(), the fetch
      and add_reaction; None when any of them stops it. */
  function Accepted(req: BindRequest): (id: Option<MessageId>)
    ensures id.Some? <==> IsAuthorized(req.caller) && Text.ParseInt(req.message).Some? &&
                          Text.ParseInt(req.message).value in req.channel.fetchable &&
                          req.channel.reactionAccepted
    ensures id.Some? ==> id == Text.ParseInt(req.message)
  {
    if !IsAuthorized(req.caller) then None
    else match Text.ParseInt(req.message)
      case None => None
      case Some(m) =>
        if m !in req.channel.fetchable || !req.channel.reactionAccepted then None else Some(m)
  }

  /** /reactionrole as a step on the store: the new mapping and the reply. The write
      happens only after the fetch and add_reaction succeed; every earlier exit leaves
      the mapping as it was. */
  function BindStep(mapping: Mapping, req: BindRequest): (res: (Mapping, BindReply))
    ensures res.1 == NotPermitted <==> !IsAuthorized(req.caller)
    ensures res.1 == InvalidMessageId <==>
              IsAuthorized(req.caller) && Text.ParseInt(req.message).None?
    ensures res.1 == FetchFailed <==>
              IsAuthorized(req.caller) && Text.ParseInt(req.message).Some? &&
              Text.ParseInt(req.message).value !in req.channel.fetchable
    ensures res.1 == ReactionFailed <==>
              IsAuthorized(req.caller) && Text.ParseInt(req.message).Some? &&
              Text.ParseInt(req.message).value in req.channel.fetchable && !req.channel.reactionAccepted
    ensures res.1.Bound? <==> Accepted(req).Some?
    ensures res.1.Bound? ==> res.1 == Bound(req.emoji, req.role.name) &&
                             res.0 == Store(mapping, Accepted(req).value, req.emoji, req.role.id)
    ensures !res.1.Bound? ==> res.0 == mapping
  {
    if !IsAuthorized(req.caller) then (mapping, NotPermitted)
    else match Text.ParseInt(req.message)
      case None => (mapping, InvalidMessageId)
      case Some(m) =>
        if m !in req.channel.fetchable then (mapping, FetchFailed)
        else if !req.channel.reactionAccepted then (mapping, ReactionFailed)
        else (Store(mapping, m, req.emoji, req.role.id), Bound(req.emoji, req.role.name))
  }

  /** The process-wide store. It starts empty; /reactionrole is its only writer. */
  class BindingStore {
    var mapping: Mapping

    constructor ()
      ensures mapping == map[]
    {
      mapping := map[];
    }

    /** The create-then-assign write: an empty inner map for m if it has none, then
        the role for (m, e). */
    method Record(m: MessageId, e: Emoji, r: RoleId)
      modifies this
      ensures mapping == Store(old(mapping), m, e, r)
    {
      if m !in mapping {
        mapping := mapping[m := map[]];
      }
      var inner: map<Emoji, RoleId> := mapping[m];
      assert inner == if m in old(mapping) then old(mapping)[m] else map[];
      mapping := mapping[m := inner[e := r]];
    }

    /** /reactionrole: gate, int(message), fetch_message and add_reaction; only when
        all succeed is the binding recorded. */
    method Bind(caller: seq<Role>, message: string, emoji: Emoji, role: Role, channel: ChannelView)
      returns (reply: BindReply)
      modifies this
      ensures (mapping, reply) == BindStep(old(mapping), BindRequest(caller, message, emoji, role, channel))
    {
      if !IsAuthorized(caller) {
        return NotPermitted;
      }
      var parsed := Text.ParseInt(message);
      if parsed.None? {
        return InvalidMessageId;
      }
      var msgId := parsed.value;
      if msgId !in channel.fetchable {
        return FetchFailed;
      }
      if !channel.reactionAccepted {
        return ReactionFailed;
      }
      Record(msgId, emoji, role.id);
      reply := Bound(emoji, role.name);
    }
  }

  /** The store after a sequence of /reactionrole invocations, oldest first. */
  function Replay(start: Mapping, reqs: seq<BindRequest>): Mapping
    decreases |reqs|
  {
    if reqs == [] then start
    else BindStep(Replay(start, reqs[..|reqs| - 1]), reqs[|reqs| - 1]).0
  }

  /** Reference definition of what a history leaves bound to (m, e): the role of
      the latest accepted request for (m, e), scanning back from the newest. */
  function LastBinding(reqs: seq<BindRequest>, m: MessageId, e: Emoji): Option<RoleId>
    decreases |reqs|
  {
    if reqs == [] then None
    else
      var q := reqs[|reqs| - 1];
      if Accepted(q) == Some(m) && q.emoji == e then Some(q.role.id)
      else LastBinding(reqs[..|reqs| - 1], m, e)
  }

  /** Last write wins: after any history, (m, e) resolves to the role of the latest
      accepted bind for (m, e), or to what it resolved to before if there was none.
      Rejected requests and binds for other keys have no effect on (m, e). */
  lemma {:induction false} ReplayResolves(start: Mapping, reqs: seq<BindRequest>, m: MessageId, e: Emoji)
    ensures Resolve(Replay(start, reqs), m, e) ==
            if LastBinding(reqs, m, e).Some? then LastBinding(reqs, m, e) else Resolve(start, m, e)
    decreases |reqs|
  {
    if reqs != [] {
      ReplayResolves(start, reqs[..|reqs| - 1], m, e);
    }
  }

  /** A history's last binding for (m, e) comes from an accepted request, hence
      from a caller who passed the admin gate. */
  lemma {:induction false} LastBindingAccepted(reqs: seq<BindRequest>, m: MessageId, e: Emoji)
    requires LastBinding(reqs, m, e).Some?
    ensures exists i | 0 <= i < |reqs| ::
              Accepted(reqs[i]) == Some(m) && reqs[i].emoji == e &&
              reqs[i].role.id == LastBinding(reqs, m, e).value &&
              IsAuthorized(reqs[i].caller)
    decreases |reqs|
  {
    var q := reqs[|reqs| - 1];
    if !(Accepted(q) == Some(m) && q.emoji == e) {
      var prefix := reqs[..|reqs| - 1];
      LastBindingAccepted(prefix, m, e);
      var i :| 0 <= i < |prefix| && Accepted(prefix[i]) == Some(m) && prefix[i].emoji == e &&
               prefix[i].role.id == LastBinding(prefix, m, e).value && IsAuthorized(prefix[i].caller);
      assert reqs[i] == prefix[i];
    }
  }

  /** No binding exists until an authorized bind succeeds: starting from the empty
      store, every binding present traces back to an accepted request by an admin. */
  lemma NoBindingWithoutAcceptedBind(reqs: seq<BindRequest>, m: MessageId, e: Emoji)
    requires Resolve(Replay(map[], reqs), m, e).Some?
    ensures exists i | 0 <= i < |reqs| ::
              Accepted(reqs[i]) == Some(m) && reqs[i].emoji == e && IsAuthorized(reqs[i].caller)
  {
    ReplayResolves(map[], reqs, m, e);
    LastBindingAccepted(reqs, m, e);
  }

  /** Binding (m, e) twice keeps only the second role. */
  lemma RebindReplaces(mapping: Mapping, first: BindRequest, second: BindRequest, m: MessageId)
    requires Accepted(first) == Some(m) && Accepted(second) == Some(m)
    requires first.emoji == second.emoji
    ensures Resolve(BindStep(BindStep(mapping, first).0, second).0, m, second.emoji) ==
            Some(second.role.id)
  {
  }
}

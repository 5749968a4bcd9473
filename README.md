# Reaction roles and welcome messages of a chat-platform bot, in Dafny

This project models the configuration engine of a small guild bot (`bot.py`): two
process-wide maps and the commands and gateway handlers around them.

- **Binding store** (`bindings.dfy`): `reaction_role_mapping`, message id → emoji → role id,
  written only by `/reactionrole` behind the admin-role gate. `BindingStore` is a class whose
  `Bind` method performs the source's checks and its create-then-assign write. `BindStep` is the
  same step as a function over the map. `Replay` runs it over a history of commands.
- **Reaction router** (`router.dfy`): `on_raw_reaction_add` / `on_raw_reaction_remove` as
  functions from (store, guild view, event) to the role request issued, if any. `ResolveEvent`
  names how the lookup chain ends (no guild, member gone, no binding, dangling role, found).
- **Welcome registry** (`welcome.dfy`): `welcome_settings`, guild id → title / description /
  channel. `WelcomeRegistry.Configure` models `/welcome add|remove`. `OnMemberJoin` models the
  auto-role grant and the rendered welcome message.
- **Admin gate** (`gate.dfy`): `discord.utils.get(roles, name=...)` and the admin check shared
  by `/clear`, `/embed`, `/reactionrole` and `/welcome`.
- **Text** (`text.dfy`): the parts of Python's `int()`, `str.lower()` and `str.replace()` that
  the logic depends on.
- **Commands** (`commands.dfy`): `/dice` range validation, and the decisions of `/clear` and
  `/embed`.
- **Platform** (`platform.dfy`): identifiers, roles, the guild caches, role requests and mentions.

The platform is an input. Message fetch and `add_reaction` become a `ChannelView`. `get_guild`,
`get_member` and `get_role` become an optional `GuildView`. The caller's roles are a sequence.
Each handler is one atomic step.

Three points where the code's behaviour is easy to misread, followed as written:
- `/welcome add` tests its arguments for truthiness, so an empty title or description counts as
  missing (`Welcome.Given`).
- The reaction handlers resolve the member before the binding, so "member gone" wins over
  "no binding".
- Only the add handler skips the bot's own reactions; the remove handler does not
  (`Router.RemoveDoesNotSkipBot`).

## Model

| member | source | states |
|---|---|---|
| `Gate.FindByName` | bot.py:179 | `discord.utils.get` by name: finds a role iff one has that name, and returns the first such role |
| `Gate.IsAuthorized` | bot.py:119-121 | the caller passes iff one of its current roles is named `管理員` |
| `Text.Strip` | bot.py:94 | `int()` ignores surrounding whitespace (space, `\t`, `\n`, `\v`, `\f`, `\r`): the result is a slice whose cut-off ends are all such whitespace |
| `Text.ParseInt` | bot.py:94 | `int(message)` succeeds exactly on an optional sign followed by decimal digits, after stripping space, `\t`, `\n`, `\v`, `\f` and `\r` |
| `Text.ShowNat` | bot.py:190 | the decimal text of an id: a non-empty digit string whose value is the id, with no leading zero |
| `Text.ParseRejectsNonNumeric` | bot.py:94 | a message id holding any character other than a digit, sign or whitespace is rejected |
| `Text.StripSlice` | bot.py:94 | stripping keeps exactly the text between the leading and trailing whitespace runs |
| `Text.ParsePadded` | bot.py:94 | whitespace around an id is ignored: `int(u)` equals `int` of the text between the leading and trailing whitespace, so `int(" 123 ") == int("123")` |
| `Text.LeadingZerosValue` | bot.py:94 | leading zeros do not change the value of a digit string |
| `Text.ParseDigits` | bot.py:94 | an unsigned digit string parses to its decimal value, leading zeros included ("0123" gives 123) |
| `Text.ParseSignedDigits` | bot.py:94 | a sign followed by digits parses to their value, negated after `-` ("+123" gives 123) |
| `Text.ParseShowInt` | bot.py:94 | round trip: parsing the decimal text of any integer gives that integer back |
| `Text.AsciiLower` | bot.py:125 | lowers `A`–`Z` and keeps every other character, so "ADD", "Add" and "add" all select add; this decides `mode.lower() == "add"` / `"remove"` exactly as Python's full `lower()` does, since the only non-ASCII characters that lower into ASCII letters are U+0130 and U+212A, and their lower cases ("i" + U+0307, "k") occur in neither word |
| `Text.Replace` | bot.py:190 | `str.replace` scanning left to right without overlap; text shorter than the placeholder comes back unchanged, and the `Replace*` lemmas below characterize the rest |
| `Text.ReplaceFree` | bot.py:190 | a template without `{member}` is sent unchanged |
| `Text.ReplacePrefixKept` | bot.py:190 | an output prefix made only of placeholder characters was copied from the input |
| `Text.ReplaceLeavesNoOccurrence` | bot.py:190 | every occurrence is replaced: if the replacement shares no character with the placeholder, the output contains no placeholder |
| `Text.ReplaceCopiesPrefix` | bot.py:190 | text before the first occurrence is copied as is |
| `Platform.Apply` | bot.py:158-172 | a grant leaves the member holding the role, a revoke leaves the member without it; no other role changes |
| `Platform.ApplyIdempotent` | bot.py:157-159 | repeating a grant or revoke changes nothing more, so duplicated events are harmless |
| `Platform.Mention` | bot.py:190 | a mention is `<@` digits `>`, and the digits spell the member's id without leading zeros |
| `Bindings.Resolve` | bot.py:154-155 | the role bound to (m, e) iff m is a message key and e an emoji key under it; a missing key means no binding, not an error |
| `Bindings.Store` | bot.py:97-99 | the inner map is created only when absent; (m, e) now resolves to r; every other (message, emoji) resolves as before |
| `Bindings.Accepted` | bot.py:92-96 | a bind gets through iff the caller is admin, the id parses, the message is fetched and the reaction is added |
| `Bindings.BindStep` | bot.py:91-104 | one reply per exit, each with the exact condition that reaches it: denied iff not admin, bad id iff admin and the id does not parse, fetch failed iff it parses but the message cannot be fetched, reaction failed iff fetched but the reaction is refused, bound otherwise; the store changes only on success, and then exactly by `Store` |
| `Bindings.BindingStore.constructor` | bot.py:19 | the store starts empty |
| `Bindings.BindingStore.Record` | bot.py:97-99 | the new mapping is the old one with (m, e) bound to r, the inner map created only if absent |
| `Bindings.BindingStore.Bind` | bot.py:91-104 | the method's new mapping and reply are those of `BindStep` on the old mapping |
| `Bindings.ReplayResolves` | bot.py:97-99 | last write wins: after any history, (m, e) resolves to the role of the latest accepted bind for (m, e), else to its starting value |
| `Bindings.LastBindingAccepted` | bot.py:92-99 | the last binding for a key comes from an accepted request by an admin |
| `Bindings.NoBindingWithoutAcceptedBind` | bot.py:92-99 | from the empty store, every binding present was made by an accepted, authorized bind |
| `Bindings.RebindReplaces` | bot.py:99 | binding the same (m, e) twice leaves the second role |
| `Router.ResolveEvent` | bot.py:150-156 | each outcome with its exact condition: no guild iff the guild is unknown; member gone iff the guild is known but the user is not a member, whatever the binding; no binding iff the member is there but (m, e) is unbound; dangling role iff bound to a role the guild lacks; found iff all resolve, naming the reacting user and exactly the bound role |
| `Router.OnReactionAdd` | bot.py:147-160 | no request for the bot's own reactions; a grant of exactly `mapping[m][e]` iff member, binding and role resolve; nothing otherwise |
| `Router.OnReactionRemove` | bot.py:163-174 | a revoke of exactly `mapping[m][e]` iff member, binding and role resolve; no bot check |
| `Router.AddRemoveAgree` | bot.py:147-174 | for users other than the bot, add grants exactly the role that remove revokes |
| `Router.RemoveDoesNotSkipBot` | bot.py:163-172 | removing the bot's own reaction on a bound message revokes the role from the bot, while adding one is ignored |
| `Router.UnboundEventIgnored` | bot.py:154-168 | a reaction on an unbound (message, emoji) issues nothing, add or remove |
| `Router.DuplicateAddHarmless` | bot.py:147-160 | a duplicated add event issues the same grant, and applying it twice equals applying it once |
| `Router.BindThenReact` | bot.py:91-172 | after an admin binds (m, e) to R, add issues exactly Grant(user, R) and remove exactly Revoke(user, R) |
| `Welcome.WelcomeStep` | bot.py:114-143 | denied iff not admin; add saves the whole record iff all three fields are given, and replaces the guild's entry wholesale; remove deletes exactly that key or reports not set; any other mode, checked case-insensitively, and every failure leave the map unchanged; records stay complete |
| `Welcome.WelcomeRegistry.constructor` | bot.py:21 | the registry starts empty and valid |
| `Welcome.WelcomeRegistry.Configure` | bot.py:114-143 | keeps every record complete; the method's new map and reply are those of `WelcomeStep` |
| `Welcome.MentionAvoidsPlaceholder` | bot.py:190 | a mention shares no character with `{member}` |
| `Welcome.Render` | bot.py:190 | the description is the template with every `{member}` replaced by the member's mention; it contains no `{member}`; a template without it is unchanged |
| `Welcome.OnMemberJoin` | bot.py:178-192 | a grant iff the guild has a role named `脆友`, and then of the first such role, as `discord.utils.get` picks it; one message iff the guild has a setting and the grant, if attempted, did not fail with an error other than `Forbidden` (which is caught); the message goes to the stored channel, with the stored title and the rendered description |
| `Text.ReplaceSkipsChar` | bot.py:190 | a leading character that cannot start the placeholder is copied |
| `Text.ReplaceMatchesHead` | bot.py:190 | a leading placeholder is replaced by the mention |
| `Text.ReplaceSkipsPrefix` | bot.py:190 | a prefix with no character that could start the placeholder is copied |
| `Text.ReplaceNoHead` | bot.py:190 | text with no character that could start the placeholder is returned unchanged |
| `Text.ReplaceSingle` | bot.py:190 | a template with one placeholder renders to the text before, the mention, and the text after |
| `Welcome.SaveThenJoin` | bot.py:125-192 | after saving ("Welcome", "Hi {member}!", c), a join sends exactly the greeting "Hi <@id>!" to c, unless the auto-role grant failed with a non-`Forbidden` error, which aborts the handler first |
| `Welcome.RemoveThenJoin` | bot.py:136-187 | after a successful remove, a join sends no welcome |
| `Commands.Dice` | bot.py:197-203 | an omitted min is 1 and an omitted max is 6; accepted iff 1 ≤ min ≤ max ≤ 100, and then the roll covers exactly [min, max]; with both omitted the roll is over [1, 6] |
| `Commands.Clear` | bot.py:46-54 | a purge is requested iff the caller is admin, with the given count |
| `Commands.Embed` | bot.py:66-86 | denied iff not admin; the sends are requested iff admin and the colour parses (`Announce`), to the channel argument or else the current channel, with the text only when non-empty; `Announce` records the sends requested, not whether they succeed |

## Left out

- Text.AsciiLower: lowers only `A`–`Z`, unlike Python's full `lower()` (which also lowers, say, `Ä`, and can change the length). Only the comparison with "add" and "remove" depends on it, and there the two agree.
- Text.ParseInt: Python's `int()` also accepts single underscores between digits and non-ASCII decimal digits and whitespace; the model rejects such message ids. CPython 3.11 and later refuse decimal strings of more than 4300 digits, which the model accepts; for such an id only the reply differs (fetch failed instead of bad id), as no message has that id.
- Startup and I/O: loading the token, `bot.run`, `on_ready` and its command sync, and `/help`'s static text.
- The random draw in `/dice`. The model keeps only the range check and the range rolled over.
- Scheduling: each command and handler is one atomic step, with no interleaving at its `await` points.
- Platform failures in the reaction handlers: `Forbidden` on `add_roles`/`remove_roles` is caught and printed; any other error ends the handler after the request, which is its last step. The model records the request issued, not whether it succeeded.
- Welcome.OnMemberJoin: the outcome of the auto-role grant is an input (`GrantOutcome`); the model does not capture failures of `channel.send` itself, the handler's last step.
- Replies: a failure of the interaction reply after the write at bot.py:99 would reach the exception handler while the binding stays written. The model returns `Bound` there.
- `/embed`: building the embed and parsing the colour with `int(color, 16)` (an input flag). A failure of either `target_channel.send` (for example, no permission to post in the `channel` argument) reaches the error reply at bot.py:83-84; the model still returns `Announce`, which records the sends requested, not whether they succeed.
- `/clear`: the purge itself and its reply.
- Calls from outside a guild: a caller without `roles` or a `None` guild id. The gateway handlers do cover a guild that `get_guild` does not find: no request is issued.
- Emoji identity: `str(payload.emoji)` is an input string. The model compares it with the bound emoji text exactly.

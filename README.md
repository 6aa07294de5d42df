# discord-channel-watcher, modelled in Dafny

The watcher is a self-bot that listens to chat messages on a set of
channels. It has one configuration list of rules. Each rule names one or
more channel ids, and may also set role ids with display names, keywords,
author ids, a `useRolesAsKeywords` flag and a webhook URL.

At start-up, the list is folded into a table from channel id to compiled
rule. Compiling a rule fills in defaults and builds a case-insensitive
pattern whose alternatives are the role ids followed by the keywords.

A message matches when:
- its channel has a rule, and
- its author is listed, its body matches the pattern, or some truthy
  text of one of its embeds matches.

Such a message is forwarded to the rule's webhook, or to the default
webhook. The forwarded content is a header line (author mention and a
link to the message) followed by the body. In the body, and in the
embeds' texts, every `<@&id>` reference to a configured role is rewritten
to `**@name**`; author names and footers get the plain `@name`. Each
attachment becomes an image embed after the rewritten embeds.

Modules:

- `Wrappers` holds `Option`, used for absent configuration keys.
- `Strings` holds `join`, `replaceAll` with a string pattern, substring
  search and ASCII case folding. Its lemmas state that `ReplaceAll`
  replaces every non-overlapping occurrence and nothing else.
- `Patterns` is the compiled pattern. When the alternatives join to the
  empty string, the pattern is the impossible `$-`, modelled as `Never`.
  Otherwise each alternative is a literal word, looked for case-insensitively.
- `Config` is the fold of the configuration into the rule table. `CompileConfig`
  is the two nested loops; `CompileTable` is the function it is proved
  against.
- `Messages` and `Matching` cover `messageMatches`.
- `Roles` covers `replaceRoles`. The method `ReplaceRoles` is the loop over
  the role entries; `RolesReplaced` is its specification. The lemmas use
  the bracket structure of `<@&id>`: a reference starts with its only `<`
  and ends with its only `>`. From this they prove that configured
  references are replaced by labels, and that unconfigured references and
  the surrounding text are kept.
- `Payload` covers `buildMessageParams`, endpoint selection and the
  message handler.

Behaviour the code has, and the model keeps:
- A rule with no role ids and no keywords gets the impossible pattern.
- So does a rule whose only keyword is the empty string: the single
  alternative joins to "". With two empty keywords, the pattern is `|`,
  which matches every text.
- An entry without `watchChannelIds` is registered under the key
  `"undefined"`.
- An empty `webhookUrl` is falsy, so the default webhook is used.
- The header line keeps a space before its line break.
- A text with no `<@&digits>` reference is returned untouched without
  looking at the roles.

In index.js the header always has the form `<@author> in link`, followed
by a space and a line break, and each request is sent once, without
retries.

## Model

| member | source | states |
|---|---|---|
| Strings.JoinEmpty | index.js:16-17 | joining with a non-empty separator gives "" exactly when there are no parts or one empty part |
| Strings.ReplaceAllAbsent | index.js:129 | a text that does not contain the searched string is returned unchanged |
| Strings.ReplaceAllIsJoinOfPieces | index.js:129 | the text is its pieces joined by the searched string; no piece contains it; the result is the same pieces joined by the replacement, so every occurrence is replaced |
| Strings.ReplaceAllConcat | index.js:129 | when no occurrence straddles the boundary, replacing in `x + z` is replacing in `x` followed by replacing in `z` |
| Strings.FoldedAt | index.js:18 | a word whose letters equal a stretch of the text up to ASCII case is found by the case-insensitive search |
| Patterns.CompileIsNeverIff | index.js:16-17 | the impossible pattern is chosen exactly when there is no alternative or a single empty one |
| Patterns.CompiledSourceNonEmpty | index.js:16-18 | the pattern source is never empty; otherwise it is the alternatives joined by `\|` |
| Patterns.CompiledTestIff | index.js:16-18 | a compiled pattern matches a text exactly when some alternative occurs in it ignoring case, unless the lone alternative is empty |
| Patterns.KeywordMatchIgnoresCase | index.js:18 | the keyword `urgent` matches `URGENT update` |
| Config.CompileConfig | index.js:8-22 | the loop over entries and their ids yields exactly the table of the specification fold |
| Config.RegisterLookup | index.js:20 | registering assigns the rule to exactly the listed ids and keeps every other key and its rule |
| Config.CompileTableDomain | index.js:8-24 | a channel is in the table exactly when some entry lists it |
| Config.LastEntryWins | index.js:8-22 | a channel's rule is the one compiled from the last entry listing it |
| Config.SingleIdTable | index.js:19-20 | a single id is wrapped into a one-element list and gets the entry's rule |
| Config.CompiledRule | index.js:9-18 | absent roles and authors default to empty, given authors and the webhook are kept; keywords gain the role names in order when the flag is set; the alternatives are role ids then keywords; the pattern is impossible exactly when they are [] or [""] |
| Config.NoAlternativesMatchNothing | index.js:16-17 | an entry with no roles and no keywords compiles to the impossible pattern, which matches no text |
| Config.RoleNameMatchesAsKeyword | index.js:13-16 | with `useRolesAsKeywords`, a role's display name found in a text in any case matches |
| Matching.MessageMatches | index.js:47-72 | a matching message is always on a watched channel |
| Matching.CompactMembers | index.js:64 | the compacted list holds exactly the truthy values of the original |
| Matching.FieldTextsMembers | index.js:63 | the field texts are exactly the values and names of the fields |
| Matching.EmbedMatchesIff | index.js:61-66 | an embed matches exactly when a truthy title, description, author name, footer text, field value or field name matches |
| Matching.MessageMatchesIff | index.js:47-72 | a message matches exactly when its channel is watched and the author is listed, the body matches or some embed slot matches |
| Matching.BlankEmbedNeverMatches | index.js:62-65 | an embed whose texts are all absent or empty never matches |
| Matching.ListedAuthorMatches | index.js:58-59 | a listed author's message on a watched channel matches whatever it says |
| Matching.EmptyRuleMatchesNothing | index.js:58-67 | a rule without roles, keywords or authors matches no message |
| Matching.FieldValueKeywordMatches | index.js:61-65 | one embed field value holding a keyword is enough for the message to match |
| Roles.ReplaceRoles | index.js:123-132 | the loop over the channel's roles yields the specification's result; without a reference, or on an unwatched channel, the text is returned as is |
| Roles.RoleRefTestIff | index.js:26 | the role-reference test holds exactly when `<@&`, one or more digits and `>` occur in the text |
| Roles.NoDigitNoReference | index.js:124-125 | a text without digits, such as `<@&>` or `<@&ab>`, fails the role-reference test, so it is returned untouched |
| Roles.LeadingRefDetected | index.js:26 | a text opening with `<@&` digits `>` passes the role-reference test |
| Roles.PlainTextUnchanged | index.js:128-129 | a text without angle brackets is left unchanged by every role |
| Roles.RoleRefInjective | index.js:129 | distinct role ids give distinct reference strings |
| Roles.UnconfiguredRefUntouched | index.js:128-129 | a reference to an id no role has is kept, and the texts around it are rewritten independently |
| Roles.ConfiguredRefReplaced | index.js:128-129 | a reference to a configured role becomes that role's label, and the texts around it are rewritten independently, provided every role id is free of angle brackets, the role is the first entry with its id, its label is free of angle brackets, and the label cannot occur inside `@&id` of any later role |
| Roles.RefReplacedByLast | index.js:128-129 | when the last role pass is the referenced role's, its reference becomes the label and the texts around it are rewritten independently |
| Roles.RefKeptByLast | index.js:128-129 | a label produced by an earlier pass survives a later role's pass, which rewrites only the texts around it |
| Roles.SingleRoleReplacesEveryOccurrence | index.js:129 | with one role, every occurrence of its reference is replaced by its label and the text between them is kept |
| Roles.NoRolesNoChange | index.js:128 | a channel without a rule or without roles has its texts returned unchanged |
| Roles.KnownAndUnknownReference | index.js:123-132 | a known reference followed by an unknown one gives the label, the text between, and the unknown reference unchanged |
| Payload.MessageParams | index.js:94-121 | content is the header followed by the rewritten body; embeds are the rewritten originals in order, then one image per attachment in order |
| Payload.Endpoint | index.js:76 | the endpoint is the default one or the channel's own webhook; it is empty only if the default is |
| Payload.RewriteSlot | index.js:104-116 | a string slot is rewritten with the channel's roles; any other value is kept |
| Payload.RewriteEmbed | index.js:103-118 | the loop over the fields yields the specified rewritten embed |
| Payload.BuildMessageParams | index.js:94-121 | the image loop and the embed loop yield exactly the specified parameters |
| Payload.HandleMessage | index.js:34-38 | a request is made exactly when the message matches, to the channel's endpoint, with the built parameters |
| Payload.PermalinkInjective | index.js:95 | for ids without slashes, the link determines guild, channel and message id |
| Payload.ApplyRolesNonEmpty | index.js:129 | rewriting a non-empty text leaves a non-empty text |
| Payload.RewrittenValueKeepsKind | index.js:104-116 | rewriting keeps each slot's kind and its truthiness, and leaves non-strings unchanged |
| Payload.NoRolesForwardsVerbatim | index.js:94-121 | for a channel without roles, body and embeds are forwarded unchanged after the header |
| Payload.EndpointOfEntry | index.js:76 | the endpoint is the last listing entry's webhook when set and non-empty, otherwise the default |

## Left out

- Regular-expression syntax: each role id and keyword is treated as a literal word. In the code they are pasted into the pattern unescaped, so a keyword holding metacharacters (`.`, `*`, `(`) matches differently. A keyword that makes the pattern invalid throws at start-up. Neither is modelled.
- Case-insensitive matching folds ASCII letters only. The regular-expression engine also folds non-ASCII letters.
- Role names are inserted literally. `replaceAll` would substitute the patterns `$$`, `$&`, `` $` `` and `$'` in a role name; that is not modelled.
- Order of role entries: the model takes roles in the order the configuration gives them. JavaScript enumerates array-index keys (integers below 2^32 - 1) first, in ascending order. Discord role ids are larger than that, so they keep insertion order; small numeric keys would be reordered. The order matters when a label, alone or together with the text next to it, can form another role's reference.
- Embeds are rewritten as values. The code overwrites the received message's embed objects in place and forwards those objects. The model returns rewritten copies, so aliasing between the message and the payload is not captured.
- Several channel ids share one rule object in the code. The model copies the rule value under each id, which is indistinguishable as long as nobody mutates the rule.
- Roles.ConfiguredRefReplaced: proved only for labels without angle brackets. A role name such as `<3` is still replaced by `ReplaceRoles` in the same way, but the lemma does not cover it, because such a label could combine with neighbouring text into another reference.
- Role ids are assumed distinct within an entry, as the keys of a parsed JSON object are (a repeated key keeps its last value). The model's `roles` is a list that could repeat an id; it would then replace with the first name and add every name as a keyword.
- `_comment` and unknown keys of a configuration entry are not part of the model's entry.
- Messages without an author: the header would print `undefined`, and `messageMatches` would throw on a watched channel (on any other channel it returns false before reading the author). The model requires an author id.
- The chat client, login, the ready and send logs with timestamps, and the debug logging inside `messageMatches` are I/O and are not modelled.
- The HTTP POST, its response handling and the failure dumps are I/O. The model stops at the request (endpoint and body) that would be sent.
- The user token and the default webhook come from the environment or the configuration file. The default webhook is a parameter of `Endpoint` and `HandleMessage`; the token is not modelled.
- JSON serialisation of the body is not modelled.

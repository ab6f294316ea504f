# FilterBot denylist filter, modelled in Dafny

FilterBot is a Discord bot that removes or flags messages containing
disallowed words or URLs. It keeps a denylist of substrings, fetched as a
plain-text document over HTTP and cached for an hour. For every incoming
message it splits the text on whitespace and checks each token for a
denylist entry as a substring. With the `manage_messages` permission it
deletes the message and posts a removal notice; without it, it posts a
warning that admins have been notified.

The model has three modules:

- `Text` (`text.dfy`): the Python string operations the bot relies on.
  - `str.strip()` is `Strip`.
  - `str.splitlines()` is `SplitLines`.
  - `str.split()` with no separator is `SplitWords`.
  - the substring test `e in t` is `IsSubstring`.
  - Whitespace (`IsSpace`) and line boundaries (`IsLineBreak`) use Python's
    own character sets.
- `Denylist` (`denylist.dfy`): the fetch result, the parsing of the body
  into entries (`_fetch_disallow_list`), and the match test
  (`_is_disallow_url`).
- `Bot` (`bot.dfy`): the class `FilterBot`, whose fields `disallowList`,
  `lastUpdate` and `updateInterval` (3600) are the bot's own. Its methods
  model the refresh (`_update_disallow_list`) and `on_message`.
  - Inputs replace what the bot reads from outside: the clock reading
    `now`, the `FetchResult` of the HTTP request, whether the author is the
    bot, the text, and the `manage_messages` flag.
  - The result of every delete or send call comes from an oracle, indexed
    by token position and call.
  - `on_message` returns the sequence of calls it attempted, each with its
    outcome (`Done`, `Forbidden` or `Failed`).
  - A `SendMessage(notice)` records which notice is posted: `Removed` for
    the removal notice of main.py:63, `Warned` for the warning of
    main.py:65.

Pure code is modelled as functions and lemmas: the comprehension at line 28,
the split at line 56, and `_is_disallow_url`. The code that changes state is
imperative, with contracts:
- `UpdateDisallowList` updates fields in place.
- `ModerateTokens` is the loop of `on_message`, proved against the
  specification function `Moderation`.
- `OnMessage` composes the two.

Two behaviours of the code may not be what a reader expects, and the model
follows the code:

- One might expect a failed fetch to keep the old list. Instead it installs
  an empty denylist: a non-200 status or an exception makes
  `_fetch_disallow_list` return `[]` (main.py:31), and
  `_update_disallow_list` installs `set([])` (main.py:40). `RefreshFailure`
  states this.
- One might expect the bot to stop at the first matching token. The token
  loop has no `break` (main.py:58-69), so every matching token gets its own
  response. A message with three matching tokens sees three responses:
  three delete attempts with `manage_messages`, three warnings without it.
  `ModerationPerToken` states this.

The refresh time starts at 0 and the clock is the event loop's monotonic
clock. A refresh therefore happens only once that clock reads at least
3600. `UpdateDisallowList` states this for any `now`.

## Model

Functions that carry no contract of their own appear through the lemmas
that state what they mean; the third column then names the function.

| member | source | states |
|---|---|---|
| `Text.TrimLeft` | main.py:28 | the result is no longer than the input and is empty or starts with a non-whitespace character |
| `Text.TrimLeftDrops` | main.py:28 | what the left trim removes is a whitespace prefix, and what it keeps is the rest of the string |
| `Text.TrimRight` | main.py:28 | the result is no longer than the input and is empty or ends with a non-whitespace character |
| `Text.TrimRightDrops` | main.py:28 | what the right trim removes is a whitespace suffix, and what it keeps is the rest of the string |
| `Text.Strip` | main.py:28 | `strip()` returns a contiguous piece of the line with no whitespace at either end and only whitespace around it; it is empty exactly when the line is blank |
| `Text.StripChars` | main.py:28 | every character of a stripped line comes from the line |
| `Text.StripIdempotent` | main.py:28 | stripping a string with no outer whitespace leaves it unchanged |
| `Text.LineLength` | main.py:28 | the first line ends at a line boundary or at the end of the text; `LineLengthRun` makes that boundary the first one |
| `Text.LineLengthRun` | main.py:28 | the first line holds no line boundary |
| `Text.SplitLinesNoBreak` | main.py:28 | no line produced by `splitlines()` contains a line boundary |
| `Text.LineLengthOfLine` | main.py:28 | a line followed by a boundary, or by the end of the text, is exactly the first line |
| `Text.SplitLinesOfLine` | main.py:28 | `SplitLines`: text without a boundary is one line, or no line at all when it is empty |
| `Text.SplitLinesCut` | main.py:28 | `SplitLines`: a boundary ends the line before it, `\r\n` counting as one boundary and any other boundary character as one on its own; the text after it is split separately. With `SplitLinesOfLine` this fixes `splitlines()` on every input |
| `Text.SplitLinesKeepsText` | main.py:28 | joining the lines back together gives the text without its line-boundary characters, so nothing but boundaries is lost |
| `Text.WordLength` | main.py:56 | the leading run of a string that starts with non-whitespace is not empty |
| `Text.WordLengthRun` | main.py:56 | the leading run holds no whitespace and is followed by whitespace or the end of the string |
| `Text.SplitWordsAreWords` | main.py:56 | every token of `split()` is non-empty and holds no whitespace |
| `Text.SplitWordsKeepsText` | main.py:56 | joining the tokens back together gives the text without its whitespace |
| `Text.SplitWordsOfWordThen` | main.py:56 | `SplitWords`: a token followed by whitespace, or by the end of the text, is the first token, and the rest is split separately |
| `Text.SplitWordsSkipSpace` | main.py:56 | `SplitWords`: leading whitespace does not change the tokens |
| `Text.SplitJoin` | main.py:56 | splitting the single-space join of non-empty, whitespace-free tokens gives those tokens back |
| `Text.SplitJoinSplit` | main.py:56 | re-joining the tokens with spaces and splitting again gives the same tokens |
| `Text.SubstringIff` | main.py:44 | `IsSubstring`: the recursive substring test holds exactly when the entry occurs at some position of the token |
| `Denylist.ParseLines` | main.py:28 | the comprehension gives at most one entry per line |
| `Denylist.ParseLinesSound` | main.py:28 | every parsed entry is non-empty, has no outer whitespace and is the stripped form of some line |
| `Denylist.ParseLinesComplete` | main.py:28 | every non-blank line contributes its stripped form |
| `Denylist.ParseDenylistEntries` | main.py:28 | every entry parsed from a body is non-empty, stripped and free of line boundaries, so `""` is never an entry |
| `Denylist.ParseDenylistCut` | main.py:28 | `ParseDenylist`: each line of the body is parsed on its own; a non-blank line ended by a boundary gives its stripped form ahead of the entries of the text after it, and a blank one gives nothing, so entries on two lines are never merged |
| `Denylist.ParseDenylistExact` | main.py:28 | `ParseDenylist`: the parsed entries are exactly the stripped forms of the non-blank lines of the body |
| `Denylist.FetchDisallowListSpec` | main.py:22-31 | `FetchDisallowList`: a status other than 200 or an exception gives `[]`; a 200 gives exactly the stripped non-blank lines of the body, each a well-formed entry |
| `Denylist.IsDisallowUrlIff` | main.py:43-44 | `IsDisallowUrl`: a token is disallowed exactly when some denylist entry occurs in it as a substring, so never with an empty denylist |
| `Denylist.IsDisallowUrlWord` | main.py:44 | a whitespace-free token matches only through entries without whitespace; an entry containing a space never fires |
| `Bot.RefreshNotDue` | main.py:34-36 | `Refresh`: less than the interval after the last refresh, neither the set nor the time changes |
| `Bot.RefreshReplaces` | main.py:38-41 | `Refresh`: when due, the new set, `ToSet` of the fetched list, holds exactly the fetched entries, so earlier entries that were not fetched again are gone, and the time becomes `now` |
| `Bot.RefreshFailure` | main.py:26-41 | `Refresh`: a due refresh with a failed fetch leaves an empty set and records `now` |
| `Bot.RefreshWellFormed` | main.py:28-40 | a refresh keeps every entry well formed, and `""` never enters the set |
| `Bot.RefreshRateLimited` | main.py:33-41 | after a due refresh at `t1`, a call before `t1 + 3600` changes nothing, and a later call installs its own fetch |
| `Bot.RespondShape` | main.py:60-69 | `Respond`: one matching token causes one or two calls: with the permission a delete, then the removal notice exactly when the platform accepted the delete; without it, only the warning; every recorded outcome is the platform's answer to that call |
| `Bot.ReactionShape` | main.py:58-59 | `Reaction`: every call made for a token is for that token, and a token causes calls exactly when it matches |
| `Bot.ModerationPerToken` | main.py:58-69 | `Moderation`: the calls for token `j` are exactly its own reaction, its response when it matches and none when it does not, whatever happened on other tokens; a token beyond the ones handled has no calls |
| `Bot.ModerationSplit` | main.py:58-69 | the calls for a message are those for its first tokens followed by those for the remaining ones, token after token |
| `Bot.ModerationFromMatches` | main.py:58-59 | every call belongs to a matching token among those handled |
| `Bot.ModerationInOrder` | main.py:58 | tokens are handled in message order: all calls for a token come before those for any later token |
| `Bot.ModerationCallHasMatch` | main.py:58-59 | a call is made only when some token among those handled matches |
| `Bot.ModerationSomeMatch` | main.py:58-69 | a matching token among those handled causes at least one call |
| `Bot.ModerationEmptyIff` | main.py:58-59 | no call is made exactly when no token matches |
| `Bot.ModerationWithoutPermission` | main.py:64-65 | without `manage_messages` no delete is ever attempted, and every call posts the warning |
| `Bot.ModerationOutcomes` | main.py:60-69 | every recorded outcome is what the platform answered to that call for that token |
| `Bot.ModerationWithPermission` | main.py:61-63 | with `manage_messages` every notice is the removal notice, directly follows a delete of the same token that went through, and is posted only for a token whose delete the platform accepted |
| `Bot.FilterBot.constructor` | main.py:15-20 | the bot starts with an empty denylist, refresh time 0 and interval 3600 |
| `Bot.FilterBot.UpdateDisallowList` | main.py:33-41 | refresh does nothing before the interval has elapsed; otherwise it replaces the set by the fetched entries and records `now`; entries stay well formed |
| `Bot.FilterBot.ModerateTokens` | main.py:58-69 | the loop attempts exactly the calls that `Moderation` prescribes for the tokens |
| `Bot.FilterBot.OnMessage` | main.py:50-69 | a message from the bot itself changes nothing and causes no call; any other message refreshes if due, then moderates the tokens of `split()` against the refreshed denylist |

## Left out

- The Discord client is not modelled: `discord.Client`, intents, `main`, `bot.run`, and the message, channel and member objects (main.py:11-12, main.py:71-76). They become booleans and a string.
- `on_ready` is not modelled (main.py:46-48). It only calls `_update_disallow_list`, which `UpdateDisallowList` models, and prints a log line.
- The HTTP transport is not modelled: `aiohttp.ClientSession`, `session.get` and `response.text()` (main.py:24-27). The answer is a `FetchResult` parameter, and any exception is `TransportError`. The request URL is a placeholder in the source.
- `asyncio.Lock` and async/await are not modelled (main.py:18, main.py:38). A refresh is one sequential call. Two handlers that both find a refresh due, and fetch one after the other, fall outside the model.
- `asyncio.get_event_loop().time()` is a float monotonic clock (main.py:34). It is the integer parameter `now`.
- `load_dotenv`, `os.getenv` and the bot token are configuration I/O and are not modelled (main.py:9, main.py:73).
- The `print` calls in the exception handlers are not modelled (main.py:30, main.py:67, main.py:69). Each attempt records whether its call raised `Forbidden` or another exception.
- OnMessage: `message.channel.permissions_for(message.guild.me).manage_messages` is evaluated again for each matching token, inside the `try` (main.py:61). The model takes one `manage_messages` flag per message, so it does not capture a permission that changes between tokens. It also leaves out an exception from the lookup itself, such as a message without a guild.
- The text of the notices is not modelled: the author's mention followed by the fixed wording of main.py:63 or main.py:65. A `SendMessage` records only which of the two notices is posted.

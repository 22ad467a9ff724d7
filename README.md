# scansafaticometro_bot — a Dafny model of the message counter

The bot watches Telegram group chats. It counts every message each user sends
(`count_messages`). When a user's count first reaches 20, 100, 200 or 500
messages, it posts a templated notification to the group chat, once per
threshold and user. The 20, 200 and 500 texts name the user; the 100 text
names nobody.
Tagged with `/scansafatiche @bot`, it answers with a report of all users,
ranked from the most messages to the fewest (`scansafatiche`).

The model has five modules:

- `PyText` (`pytext.dfy`) covers the bits of Python string behaviour the
  handlers rely on:
  - truthiness of `None`/`""`;
  - `str()` of an int, with its inverse and a round-trip lemma;
  - slicing with out-of-range bounds;
  - `str.format(name=...)` over a template split into literal pieces and
    `{name}` fields;
  - UTF-16 lengths and a slice by UTF-16 offsets, the units Telegram uses
    for message entities.
- `Users` (`users.dfy`) holds the user record and the display-name chain
  `full_name or username or str(user_id)`.
- `Trigger` (`trigger.dfy`) holds the threshold dict and the firing rule:
  - the dict is kept as its keys in declaration order (`Thresholds`) plus
    the template of each key (`Messages`);
  - `NewlyFired` is the rule itself: in table order, the thresholds the
    count has reached that are not yet in the user's fired set;
  - lemmas about this rule, step by step and over whole runs of messages.
- `Report` (`report.dfy`) covers `scansafatiche`'s decisions:
  - the mention test, as written and with UTF-16 offsets (see Findings);
  - Python's stable `sorted(..., key=lambda x: -x[1])`, written as an
    insertion sort and proved to be a permutation, non-increasing and
    stable;
  - the report text.
- `Bot` (`bot.dfy`) holds the handlers' process-wide state as the class
  `CounterStore`:
  - `counts` and `order` together model `user_message_counts`: its values,
    and its keys in insertion order, which the stable sort exposes;
  - `fired` models `user_thresholds_triggered`;
  - the invariant `Consistent` says that `counts` and `order` cover the
    same users, each listed once in `order`, and that every count is at
    least 1. `fired` holds only the users whose count has reached 20, and
    each fired set is exactly the thresholds that user's count has reached.
    The entry appears as soon as the first threshold is reached.
  - `CountMessages` and `Scansafatiche` are the two handlers;
  - `FireThresholds` and `BuildReport` are their loops, each proved against
    a specification function.

In `bot.py` the count rises by exactly one per message, so the loop over the
thresholds can fire at most one of them per message; `StepFiresAtMostOne`
proves this.

## Model

| member | source | states |
|---|---|---|
| PyText.NatToString | bot.py:79 | the rendering is a non-empty run of decimal digits with no leading zero |
| PyText.IntToStringRoundTrip | bot.py:31 | `str(user_id)` can be read back to the same id, negatives included |
| PyText.IntToStringInjective | bot.py:78 | distinct ids get distinct `str()` fallbacks |
| PyText.Slice | bot.py:59 | `text[a:b]` never fails and is no longer than the text; for in-range bounds it is the substring, and for crossed bounds it is empty |
| PyText.FormatSplicesName | bot.py:43 | `format(name=...)` puts the name, verbatim, exactly where a `{name}` field stands |
| PyText.FormatWithoutField | bot.py:22 | a template with no `{name}` field renders the same for every name |
| PyText.Utf16LengthConcat | bot.py:59 | the UTF-16 length of a concatenation is the sum of the lengths |
| PyText.Utf16SliceSpan | bot.py:59 | slicing at the UTF-16 offset and length of a span recovers exactly that span, whatever precedes and follows it |
| PyText.Utf16SliceBmp | bot.py:59 | on text inside the Basic Multilingual Plane, the UTF-16 slice is the character slice `text[offset:offset + length]` |
| Users.DisplayName | bot.py:31 | the name is never empty: `full_name` if truthy, else `username` if truthy, else a string that parses back to the user id |
| Trigger.TableWellFormed | bot.py:20-25 | the thresholds are in ascending order, and every threshold, and nothing else, has a template |
| Trigger.NotificationTexts | bot.py:20-25 | the four texts sent; the name is spliced into the 20, 200 and 500 texts, and the 100 text is the same for every name |
| Trigger.NewlyFiredMembers | bot.py:38-40 | a threshold fires iff it is in the table, the count has reached it, and it has not fired for the user before |
| Trigger.NewlyFiredAscending | bot.py:38-40 | thresholds fire in table order, so ascending for an ascending table |
| Trigger.StepFiresAtMostOne | bot.py:34-40 | when the fired set is what the previous count reached, a message fires exactly its new count if that count is a threshold, and nothing otherwise |
| Trigger.StepReachesCount | bot.py:38-40 | recording what fires turns the fired set of the previous count into the thresholds the new count has reached |
| Trigger.RunFiresCrossedThresholds | bot.py:34-44 | over any run of messages, the notifications are exactly the thresholds crossed between the first and the last count, each fired at most once |
| Trigger.RunFiresAscending | bot.py:38-44 | over any run of messages the notifications come in ascending threshold order |
| Trigger.NewUserNotifications | bot.py:20-44 | a new user with n messages has been notified at exactly the thresholds 20, 100, 200 and 500 that are at most n, in that order |
| Report.Mentioned | bot.py:58-61 | as written: true iff some entity is a "mention" whose character slice of the text is `@` plus the bot's username |
| Report.MentionedUtf16 | bot.py:58-61 | corrected: true iff some entity is a "mention" whose UTF-16 slice of the text is `@` plus the bot's username |
| Report.MentionedUtf16Found | bot.py:58-61 | a mention entity at the UTF-16 offset and length of `@` plus the username is found, whatever text precedes or follows it |
| Report.MentionedUtf16Bmp | bot.py:58-61 | on text inside the Basic Multilingual Plane the corrected test and the test as written agree |
| Report.MentionMissedAfterEmoji | bot.py:59 | as written, `/scansafatiche 😀 @bot` with Telegram's mention entity (offset 18, length 4) is not recognised |
| Report.MentionFoundAfterEmoji | bot.py:58-61 | the corrected test recognises that same message |
| Report.Ranked | bot.py:73 | the sort is a permutation of the items and orders them by non-increasing count |
| Report.RankedLength | bot.py:73 | the ranking has as many entries as the items |
| Report.RankedStable | bot.py:73 | the sort is stable: the entries sharing a count keep their relative order |
| Report.RankedDistinct | bot.py:73 | ranking distinct users keeps them distinct |
| Report.MemberName | bot.py:74-78 | the report name is never empty, and a failed member lookup falls back to a string that parses back to the id |
| Report.ReportStartsWithHeader | bot.py:72-79 | every report begins with the header |
| Report.ReportIsNotNothingToCount | bot.py:66-72 | a report, even with no lines, differs from the "nothing to count" reply |
| Bot.RecordStep | bot.py:39-40 | whether the threshold is added or was already there, a reached threshold leaves the user's entry as the old set plus everything reached so far |
| Bot.FiredBeforeCount | bot.py:34-39 | under the invariant, a user's fired set before a message is what the previous count reached, and lies within what the new count reaches |
| Bot.CountStep | bot.py:34-40 | one counted message, with its fired thresholds recorded, keeps the two dicts consistent |
| Bot.CountKeepsFired | bot.py:39-40 | a message never removes a threshold: every fired set only grows |
| Bot.RankedMembers | bot.py:73 | the ranking holds exactly the (user, count) pairs of the counter |
| Bot.StoreSize | bot.py:73 | the counter's items are as many as its users |
| Bot.RankingCoversStore | bot.py:73 | the report lists every counted user exactly once, with their count, by non-increasing count |
| Bot.CounterStore.constructor | bot.py:13-17 | both dicts start empty, which satisfies the invariant |
| Bot.CounterStore.CountMessages | bot.py:27-44 | outside groups nothing changes and nothing is sent. In a group: the sender's count rises by one (first message: entry created, key appended to the order); every other user is untouched; the fired entry becomes the thresholds the new count reached; at most one notification, exactly the new count when it is a threshold, with the text rendered for the sender's display name; the invariant is kept |
| Bot.CounterStore.FireThresholds | bot.py:38-44 | the loop sends the thresholds `NewlyFired` selects, in table order, each rendered with the name, and records all reached thresholds in the user's entry; the entry is created only when some threshold is reached |
| Bot.CounterStore.Scansafatiche | bot.py:47-81 | uses the corrected, UTF-16 mention test (see Findings). Silent iff the chat is not a group or the bot is not mentioned; "nothing to count" iff mentioned in a group with an empty counter; otherwise the header followed by one line per user, in stable descending order of count |
| Bot.BuildReport | bot.py:71-79 | the loop's report is the header followed by one line per ranked entry, in ranking order |

## Left out

- Telegram I/O is left out of the model:
  - the bot's username (`get_me`, bot.py:55) is a parameter;
  - chat-member lookup (`get_chat_member`, bot.py:75) is a map of users, and a missing key stands for any exception the lookup raises;
  - the text sent (`send_message`, `reply_text`, bot.py:41-44, 68, 81) is returned as a value;
  - the Markdown parse mode is not modelled.
- Token loading from `.env` (bot.py:7-11), handler registration and the `TEXT & ~COMMAND` filter (bot.py:84-94), and the startup `print` are not part of this model. Which messages reach each handler is therefore left to the caller.
- `async` scheduling is not modelled: each handler runs to completion before the next begins.
- Entity offsets: `Report.Mentioned` slices by code point, exactly as Python's `str` slicing does. Telegram counts entity offsets in UTF-16 code units, so `bot.py` itself is wrong on text with characters outside the Basic Multilingual Plane; this is recorded under Findings, and the handler uses the corrected test.
- `message.entities or []` (bot.py:56) is modelled by taking the entities as a sequence, possibly empty. A message without text is not modelled.
- `full_name` is computed by the Telegram library from the first and last names; here it is an optional string input.
- PyText.Slice: its contract covers in-range and crossed bounds only. Negative and too-large bounds are handled by its body, Python-style, but no lemma states them.
- Bot.CounterStore.CountMessages: the contract does not list "other users unchanged" as a separate clause. It follows from the exact new state `old(counts)[u := c]` and `old(fired)[u := ...]`.

## Findings

| source | as written | input that shows it | evidently intended | confidence | as-written member | corrected member |
|---|---|---|---|---|---|---|
| bot.py:59 | `message.text[e.offset:e.offset + e.length]` uses Telegram's entity offset and length, which count UTF-16 code units, as indices into a Python `str`, which counts code points | text `/scansafatiche 😀 @bot` with mention entity offset 18, length 4: the emoji takes two UTF-16 units, so the slice is `bot`, not `@bot`, and the bot stays silent | slice by UTF-16 units, so that the mention is found whatever characters precede it | not executed | Report.MentionMissedAfterEmoji | Report.MentionedUtf16Found |

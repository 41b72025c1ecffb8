# Config-driven Telegram reply bot: a Dafny model of its dispatch core

`telegram_bot.py` is a Telegram bot that reads all of its replies from a YAML configuration.
The configuration has a `commands` map (`/start`, `/help`, ...), a `buttons` map (reply-keyboard
labels and inline callback data), and an optional `unknown_message`. Each target is a message
record or a list of records. A record may hold `text`, `image`, `backup` (a silent pause),
`backup_print` (a "typing…" indicator plus a pause), `inline_buttons` or `reply_buttons`, and,
for a button target, `url`.

This project models the deterministic core behind the aiogram plumbing as pure functions.
Instead of awaiting bot calls, each handler returns a `Run`: the calls it would make, in
order, as `Action` tokens (`Sleep`, `Typing`, `SendPhoto`, `SendText`, `Answer`), and
whether it completed or raised.

- `Wrappers`: `Option` (an absent YAML key is `None`) and `Result`.
- `PyText`: Python's `str.strip()` (with Python's own whitespace set) and `str.startswith`.
- `Config`: the parsed configuration (`MessageConfig`, `Entry`, `InlineSpec`, `BotConfig`).
- `Keyboards`: `get_reply_keyboard`, `get_inline_keyboard`, and the choice between them.
- `Planner`: `send_response` (`SendResponse`) and `process_command` (`ProcessCommand`).
- `Dispatch`: the five handlers, the handler table in registration order, and first-match
  dispatch over a table.

Two behaviours of the code are modelled as written:

- An inline mapping with `url` but no `text` raises `KeyError('text')` while the keyboard is
  built. That happens after the pacing calls, so the model keeps the pacing actions and ends
  the run with `Raised(MissingKey("text"))`. The rest of a record list is skipped, and so is
  `callback.answer()`.
- The handler table is an explicit list, `Dispatch.Registration`, in source order. aiogram
  picks the first registered handler whose filter passes. The unfiltered catch-all
  (`handle_unknown`) comes before `handle_reply_buttons`, so a reply-button label never
  reaches its button handler (see Findings). Message handlers and the callback handler are
  separate observers in aiogram. Merging them into one list changes nothing, because no
  message filter accepts a callback.

One `unknown_message` serves as the fallback both for unknown commands and for any other
text. A callback whose data is not a button key is left unhandled.

## Model

| member | source | states |
|---|---|---|
| PyText.Strip | telegram_bot.py:65 | The stripped text has no whitespace at either end, is never longer than the input, and is empty exactly when the input is all whitespace. |
| PyText.StripSlice | telegram_bot.py:65 | The stripped text is a contiguous slice of the input with only whitespace before and after it. |
| PyText.StripPadded | telegram_bot.py:65 | Stripping removes exactly the whitespace padding around a trimmed core. This determines `strip()` completely. |
| PyText.StartsWith | telegram_bot.py:114 | `s.startswith(prefix)` holds iff the prefix is no longer than `s` and agrees with `s` position by position. |
| PyText.StripIdempotent | telegram_bot.py:65 | Stripping twice gives the same result as stripping once. |
| Keyboards.ReplyRows | telegram_bot.py:32 | There is one row per label, and row i holds exactly label i. |
| Keyboards.ReplyKeyboard | telegram_bot.py:28-35 | An empty list gives no keyboard. Otherwise the result is a resizable one-time reply keyboard with one single-button row per label, in input order. |
| Keyboards.ReplyKeyboardRoundTrip | telegram_bot.py:28-35 | Reading a non-empty reply keyboard back row by row gives exactly the configured labels, in order. |
| Keyboards.InlineRows | telegram_bot.py:41-53 | Building the rows succeeds iff no entry is a `url` mapping without `text`; a failure is `KeyError('text')`. There are never more rows than entries, and every row has one button. |
| Keyboards.InlineRowsSingle | telegram_bot.py:42-51 | A plain label gives one callback row with text = data = label. A mapping with `url` gives one URL row. A mapping without `url` gives no row. A `url` mapping without `text` raises. |
| Keyboards.InlineRowsAppend | telegram_bot.py:41-53 | Row order follows entry order: the rows of `a + b` are the rows of `a` followed by the rows of `b`, and the first raise wins. |
| Keyboards.InlineRowsNoContribution | telegram_bot.py:44-48 | A list of mappings that all lack `url` gives no rows. |
| Keyboards.InlineRowsAllContribute | telegram_bot.py:42-51 | When every entry is a label or a well-formed `url` mapping, there is exactly one row per entry. |
| Keyboards.InlineRowsPlainLabels | telegram_bot.py:49-51 | A list of plain labels gives, in order, callback buttons whose text and callback data both equal the label. |
| Keyboards.InlineEntryRows | telegram_bot.py:44-51 | A single entry raises `KeyError('text')` exactly when it is a `url` mapping without `text`, and otherwise gives one single-button row when it is a label or has `url` and no row when it does not. |
| Keyboards.InlineKeyboard | telegram_bot.py:37-53 | An empty list gives no keyboard. A non-empty list gives an inline keyboard iff no entry raises, and its rows are exactly the rows `InlineRows` builds. A failure is `KeyError('text')`. |
| Keyboards.InlineKeyboardNoRows | telegram_bot.py:37-53 | A non-empty list in which no entry has `url` gives an inline keyboard with zero rows, not "no keyboard". |
| Keyboards.InlineKeyboardPlainLabels | telegram_bot.py:37-53 | A non-empty list of plain labels gives a keyboard with one callback button per label, in order, whose text and callback data both equal the label. |
| Keyboards.ChooseKeyboard | telegram_bot.py:66-71 | A present `inline_buttons` key wins over `reply_buttons`: the keyboard, or the raise, is exactly what `get_inline_keyboard` gives for that list. An empty inline list therefore gives no keyboard, even when reply buttons are configured. A reply keyboard appears only when `inline_buttons` is absent. It is then exactly `get_reply_keyboard` of `reply_buttons`: one single-button row per label, resizable and one-time, showing exactly the configured labels. Only inline entries can raise. |
| Planner.Pacing | telegram_bot.py:56-63 | Pacing is the `backup` sleep first, then the typing indicator followed by the `backup_print` sleep. It holds no delivery and no answer. |
| Planner.SendResponse | telegram_bot.py:55-89 | A plan is the pacing prefix followed by at most one action, and that action is a delivery. A plan never answers a callback. It completes iff the keyboard can be built. A raise leaves only the pacing actions. |
| Planner.SendDecision | telegram_bot.py:73-89 | If the image exists, exactly one photo is sent, captioned with the stripped text (possibly empty). Otherwise a non-blank text is sent stripped. Otherwise nothing is sent after the pacing. |
| Planner.SendResponseDelivers | telegram_bot.py:73-89 | A record delivers at most once. A completed record delivers exactly once iff its image exists or its text is not blank. |
| Planner.SentTextIsStripped | telegram_bot.py:65-89 | Every delivered text is non-empty and has no surrounding whitespace. |
| Planner.TextOnlyResponse | telegram_bot.py:65-89 | A record holding only a trimmed, non-blank text sends exactly that text with no keyboard. |
| Planner.SendAll | telegram_bot.py:92-95 | A list completes iff every record's keyboard builds. It delivers at most once per record and never answers. |
| Planner.ProcessCommand | telegram_bot.py:91-98 | A single record or a list completes iff every record's keyboard builds. It delivers at most once per record and never answers. |
| Planner.SendAllAppend | telegram_bot.py:94-95 | The plan for the list `a + b` is the plan for `a`, followed by the plan for `b` unless `a` raised. |
| Planner.SendAllSnoc | telegram_bot.py:94-95 | When no record raises, a list's plan is the in-order concatenation of its records' plans. |
| Planner.SingletonSequence | telegram_bot.py:91-98 | A one-element list plans exactly what the bare record plans. |
| Planner.ProcessCommandIsSendAll | telegram_bot.py:91-98 | Any entry plans what the list of its records plans. |
| Dispatch.Matches | telegram_bot.py:100-130 | The filter each handler is registered with. The unfiltered catch-all accepts every text. Only the inline handler accepts callbacks, so message filters and the callback filter never both accept an event. |
| Dispatch.Dispatch | telegram_bot.py:100-138 | The first handler in the table whose filter accepts the event runs, and an event no handler accepts produces no action. A text message is never answered. |
| Dispatch.FirstMatch | telegram_bot.py:100-130 | The chosen position holds a handler whose filter accepts the event, and no earlier handler accepts it. There is no choice iff no handler accepts. |
| Dispatch.Start | telegram_bot.py:100-103 | `/start` runs its configured entry, or produces no action when it is not configured. It never answers a callback. |
| Dispatch.Help | telegram_bot.py:105-110 | `/help` runs its configured entry. When it is not configured, it sends exactly the fixed text "Команда /help не настроена" with no keyboard, so an unconfigured `/help` always delivers something. It never answers a callback. |
| Dispatch.Unknown | telegram_bot.py:112-123 | A configured `unknown_message` is sent whatever the text, even one starting with '/'. Without it, a text starting with '/' gets "Неизвестная команда" and any other text gets "Пожалуйста, используйте команды из меню". It delivers at most once and never answers a callback. |
| Dispatch.ReplyButtons | telegram_bot.py:125-127 | The button handler completes iff every record of the button's entry builds its keyboard. It delivers at most once per record and never answers. |
| Dispatch.InlineButtons | telegram_bot.py:129-138 | A `url` mapping is only answered. For any other entry, the actions are exactly the entry's `process_command` plan, followed by one answer if that plan completed. A raising entry never reaches the answer. |
| Dispatch.SelectedHandler | telegram_bot.py:100-130 | `/start` and `/help` go to their command handlers even when they are also button keys. Every other text goes to the catch-all. A callback goes to the inline handler iff its data is a button key; otherwise it is unhandled. |
| Dispatch.ReplyButtonsNeverSelected | telegram_bot.py:112-127 | No event ever selects the reply-button handler. |
| Dispatch.DispatchOtherText | telegram_bot.py:112-123 | Every text other than `/start` and `/help` is answered by `handle_unknown`. |
| Dispatch.ButtonLabelReachesUnknown | telegram_bot.py:112-127 | A configured button label sent as text (and not a command) is handled by the catch-all. |
| Dispatch.ButtonLabelCounterexample | telegram_bot.py:112-127 | With a "Menu" button whose entry says "Hi", the text "Menu" gets the default "use the menu" reply. |
| Dispatch.MenuButtonEntry | telegram_bot.py:125-127 | With that same configuration, the reply-button handler would have sent "Hi". |
| Dispatch.DispatchStart | telegram_bot.py:100-103 | Dispatching `/start` runs `cmd_start`. When `/start` is not configured, nothing is sent. |
| Dispatch.DispatchHelp | telegram_bot.py:105-110 | Dispatching `/help` runs `cmd_help`. When `/help` is not configured, exactly the fixed text is sent. |
| Dispatch.DispatchCallback | telegram_bot.py:129-138 | A callback on a button key runs `handle_inline_buttons`: it ends with exactly one answer when it completes, and a `url` button produces only that answer. A callback on any other data does nothing. |
| Dispatch.IntendedButtonLabelReachesButtons | telegram_bot.py:112-127 | With the catch-all registered last, a button label runs its button's configured entry. |
| Dispatch.IntendedAgreesElsewhere | telegram_bot.py:100-138 | Moving the catch-all last changes the outcome of no event other than a button label. |

## Left out

- aiogram transport is not modelled: `Bot`, `Dispatcher`, polling, and the HTML parse-mode default (telegram_bot.py:22-26, 140-142). Bot calls appear only as `Action` tokens and are assumed to return normally. Network errors are not modelled.
- Loading `config.yml` (telegram_bot.py:18-19) is I/O. The model takes an already-parsed `BotConfig`. `commands` is a required map; a missing `buttons` key is an empty map.
- `os.path.exists` becomes the parameter `fileExists`. `FSInputFile` and `InputMediaPhoto` reduce to the image path and caption of `SendPhoto`.
- Sleep durations are whole seconds (`nat`). YAML floats are not modelled, and neither is the actual waiting.
- Dispatch.Matches: the `Command("start")` and `Command("help")` filters are matched on the exact texts `/start` and `/help`. aiogram's `Command` filter also accepts a command with arguments (`/start ref`) or a bot-name suffix (`/help@bot`) and runs `cmd_start` / `cmd_help` for it. In the model, such texts go to the catch-all and get "Неизвестная команда" or `unknown_message` instead. So "every other text reaches the catch-all" (Dispatch.SelectedHandler, Dispatch.DispatchOtherText) holds for the model and not for those texts in the program.
- Messages without text are not modelled. `handle_unknown` would fail on `message.text` being absent.
- YAML values of unexpected types are not modelled: a null `text` or `image`, non-string labels, a non-mapping element in a record list, a list as `unknown_message`, or a scalar as a button target. The datatypes admit only the shapes the code reads. A present-but-null `inline_buttons` or `reply_buttons` is written as `Some([])`, which behaves the same.
- The `Answer` action does not carry the callback query's id, and the chat id is an `int`.
- Dispatch.ReplyButtons: its contract states completion, delivery and answer counts, not the exact plan. Its plan is exactly the button's `ProcessCommand`, and the handler is never selected under the source registration order.

## Findings

| source | as written | input that shows it | evidently intended | confidence | as-written member | corrected member |
|---|---|---|---|---|---|---|
| telegram_bot.py:112-127 | The unfiltered catch-all `handle_unknown` is registered before `handle_reply_buttons`, so under first-match dispatch every text other than the exact commands `/start` and `/help` reaches the catch-all (see the `Dispatch.Matches` line under Left out for commands with arguments) | buttons `{"Menu": {"text": "Hi"}}`, no `unknown_message`, user sends the text "Menu": the bot replies "Пожалуйста, используйте команды из меню" instead of "Hi" | a configured reply-button label runs its button entry, with the catch-all registered last | not executed; high, because `handle_reply_buttons` is unreachable for every configuration | Dispatch.ButtonLabelCounterexample | Dispatch.IntendedButtonLabelReachesButtons |

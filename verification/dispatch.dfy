/**
 * The bot's handlers and the first-match dispatch over them. The handler table
 * is an explicit, ordered list: `Registration` is the order in which the
 * handlers are registered in telegram_bot.py, and `Dispatch` runs the first
 * handler in a table whose filter accepts the event.
 */
module Dispatch {
  import opened Wrappers
  import opened Config
  import opened PyText
  import opened Planner

  /** An inbound update: a text message, or an inline-button callback carrying its callback data. */
  datatype Event =
    | TextMessage(chat: int, text: string)
    | CallbackQuery(chat: int, data: string)

  /** The five registered handlers. */
  datatype Handler = CmdStart | CmdHelp | HandleUnknown | HandleReplyButtons | HandleInlineButtons

  /** The handlers in registration order. */
  const Registration: seq<Handler> := [CmdStart, CmdHelp, HandleUnknown, HandleReplyButtons, HandleInlineButtons]

  /** Reply sent by `/help` when no `/help` command is configured. */
  const HelpNotConfigured: string := "Команда /help не настроена"
  /** Default fallback for an unrecognised command. */
  const UnknownCommand: string := "Неизвестная команда"
  /** Default fallback for any other text. */
  const UseMenu: string := "Пожалуйста, используйте команды из меню"

  /**
   * The filter each handler is registered with. Only the inline handler
   * accepts callbacks, and the unfiltered catch-all accepts every text.
   */
  function Matches(h: Handler, cfg: BotConfig, ev: Event): (r: bool)
    ensures r && h == HandleInlineButtons ==> ev.CallbackQuery?
    ensures r && h != HandleInlineButtons ==> ev.TextMessage?
    ensures h == HandleUnknown ==> (r <==> ev.TextMessage?)
  {
    match h
    case CmdStart => ev.TextMessage? && ev.text == "/start"
    case CmdHelp => ev.TextMessage? && ev.text == "/help"
    case HandleUnknown => ev.TextMessage?
    case HandleReplyButtons => ev.TextMessage? && ev.text in cfg.buttons
    case HandleInlineButtons => ev.CallbackQuery? && ev.data in cfg.buttons
  }

  /** The position of the first handler in `table` whose filter accepts `ev`, if any. */
  function FirstMatch(table: seq<Handler>, cfg: BotConfig, ev: Event): (r: Option<nat>)
    ensures r.Some? ==> r.value < |table| && Matches(table[r.value], cfg, ev)
    ensures r.Some? ==> forall j :: 0 <= j < r.value ==> !Matches(table[j], cfg, ev)
    ensures r.None? <==> forall j :: 0 <= j < |table| ==> !Matches(table[j], cfg, ev)
  {
    if table == [] then None
    else if Matches(table[0], cfg, ev) then Some(0)
    else
      match FirstMatch(table[1..], cfg, ev)
      case None => None
      case Some(k) => Some(k + 1)
  }

  /** `cmd_start`: the configured `/start` entry, or nothing when there is none. */
  function Start(cfg: BotConfig, chat: int, fileExists: string -> bool): (r: Run)
    ensures "/start" !in cfg.commands ==> r == Run([], Completed)
    ensures "/start" in cfg.commands ==> r == ProcessCommand(chat, cfg.commands["/start"], fileExists)
    ensures AnswerCount(r.actions) == 0
  {
    if "/start" in cfg.commands then ProcessCommand(chat, cfg.commands["/start"], fileExists)
    else Run([], Completed)
  }

  /** `cmd_help`: the configured `/help` entry, or exactly one fixed "not configured" text. */
  function Help(cfg: BotConfig, chat: int, fileExists: string -> bool): (r: Run)
    ensures "/help" !in cfg.commands ==> r == Run([SendText(chat, HelpNotConfigured, None)], Completed)
    ensures "/help" in cfg.commands ==> r == ProcessCommand(chat, cfg.commands["/help"], fileExists)
    ensures SendCount(r.actions) >= 1 || "/help" in cfg.commands
    ensures AnswerCount(r.actions) == 0
  {
    if "/help" in cfg.commands then ProcessCommand(chat, cfg.commands["/help"], fileExists)
    else
      TextOnlyResponse(chat, HelpNotConfigured, fileExists);
      SingleDelivery([], SendText(chat, HelpNotConfigured, None));
      assert [] + [SendText(chat, HelpNotConfigured, None)] == [SendText(chat, HelpNotConfigured, None)];
      SendResponse(chat, TextOnly(HelpNotConfigured), fileExists)
  }

  /**
   * `handle_unknown`: the configured `unknown_message` whatever the text, else a
   * default chosen by whether the text starts with '/'.
   */
  function Unknown(cfg: BotConfig, chat: int, text: string, fileExists: string -> bool): (r: Run)
    ensures cfg.unknownMessage.Some? ==> r == SendResponse(chat, cfg.unknownMessage.value, fileExists)
    ensures cfg.unknownMessage.None? && StartsWith(text, "/") ==> r == Run([SendText(chat, UnknownCommand, None)], Completed)
    ensures cfg.unknownMessage.None? && !StartsWith(text, "/") ==> r == Run([SendText(chat, UseMenu, None)], Completed)
    ensures SendCount(r.actions) <= 1 && AnswerCount(r.actions) == 0
  {
    var fallback := if StartsWith(text, "/") then UnknownCommand else UseMenu;
    TextOnlyResponse(chat, fallback, fileExists);
    SendResponseDelivers(chat, cfg.unknownMessage.GetOr(TextOnly(fallback)), fileExists);
    SendResponse(chat, cfg.unknownMessage.GetOr(TextOnly(fallback)), fileExists)
  }

  /** `handle_reply_buttons`: the entry configured for the button label. */
  function ReplyButtons(cfg: BotConfig, chat: int, text: string, fileExists: string -> bool): (r: Run)
    requires text in cfg.buttons
    ensures r.outcome.Completed? <==> AllKeyboardsBuild(Records(cfg.buttons[text]))
    ensures SendCount(r.actions) <= |Records(cfg.buttons[text])|
    ensures AnswerCount(r.actions) == 0
  {
    ProcessCommand(chat, cfg.buttons[text], fileExists)
  }

  /** The entry a callback's data selects, `{}` when the data is not a button key. */
  function ButtonData(cfg: BotConfig, data: string): Entry {
    if data in cfg.buttons then cfg.buttons[data] else Single(EmptyMessage)
  }

  /** The selected entry is a single mapping holding `url`. */
  predicate IsUrlButton(e: Entry) {
    e.Single? && e.message.url.Some?
  }

  /**
   * `handle_inline_buttons`: a `url` mapping is only answered; any other entry
   * is run and then answered. A run that raises never reaches the answer.
   */
  function InlineButtons(cfg: BotConfig, chat: int, data: string, fileExists: string -> bool): (r: Run)
    ensures IsUrlButton(ButtonData(cfg, data)) ==> r == Run([Answer], Completed)
    ensures !IsUrlButton(ButtonData(cfg, data)) ==>
              r.outcome == ProcessCommand(chat, ButtonData(cfg, data), fileExists).outcome
    ensures !IsUrlButton(ButtonData(cfg, data)) ==>
              r.actions == ProcessCommand(chat, ButtonData(cfg, data), fileExists).actions
                           + (if r.outcome.Completed? then [Answer] else [])
    ensures r.outcome.Completed? ==> AnswerCount(r.actions) == 1 && r.actions[|r.actions| - 1] == Answer
    ensures r.outcome.Raised? ==> AnswerCount(r.actions) == 0
  {
    var entry := ButtonData(cfg, data);
    if IsUrlButton(entry) then
      assert [Answer][1..] == [];
      Run([Answer], Completed)
    else
      var run := ProcessCommand(chat, entry, fileExists);
      CountsAppend(run.actions, [Answer]);
      assert [Answer][1..] == [];
      Then(run, Run([Answer], Completed))
  }

  /** Runs handler `h` on an event its filter accepted. */
  function RunHandler(h: Handler, cfg: BotConfig, ev: Event, fileExists: string -> bool): Run
    requires Matches(h, cfg, ev)
  {
    match h
    case CmdStart => Start(cfg, ev.chat, fileExists)
    case CmdHelp => Help(cfg, ev.chat, fileExists)
    case HandleUnknown => Unknown(cfg, ev.chat, ev.text, fileExists)
    case HandleReplyButtons => ReplyButtons(cfg, ev.chat, ev.text, fileExists)
    case HandleInlineButtons => InlineButtons(cfg, ev.chat, ev.data, fileExists)
  }

  /**
   * First-match dispatch over `table`: the first handler whose filter accepts
   * the event runs; an event no handler accepts produces no action. Only a
   * callback is ever answered.
   */
  function Dispatch(table: seq<Handler>, cfg: BotConfig, ev: Event, fileExists: string -> bool): (r: Run)
    ensures FirstMatch(table, cfg, ev).None? ==> r == Run([], Completed)
    ensures FirstMatch(table, cfg, ev).Some? ==> r == RunHandler(table[FirstMatch(table, cfg, ev).value], cfg, ev, fileExists)
    ensures ev.TextMessage? ==> AnswerCount(r.actions) == 0
  {
    match FirstMatch(table, cfg, ev)
    case None => Run([], Completed)
    case Some(i) => RunHandler(table[i], cfg, ev, fileExists)
  }

  /** The handler `Registration` selects for `ev`. */
  function Selected(cfg: BotConfig, ev: Event): Option<Handler> {
    match FirstMatch(Registration, cfg, ev)
    case None => None
    case Some(i) => Some(Registration[i])
  }

  /**
   * Which registered handler wins: `/start` and `/help` go to their command
   * handlers even when they are also button keys; every other text goes to
   * the catch-all; a callback goes to the inline handler iff its data is a
   * button key, and is otherwise left unhandled.
   */
  lemma SelectedHandler(cfg: BotConfig, ev: Event)
    ensures ev == TextMessage(ev.chat, "/start") ==> Selected(cfg, ev) == Some(CmdStart)
    ensures ev == TextMessage(ev.chat, "/help") ==> Selected(cfg, ev) == Some(CmdHelp)
    ensures ev.TextMessage? && ev.text != "/start" && ev.text != "/help" ==> Selected(cfg, ev) == Some(HandleUnknown)
    ensures ev.CallbackQuery? ==> (Selected(cfg, ev) == Some(HandleInlineButtons) <==> ev.data in cfg.buttons)
    ensures ev.CallbackQuery? && ev.data !in cfg.buttons ==> Selected(cfg, ev).None?
  {
    var r := FirstMatch(Registration, cfg, ev);
    assert "/help" != "/start" by {
      assert "/help"[1] == 'h' && "/start"[1] == 's';
    }
    if ev.TextMessage? {
      if ev.text == "/help" {
        assert Matches(Registration[1], cfg, ev) && !Matches(Registration[0], cfg, ev);
      }
      assert Matches(Registration[2], cfg, ev);
    } else if ev.data in cfg.buttons {
      assert Matches(Registration[4], cfg, ev);
    }
  }

  /** The reply-button handler is registered after the unfiltered catch-all, so it never runs. */
  lemma ReplyButtonsNeverSelected(cfg: BotConfig, ev: Event)
    ensures Selected(cfg, ev) != Some(HandleReplyButtons)
  {
    SelectedHandler(cfg, ev);
  }

  /** Every text other than `/start` and `/help` is answered by the catch-all. */
  lemma DispatchOtherText(cfg: BotConfig, chat: int, text: string, fileExists: string -> bool)
    requires text != "/start" && text != "/help"
    ensures Dispatch(Registration, cfg, TextMessage(chat, text), fileExists) == Unknown(cfg, chat, text, fileExists)
  {
    SelectedHandler(cfg, TextMessage(chat, text));
  }

  /**
   * A text that is a configured button label (and not a command) is answered by
   * the catch-all, so its button entry is not what runs.
   */
  lemma ButtonLabelReachesUnknown(cfg: BotConfig, chat: int, key: string, fileExists: string -> bool)
    requires key in cfg.buttons && key != "/start" && key != "/help"
    ensures Selected(cfg, TextMessage(chat, key)) == Some(HandleUnknown)
    ensures Dispatch(Registration, cfg, TextMessage(chat, key), fileExists) == Unknown(cfg, chat, key, fileExists)
  {
    SelectedHandler(cfg, TextMessage(chat, key));
    DispatchOtherText(cfg, chat, key, fileExists);
  }

  /** The configuration of the concrete case below: one "Menu" button whose entry says "Hi". */
  const MenuConfig: BotConfig := BotConfig(map[], map["Menu" := Single(TextOnly("Hi"))], None)

  /**
   * A concrete case under `MenuConfig`: the text "Menu" gets the default
   * "use the menu" reply, not the "Hi" its button entry configures (`MenuButtonEntry`).
   */
  lemma ButtonLabelCounterexample(fileExists: string -> bool)
    ensures Dispatch(Registration, MenuConfig, TextMessage(1, "Menu"), fileExists) == Run([SendText(1, UseMenu, None)], Completed)
  {
    assert "Menu" in MenuConfig.buttons;
    assert "Menu"[0] == 'M';
    assert "Menu" != "/start" && "Menu" != "/help";
    assert !StartsWith("Menu", "/");
    ButtonLabelReachesUnknown(MenuConfig, 1, "Menu", fileExists);
  }

  /** What the reply-button handler would send for "Menu" under `MenuConfig`. */
  lemma MenuButtonEntry(fileExists: string -> bool)
    ensures ReplyButtons(MenuConfig, 1, "Menu", fileExists) == Run([SendText(1, "Hi", None)], Completed)
  {
    assert MenuConfig.buttons["Menu"] == Single(TextOnly("Hi"));
    TextOnlyResponse(1, "Hi", fileExists);
  }

  /** `/start` dispatches to its configured entry, or to nothing at all when unconfigured. */
  lemma DispatchStart(cfg: BotConfig, chat: int, fileExists: string -> bool)
    ensures Dispatch(Registration, cfg, TextMessage(chat, "/start"), fileExists) == Start(cfg, chat, fileExists)
    ensures "/start" !in cfg.commands ==> Dispatch(Registration, cfg, TextMessage(chat, "/start"), fileExists).actions == []
  {
    SelectedHandler(cfg, TextMessage(chat, "/start"));
  }

  /** `/help` dispatches to its configured entry, or to the single fixed text when unconfigured. */
  lemma DispatchHelp(cfg: BotConfig, chat: int, fileExists: string -> bool)
    ensures Dispatch(Registration, cfg, TextMessage(chat, "/help"), fileExists) == Help(cfg, chat, fileExists)
    ensures "/help" !in cfg.commands ==>
              Dispatch(Registration, cfg, TextMessage(chat, "/help"), fileExists).actions == [SendText(chat, HelpNotConfigured, None)]
  {
    SelectedHandler(cfg, TextMessage(chat, "/help"));
  }

  /**
   * A callback on a button key runs `handle_inline_buttons`, and ends with exactly
   * one answer unless its entry raised; an unknown key does nothing.
   */
  lemma DispatchCallback(cfg: BotConfig, chat: int, data: string, fileExists: string -> bool)
    ensures var r := Dispatch(Registration, cfg, CallbackQuery(chat, data), fileExists);
            && (data !in cfg.buttons ==> r == Run([], Completed))
            && (data in cfg.buttons && r.outcome.Completed? ==>
                  AnswerCount(r.actions) == 1 && r.actions[|r.actions| - 1] == Answer)
            && (data in cfg.buttons && IsUrlButton(cfg.buttons[data]) ==> r.actions == [Answer])
            && (data in cfg.buttons ==> r == InlineButtons(cfg, chat, data, fileExists))
  {
    SelectedHandler(cfg, CallbackQuery(chat, data));
  }

  /** The registration order the reply-button handler needs: the catch-all last. */
  const IntendedRegistration: seq<Handler> := [CmdStart, CmdHelp, HandleReplyButtons, HandleInlineButtons, HandleUnknown]

  /** With the catch-all last, a button label runs the button's configured entry. */
  lemma IntendedButtonLabelReachesButtons(cfg: BotConfig, chat: int, key: string, fileExists: string -> bool)
    requires key in cfg.buttons && key != "/start" && key != "/help"
    ensures Dispatch(IntendedRegistration, cfg, TextMessage(chat, key), fileExists)
            == ProcessCommand(chat, cfg.buttons[key], fileExists)
  {
    var ev := TextMessage(chat, key);
    assert Matches(IntendedRegistration[2], cfg, ev);
    assert !Matches(IntendedRegistration[0], cfg, ev) && !Matches(IntendedRegistration[1], cfg, ev);
    assert FirstMatch(IntendedRegistration, cfg, ev) == Some(2);
  }

  /** Moving the catch-all last changes nothing for events other than button labels. */
  lemma IntendedAgreesElsewhere(cfg: BotConfig, ev: Event, fileExists: string -> bool)
    requires !(ev.TextMessage? && ev.text in cfg.buttons && ev.text != "/start" && ev.text != "/help")
    ensures Dispatch(IntendedRegistration, cfg, ev, fileExists) == Dispatch(Registration, cfg, ev, fileExists)
  {
    SelectedHandler(cfg, ev);
    if ev.TextMessage? {
      if ev.text == "/start" {
        assert Matches(IntendedRegistration[0], cfg, ev);
      } else if ev.text == "/help" {
        assert Matches(IntendedRegistration[1], cfg, ev);
      } else {
        assert Matches(IntendedRegistration[4], cfg, ev);
      }
    } else if ev.data in cfg.buttons {
      assert Matches(IntendedRegistration[3], cfg, ev);
    }
  }
}

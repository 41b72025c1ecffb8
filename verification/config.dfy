/**
 * The bot's configuration after YAML parsing. A key that is absent from a YAML
 * mapping is `None`; a present key holds `Some(value)`.
 */
module Config {
  import opened Wrappers

  /** The `KeyError` raised when a mapping lacks a key the bot reads with `[...]`. */
  datatype ConfigError = MissingKey(key: string)

  /**
   * One entry of an `inline_buttons` list: a plain string label, or a mapping
   * that may hold `text` and `url`.
   */
  datatype InlineSpec =
    | Label(title: string)
    | Mapping(text: Option<string>, url: Option<string>)
  {
    /** Reading this entry does not raise: a mapping with `url` also has `text`. */
    predicate WellFormed() {
      !(Mapping? && url.Some? && text.None?)
    }

    /** This entry turns into a keyboard row (a plain label, or a mapping with `url`). */
    predicate ContributesRow() {
      Label? || url.Some?
    }
  }

  /**
   * One message record. Durations are whole seconds; a present `inline_buttons`
   * or `reply_buttons` key whose value is null behaves like an empty list and is
   * written `Some([])`. `url` is only read when the record is a button's target.
   */
  datatype MessageConfig = MessageConfig(
    backup: Option<nat>,
    backupPrint: Option<nat>,
    text: Option<string>,
    image: Option<string>,
    inlineButtons: Option<seq<InlineSpec>>,
    replyButtons: Option<seq<string>>,
    url: Option<string>)

  /** The record `{}`. */
  const EmptyMessage: MessageConfig := MessageConfig(None, None, None, None, None, None, None)

  /** The record `{"text": t}`. */
  function TextOnly(t: string): MessageConfig {
    EmptyMessage.(text := Some(t))
  }

  /** A command or button target: one record, or a YAML list of records sent one after another. */
  datatype Entry = Single(message: MessageConfig) | Sequence(messages: seq<MessageConfig>)

  /**
   * The parts of `config.yml` the handlers read: `commands` (required),
   * `buttons` (an absent key is the empty map) and `unknown_message`.
   */
  datatype BotConfig = BotConfig(
    commands: map<string, Entry>,
    buttons: map<string, Entry>,
    unknownMessage: Option<MessageConfig>)
}

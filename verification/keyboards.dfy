/** The keyboards a message record asks for: `get_reply_keyboard`, `get_inline_keyboard` and the choice between them. */
module Keyboards {
  import opened Wrappers
  import opened Config

  /** An inline button: a callback button, or a link button. */
  datatype InlineButton =
    | CallbackButton(text: string, callbackData: string)
    | UrlButton(text: string, url: string)

  /** `ReplyKeyboardMarkup` (rows of labels) or `InlineKeyboardMarkup` (rows of inline buttons). */
  datatype Keyboard =
    | ReplyMarkup(keyboard: seq<seq<string>>, resizeKeyboard: bool, oneTimeKeyboard: bool)
    | InlineMarkup(inlineKeyboard: seq<seq<InlineButton>>)

  /** One row per label, holding a single button with that label. */
  function ReplyRows(labels: seq<string>): (rows: seq<seq<string>>)
    ensures |rows| == |labels|
    ensures forall i :: 0 <= i < |labels| ==> rows[i] == [labels[i]]
  {
    if labels == [] then [] else [[labels[0]]] + ReplyRows(labels[1..])
  }

  /** `get_reply_keyboard`: no keyboard for an empty list, otherwise one single-button row per label. */
  function ReplyKeyboard(buttons: seq<string>): (r: Option<Keyboard>)
    ensures r.None? <==> buttons == []
    ensures r.Some? ==> r.value.ReplyMarkup? && r.value.resizeKeyboard && r.value.oneTimeKeyboard
    ensures r.Some? ==> |r.value.keyboard| == |buttons|
    ensures r.Some? ==> forall i :: 0 <= i < |buttons| ==> r.value.keyboard[i] == [buttons[i]]
  {
    if buttons == [] then None else Some(ReplyMarkup(ReplyRows(buttons), true, true))
  }

  /** The labels of a reply keyboard, read row by row, left to right. */
  function ReplyLabels(rows: seq<seq<string>>): seq<string> {
    if rows == [] then [] else rows[0] + ReplyLabels(rows[1..])
  }

  /** Reading a reply keyboard back gives exactly the configured labels, in order. */
  lemma {:induction false} ReplyRowsRoundTrip(labels: seq<string>)
    ensures ReplyLabels(ReplyRows(labels)) == labels
  {
    if labels != [] {
      assert ReplyRows(labels)[1..] == ReplyRows(labels[1..]);
      ReplyRowsRoundTrip(labels[1..]);
    }
  }

  /** A non-empty label list yields a keyboard that shows exactly those labels, in input order. */
  lemma ReplyKeyboardRoundTrip(buttons: seq<string>)
    ensures buttons != [] ==> ReplyKeyboard(buttons).Some? && ReplyLabels(ReplyKeyboard(buttons).value.keyboard) == buttons
  {
    ReplyRowsRoundTrip(buttons);
  }

  /** The rows one `inline_buttons` entry contributes, or the `KeyError` reading it raises. */
  function InlineEntryRows(spec: InlineSpec): (r: Result<seq<seq<InlineButton>>, ConfigError>)
    ensures r.Success? <==> spec.WellFormed()
    ensures r.Failure? ==> r.error == MissingKey("text")
    ensures r.Success? ==> (|r.value| == 1 <==> spec.ContributesRow()) && |r.value| <= 1
    ensures r.Success? && |r.value| == 1 ==> |r.value[0]| == 1
  {
    match spec
    case Label(l) => Success([[CallbackButton(l, l)]])
    case Mapping(text, url) =>
      if url.None? then Success([])
      else if text.None? then Failure(MissingKey("text"))
      else Success([[UrlButton(text.value, url.value)]])
  }

  /** The rows built from an `inline_buttons` list, in input order; the first malformed entry aborts. */
  function InlineRows(specs: seq<InlineSpec>): (r: Result<seq<seq<InlineButton>>, ConfigError>)
    ensures r.Success? <==> forall i :: 0 <= i < |specs| ==> specs[i].WellFormed()
    ensures r.Failure? ==> r.error == MissingKey("text")
    ensures r.Success? ==> |r.value| <= |specs|
    ensures r.Success? ==> forall k :: 0 <= k < |r.value| ==> |r.value[k]| == 1
  {
    if specs == [] then Success([])
    else
      var head := InlineEntryRows(specs[0]);
      var tail := InlineRows(specs[1..]);
      if head.Failure? then head
      else if tail.Failure? then tail
      else Success(head.value + tail.value)
  }

  /** Mappings without `url` add no row, so a list made only of them gives no rows at all. */
  lemma {:induction false} InlineRowsNoContribution(specs: seq<InlineSpec>)
    requires forall i :: 0 <= i < |specs| ==> !specs[i].ContributesRow()
    ensures InlineRows(specs) == Success([])
  {
    if specs != [] {
      InlineRowsNoContribution(specs[1..]);
    }
  }

  /** When every entry contributes a row, there is exactly one row per entry. */
  lemma {:induction false} InlineRowsAllContribute(specs: seq<InlineSpec>)
    requires forall i :: 0 <= i < |specs| ==> specs[i].ContributesRow() && specs[i].WellFormed()
    ensures InlineRows(specs).Success? && |InlineRows(specs).value| == |specs|
  {
    if specs != [] {
      InlineRowsAllContribute(specs[1..]);
    }
  }

  /** Plain labels become callback buttons whose text and callback data are both the label, in input order. */
  lemma {:induction false} InlineRowsPlainLabels(specs: seq<InlineSpec>)
    requires forall i :: 0 <= i < |specs| ==> specs[i].Label?
    ensures InlineRows(specs).Success?
    ensures |InlineRows(specs).value| == |specs|
    ensures forall i :: 0 <= i < |specs| ==>
              InlineRows(specs).value[i] == [CallbackButton(specs[i].title, specs[i].title)]
  {
    if specs != [] {
      InlineRowsPlainLabels(specs[1..]);
    }
  }

  /** What each kind of `inline_buttons` entry contributes on its own. */
  lemma InlineRowsSingle(spec: InlineSpec)
    ensures spec.Label? ==> InlineRows([spec]) == Success([[CallbackButton(spec.title, spec.title)]])
    ensures spec.Mapping? && spec.url.Some? && spec.text.Some? ==>
              InlineRows([spec]) == Success([[UrlButton(spec.text.value, spec.url.value)]])
    ensures spec.Mapping? && spec.url.None? ==> InlineRows([spec]) == Success([])
    ensures spec.Mapping? && spec.url.Some? && spec.text.None? ==> InlineRows([spec]) == Failure(MissingKey("text"))
  {
    assert [spec][1..] == [];
    assert InlineRows([]) == Success([]);
    var head := InlineEntryRows(spec);
    if head.Success? {
      assert head.value + [] == head.value;
    }
  }

  /** Row order follows entry order: the rows of `a + b` are the rows of `a` followed by those of `b`. */
  lemma {:induction false} InlineRowsAppend(a: seq<InlineSpec>, b: seq<InlineSpec>)
    ensures InlineRows(a + b) ==
      match InlineRows(a)
      case Failure(e) => Failure(e)
      case Success(x) =>
        match InlineRows(b)
        case Failure(e) => Failure(e)
        case Success(y) => Success(x + y)
  {
    if a == [] {
      assert a + b == b;
      assert InlineRows(a) == Success([]);
      if InlineRows(b).Success? {
        assert [] + InlineRows(b).value == InlineRows(b).value;
      }
    } else {
      assert (a + b)[0] == a[0];
      assert (a + b)[1..] == a[1..] + b;
      InlineRowsAppend(a[1..], b);
      var head := InlineEntryRows(a[0]);
      var rest := InlineRows(a[1..]);
      var right := InlineRows(b);
      if head.Success? && rest.Success? && right.Success? {
        assert head.value + (rest.value + right.value) == (head.value + rest.value) + right.value;
      }
    }
  }

  /**
   * `get_inline_keyboard`: no keyboard for an empty list; otherwise an inline
   * keyboard holding exactly the rows `InlineRows` builds, even when there are none.
   */
  function InlineKeyboard(buttons: seq<InlineSpec>): (r: Result<Option<Keyboard>, ConfigError>)
    ensures buttons == [] ==> r == Success(None)
    ensures r.Success? <==> forall i :: 0 <= i < |buttons| ==> buttons[i].WellFormed()
    ensures r.Failure? ==> r.error == MissingKey("text")
    ensures buttons != [] && r.Success? ==>
              r.value.Some? && r.value.value.InlineMarkup? && r.value.value.inlineKeyboard == InlineRows(buttons).value
  {
    if buttons == [] then Success(None)
    else
      match InlineRows(buttons)
      case Failure(e) => Failure(e)
      case Success(rows) => Success(Some(InlineMarkup(rows)))
  }

  /** A non-empty list in which no entry has `url` still gives an inline keyboard, one with no rows. */
  lemma InlineKeyboardNoRows(buttons: seq<InlineSpec>)
    requires buttons != []
    requires forall i :: 0 <= i < |buttons| ==> !buttons[i].ContributesRow()
    ensures InlineKeyboard(buttons) == Success(Some(InlineMarkup([])))
  {
    InlineRowsNoContribution(buttons);
  }

  /** A non-empty list of plain labels gives one callback button per label, in order. */
  lemma InlineKeyboardPlainLabels(buttons: seq<InlineSpec>)
    requires buttons != []
    requires forall i :: 0 <= i < |buttons| ==> buttons[i].Label?
    ensures InlineKeyboard(buttons).Success? && InlineKeyboard(buttons).value.Some?
    ensures var rows := InlineKeyboard(buttons).value.value.inlineKeyboard;
            |rows| == |buttons| &&
            forall i :: 0 <= i < |buttons| ==> rows[i] == [CallbackButton(buttons[i].title, buttons[i].title)]
  {
    InlineRowsPlainLabels(buttons);
  }

  /**
   * The keyboard of a message record. A present `inline_buttons` key wins over
   * `reply_buttons`, even when its list is empty.
   */
  function ChooseKeyboard(m: MessageConfig): (r: Result<Option<Keyboard>, ConfigError>)
    ensures r.Failure? ==> m.inlineButtons.Some?
    ensures m.inlineButtons.Some? ==> r == InlineKeyboard(m.inlineButtons.value)
    ensures m.inlineButtons == Some([]) ==> r == Success(None)
    ensures m.inlineButtons.Some? && r.Success? && r.value.Some? ==> r.value.value.InlineMarkup?
    ensures r.Success? && r.value.Some? && r.value.value.ReplyMarkup? ==> m.inlineButtons.None?
    ensures m.inlineButtons.None? ==>
              r.Success? && (r.value.Some? <==> m.replyButtons.Some? && m.replyButtons.value != [])
    ensures m.inlineButtons.None? && m.replyButtons.Some? ==> r == Success(ReplyKeyboard(m.replyButtons.value))
    ensures m.inlineButtons.None? && m.replyButtons.Some? && m.replyButtons.value != [] ==>
              r.value.value.ReplyMarkup? && ReplyLabels(r.value.value.keyboard) == m.replyButtons.value
  {
    if m.inlineButtons.Some? then InlineKeyboard(m.inlineButtons.value)
    else if m.replyButtons.Some? then
      ReplyKeyboardRoundTrip(m.replyButtons.value);
      Success(ReplyKeyboard(m.replyButtons.value))
    else Success(None)
  }
}

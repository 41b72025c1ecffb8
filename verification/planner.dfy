/**
 * `send_response` and `process_command` as planners: instead of awaiting bot
 * calls they return the calls they would make, in order, as `Action` tokens.
 */
module Planner {
  import opened Wrappers
  import opened Config
  import opened PyText
  import opened Keyboards

  /** One outbound call to the chat platform. */
  datatype Action =
    | Sleep(seconds: nat)
    | Typing(chat: int)
    | SendPhoto(chat: int, path: string, caption: string, markup: Option<Keyboard>)
    | SendText(chat: int, text: string, markup: Option<Keyboard>)
    | Answer
  {
    /** The action delivers a message to the chat. */
    predicate IsSend() {
      SendPhoto? || SendText?
    }
  }

  /** How a handler ended: normally, or with an exception that skipped the rest of it. */
  datatype Outcome = Completed | Raised(error: ConfigError)

  /** The actions performed, in order, and how the run ended. */
  datatype Run = Run(actions: seq<Action>, outcome: Outcome)

  /** Runs `first`, then `next` unless `first` raised. */
  function Then(first: Run, next: Run): Run {
    if first.outcome.Raised? then first else Run(first.actions + next.actions, next.outcome)
  }

  /** Number of message deliveries in a list of actions. */
  function SendCount(actions: seq<Action>): nat {
    if actions == [] then 0 else (if actions[0].IsSend() then 1 else 0) + SendCount(actions[1..])
  }

  /** Number of callback answers in a list of actions. */
  function AnswerCount(actions: seq<Action>): nat {
    if actions == [] then 0 else (if actions[0].Answer? then 1 else 0) + AnswerCount(actions[1..])
  }

  /** Counting distributes over concatenation. */
  lemma {:induction false} CountsAppend(a: seq<Action>, b: seq<Action>)
    ensures SendCount(a + b) == SendCount(a) + SendCount(b)
    ensures AnswerCount(a + b) == AnswerCount(a) + AnswerCount(b)
  {
    if a == [] {
      assert a + b == b;
    } else {
      assert (a + b)[0] == a[0];
      assert (a + b)[1..] == a[1..] + b;
      CountsAppend(a[1..], b);
    }
  }

  /** A list of actions with no delivery and no answer has count zero for both. */
  lemma {:induction false} CountsZero(actions: seq<Action>)
    requires forall i :: 0 <= i < |actions| ==> !actions[i].IsSend() && !actions[i].Answer?
    ensures SendCount(actions) == 0 && AnswerCount(actions) == 0
  {
    if actions != [] {
      CountsZero(actions[1..]);
    }
  }

  /**
   * The pacing prefix of a record: a silent sleep for `backup`, then the typing
   * indicator followed by a sleep for `backup_print`. It never delivers or answers.
   */
  function Pacing(chat: int, m: MessageConfig): (p: seq<Action>)
    ensures forall i :: 0 <= i < |p| ==> !p[i].IsSend() && !p[i].Answer?
    ensures |p| == (if m.backup.Some? then 1 else 0) + (if m.backupPrint.Some? then 2 else 0)
    ensures m.backup.Some? ==> p[0] == Sleep(m.backup.value)
    ensures m.backupPrint.Some? ==> p[|p| - 2] == Typing(chat) && p[|p| - 1] == Sleep(m.backupPrint.value)
  {
    (if m.backup.Some? then [Sleep(m.backup.value)] else [])
    + (if m.backupPrint.Some? then [Typing(chat), Sleep(m.backupPrint.value)] else [])
  }

  /** The record names an image and the file exists, so a photo is sent. */
  predicate ShowsImage(m: MessageConfig, fileExists: string -> bool) {
    m.image.Some? && fileExists(m.image.value)
  }

  /** The record's text after `str.strip()`; a missing `text` key reads as "". */
  function MessageText(m: MessageConfig): string {
    Strip(m.text.GetOr(""))
  }

  /**
   * A completed run that performs `pacing` and then the single delivery `send`.
   * It only helps the proof of `SendResponse` by naming the positions of that run.
   */
  function Deliver(pacing: seq<Action>, send: Action): (r: Run)
    requires send.IsSend()
    ensures r.outcome.Completed? && |r.actions| == |pacing| + 1
    ensures r.actions[..|pacing|] == pacing && r.actions[|pacing|] == send
  {
    Run(pacing + [send], Completed)
  }

  /**
   * `send_response` for one record. `fileExists` stands for `os.path.exists`.
   * The plan is the pacing prefix followed by at most one delivery; a keyboard
   * that cannot be built raises after the pacing and delivers nothing.
   */
  function SendResponse(chat: int, m: MessageConfig, fileExists: string -> bool): (r: Run)
    ensures |Pacing(chat, m)| <= |r.actions| <= |Pacing(chat, m)| + 1
    ensures r.actions[..|Pacing(chat, m)|] == Pacing(chat, m)
    ensures |r.actions| > |Pacing(chat, m)| ==> r.actions[|r.actions| - 1].IsSend()
    ensures forall i :: 0 <= i < |r.actions| ==> !r.actions[i].Answer?
    ensures r.outcome.Completed? <==> ChooseKeyboard(m).Success?
    ensures r.outcome.Raised? ==> r.actions == Pacing(chat, m) && r.outcome.error == ChooseKeyboard(m).error
  {
    var pacing := Pacing(chat, m);
    var text := MessageText(m);
    match ChooseKeyboard(m)
    case Failure(e) => Run(pacing, Raised(e))
    case Success(markup) =>
      if ShowsImage(m, fileExists) then
        Deliver(pacing, SendPhoto(chat, m.image.value, text, markup))
      else if text != [] then
        Deliver(pacing, SendText(chat, text, markup))
      else
        Run(pacing, Completed)
  }

  /**
   * Which delivery a completed record makes: a photo captioned with the stripped
   * text (possibly empty) when the image exists; otherwise the stripped text when
   * it is not blank; otherwise nothing.
   */
  lemma SendDecision(chat: int, m: MessageConfig, fileExists: string -> bool)
    requires ChooseKeyboard(m).Success?
    ensures var r := SendResponse(chat, m, fileExists);
            var p := Pacing(chat, m);
            var markup := ChooseKeyboard(m).value;
            && (ShowsImage(m, fileExists) ==>
                  r.actions == p + [SendPhoto(chat, m.image.value, MessageText(m), markup)])
            && (!ShowsImage(m, fileExists) && !AllSpace(m.text.GetOr("")) ==>
                  r.actions == p + [SendText(chat, MessageText(m), markup)])
            && (!ShowsImage(m, fileExists) && AllSpace(m.text.GetOr("")) ==> r.actions == p)
  {
  }

  /** A record holding only a non-blank, already stripped text sends exactly that text with no keyboard. */
  lemma TextOnlyResponse(chat: int, t: string, fileExists: string -> bool)
    requires t != [] && Trimmed(t)
    ensures SendResponse(chat, TextOnly(t), fileExists) == Run([SendText(chat, t, None)], Completed)
  {
    StripTrimmed(t);
  }

  /** A delivered text message is never blank and carries no surrounding whitespace. */
  lemma SentTextIsStripped(chat: int, m: MessageConfig, fileExists: string -> bool, i: nat)
    requires i < |SendResponse(chat, m, fileExists).actions|
    requires SendResponse(chat, m, fileExists).actions[i].SendText?
    ensures SendResponse(chat, m, fileExists).actions[i].text != []
    ensures Trimmed(SendResponse(chat, m, fileExists).actions[i].text)
  {
    var r := SendResponse(chat, m, fileExists);
    var p := Pacing(chat, m);
    assert i == |p| && |r.actions| == |p| + 1;
    assert r.actions[i].text == MessageText(m);
  }

  /** A record delivers at most once, and exactly once iff its image exists or its text is not blank. */
  lemma SendResponseDelivers(chat: int, m: MessageConfig, fileExists: string -> bool)
    ensures SendCount(SendResponse(chat, m, fileExists).actions) <= 1
    ensures SendResponse(chat, m, fileExists).outcome.Completed? ==>
              (SendCount(SendResponse(chat, m, fileExists).actions) == 1
               <==> ShowsImage(m, fileExists) || !AllSpace(m.text.GetOr("")))
    ensures AnswerCount(SendResponse(chat, m, fileExists).actions) == 0
  {
    var p := Pacing(chat, m);
    CountsZero(p);
    match ChooseKeyboard(m)
    case Failure(_) =>
    case Success(markup) =>
      var text := MessageText(m);
      if ShowsImage(m, fileExists) {
        SingleDelivery(p, SendPhoto(chat, m.image.value, text, markup));
      } else if text != [] {
        SingleDelivery(p, SendText(chat, text, markup));
      }
  }

  /** Appending one delivery to a prefix without deliveries or answers gives exactly one delivery. */
  lemma SingleDelivery(p: seq<Action>, a: Action)
    requires SendCount(p) == 0 && AnswerCount(p) == 0
    requires a.IsSend()
    ensures SendCount(p + [a]) == 1 && AnswerCount(p + [a]) == 0
  {
    CountsAppend(p, [a]);
    assert [a][1..] == [];
  }

  /** Every record's keyboard can be built, so none of them raises. */
  predicate AllKeyboardsBuild(ms: seq<MessageConfig>) {
    forall i :: 0 <= i < |ms| ==> ChooseKeyboard(ms[i]).Success?
  }

  /** A non-empty list builds all keyboards iff its head does and its tail does. */
  lemma AllKeyboardsBuildCons(ms: seq<MessageConfig>)
    requires ms != []
    ensures AllKeyboardsBuild(ms) <==> ChooseKeyboard(ms[0]).Success? && AllKeyboardsBuild(ms[1..])
  {
    if ChooseKeyboard(ms[0]).Success? && AllKeyboardsBuild(ms[1..]) {
      forall i | 0 <= i < |ms| ensures ChooseKeyboard(ms[i]).Success? {
        if i > 0 { assert ms[i] == ms[1..][i - 1]; }
      }
    }
  }

  /**
   * The records of a YAML list, one `SendResponse` after another; a record that
   * raises stops the remaining ones.
   */
  function SendAll(chat: int, ms: seq<MessageConfig>, fileExists: string -> bool): (r: Run)
    ensures r.outcome.Completed? <==> AllKeyboardsBuild(ms)
    ensures SendCount(r.actions) <= |ms|
    ensures AnswerCount(r.actions) == 0
    decreases |ms|
  {
    if ms == [] then Run([], Completed)
    else
      var first := SendResponse(chat, ms[0], fileExists);
      var rest := SendAll(chat, ms[1..], fileExists);
      SendResponseDelivers(chat, ms[0], fileExists);
      CountsAppend(first.actions, rest.actions);
      AllKeyboardsBuildCons(ms);
      Then(first, rest)
  }

  /** The records an entry sends, in order: the record itself, or the list. */
  function Records(entry: Entry): seq<MessageConfig> {
    match entry
    case Single(m) => [m]
    case Sequence(ms) => ms
  }

  /**
   * `process_command`: a list entry runs its records in order, a single record
   * runs once. It completes iff every record's keyboard can be built, delivers
   * at most once per record and never answers a callback.
   */
  function ProcessCommand(chat: int, entry: Entry, fileExists: string -> bool): (r: Run)
    ensures r.outcome.Completed? <==> AllKeyboardsBuild(Records(entry))
    ensures SendCount(r.actions) <= |Records(entry)|
    ensures AnswerCount(r.actions) == 0
  {
    match entry
    case Single(m) =>
      assert Records(entry) == [m];
      assert AllKeyboardsBuild([m]) <==> ChooseKeyboard(m).Success? by {
        assert [m][0] == m;
      }
      SendResponseDelivers(chat, m, fileExists);
      SendResponse(chat, m, fileExists)
    case Sequence(ms) =>
      assert Records(entry) == ms;
      SendAll(chat, ms, fileExists)
  }

  /** Sequencing runs is associative. */
  lemma ThenAssociative(a: Run, b: Run, c: Run)
    ensures Then(Then(a, b), c) == Then(a, Then(b, c))
  {
    if a.outcome.Completed? && b.outcome.Completed? {
      assert (a.actions + b.actions) + c.actions == a.actions + (b.actions + c.actions);
    }
  }

  /** The plan of the list `a + b` is the plan of `a` followed, unless it raised, by the plan of `b`. */
  lemma {:induction false} SendAllAppend(chat: int, a: seq<MessageConfig>, b: seq<MessageConfig>, fileExists: string -> bool)
    ensures SendAll(chat, a + b, fileExists) == Then(SendAll(chat, a, fileExists), SendAll(chat, b, fileExists))
  {
    if a == [] {
      assert a + b == b;
    } else {
      assert (a + b)[0] == a[0];
      assert (a + b)[1..] == a[1..] + b;
      SendAllAppend(chat, a[1..], b, fileExists);
      ThenAssociative(SendResponse(chat, a[0], fileExists), SendAll(chat, a[1..], fileExists), SendAll(chat, b, fileExists));
    }
  }

  /** A one-element list plans exactly what the bare record plans, so every entry is the list of its records. */
  lemma SingletonSequence(chat: int, m: MessageConfig, fileExists: string -> bool)
    ensures ProcessCommand(chat, Sequence([m]), fileExists) == ProcessCommand(chat, Single(m), fileExists)
  {
    assert [m][1..] == [];
    assert SendAll(chat, [], fileExists) == Run([], Completed);
    var r := SendResponse(chat, m, fileExists);
    assert r.actions + [] == r.actions;
  }

  /** Any entry plans what the list of its records plans. */
  lemma ProcessCommandIsSendAll(chat: int, entry: Entry, fileExists: string -> bool)
    ensures ProcessCommand(chat, entry, fileExists) == SendAll(chat, Records(entry), fileExists)
  {
    if entry.Single? {
      SingletonSequence(chat, entry.message, fileExists);
    }
  }

  /**
   * When no record raises, the plan of a list is the in-order concatenation of
   * the plans of its records: appending a record appends its plan.
   */
  lemma SendAllSnoc(chat: int, ms: seq<MessageConfig>, m: MessageConfig, fileExists: string -> bool)
    requires AllKeyboardsBuild(ms)
    ensures SendAll(chat, ms + [m], fileExists).actions
            == SendAll(chat, ms, fileExists).actions + SendResponse(chat, m, fileExists).actions
  {
    SendAllAppend(chat, ms, [m], fileExists);
    SingletonSequence(chat, m, fileExists);
  }
}

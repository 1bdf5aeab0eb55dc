/**
 * The interactive built-ins `ask`, `confirm`, `login` and `survey`. Each asks questions
 * through the prompt function a caller hands over; the person at the prompt is the
 * `Responder` oracle, and a typed answer is settled by the prompt manager with the
 * command's own validator.
 */
module PromptCommands {
  import opened Wrappers
  import opened Strings
  import opened Shell
  import PM = PromptManager

  /** The validators the commands pass in their prompt options. */
  datatype Check = ConfirmAnswer | Username | Password | Experience

  const ConfirmHint := "Please answer with y/n or yes/no"
  const UsernameEmpty := "Username cannot be empty"
  const UsernameShort := "Username must be at least 3 characters"
  const PasswordShort := "Password must be at least 6 characters"
  const ExperienceRange := "Please enter a number between 1 and 10"
  const Cancelled := "Prompt cancelled"
  const NoPrompt := "Error: Prompt not available\n"

  /** `input.toLowerCase().trim()`. */
  function Normalized(input: string): string {
    Trim(ToLower(input))
  }

  /** The answers `confirm` accepts once normalised. */
  predicate IsYesNo(n: string) {
    n == "y" || n == "n" || n == "yes" || n == "no" || n == ""
  }

  /** Running a validator on an input: true becomes Accept, a string becomes its message. */
  function Apply(c: Check, input: string): PM.Verdict {
    match c
    case ConfirmAnswer => if IsYesNo(Normalized(input)) then PM.Accept else PM.Message(ConfirmHint)
    case Username =>
      if Trim(input) == "" then PM.Message(UsernameEmpty)
      else if Utf16Length(input) < 3 then PM.Message(UsernameShort)
      else PM.Accept
    case Password =>
      if input == "" || Utf16Length(input) < 6 then PM.Message(PasswordShort) else PM.Accept
    case Experience =>
      match ParseInt(input)
      case None => PM.Message(ExperienceRange)
      case Some(n) => if n < 1 || n > 10 then PM.Message(ExperienceRange) else PM.Accept
  }

  /** How the k-th prompt of a run settles: the request goes into the manager's empty slot;
      a typed answer is passed to `respond`, the cancel key to `cancel`, and a refused prompt
      rejects with its own message. */
  function Settle(resp: Responder, k: nat, o: PM.PromptOptions<Check>): (s: PM.Settlement)
    ensures resp(k, o.message).Cancelled? ==> s == PM.Rejected(Cancelled)
    ensures resp(k, o.message).Failed? ==> s == PM.Rejected(resp(k, o.message).message)
    ensures resp(k, o.message).Typed? ==>
      var v := resp(k, o.message).value;
      && (s.Resolved? <==> o.validate.None? || Apply(o.validate.value, v) == PM.Accept)
      && (s.Resolved? ==> s.value == v)
      && (o.validate.Some? && Apply(o.validate.value, v).Message? ==> s == PM.Rejected(Apply(o.validate.value, v).text))
  {
    var pending := PM.Prompt(PM.Manager(None, true), o, "").0;
    match resp(k, o.message)
    case Typed(v) =>
      (match PM.Respond(pending, v, Apply)
       case Ok((_, s)) => s
       case Err(e) => PM.Rejected(e))
    case Cancelled =>
      (match PM.Cancel(pending).1
       case Some(s) => s
       case None => PM.Rejected(Cancelled))
    case Failed(message) => PM.Rejected(message)
  }

  /** The shared catch block: a cancelled prompt exits 130 with the command's own notice,
      any other rejection prints its message and exits 1. */
  function Caught(message: string, notice: string): (r: (int, string))
    ensures r.0 == 130 <==> message == Cancelled
    ensures r.0 == 130 || r.0 == 1
    ensures message != Cancelled ==> r.1 == "\nError: " + message + "\n"
  {
    if message == Cancelled then (130, "\n" + notice + "\n") else (1, "\nError: " + message + "\n")
  }

  function Plain(message: string): PM.PromptOptions<Check> {
    PM.PromptOptions(message, None, false, None)
  }

  // ---------------------------------------------------------------------------
  // ask

  const AskUsage := "Usage: ask <question>\n" + "Example: ask \"What is your favorite color?\"\n"

  /** `ask.execute`: one question, the arguments joined by spaces, no validator. */
  function Ask(inv: Invocation): (r: Outcome)
    ensures r.fs == inv.fs && r.env == inv.env && r.aliases == inv.extras.aliases && r.output == ""
    ensures inv.extras.prompt.None? ==> r.exitCode == 1 && r.stdout == NoPrompt
    ensures inv.extras.prompt.Some? && |inv.args| == 0 ==> r.exitCode == 1 && r.stdout == AskUsage
    ensures r.exitCode in {0, 1, 130}
  {
    match inv.extras.prompt
    case None => Finish(inv, 1, NoPrompt)
    case Some(resp) =>
      if |inv.args| == 0 then Finish(inv, 1, AskUsage)
      else
        match Settle(resp, 0, Plain(Join(inv.args, " ")))
        case Resolved(answer) => Finish(inv, 0, "\nYou answered: " + answer + "\n")
        case Rejected(message) =>
          var (code, text) := Caught(message, "Question cancelled.");
          Finish(inv, code, text)
  }

  /** Whatever is typed is echoed back verbatim; the question is the joined arguments. */
  lemma AskEchoes(inv: Invocation, answer: string)
    requires inv.extras.prompt.Some? && |inv.args| > 0
    requires inv.extras.prompt.value(0, Join(inv.args, " ")) == Typed(answer)
    ensures Ask(inv).exitCode == 0 && Ask(inv).stdout == "\nYou answered: " + answer + "\n"
  {
  }

  // ---------------------------------------------------------------------------
  // confirm

  const ConfirmUsage := "Usage: confirm <message>\n" + "Example: confirm \"Do you want to continue?\"\n"

  function ConfirmOptions(args: seq<string>): PM.PromptOptions<Check> {
    PM.PromptOptions(Join(args, " ") + " (Y/n)", Some("y"), false, Some(ConfirmAnswer))
  }

  /** `confirm.execute`. */
  function Confirm(inv: Invocation): (r: Outcome)
    ensures r.fs == inv.fs && r.env == inv.env && r.aliases == inv.extras.aliases && r.output == ""
    ensures inv.extras.prompt.None? ==> r.exitCode == 1 && r.stdout == NoPrompt
    ensures inv.extras.prompt.Some? && |inv.args| == 0 ==> r.exitCode == 1 && r.stdout == ConfirmUsage
    ensures r.exitCode in {0, 1, 130}
  {
    match inv.extras.prompt
    case None => Finish(inv, 1, NoPrompt)
    case Some(resp) =>
      if |inv.args| == 0 then Finish(inv, 1, ConfirmUsage)
      else
        match Settle(resp, 0, ConfirmOptions(inv.args))
        case Resolved(answer) =>
          var n := Normalized(answer);
          if n == "y" || n == "yes" then Finish(inv, 0, "Confirmed!\n") else Finish(inv, 1, "Cancelled.\n")
        case Rejected(message) =>
          var (code, text) := Caught(message, "Cancelled.");
          Finish(inv, code, text)
  }

  /** Lower-casing is idempotent. */
  lemma ToLowerTwice(s: string)
    ensures ToLower(ToLower(s)) == ToLower(s)
  {
    assert forall i :: 0 <= i < |s| ==> ToLowerChar(ToLowerChar(s[i])) == ToLowerChar(s[i]);
  }

  /** The validator ignores letter case. */
  lemma ConfirmIgnoresCase(s: string)
    ensures Apply(ConfirmAnswer, ToLower(s)) == Apply(ConfirmAnswer, s)
  {
    ToLowerTwice(s);
  }

  /** A typed answer: a normalised y or yes confirms with exit 0; n, no and the empty answer
      decline with exit 1 (the default "y" is never substituted); anything else is rejected by
      the validator and reported as an error with exit 1. */
  lemma ConfirmAnswers(inv: Invocation, answer: string)
    requires inv.extras.prompt.Some? && |inv.args| > 0
    requires inv.extras.prompt.value(0, Join(inv.args, " ") + " (Y/n)") == Typed(answer)
    ensures Confirm(inv).exitCode == 0 <==> Normalized(answer) in {"y", "yes"}
    ensures Normalized(answer) in {"n", "no", ""} ==> Confirm(inv).stdout == "Cancelled.\n"
    ensures !IsYesNo(Normalized(answer)) ==> Confirm(inv).stdout == "\nError: " + ConfirmHint + "\n"
    ensures Confirm(inv).exitCode in {0, 1}
  {
    var n := Normalized(answer);
    var s := Settle(inv.extras.prompt.value, 0, ConfirmOptions(inv.args));
    assert ConfirmOptions(inv.args).message == Join(inv.args, " ") + " (Y/n)";
    if IsYesNo(n) {
      assert s == PM.Resolved(answer);
      if n == "y" || n == "yes" {
        assert Confirm(inv) == Finish(inv, 0, "Confirmed!\n");
      } else {
        assert Confirm(inv) == Finish(inv, 1, "Cancelled.\n");
      }
    } else {
      assert s == PM.Rejected(ConfirmHint);
      assert |ConfirmHint| != |Cancelled|;
      assert Confirm(inv) == Finish(inv, 1, "\nError: " + ConfirmHint + "\n");
    }
  }

  // ---------------------------------------------------------------------------
  // login

  const UsernameQuestion := PM.PromptOptions("Username:", None, false, Some(Username))
  const PasswordQuestion := PM.PromptOptions("Password:", None, true, Some(Password))

  /** `login.execute`: the username, then the password; the first rejection ends the run. */
  function Login(inv: Invocation): (r: Outcome)
    ensures r.fs == inv.fs && r.env == inv.env && r.aliases == inv.extras.aliases && r.output == ""
    ensures inv.extras.prompt.None? ==> r.exitCode == 1 && r.stdout == NoPrompt
    ensures r.exitCode in {0, 1, 130}
  {
    match inv.extras.prompt
    case None => Finish(inv, 1, NoPrompt)
    case Some(resp) =>
      match Settle(resp, 0, UsernameQuestion)
      case Rejected(message) =>
        var (code, text) := Caught(message, "Login cancelled.");
        Finish(inv, code, text)
      case Resolved(username) =>
        match Settle(resp, 1, PasswordQuestion)
        case Rejected(message) =>
          var (code, text) := Caught(message, "Login cancelled.");
          Finish(inv, code, text)
        case Resolved(_) =>
          Finish(inv, 0, "\nAuthenticating...\n" + "\nWelcome, " + username + "!\n" + "Login successful.\n")
  }

  /** The username needs a non-blank value of at least three code units. */
  lemma UsernameRule(input: string)
    ensures Apply(Username, input) == PM.Accept <==> Trim(input) != "" && Utf16Length(input) >= 3
  {
  }

  /** The password needs at least six code units; the separate empty check is subsumed. */
  lemma PasswordRule(input: string)
    ensures Apply(Password, input) == PM.Accept <==> Utf16Length(input) >= 6
    ensures Apply(Password, input) != PM.Accept ==> Apply(Password, input) == PM.Message(PasswordShort)
  {
  }

  /** Login succeeds exactly when both answers are typed and both pass their validators, and
      then it welcomes the typed username. */
  lemma LoginSucceeds(inv: Invocation)
    requires inv.extras.prompt.Some?
    ensures var resp := inv.extras.prompt.value;
      Login(inv).exitCode == 0 <==>
        && resp(0, "Username:").Typed? && Apply(Username, resp(0, "Username:").value) == PM.Accept
        && resp(1, "Password:").Typed? && Apply(Password, resp(1, "Password:").value) == PM.Accept
    ensures var resp := inv.extras.prompt.value;
      Login(inv).exitCode == 0 ==>
        Login(inv).stdout == "\nAuthenticating...\n" + "\nWelcome, " + resp(0, "Username:").value + "!\n" + "Login successful.\n"
  {
    var resp := inv.extras.prompt.value;
    var s0 := Settle(resp, 0, UsernameQuestion);
    assert UsernameQuestion.message == "Username:";
    assert PasswordQuestion.message == "Password:";
    assert s0.Resolved? <==> resp(0, "Username:").Typed? && Apply(Username, resp(0, "Username:").value) == PM.Accept;
    if s0.Resolved? {
      var s1 := Settle(resp, 1, PasswordQuestion);
      assert s1.Resolved? <==> resp(1, "Password:").Typed? && Apply(Password, resp(1, "Password:").value) == PM.Accept;
    }
  }

  // ---------------------------------------------------------------------------
  // survey

  const SurveyIntro := "Welcome to the WCLI User Survey!\n" + "Please answer the following questions:\n\n"

  /** The four questions, in the order they are asked. */
  const Questions: seq<PM.PromptOptions<Check>> := [
    PM.PromptOptions("What is your name?", Some("Anonymous"), false, None),
    PM.PromptOptions("How would you rate your terminal experience? (1-10)", None, false, Some(Experience)),
    Plain("What is your favorite terminal command?"),
    PM.PromptOptions("Any feedback or suggestions?", Some("None"), false, None)]

  /** The results block for the four answers. */
  function SurveyResults(name: string, experience: string, favorite: string, feedback: string): string {
    "\n--- Survey Results ---\n" + "Name: " + name + "\n" + "Experience Level: " + experience + "/10\n"
    + "Favorite Command: " + favorite + "\n" + "Feedback: " + feedback + "\n"
    + "\nThank you for completing the survey!\n"
  }

  /** Asks questions k.. in order; the first rejection ends the run. */
  function AskFrom(resp: Responder, k: nat, answers: seq<string>): (r: Result<seq<string>>)
    requires k == |answers| <= |Questions|
    ensures r.Ok? ==> |r.value| == |Questions| && r.value[..k] == answers
    decreases |Questions| - k
  {
    if k == |Questions| then Ok(answers)
    else
      match Settle(resp, k, Questions[k])
      case Rejected(message) => Err(message)
      case Resolved(v) =>
        var r := AskFrom(resp, k + 1, answers + [v]);
        assert r.Ok? ==> r.value[..k] == r.value[..k + 1][..k];
        r
  }

  /** `survey.execute`: the introduction is written before the first question. */
  function Survey(inv: Invocation): (r: Outcome)
    ensures r.fs == inv.fs && r.env == inv.env && r.aliases == inv.extras.aliases && r.output == ""
    ensures inv.extras.prompt.None? ==> r.exitCode == 1 && r.stdout == NoPrompt
    ensures inv.extras.prompt.Some? ==> StartsWith(r.stdout, SurveyIntro)
    ensures r.exitCode in {0, 1, 130}
  {
    match inv.extras.prompt
    case None => Finish(inv, 1, NoPrompt)
    case Some(resp) =>
      match AskFrom(resp, 0, [])
      case Ok(a) => Finish(inv, 0, SurveyIntro + SurveyResults(a[0], a[1], a[2], a[3]))
      case Err(message) =>
        var (code, text) := Caught(message, "Survey cancelled.");
        Finish(inv, code, SurveyIntro + text)
  }

  /** A question settles well when it is answered and its validator (if any) accepts. */
  predicate Answered(resp: Responder, k: nat)
    requires k < |Questions|
  {
    var o := Questions[k];
    resp(k, o.message).Typed? && (o.validate.None? || Apply(o.validate.value, resp(k, o.message).value) == PM.Accept)
  }

  /** Asking from question k on succeeds exactly when every remaining question is answered. */
  lemma {:induction false} AskFromOk(resp: Responder, k: nat, answers: seq<string>)
    requires k == |answers| <= |Questions|
    ensures AskFrom(resp, k, answers).Ok? <==> forall j :: k <= j < |Questions| ==> Answered(resp, j)
    decreases |Questions| - k
  {
    if k < |Questions| {
      var s := Settle(resp, k, Questions[k]);
      assert s.Resolved? <==> Answered(resp, k);
      if s.Resolved? {
        AskFromOk(resp, k + 1, answers + [s.value]);
      }
    }
  }

  /** The answers asking collects are what was typed, in question order. */
  lemma {:induction false} AskFromValues(resp: Responder, k: nat, answers: seq<string>)
    requires k == |answers| <= |Questions|
    ensures var r := AskFrom(resp, k, answers);
      r.Ok? ==> forall j :: k <= j < |Questions| ==> resp(j, Questions[j].message) == Typed(r.value[j])
    decreases |Questions| - k
  {
    if k < |Questions| {
      var s := Settle(resp, k, Questions[k]);
      if s.Resolved? {
        AskFromValues(resp, k + 1, answers + [s.value]);
        var r := AskFrom(resp, k, answers);
        if r.Ok? {
          assert r.value[..k + 1] == answers + [s.value];
          assert r.value[k] == (answers + [s.value])[k];
        }
      }
    }
  }

  /** Asking from question k on succeeds exactly when every remaining question is answered,
      and the answers are what was typed, in question order. */
  lemma AskFromSpec(resp: Responder, k: nat, answers: seq<string>)
    requires k == |answers| <= |Questions|
    ensures AskFrom(resp, k, answers).Ok? <==> forall j :: k <= j < |Questions| ==> Answered(resp, j)
    ensures AskFrom(resp, k, answers).Ok? ==>
      forall j :: k <= j < |Questions| ==>
        Answered(resp, j) && AskFrom(resp, k, answers).value[j] == resp(j, Questions[j].message).value
  {
    AskFromOk(resp, k, answers);
    AskFromValues(resp, k, answers);
  }

  /** Answers to all four questions are echoed in the results block, in question order;
      one unanswered question makes the survey fail. */
  lemma SurveyEchoes(inv: Invocation)
    requires inv.extras.prompt.Some?
    ensures var resp := inv.extras.prompt.value;
      Survey(inv).exitCode == 0 <==> forall j :: 0 <= j < 4 ==> Answered(resp, j)
    ensures var resp := inv.extras.prompt.value;
      Survey(inv).exitCode == 0 ==>
        Survey(inv).stdout == SurveyIntro + SurveyResults(
          resp(0, "What is your name?").value,
          resp(1, "How would you rate your terminal experience? (1-10)").value,
          resp(2, "What is your favorite terminal command?").value,
          resp(3, "Any feedback or suggestions?").value)
  {
    var resp := inv.extras.prompt.value;
    AskFromSpec(resp, 0, []);
    assert Questions[0].message == "What is your name?";
    assert Questions[1].message == "How would you rate your terminal experience? (1-10)";
    assert Questions[2].message == "What is your favorite terminal command?";
    assert Questions[3].message == "Any feedback or suggestions?";
  }

  /** Cancelling at any question exits 130 with the introduction and the notice only. */
  lemma SurveyCancelled(inv: Invocation, k: nat)
    requires inv.extras.prompt.Some? && k < |Questions|
    requires forall j :: 0 <= j < k ==> Answered(inv.extras.prompt.value, j)
    requires inv.extras.prompt.value(k, Questions[k].message).Cancelled?
    ensures Survey(inv).exitCode == 130
    ensures Survey(inv).stdout == SurveyIntro + "\nSurvey cancelled.\n"
  {
    var resp := inv.extras.prompt.value;
    AskFromStops(resp, 0, [], k);
  }

  /** Asking stops at the first question that does not settle well, with its rejection. */
  lemma {:induction false} AskFromStops(resp: Responder, k: nat, answers: seq<string>, stop: nat)
    requires k == |answers| <= stop < |Questions|
    requires forall j :: k <= j < stop ==> Answered(resp, j)
    requires Settle(resp, stop, Questions[stop]).Rejected?
    ensures AskFrom(resp, k, answers) == Err(Settle(resp, stop, Questions[stop]).message)
    decreases stop - k
  {
    if k < stop {
      var s := Settle(resp, k, Questions[k]);
      assert Answered(resp, k);
      assert s.Resolved?;
      AskFromStops(resp, k + 1, answers + [s.value], stop);
    }
  }

  /** The numbers 1 to 10 written in decimal pass the experience check. */
  lemma ExperienceAcceptsRange(n: nat)
    requires 1 <= n <= 10
    ensures Apply(Experience, NatToString(n)) == PM.Accept
  {
    ParseIntOfNat(n);
  }

  /** The experience check accepts exactly the inputs whose `parseInt` lies in 1..10. */
  lemma ExperienceRule(input: string)
    ensures Apply(Experience, input) == PM.Accept <==> ParseInt(input).Some? && 1 <= ParseInt(input).value <= 10
  {
  }

  /** Trailing text after the digits is ignored, so "5 stars" passes. */
  lemma ExperienceIgnoresTrailing()
    ensures Apply(Experience, "5 stars") == PM.Accept
  {
    var s := "5 stars";
    assert s[0] == '5' && !IsSpace(s[0]);
    assert TrimStart(s) == s;
    assert SignFree(s) == s;
    assert s[1..] == " stars" && !IsDigit(s[1]);
    assert DigitPrefix(s[1..]) == "";
    assert DigitPrefix(s) == "5";
    assert DigitsValue("5") == 5;
  }
}

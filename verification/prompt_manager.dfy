/**
 * The single-slot prompt manager. A prompt either settles at once (rejected) or becomes the
 * active request, handed to the registered handler; `respond` and `cancel` settle the active
 * request. The validator kind `V` and the function applying it are parameters, so the
 * commands that prompt can supply their own validators.
 */
module PromptManager {
  import opened Wrappers

  /** What a validator returns: true, a message string, or any other value. */
  datatype Verdict = Accept | Message(text: string) | Refuse

  /** How a prompt's promise settles. */
  datatype Settlement = Resolved(value: string) | Rejected(message: string)

  datatype PromptOptions<V> = PromptOptions(message: string, defaultValue: Option<string>, password: bool, validate: Option<V>)

  datatype Request<V> = Request(id: string, options: PromptOptions<V>)

  /** `currentPrompt` and whether an `onPrompt` handler is registered. */
  datatype Manager<V> = Manager(current: Option<Request<V>>, hasHandler: bool)

  function Initial<V>(): Manager<V> {
    Manager(None, false)
  }

  /** A string argument is shorthand for `{ message: s }`. */
  function MessageOnly<V>(message: string): PromptOptions<V> {
    PromptOptions(message, None, false, None)
  }

  lemma MessageOnlyFields<V>(message: string, o: PromptOptions<V>)
    requires o == MessageOnly(message)
    ensures o.message == message && o.validate.None? && o.defaultValue.None? && !o.password
  {
  }

  function OnPrompt<V>(m: Manager<V>): Manager<V> {
    m.(hasHandler := true)
  }

  predicate HasActivePrompt<V>(m: Manager<V>) {
    m.current.Some?
  }

  /** `prompt`: the second component is the settlement when the promise settles immediately,
      None while the request waits for `respond` or `cancel`. `id` is the generated id. */
  function Prompt<V>(m: Manager<V>, options: PromptOptions<V>, id: string): (r: (Manager<V>, Option<Settlement>))
    ensures r.1.None? <==> !HasActivePrompt(m) && m.hasHandler
    ensures r.1.None? ==> r.0.current == Some(Request(id, options))
    ensures r.0.hasHandler == m.hasHandler
    ensures HasActivePrompt(m) ==> r == (m, Some(Rejected("Another prompt is already active")))
    ensures !HasActivePrompt(m) && !m.hasHandler ==> r == (m, Some(Rejected("No prompt handler registered")))
  {
    if m.current.Some? then (m, Some(Rejected("Another prompt is already active")))
    else if m.hasHandler then (m.(current := Some(Request(id, options))), None)
    else (m, Some(Rejected("No prompt handler registered")))
  }

  /** `respond`: settles the active request and always clears the slot. The value is resolved
      verbatim (the default is never substituted) exactly when there is no validator or it
      accepts; a message verdict rejects with that message, any other with "Invalid input". */
  function Respond<V>(m: Manager<V>, value: string, apply: (V, string) -> Verdict): (r: Result<(Manager<V>, Settlement)>)
    ensures r.Err? <==> !HasActivePrompt(m)
    ensures r.Err? ==> r.error == "No active prompt"
    ensures r.Ok? ==>
      var (m', s) := r.value;
      var validate := m.current.value.options.validate;
      && !HasActivePrompt(m') && m'.hasHandler == m.hasHandler
      && (s.Resolved? <==> validate.None? || apply(validate.value, value) == Accept)
      && (s.Resolved? ==> s.value == value)
      && (validate.Some? && apply(validate.value, value).Message? ==>
            s == Rejected(apply(validate.value, value).text))
      && (validate.Some? && apply(validate.value, value) == Refuse ==> s == Rejected("Invalid input"))
  {
    match m.current
    case None => Err("No active prompt")
    case Some(request) =>
      var cleared := m.(current := None);
      match request.options.validate
      case None => Ok((cleared, Resolved(value)))
      case Some(v) =>
        match apply(v, value)
        case Accept => Ok((cleared, Resolved(value)))
        case Message(text) => Ok((cleared, Rejected(text)))
        case Refuse => Ok((cleared, Rejected("Invalid input")))
  }

  /** `cancel`: rejects the active request; nothing happens when there is none. */
  function Cancel<V>(m: Manager<V>): (r: (Manager<V>, Option<Settlement>))
    ensures !HasActivePrompt(r.0) && r.0.hasHandler == m.hasHandler
    ensures r.1.Some? <==> HasActivePrompt(m)
    ensures !HasActivePrompt(m) ==> r.0 == m
  {
    if m.current.Some? then (m.(current := None), Some(Rejected("Prompt cancelled"))) else (m, None)
  }

  // ---------------------------------------------------------------------------

  /** One full round: after a pending prompt, a second prompt bounces, and `respond` settles the
      first request; the slot is free again afterwards. */
  lemma SingleSlot<V>(m: Manager<V>, o1: PromptOptions<V>, o2: PromptOptions<V>, id1: string, id2: string, value: string, apply: (V, string) -> Verdict)
    requires !HasActivePrompt(m) && m.hasHandler && o1.validate.None?
    ensures var (m1, s1) := Prompt(m, o1, id1);
      var (m2, s2) := Prompt(m1, o2, id2);
      && s1.None? && s2 == Some(Rejected("Another prompt is already active"))
      && m2.current == Some(Request(id1, o1))
      && Respond(m2, value, apply) == Ok((m, Resolved(value)))
  {
  }
}

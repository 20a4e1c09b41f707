/** The chat request the optimiser sends to the language-model service, and how it
    turns whatever comes back into a reply string (`call_model` in train_rl.py). The HTTP
    exchange itself is not modelled: a `Service` maps a request to its outcome. */
module Oracle {
  import opened Wrappers
  import opened Text

  datatype Role = System | User | Assistant

  datatype Message = Message(role: Role, content: string)

  /** Where a persona's model is served: the base `url` and the `model` name. */
  datatype Endpoint = Endpoint(url: string, model: string)

  /** One POST to `<url>/api/chat` with `stream` off, and its timeout in seconds. */
  datatype ChatRequest = ChatRequest(endpoint: Endpoint, messages: seq<Message>, timeout: nat)

  /** The service: given the sequence number of a call and its request, the content string
      of the reply (`""` when the JSON has no content), or `None` when the call raises
      (connection error, timeout, error status, undecodable or ill-shaped JSON). Because
      the sequence number is an argument, any order of replies can be expressed. */
  type Service = (nat, ChatRequest) -> Option<string>

  /** Role of dialog entry `i`: the dialog alternates, starting with the user. */
  function DialogRole(i: nat): Role {
    if i % 2 == 0 then User else Assistant
  }

  /** The message list: the system message first, then dialog entry `i` with role `user`
      for even `i` and `assistant` for odd `i`. */
  function Layout(system: string, dialog: seq<string>): seq<Message>
  {
    if dialog == [] then [Message(System, system)]
    else Layout(system, dialog[..|dialog| - 1]) + [Message(DialogRole(|dialog| - 1), dialog[|dialog| - 1])]
  }

  /** The system message comes first, then every dialog entry in order with its role. */
  lemma {:induction false} LayoutShape(system: string, dialog: seq<string>)
    ensures var msgs := Layout(system, dialog);
      |msgs| == |dialog| + 1 && msgs[0] == Message(System, system)
      && forall i :: 0 <= i < |dialog| ==> msgs[i + 1] == Message(DialogRole(i), dialog[i])
    decreases |dialog|
  {
    if dialog != [] {
      var front := dialog[..|dialog| - 1];
      LayoutShape(system, front);
      forall i | 0 <= i < |front| ensures dialog[i] == front[i] {
      }
    }
  }

  /** The dialog a message list carries, dropping the system message. */
  function DialogOf(msgs: seq<Message>): seq<string>
    requires msgs != []
  {
    seq(|msgs| - 1, i requires 0 <= i < |msgs| - 1 => msgs[i + 1].content)
  }

  /** Laying a dialog out and reading it back loses nothing. */
  lemma LayoutKeepsDialog(system: string, dialog: seq<string>)
    ensures Layout(system, dialog) != [] && DialogOf(Layout(system, dialog)) == dialog
  {
    LayoutShape(system, dialog);
  }

  const NoResponse: string := "(no response)"

  /** The reply `call_model` returns for a call outcome: the trimmed content if that is
      non-empty, otherwise (empty content or any failure) `"(no response)"`. */
  function Normalise(outcome: Option<string>): string
  {
    match outcome
    case None => NoResponse
    case Some(content) =>
      var c := Strip(content);
      if c != [] then c else NoResponse
  }

  /** The reply is never empty and never starts or ends with white space; it is the
      trimmed content when that is non-empty, and `"(no response)"` otherwise. */
  lemma NormaliseSpec(outcome: Option<string>)
    ensures var r := Normalise(outcome);
      r != [] && !IsSpace(r[0]) && !IsSpace(r[|r| - 1])
      && (outcome.Some? && Strip(outcome.value) != [] ==> r == Strip(outcome.value))
      && (outcome.None? || Strip(outcome.value) == [] ==> r == NoResponse)
  {
  }

  /** Normalising is idempotent: a normalised reply, fed back as content, comes out as it
      went in. */
  lemma NormaliseIdempotent(outcome: Option<string>)
    ensures Normalise(Some(Normalise(outcome))) == Normalise(outcome)
  {
    NormaliseSpec(outcome);
    StripOfTrimmed(Normalise(outcome));
  }

  /** `call_model(url, model, system_msg, dialog, timeout)`: one service call. It never
      raises and never returns an empty string. */
  function CallModel(service: Service, callNo: nat, endpoint: Endpoint, timeout: nat,
                     system: string, dialog: seq<string>): string
  {
    Normalise(service(callNo, ChatRequest(endpoint, Layout(system, dialog), timeout)))
  }

  /** Default timeout of a call, and the one the conversation turns use. */
  const DefaultTimeout: nat := 3
  const TurnTimeout: nat := 10

  /** The fixed system message of a mutation request; the caller's own system message
      plays no part in it. */
  const MutationInstructions: string :=
    "You are a precise text mutation machine. Your task is to perform *exact and limited* modifications to the text provided between <INPUT> and </INPUT> tags.\n"
    + "FOLLOW THESE THREE SPECIFIC MUTATION RULES PRECISELY:\n"
    + "1.  **Reorder Sentences:** Arrange *all* of the original sentences in a different sequence. Every single original sentence must be present in your output, used exactly once.\n"
    + "2.  **Replace One Synonym:** Find *exactly one* word in the entire text and replace it with a single, safe, and contextually appropriate synonym.\n"
    + "3.  **Tweak Punctuation/Spacing:** Make *one minor adjustment* to punctuation or spacing somewhere in the text (e.g., alter a comma, period, or single space). Only one such change.\n"
    + "\n"
    + "***CRITICAL CONSTRAINTS - DO NOT VIOLATE:***\n"
    + "**DO NOT** remove, add, shorten, paraphrase, summarize, or omit *ANY* part of the original text's content or sentences. All original sentences must be included, only their order is changed.\n"
    + "Your output must contain the *same words* as the input, with the *only exceptions* being the one word replaced by a synonym and any minor punctuation/spacing change.\n"
    + "The meaning of the original text must be preserved as much as possible.\n"
    + "\n"
    + "Return *ONLY* the mutated text. Absolutely no other text, explanation, or conversation. The output MUST be enclosed strictly between <OUTPUT> and </OUTPUT> tags.\n"
    + "Input text is below."

  /** The single user message of a mutation request. */
  function MutationRequestText(prompt: string): string {
    "Mutate this: " + prompt
  }
}

/** The chat route of the server: it renders the client's view of the inbox
    as a compact index, one line per message, embeds it in the assistant's
    system prompt and returns the assistant's reply. The session and the
    completion call are parameters. */
module ChatRoute {
  import opened Mail
  import opened Text

  /** What the client sends about one message in its current view. */
  datatype ContextEntry = ContextEntry(id: string, sender: Sender, subject: string, date: string)

  /** The request body: the user's message and the context list, which may be missing. */
  datatype ChatRequest = ChatRequest(message: string, emailContext: Option<seq<ContextEntry>>)

  datatype ChatResponse = Reply(reply: string) | Failure(status: nat, error: string)

  /** The client's context: the id, sender, subject and date of each record
      of its current view, in view order. */
  function ContextOf(view: seq<Email>): (r: seq<ContextEntry>)
    ensures |r| == |view|
    ensures forall i :: 0 <= i < |view| ==>
              r[i] == ContextEntry(view[i].id, view[i].sender, view[i].subject, view[i].date)
  {
    seq(|view|, i requires 0 <= i < |view| => ContextEntry(view[i].id, view[i].sender, view[i].subject, view[i].date))
  }

  /** The line for one message. */
  function ContextLine(e: ContextEntry): string {
    "ID: " + e.id + " | From: " + e.sender.name + " (" + e.sender.email + ") | Subject: \"" + e.subject + "\" | Date: " + e.date
  }

  function ContextLines(es: seq<ContextEntry>): (r: seq<string>)
    ensures |r| == |es|
    ensures forall i :: 0 <= i < |es| ==> r[i] == ContextLine(es[i])
  {
    seq(|es|, i requires 0 <= i < |es| => ContextLine(es[i]))
  }

  /** `contextString`: the lines joined by line feeds. */
  function ContextString(es: seq<ContextEntry>): string {
    Join(ContextLines(es), "\n")
  }

  /** The system prompt's template: the text before the context block, the
      fence line that opens and closes the block, the indentation in front
      of the context, and the text after the block. */
  datatype Template = Template(intro: string, fence: string, indent: string, rules: string)

  /** The template as written, with its four-space indentation and line feeds. */
  const Prompt: Template := Template(
    "\n    You are MailSage, an intelligent email assistant.\n    \n    You have read-access to the user's current inbox view:",
    "    ---",
    "    ",
    "\n    CAPABILITIES:\n"
    + "    1. Answer questions about the emails (e.g., \"Who emailed me about the outage?\").\n"
    + "    2. Perform actions on emails using specific command codes.\n\n"
    + "    COMMANDS:\n"
    + "    If the user asks to PIN an email, find the matching ID from the list above and append this exact code to the end of your response: \n"
    + "    [ACTION:PIN:email_id]\n\n"
    + "    EXAMPLE:\n"
    + "    User: \"Pin the email from Capcom.\"\n"
    + "    You: \"I've pinned the Capcom newsletter for you. [ACTION:PIN:184392]\"\n\n"
    + "    RULES:\n"
    + "    - Be concise and helpful.\n"
    + "    - If you can't find an email matching the user's description, ask for clarification.\n"
    + "    - Only use the [ACTION] code if the user explicitly asks to perform that action.\n"
    + "    ")

  /** The template filled with a context string. */
  function Render(t: Template, context: string): string {
    t.intro + "\n" + (t.fence + "\n" + ((t.indent + context) + "\n" + (t.fence + "\n" + t.rules)))
  }

  /** `systemPrompt`. */
  function SystemPrompt(context: string): string {
    Render(Prompt, context)
  }

  /** `POST`: without a session the answer is 401 and the model is not asked;
      a body that is not JSON, a missing context list or a failed completion
      is a 500; otherwise the completion for the system prompt and the user's
      message is the reply. `complete` stands for the completion call, `None`
      when it throws. */
  function Post(hasSession: bool, body: Option<ChatRequest>, complete: (string, string) -> Option<string>): ChatResponse {
    if !hasSession then Failure(401, "Not Authenticated")
    else if body.None? || body.value.emailContext.None? then Failure(500, "Failed to chat")
    else
      var answer := complete(SystemPrompt(ContextString(body.value.emailContext.value)), body.value.message);
      if answer.None? then Failure(500, "Failed to chat") else Reply(answer.value)
  }

  // ---------------------------------------------------------------------
  // What the route promises

  /** Without a session the answer is 401, whatever the model would say:
      the model is not consulted. */
  lemma NoSessionNeverAsks(body: Option<ChatRequest>, c1: (string, string) -> Option<string>, c2: (string, string) -> Option<string>)
    ensures Post(false, body, c1) == Post(false, body, c2) == Failure(401, "Not Authenticated")
  {
  }

  /** With a session and a well-formed body, the reply is exactly the model's
      answer to the prompt built from the context, and a failed call is a 500. */
  lemma ReplyIsModelAnswer(message: string, es: seq<ContextEntry>, complete: (string, string) -> Option<string>)
    ensures var r := Post(true, Some(ChatRequest(message, Some(es))), complete);
            var a := complete(SystemPrompt(ContextString(es)), message);
            && (r.Reply? <==> a.Some?)
            && (a.Some? ==> r.reply == a.value)
            && (a.None? ==> r == Failure(500, "Failed to chat"))
  {
  }

  /** An empty context list gives the empty context string. */
  lemma EmptyContext()
    ensures ContextString([]) == ""
  {
  }

  /** The fields of an entry contain no line feed. */
  predicate SingleLine(e: ContextEntry) {
    '\n' !in e.id && '\n' !in e.sender.name && '\n' !in e.sender.email && '\n' !in e.subject && '\n' !in e.date
  }

  /** A line for an entry whose fields are single lines is itself one line. */
  lemma ContextLineIsOneLine(e: ContextEntry)
    requires SingleLine(e)
    ensures '\n' !in ContextLine(e)
  {
    assert '\n' !in "ID: " && '\n' !in " | From: " && '\n' !in " (" && '\n' !in ") | Subject: \"" && '\n' !in "\" | Date: ";
  }

  lemma LinesAreSingle(es: seq<ContextEntry>)
    requires forall i :: 0 <= i < |es| ==> SingleLine(es[i])
    ensures forall k :: 0 <= k < |es| ==> '\n' !in ContextLines(es)[k]
  {
    forall k | 0 <= k < |es| ensures '\n' !in ContextLines(es)[k] {
      ContextLineIsOneLine(es[k]);
    }
  }

  /** The context has one line per entry, in entry order, with no trailing
      separator: splitting it at line feeds gives back the entries' lines. */
  lemma ContextHasOneLinePerEntry(es: seq<ContextEntry>)
    requires es != []
    requires forall i :: 0 <= i < |es| ==> SingleLine(es[i])
    ensures Split(ContextString(es), '\n') == ContextLines(es)
  {
    LinesAreSingle(es);
    SplitJoin(ContextLines(es), '\n');
  }

  /** The line of an entry starts with its id, as `ID: <id> | From: `. */
  lemma ContextLineStartsWithId(e: ContextEntry)
    ensures var l := ContextLine(e);
            && |l| >= 13 + |e.id|
            && l[..4] == "ID: " && l[4..4 + |e.id|] == e.id && l[4 + |e.id|..13 + |e.id|] == " | From: "
  {
  }

  /** The template's fence line is `    ---`, and neither it nor the
      indentation holds a line feed. */
  lemma PromptFence()
    ensures Prompt.fence == "    ---" && Prompt.indent == "    "
    ensures '\n' !in Prompt.fence && '\n' !in Prompt.indent
  {
  }

  /** In the lines of a rendered template whose fence line and indentation
      hold no line feed (as `PromptFence` shows for the prompt), the context
      block stands between the two fence lines: its first line indented, the
      others as they are. */
  lemma PromptFramesContext(t: Template, es: seq<ContextEntry>)
    requires '\n' !in t.fence && '\n' !in t.indent
    requires es != []
    requires forall i :: 0 <= i < |es| ==> SingleLine(es[i])
    ensures var lines := ContextLines(es);
            Split(Render(t, ContextString(es)), '\n')
            == Split(t.intro, '\n') + ([t.fence] + (([t.indent + lines[0]] + lines[1..]) + ([t.fence] + Split(t.rules, '\n'))))
  {
    var lines := ContextLines(es);
    LinesAreSingle(es);
    FramedLines(t.intro, t.fence, t.indent + Join(lines, "\n"), t.rules);
    BlockLines(t.indent, lines);
  }

  /** Splitting `intro`, a fence line, a block, the fence line again and
      `rules`, each separated by a line feed. */
  lemma FramedLines(intro: string, fence: string, block: string, rules: string)
    requires '\n' !in fence
    ensures Split(intro + "\n" + (fence + "\n" + (block + "\n" + (fence + "\n" + rules))), '\n')
            == Split(intro, '\n') + ([fence] + (Split(block, '\n') + ([fence] + Split(rules, '\n'))))
  {
    var t3 := fence + ['\n'] + rules;
    var t2 := block + ['\n'] + t3;
    var t1 := fence + ['\n'] + t2;
    SplitNoSeparator(fence, '\n');
    SplitAppend(fence, rules, '\n');
    SplitAppend(block, t3, '\n');
    SplitAppend(fence, t2, '\n');
    SplitAppend(intro, t1, '\n');
  }

  /** The indented block splits into its first line, indented, and the rest. */
  lemma BlockLines(pad: string, lines: seq<string>)
    requires '\n' !in pad
    requires lines != []
    requires forall k :: 0 <= k < |lines| ==> '\n' !in lines[k]
    ensures Split(pad + Join(lines, "\n"), '\n') == [pad + lines[0]] + lines[1..]
  {
    var first := pad + lines[0];
    assert '\n' !in first;
    SplitNoSeparator(first, '\n');
    if |lines| > 1 {
      var rest := Join(lines[1..], "\n");
      assert pad + Join(lines, "\n") == first + ['\n'] + rest;
      SplitAppend(first, rest, '\n');
      SplitJoin(lines[1..], '\n');
    }
  }

  /** The i-th context line names the id of the i-th record of the view. */
  lemma ViewContextIds(view: seq<Email>, i: nat)
    requires i < |view|
    ensures ContextOf(view)[i].id == view[i].id
    ensures ContextLine(ContextOf(view)[i])[4..4 + |view[i].id|] == view[i].id
  {
    ContextLineStartsWithId(ContextOf(view)[i]);
  }
}

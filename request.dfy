/** One press of the "Consultar" button: the question goes to the SQL agent,
    whose answer is sanitized and shown; when the agent raises, a fallback
    query chosen from the question runs directly against the database.
    The agent and the database are oracles given as functions of what they
    are asked. */
module RequestFlow {
  import opened Text
  import opened Sanitizer
  import opened FallbackQuery
  import opened Prompt

  datatype Option<T> = None | Some(value: T)

  /** What `agent_executor.invoke` does: raise, or return a result mapping
      whose `output` entry may be missing. */
  datatype AgentOutcome = Raised(error: string) | Returned(output: Option<string>)

  /** What `db.run` does: return the rows as text, or raise. */
  datatype QueryOutcome = Rows(text: string) | QueryFailed(error: string)

  /** What the page shows after the press. */
  datatype Shown =
    | NothingShown
    | Markdown(text: string)
    | Warning(message: string)
    | PlainText(text: string)
    | ErrorBanner(message: string)

  const EmptyQuestionWarning: string := "Por favor, insira uma pergunta."
  const NoClearAnswerWarning: string := "Não foi possível obter uma resposta clara."
  const UnexpectedFormatWarning: string := "\U{26A0}\U{FE0F} Formato de resposta inesperado"
  const ErrorPrefix: string := "\U{274C} Erro: "

  /** The sanitized answer if there is any text left, the fixed warning otherwise. */
  function Display(response: string): Shown {
    if response != [] then Markdown(response) else Warning(NoClearAnswerWarning)
  }

  /** What one request shows, given whether the button was pressed, the
      question, the agent and the database. */
  function Respond(pressed: bool, question: string,
                   agent: string -> AgentOutcome, run: string -> QueryOutcome): Shown
  {
    if !pressed then NothingShown
    else if question == [] then Warning(EmptyQuestionWarning)
    else
      match agent(Render(question))
      case Returned(Some(output)) => Display(Sanitized(output, UnwantedPhrases))
      case Returned(None) => Warning(UnexpectedFormatWarning)
      case Raised(_) =>
        match run(SelectFallbackQuery(question))
        case Rows(rows) => PlainText(rows)
        case QueryFailed(error) => ErrorBanner(ErrorPrefix + error)
  }

  /** The request handler, step by step. */
  method HandleRequest(pressed: bool, question: string,
                       agent: string -> AgentOutcome, run: string -> QueryOutcome)
    returns (shown: Shown)
    ensures shown == Respond(pressed, question, agent, run)
  {
    if !pressed {
      return NothingShown;
    }
    if question == [] {
      return Warning(EmptyQuestionWarning);
    }
    var formatted := Render(question);
    var result := agent(formatted);
    match result {
      case Returned(Some(output)) =>
        var response := Sanitize(output, UnwantedPhrases);
        if response != [] {
          shown := Markdown(response);
        } else {
          shown := Warning(NoClearAnswerWarning);
        }
      case Returned(None) =>
        shown := Warning(UnexpectedFormatWarning);
      case Raised(_) =>
        var directQuery := SelectFallbackQuery(question);
        match run(directQuery) {
          case Rows(rows) => shown := PlainText(rows);
          case QueryFailed(error) => shown := ErrorBanner(ErrorPrefix + error);
        }
    }
  }

  /** An empty question is answered with the fixed warning, whatever the
      agent and the database would have done: neither is consulted. */
  lemma EmptyQuestionConsultsNothing(agent1: string -> AgentOutcome, agent2: string -> AgentOutcome,
                                     run1: string -> QueryOutcome, run2: string -> QueryOutcome)
    ensures Respond(true, "", agent1, run1) == Warning(EmptyQuestionWarning)
    ensures Respond(true, "", agent1, run1) == Respond(true, "", agent2, run2)
  {
  }

  /** Markdown is only ever shown for a non-empty text that holds none of
      the denylisted phrases. */
  lemma MarkdownIsClean(pressed: bool, question: string,
                        agent: string -> AgentOutcome, run: string -> QueryOutcome, text: string)
    requires Respond(pressed, question, agent, run) == Markdown(text)
    ensures text != [] && !AnyIn(text, UnwantedPhrases)
  {
    var outcome := agent(Render(question));
    assert outcome.Returned? && outcome.output.Some?;
    UnwantedPhrasesWellFormed();
    SanitizedHasNoPhrase(outcome.output.value, UnwantedPhrases);
  }

  /** When the agent answers, the database is not consulted, and the page
      shows the sanitized answer, or the fixed warning exactly when nothing
      is left of it. */
  lemma AnswerShownSanitized(question: string, output: string,
                             agent: string -> AgentOutcome, run1: string -> QueryOutcome, run2: string -> QueryOutcome)
    requires question != [] && agent(Render(question)) == Returned(Some(output))
    ensures Respond(true, question, agent, run1) == Respond(true, question, agent, run2)
    ensures Respond(true, question, agent, run1) == Warning(NoClearAnswerWarning)
      <==> Sanitized(output, UnwantedPhrases) == []
    ensures Sanitized(output, UnwantedPhrases) != []
      ==> Respond(true, question, agent, run1) == Markdown(Sanitized(output, UnwantedPhrases))
    ensures Respond(true, question, agent, run1) == Markdown(output)
      <==> output != [] && !AnyIn(output, UnwantedPhrases)
  {
    UnwantedPhrasesWellFormed();
    if !AnyIn(output, UnwantedPhrases) {
      SanitizedUnchangedWithoutPhrases(output, UnwantedPhrases);
    } else {
      SanitizedHasNoPhrase(output, UnwantedPhrases);
    }
  }

  /** When the agent raises, only the selected fallback query is run:
      databases that agree on it lead to the same page, which shows that
      query's rows as plain text or its error after the error prefix. */
  lemma FallbackRunsSelectedQueryOnly(question: string, agent: string -> AgentOutcome,
                                      run1: string -> QueryOutcome, run2: string -> QueryOutcome)
    requires question != [] && agent(Render(question)).Raised?
    requires run1(SelectFallbackQuery(question)) == run2(SelectFallbackQuery(question))
    ensures Respond(true, question, agent, run1) == Respond(true, question, agent, run2)
    ensures run1(SelectFallbackQuery(question)).Rows?
      ==> Respond(true, question, agent, run1) == PlainText(run1(SelectFallbackQuery(question)).text)
    ensures run1(SelectFallbackQuery(question)).QueryFailed?
      ==> Respond(true, question, agent, run1) == ErrorBanner(ErrorPrefix + run1(SelectFallbackQuery(question)).error)
  {
  }

  /** "O que vende mais?" with a failing agent shows the raw rows of the
      best-sellers query. */
  lemma BestSellerFallbackScenario(question: string, agent: string -> AgentOutcome,
                                   run: string -> QueryOutcome, rows: string)
    requires question == "O que vende mais?"
    requires agent(Render(question)).Raised?
    requires run(BestSellingQuery) == Rows(rows)
    ensures Respond(true, question, agent, run) == PlainText(rows)
  {
    BestSellerExample(question);
  }

  /** An agent answering "The results show that we have 10 units. Restock
      needed." leads to "Restock needed." being shown. */
  lemma RestockScenario(question: string, agent: string -> AgentOutcome, run: string -> QueryOutcome)
    requires question != []
    requires agent(Render(question)) == Returned(Some("The results show that we have 10 units. Restock needed."))
    ensures Respond(true, question, agent, run) == Markdown("Restock needed.")
  {
    RestockExample("The results show that we have 10 units. Restock needed.");
  }
}

/** The instruction template the question is substituted into before the
    agent sees it; its only placeholder is the question. */
module Prompt {
  import opened Text

  /** The template text before the placeholder. */
  const TemplateHead: string :=
    "\nVocê é um especialista em análise de estoque. Use as ferramentas SQL disponíveis para responder perguntas sobre inventário.\n"
    + "\nINSTRUÇÕES IMPORTANTES:\n"
    + "1. Seja direto e eficiente nas consultas SQL\n"
    + "2. Se uma consulta falhar, tente uma abordagem mais simples\n"
    + "3. Sempre formate a resposta final em português brasileiro\n"
    + "4. Forneça apenas a resposta final, sem explicar o processo\n"
    + "5. Não mencione detalhes técnicos sobre a execução da query\n"
    + "\nPergunta do usuário: "

  /** The template text after the placeholder. */
  const TemplateTail: string :=
    "\n\nAnalise a pergunta e execute as consultas necessárias para dar uma resposta completa.\n"

  /** `prompt_template.format(q=question)`: the question verbatim between the
      fixed head and tail, with no escaping and no length limit. */
  function Render(question: string): (prompt: string)
    ensures |prompt| == |TemplateHead| + |question| + |TemplateTail|
    ensures prompt[..|TemplateHead|] == TemplateHead
    ensures prompt[|TemplateHead|..|TemplateHead| + |question|] == question
    ensures prompt[|TemplateHead| + |question|..] == TemplateTail
  {
    TemplateHead + question + TemplateTail
  }

  /** The question read back out of a rendered prompt. */
  function QuestionOf(prompt: string): string
    requires |prompt| >= |TemplateHead| + |TemplateTail|
  {
    prompt[|TemplateHead|..|prompt| - |TemplateTail|]
  }

  /** Rendering loses nothing: the question can be read back. */
  lemma RenderRoundTrip(question: string)
    ensures QuestionOf(Render(question)) == question
  {
  }

  /** Different questions give different prompts. */
  lemma RenderInjective(q1: string, q2: string)
    requires Render(q1) == Render(q2)
    ensures q1 == q2
  {
    RenderRoundTrip(q1);
    RenderRoundTrip(q2);
  }

  /** The rendered prompt contains the question as a substring. */
  lemma RenderContainsQuestion(question: string)
    ensures Contains(Render(question), question)
  {
    assert OccursAt(Render(question), question, |TemplateHead|);
  }
}

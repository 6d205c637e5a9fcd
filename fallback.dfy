/** The direct query run when the agent raises: a keyword test on the
    lower-cased question picks one of three fixed SQL statements. */
module FallbackQuery {
  import opened Text

  /** The five best sellers. */
  const BestSellingQuery: string := "SELECT * FROM produtos ORDER BY vendas DESC LIMIT 5"
  /** Ten products that are in stock. */
  const InStockQuery: string := "SELECT * FROM produtos WHERE quantidade > 0 LIMIT 10"
  /** Any five products. */
  const DefaultQuery: string := "SELECT * FROM produtos LIMIT 5"

  /** Exactly one of the three queries, chosen case-insensitively: "vende mais"
      wins over "estoque", and a question with neither gets the default. */
  function SelectFallbackQuery(question: string): (query: string)
    ensures query == BestSellingQuery || query == InStockQuery || query == DefaultQuery
    ensures query == BestSellingQuery <==> Contains(Lower(question), "vende mais")
    ensures query == InStockQuery <==>
      !Contains(Lower(question), "vende mais") && Contains(Lower(question), "estoque")
    ensures query == DefaultQuery <==>
      !Contains(Lower(question), "vende mais") && !Contains(Lower(question), "estoque")
  {
    if Contains(Lower(question), "vende mais") then BestSellingQuery
    else if Contains(Lower(question), "estoque") then InStockQuery
    else DefaultQuery
  }

  /** A question and its lower-case form select the same query. */
  lemma SelectionIgnoresCase(question: string)
    ensures SelectFallbackQuery(Lower(question)) == SelectFallbackQuery(question)
  {
    LowerIdempotent(question);
  }

  /** "O que vende mais?" asks for the best sellers. */
  lemma BestSellerExample(question: string)
    requires question == "O que vende mais?"
    ensures SelectFallbackQuery(question) == BestSellingQuery
  {
    var lowered := Lower(question);
    forall i | 6 <= i < 16 ensures lowered[i] == "vende mais"[i - 6] {
      assert question[i] == "vende mais"[i - 6] && !('A' <= question[i] <= 'Z');
    }
    assert OccursAt(lowered, "vende mais", 6);
  }

  /** Upper-case keywords match as well: "VENDE MAIS?" asks for the best sellers. */
  lemma UpperCaseExample(question: string)
    requires question == "VENDE MAIS?"
    ensures SelectFallbackQuery(question) == BestSellingQuery
  {
    var lowered := Lower(question);
    forall i | 0 <= i < 10 ensures lowered[i] == "vende mais"[i] {
      if i == 5 {
        assert question[i] == ' ';
      } else {
        assert 'A' <= question[i] <= 'Z' && "vende mais"[i] as int == question[i] as int + 32;
      }
    }
    assert OccursAt(lowered, "vende mais", 0);
  }
}

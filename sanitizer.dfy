/** The response sanitizer of app.py: the agent's answer is cut into sentences
    at every '.', and the sentences holding a denylisted phrase are dropped. */
module Sanitizer {
  import opened Text

  /** The phrases that mark a sentence as leaked technical detail. */
  const UnwantedPhrases: seq<string> := [
    "Note: The query executed successfully",
    "The results show that",
    "executed successfully and returned",
    "The query was executed",
    "successfully executed"
  ]

  /** `any(unwanted in s for unwanted in phrases)`. */
  predicate AnyIn(s: string, phrases: seq<string>) {
    exists p :: p in phrases && Contains(s, p)
  }

  /** Phrases that cannot straddle a '.' or the blank after it: for these,
      dropping the sentences that hold a phrase removes every occurrence. */
  predicate WellFormed(phrases: seq<string>) {
    forall p :: p in phrases ==> |p| > 0 && '.' !in p && p[0] != ' '
  }

  /** The sentences that hold no phrase, in their original order. */
  function Keep(sentences: seq<string>, phrases: seq<string>): seq<string>
    decreases |sentences|
  {
    if sentences == [] then []
    else
      var last := sentences[|sentences| - 1];
      Keep(sentences[..|sentences| - 1], phrases) + (if AnyIn(last, phrases) then [] else [last])
  }

  /** The strip and the trailing period applied to the rejoined sentences. */
  function Tidy(joined: string): string {
    var t := Strip(joined);
    if t != [] && t[|t| - 1] != '.' then t + "." else t
  }

  /** One cleaning pass: split on '.', keep the clean sentences, rejoin with ". ", tidy. */
  function Clean(text: string, phrases: seq<string>): string {
    Tidy(Join(". ", Keep(Split(text, '.'), phrases)))
  }

  /** The answer after the outer loop has visited the phrases of `visited`, in
      order: a phrase found in the current text triggers a cleaning pass that
      drops the sentences holding any phrase of the whole denylist. */
  function SanitizeOver(text: string, visited: seq<string>, phrases: seq<string>): string
    decreases |visited|
  {
    if visited == [] then text
    else
      var before := SanitizeOver(text, visited[..|visited| - 1], phrases);
      if Contains(before, visited[|visited| - 1]) then Clean(before, phrases) else before
  }

  /** The answer once the loop has visited every phrase of the denylist. */
  function Sanitized(text: string, phrases: seq<string>): string {
    SanitizeOver(text, phrases, phrases)
  }

  /** The sanitizer loop, as the request handler runs it. */
  method Sanitize(answer: string, phrases: seq<string>) returns (response: string)
    ensures response == Sanitized(answer, phrases)
    ensures !AnyIn(answer, phrases) ==> response == answer
    ensures WellFormed(phrases) ==> !AnyIn(response, phrases)
  {
    response := answer;
    for i := 0 to |phrases|
      invariant response == SanitizeOver(answer, phrases[..i], phrases)
    {
      assert phrases[..i + 1][..i] == phrases[..i];
      if Contains(response, phrases[i]) {
        var sentences := Split(response, '.');
        var cleaned: seq<string> := [];
        for j := 0 to |sentences|
          invariant cleaned == Keep(sentences[..j], phrases)
        {
          assert sentences[..j + 1][..j] == sentences[..j];
          if !AnyIn(sentences[j], phrases) {
            cleaned := cleaned + [sentences[j]];
          }
        }
        assert sentences[..|sentences|] == sentences;
        response := Strip(Join(". ", cleaned));
        if response != [] && response[|response| - 1] != '.' {
          response := response + ".";
        }
      }
    }
    assert phrases[..|phrases|] == phrases;
    if !AnyIn(answer, phrases) {
      SanitizedUnchangedWithoutPhrases(answer, phrases);
    }
    if WellFormed(phrases) {
      SanitizedHasNoPhrase(answer, phrases);
    }
  }

  /** `idx` lists, in increasing order, exactly the positions of the clean
      sentences, and `kept` holds the sentences at those positions. */
  ghost predicate SelectsCleanSentences(idx: seq<int>, sentences: seq<string>, kept: seq<string>, phrases: seq<string>) {
    && |idx| == |kept|
    && (forall k :: 0 <= k < |idx| ==> 0 <= idx[k] < |sentences| && kept[k] == sentences[idx[k]])
    && (forall k, l :: 0 <= k < l < |idx| ==> idx[k] < idx[l])
    && (forall i :: 0 <= i < |sentences| ==> (i in idx <==> !AnyIn(sentences[i], phrases)))
  }

  /** The positions of the clean sentences. */
  function KeptPositions(sentences: seq<string>, phrases: seq<string>): seq<int>
    decreases |sentences|
  {
    if sentences == [] then []
    else
      var n := |sentences| - 1;
      KeptPositions(sentences[..n], phrases) + (if AnyIn(sentences[n], phrases) then [] else [n])
  }

  /** The kept sentences are the clean ones, all of them, in their original order. */
  lemma {:induction false} KeepIsOrderedFilter(sentences: seq<string>, phrases: seq<string>)
    ensures SelectsCleanSentences(KeptPositions(sentences, phrases), sentences, Keep(sentences, phrases), phrases)
    decreases |sentences|
  {
    if sentences != [] {
      var n := |sentences| - 1;
      var front := sentences[..n];
      KeepIsOrderedFilter(front, phrases);
      var idx := KeptPositions(front, phrases);
      assert forall k :: 0 <= k < |idx| ==> front[idx[k]] == sentences[idx[k]];
    }
  }

  /** No kept sentence holds a phrase. */
  lemma KeptSentencesAreClean(sentences: seq<string>, phrases: seq<string>)
    ensures forall k :: 0 <= k < |Keep(sentences, phrases)| ==> !AnyIn(Keep(sentences, phrases)[k], phrases)
  {
    KeepIsOrderedFilter(sentences, phrases);
  }

  /** Joining phrase-free sentences with ". " creates no occurrence of a
      phrase that holds no '.' and does not start with a blank. */
  lemma {:induction false} JoinKeepsAbsence(parts: seq<string>, p: string)
    requires |p| > 0 && '.' !in p && p[0] != ' '
    requires forall k :: 0 <= k < |parts| ==> !Contains(parts[k], p)
    ensures !Contains(Join(". ", parts), p)
    decreases |parts|
  {
    if |parts| > 1 {
      var rest := Join(". ", parts[1..]);
      JoinKeepsAbsence(parts[1..], p);
      assert Join(". ", parts) == parts[0] + ['.'] + ([' '] + rest);
      if Contains([' '] + rest, p) {
        ContainsAfterHead(' ', rest, p);
      }
      if Contains(Join(". ", parts), p) {
        ContainsAcross(parts[0], '.', [' '] + rest, p);
      }
    }
  }

  /** Tidying creates no occurrence of a phrase without '.'. */
  lemma TidyKeepsAbsence(joined: string, p: string)
    requires |p| > 0 && '.' !in p
    requires !Contains(joined, p)
    ensures !Contains(Tidy(joined), p)
  {
    var t := Strip(joined);
    StripKeepsAbsence(joined, p);
    if t != [] && t[|t| - 1] != '.' && Contains(t + ".", p) {
      assert t + "." == t + ['.'] + [];
      ContainsAcross(t, '.', [], p);
    }
  }

  /** A cleaning pass leaves no phrase of a well-formed denylist behind. */
  lemma CleanHasNoPhrase(text: string, phrases: seq<string>)
    requires WellFormed(phrases)
    ensures !AnyIn(Clean(text, phrases), phrases)
  {
    var kept := Keep(Split(text, '.'), phrases);
    KeptSentencesAreClean(Split(text, '.'), phrases);
    forall p | p in phrases
      ensures !Contains(Clean(text, phrases), p)
    {
      JoinKeepsAbsence(kept, p);
      TidyKeepsAbsence(Join(". ", kept), p);
    }
  }

  /** A phrase that is never found leaves the answer untouched. */
  lemma {:induction false} SanitizeOverUnchanged(text: string, visited: seq<string>, phrases: seq<string>)
    requires forall p :: p in visited ==> !Contains(text, p)
    ensures SanitizeOver(text, visited, phrases) == text
    decreases |visited|
  {
    if visited != [] {
      var n := |visited| - 1;
      assert forall p :: p in visited[..n] ==> p in visited;
      SanitizeOverUnchanged(text, visited[..n], phrases);
      assert visited[n] in visited;
    }
  }

  /** An answer holding no denylisted phrase is returned exactly as it came:
      not stripped, no period added. */
  lemma SanitizedUnchangedWithoutPhrases(text: string, phrases: seq<string>)
    requires !AnyIn(text, phrases)
    ensures Sanitized(text, phrases) == text
  {
    SanitizeOverUnchanged(text, phrases, phrases);
  }

  /** With a well-formed denylist the first phrase found triggers the only
      cleaning pass that changes anything. */
  lemma {:induction false} SanitizeOverCleansOnce(text: string, visited: seq<string>, phrases: seq<string>)
    requires WellFormed(phrases)
    requires forall p :: p in visited ==> p in phrases
    ensures SanitizeOver(text, visited, phrases) == if AnyIn(text, visited) then Clean(text, phrases) else text
    decreases |visited|
  {
    if visited != [] {
      var n := |visited| - 1;
      var front, q := visited[..n], visited[n];
      assert visited == front + [q];
      SanitizeOverCleansOnce(text, front, phrases);
      var before := SanitizeOver(text, front, phrases);
      assert SanitizeOver(text, visited, phrases) == if Contains(before, q) then Clean(before, phrases) else before;
      if AnyIn(text, front) {
        CleanHasNoPhrase(text, phrases);
        assert q in phrases;
        var p :| p in front && Contains(text, p);
        assert p in visited;
      } else if Contains(text, q) {
        assert q in visited;
      } else {
        forall p | p in visited
          ensures !Contains(text, p)
        {
          assert p in front || p == q;
        }
      }
    }
  }

  /** With a well-formed denylist, sanitizing is one cleaning pass when some
      phrase occurs and the identity otherwise. */
  lemma SanitizedIsOneClean(text: string, phrases: seq<string>)
    requires WellFormed(phrases)
    ensures Sanitized(text, phrases) == if AnyIn(text, phrases) then Clean(text, phrases) else text
  {
    SanitizeOverCleansOnce(text, phrases, phrases);
  }

  /** No denylisted phrase occurs in a sanitized answer. */
  lemma SanitizedHasNoPhrase(text: string, phrases: seq<string>)
    requires WellFormed(phrases)
    ensures !AnyIn(Sanitized(text, phrases), phrases)
  {
    SanitizedIsOneClean(text, phrases);
    if AnyIn(text, phrases) {
      CleanHasNoPhrase(text, phrases);
    }
  }

  /** Sanitizing a sanitized answer changes nothing. */
  lemma SanitizeIdempotent(text: string, phrases: seq<string>)
    requires WellFormed(phrases)
    ensures Sanitized(Sanitized(text, phrases), phrases) == Sanitized(text, phrases)
  {
    SanitizedHasNoPhrase(text, phrases);
    SanitizedUnchangedWithoutPhrases(Sanitized(text, phrases), phrases);
  }

  /** When a phrase occurs, the answer becomes the tidied ". "-join of exactly
      the clean '.'-pieces of the input, in their original order. */
  lemma SanitizedKeepsCleanSentencesInOrder(text: string, phrases: seq<string>)
    requires WellFormed(phrases) && AnyIn(text, phrases)
    ensures var pieces := Split(text, '.');
      && Sanitized(text, phrases) == Tidy(Join(". ", Keep(pieces, phrases)))
      && SelectsCleanSentences(KeptPositions(pieces, phrases), pieces, Keep(pieces, phrases), phrases)
  {
    SanitizedIsOneClean(text, phrases);
    KeepIsOrderedFilter(Split(text, '.'), phrases);
  }

  /** A tidied text is empty or has no blank at either end and ends with '.'. */
  lemma TidyShape(joined: string)
    ensures var r := Tidy(joined);
      r == [] || (r[|r| - 1] == '.' && !IsSpace(r[0]) && !IsSpace(r[|r| - 1]))
  {
  }

  /** When cleaning happened, a non-empty answer is trimmed and ends with '.'. */
  lemma CleanedAnswerShape(text: string, phrases: seq<string>)
    requires WellFormed(phrases) && AnyIn(text, phrases)
    ensures var r := Sanitized(text, phrases);
      r == [] || (r[|r| - 1] == '.' && !IsSpace(r[0]) && !IsSpace(r[|r| - 1]))
  {
    SanitizedIsOneClean(text, phrases);
    TidyShape(Join(". ", Keep(Split(text, '.'), phrases)));
  }

  /** An answer all of whose sentences hold a phrase, save perhaps a blank
      tail after the last '.', sanitizes to the empty text. */
  lemma AllSentencesUnwantedGivesEmpty(text: string, phrases: seq<string>)
    requires WellFormed(phrases) && AnyIn(text, phrases)
    requires var pieces := Split(text, '.');
      && (forall k :: 0 <= k < |pieces| - 1 ==> AnyIn(pieces[k], phrases))
      && (AnyIn(pieces[|pieces| - 1], phrases) || IsBlank(pieces[|pieces| - 1]))
    ensures Sanitized(text, phrases) == ""
  {
    var pieces := Split(text, '.');
    UnwantedPiecesTidyToEmpty(pieces, phrases);
    assert Clean(text, phrases) == "";
    SanitizedIsOneClean(text, phrases);
  }

  /** The cleaning of pieces that all hold a phrase, save perhaps a blank last one. */
  lemma UnwantedPiecesTidyToEmpty(pieces: seq<string>, phrases: seq<string>)
    requires |pieces| >= 1
    requires forall k :: 0 <= k < |pieces| - 1 ==> AnyIn(pieces[k], phrases)
    requires AnyIn(pieces[|pieces| - 1], phrases) || IsBlank(pieces[|pieces| - 1])
    ensures Tidy(Join(". ", Keep(pieces, phrases))) == ""
  {
    var n := |pieces| - 1;
    KeepDropsAll(pieces[..n], phrases);
    var kept := Keep(pieces, phrases);
    if kept != [] {
      assert kept == [pieces[n]];
      StripBlank(pieces[n]);
    }
  }

  /** Stripping a blank text leaves nothing. */
  lemma StripBlank(s: string)
    requires IsBlank(s)
    ensures Strip(s) == []
  {
  }

  /** Sentences that all hold a phrase are all dropped. */
  lemma {:induction false} KeepDropsAll(sentences: seq<string>, phrases: seq<string>)
    requires forall k :: 0 <= k < |sentences| ==> AnyIn(sentences[k], phrases)
    ensures Keep(sentences, phrases) == []
    decreases |sentences|
  {
    if sentences != [] {
      KeepDropsAll(sentences[..|sentences| - 1], phrases);
    }
  }

  /** Every phrase of the source's denylist is non-empty, holds no '.' and
      does not start with a blank. */
  lemma UnwantedPhrasesWellFormed()
    ensures WellFormed(UnwantedPhrases)
  {
    PhraseWellFormed("Note: The query executed successfully");
    PhraseWellFormed("The results show that");
    PhraseWellFormed("executed successfully and returned");
    PhraseWellFormed("The query was executed");
    PhraseWellFormed("successfully executed");
  }

  /** One phrase is non-empty, holds no '.' and does not start with a blank. */
  lemma PhraseWellFormed(p: string)
    requires p in UnwantedPhrases
    ensures |p| > 0 && '.' !in p && p[0] != ' '
  {
  }

  /** A text shorter than every denylisted phrase holds none of them: the
      example's second sentence is clean for this reason. */
  lemma ShortTextHoldsNoPhrase(s: string)
    requires |s| < 21
    ensures !AnyIn(s, UnwantedPhrases)
  {
    forall p | p in UnwantedPhrases ensures |p| >= 21 {
    }
  }

  /** No phrase of a well-formed denylist occurs in the empty text, so an
      empty piece is always kept. */
  lemma EmptyHoldsNoPhrase(phrases: seq<string>)
    requires WellFormed(phrases)
    ensures !AnyIn("", phrases)
  {
    forall p | p in phrases ensures !Contains("", p) {
      assert |p| > 0;
    }
  }

  /** "The results show that we have 10 units. Restock needed." loses its
      first sentence and becomes "Restock needed.". */
  lemma RestockExample(text: string)
    requires text == "The results show that we have 10 units. Restock needed."
    ensures Sanitized(text, UnwantedPhrases) == "Restock needed."
  {
    var first, words := RestockPieces(text);
    UnwantedPhrasesWellFormed();
    RestockWith(first, words, UnwantedPhrases);
  }

  /** The example's shape for any well-formed denylist: a first sentence
      holding a phrase, then a clean one, then the final '.'. */
  lemma RestockWith(first: string, words: string, phrases: seq<string>)
    requires AnyIn(first, phrases)
    requires '.' !in first && '.' !in words
    requires words != [] && !IsSpace(words[0])
    requires WellFormed(phrases)
    requires !AnyIn([' '] + words, phrases)
    ensures Sanitized(first + (['.'] + (([' '] + words) + ['.'])), phrases) == words + "."
  {
    var second := [' '] + words;
    var text := first + (['.'] + (second + ['.']));
    var phrase :| phrase in phrases && Contains(first, phrase);
    assert AnyIn(text, phrases) by {
      ContainsInConcat(first, ['.'] + (second + ['.']), phrase);
    }
    assert Split(text, '.') == [first, second, ""] by {
      assert text == first + ['.'] + (second + ['.'] + "");
      SplitAfterSeparator(first, '.', second + ['.'] + "");
      SplitAfterSeparator(second, '.', "");
    }
    EmptyHoldsNoPhrase(phrases);
    RestockKeep(first, second, phrases);
    TidyOfSecondSentence(words);
    SanitizedIsOneClean(text, phrases);
  }

  /** The example text cut at its two periods. */
  lemma RestockPieces(text: string) returns (first: string, words: string)
    requires text == "The results show that we have 10 units. Restock needed."
    ensures text == first + (['.'] + (([' '] + words) + ['.']))
    ensures AnyIn(first, UnwantedPhrases)
    ensures '.' !in first && '.' !in words
    ensures words != [] && !IsSpace(words[0])
    ensures !AnyIn([' '] + words, UnwantedPhrases)
    ensures words + "." == "Restock needed."
  {
    first := RestockFirstSentence();
    words := "Restock needed";
    ShortTextHoldsNoPhrase([' '] + words);
  }

  /** The example's first sentence, which starts with the denylisted phrase
      "The results show that". */
  lemma RestockFirstSentence() returns (first: string)
    ensures first == "The results show that we have 10 units"
    ensures AnyIn(first, UnwantedPhrases)
  {
    first := "The results show that we have 10 units";
    var phrase := UnwantedPhrases[1];
    assert phrase == "The results show that";
    assert OccursAt(first, phrase, 0);
    assert Contains(first, phrase);
  }

  /** Of the pieces `[first, second, ""]`, cleaning keeps the clean second
      sentence and the empty tail and drops the first. */
  lemma RestockKeep(first: string, second: string, phrases: seq<string>)
    requires AnyIn(first, phrases) && !AnyIn(second, phrases) && !AnyIn("", phrases)
    ensures Keep([first, second, ""], phrases) == [second, ""]
  {
    var pieces := [first, second, ""];
    assert pieces[..2] == [first, second];
    assert [first, second][..1] == [first];
    assert [first][..0] == [];
    assert Keep([first], phrases) == [];
    assert Keep([first, second], phrases) == [second];
  }

  /** A sentence after the first, followed by an empty tail, tidies to its
      words and the period. */
  lemma TidyOfSecondSentence(words: string)
    requires words != [] && !IsSpace(words[0])
    ensures Tidy(Join(". ", [[' '] + words, ""])) == words + "."
  {
    var t := words + ['.'];
    assert Join(". ", [[' '] + words, ""]) == [' '] + (t + [' ']) by {
      assert [[' '] + words, ""][1..] == [""];
    }
    PaddedSentenceStrips(t);
  }

  /** A sentence with one blank on each side strips back to the sentence. */
  lemma PaddedSentenceStrips(t: string)
    requires t != [] && !IsSpace(t[0]) && !IsSpace(t[|t| - 1])
    ensures Strip([' '] + (t + [' '])) == t
  {
    var padded := [' '] + (t + [' ']);
    assert TrimStart(padded) == t + [' '] by {
      assert padded[1..] == t + [' '];
    }
    assert TrimEnd(t + [' ']) == t by {
      assert (t + [' '])[..|t|] == t;
    }
  }
}

/** The constant tables of the client: the word bank and the player roster
    (frontend/app/components/data.ts). */
module Data {
  import opened Types
  import opened JsBuiltins

  const WordList: seq<Word> := [
    Word(("GUARDA", "CHUVA"), "GUARDA-CHUVA"),
    Word(("CACHORRO", "QUENTE"), "CACHORRO-QUENTE"),
    Word(("PÃO", "DE QUEIJO"), "PÃO DE QUEIJO"),
    Word(("PÉ", "DE MOLEQUE"), "PÉ DE MOLEQUE"),
    Word(("ARCO", "ÍRIS"), "ARCO-ÍRIS"),
    Word(("COUVE", "FLOR"), "COUVE-FLOR"),
    Word(("GUARDA", "ROUPA"), "GUARDA-ROUPA"),
    Word(("BEIJA", "FLOR"), "BEIJA-FLOR"),
    Word(("SEGUNDA", "FEIRA"), "SEGUNDA-FEIRA"),
    Word(("SALVA", "VIDAS"), "SALVA-VIDAS")
  ]

  const MockedPlayers: map<string, Player> := map[
    "player1" := Player("player1", "Desenhista 1", Drawer1),
    "player2" := Player("player2", "Desenhista 2", Drawer2),
    "player3" := Player("player3", "Adivinho", Guesser)
  ]

  /** The characters that have a meaning of their own in a JavaScript
      regular expression. */
  predicate IsRegexMeta(c: char) {
    c in "\\^$.|?*+()[]{}/"
  }

  /** A string that a regular expression built from it matches only
      literally, and that the masking of the keyword cannot confuse with a
      masked character. */
  predicate IsLiteralPattern(p: string) {
    && p != []
    && (forall i :: 0 <= i < |p| ==> !IsRegexMeta(p[i]) && p[i] != '_')
  }

  /** Upper-case Basic Latin and Latin-1 letters, and the space. */
  predicate IsPlainChar(c: char) {
    'A' <= c <= 'Z' || c == ' ' || ('\U{C0}' <= c <= '\U{DE}' && c != '\U{D7}')
  }

  /** The keyword is the first part, a hyphen or a space, and the second part. */
  predicate JoinsParts(w: Word) {
    w.keyword == w.parts.0 + "-" + w.parts.1 || w.keyword == w.parts.0 + " " + w.parts.1
  }

  /** A puzzle as the word bank shapes it: the keyword joins the parts,
      everything is upper case, and the parts are literal patterns. */
  predicate WellFormed(w: Word) {
    && JoinsParts(w)
    && Upper(w.parts.0) == w.parts.0
    && Upper(w.parts.1) == w.parts.1
    && Upper(w.keyword) == w.keyword
    && IsLiteralPattern(w.parts.0)
    && IsLiteralPattern(w.parts.1)
  }

  lemma WordListSize()
    ensures |WordList| == 10
  {
  }

  lemma KeywordsJoinPartsFirstThird()
    ensures forall k :: 0 <= k < 3 ==> JoinsParts(WordList[k])
  {
  }

  lemma KeywordsJoinPartsSecondThird()
    ensures forall k :: 3 <= k < 6 ==> JoinsParts(WordList[k])
  {
  }

  lemma KeywordsJoinPartsLastThird()
    ensures forall k :: 6 <= k < 10 ==> JoinsParts(WordList[k])
  {
  }

  lemma KeywordsJoinParts()
    ensures forall k :: 0 <= k < |WordList| ==> JoinsParts(WordList[k])
  {
    KeywordsJoinPartsFirstThird();
    KeywordsJoinPartsSecondThird();
    KeywordsJoinPartsLastThird();
  }

  lemma KeywordsUpperCaseFirstHalf()
    ensures forall k :: 0 <= k < 5 ==> IsUpperCase(WordList[k].keyword)
  {
  }

  lemma KeywordsUpperCaseSecondHalf()
    ensures forall k :: 5 <= k < 10 ==> IsUpperCase(WordList[k].keyword)
  {
  }

  lemma KeywordsUpperCase()
    ensures forall k :: 0 <= k < |WordList| ==> IsUpperCase(WordList[k].keyword)
  {
    KeywordsUpperCaseFirstHalf();
    KeywordsUpperCaseSecondHalf();
  }

  lemma FirstPartsPlain()
    ensures forall k :: 0 <= k < |WordList| ==> WordList[k].parts.0 != []
    ensures forall k, i :: 0 <= k < |WordList| && 0 <= i < |WordList[k].parts.0| ==> IsPlainChar(WordList[k].parts.0[i])
  {
  }

  lemma SecondPartsPlain()
    ensures forall k :: 0 <= k < |WordList| ==> WordList[k].parts.1 != []
    ensures forall k, i :: 0 <= k < |WordList| && 0 <= i < |WordList[k].parts.1| ==> IsPlainChar(WordList[k].parts.1[i])
  {
  }

  lemma PartsPlain()
    ensures forall k :: 0 <= k < |WordList| ==> WordList[k].parts.0 != [] && WordList[k].parts.1 != []
    ensures forall k, i :: 0 <= k < |WordList| && 0 <= i < |WordList[k].parts.0| ==> IsPlainChar(WordList[k].parts.0[i])
    ensures forall k, i :: 0 <= k < |WordList| && 0 <= i < |WordList[k].parts.1| ==> IsPlainChar(WordList[k].parts.1[i])
  {
    FirstPartsPlain();
    SecondPartsPlain();
  }

  /** Any puzzle built like the bank's entries is well formed. */
  lemma WellFormedByParts(w: Word)
    requires JoinsParts(w) && IsUpperCase(w.keyword)
    requires w.parts.0 != [] && w.parts.1 != []
    requires forall i :: 0 <= i < |w.parts.0| ==> IsPlainChar(w.parts.0[i])
    requires forall i :: 0 <= i < |w.parts.1| ==> IsPlainChar(w.parts.1[i])
    ensures WellFormed(w)
  {
    var (p0, p1) := w.parts;
    forall i | 0 <= i < |p0| ensures UpperChar(p0[i]) == p0[i] {
      assert p0[i] == w.keyword[i];
    }
    forall i | 0 <= i < |p1| ensures UpperChar(p1[i]) == p1[i] {
      assert p1[i] == w.keyword[|p0| + 1 + i];
    }
    UpperCaseFixed(p0);
    UpperCaseFixed(p1);
    UpperCaseFixed(w.keyword);
  }

  /** Every entry of the word bank is well formed: this is what lets the
      client use a part as a regular expression and get literal matching. */
  lemma WordListWellFormed()
    ensures forall k :: 0 <= k < |WordList| ==> WellFormed(WordList[k])
  {
    KeywordsJoinParts();
    KeywordsUpperCase();
    PartsPlain();
    forall k | 0 <= k < |WordList| ensures WellFormed(WordList[k]) {
      WellFormedByParts(WordList[k]);
    }
  }

  lemma MockedPlayersConsistent()
    ensures MockedPlayers.Keys == {"player1", "player2", "player3"}
    ensures forall k :: k in MockedPlayers ==> MockedPlayers[k].id == k
    ensures forall k, k' :: k in MockedPlayers && k' in MockedPlayers && k != k' ==> MockedPlayers[k].role != MockedPlayers[k'].role
    ensures forall k :: k in MockedPlayers && MockedPlayers[k].role == Guesser <==> k == "player3"
  {
  }
}

/** Worked examples of the keyword display for the first puzzle of the word
    bank, GUARDA-CHUVA, as the guesser sees it. */
module DisplayExamples {
  import opened Wrappers
  import opened Types
  import opened JsBuiltins
  import opened GameInfo
  import opened Data

  /** Masking GUARDA in the keyword leaves the hyphen and CHUVA alone. */
  lemma MaskGuarda()
    ensures ReplaceAll("GUARDA-CHUVA", "GUARDA") == "______-CHUVA"
  {
    var kw := "GUARDA-CHUVA";
    assert kw[..6] == "GUARDA" && kw[6..] == "-CHUVA";
    SameIgnoringCaseReflexive("GUARDA");
    ReplaceAllMatch(kw, "GUARDA");
    assert !SameIgnoringCase("-CHUVA"[..6], "GUARDA") by {
      assert "-CHUVA"[..6] == "-CHUVA";
      assert UpperChar("-CHUVA"[0]) != UpperChar("GUARDA"[0]);
    }
    ReplaceAllStep("-CHUVA", "GUARDA");
    assert "-CHUVA"[1..] == "CHUVA";
    assert Mask("GUARDA") == "______";
    assert "______" + ("-" + "CHUVA") == "______-CHUVA";
  }
  lemma NoEarlyChuva()
    ensures forall j :: 0 <= j < 7 ==> !OccursAt("______-CHUVA", "CHUVA", j)
  {
    var t := "______-CHUVA";
    forall j | 0 <= j < 7 ensures !OccursAt(t, "CHUVA", j) {
      assert UpperChar(t[j]) != UpperChar("CHUVA"[0]);
      assert t[j..j + 5][0] == t[j];
    }
  }
  lemma MaskWholeChuva()
    ensures ReplaceAll("CHUVA", "CHUVA") == "_____"
  {
    assert "CHUVA"[..5] == "CHUVA";
    assert "CHUVA"[5..] == [];
    assert Mask("CHUVA") == "_____";
  }
  lemma SkipToChuva()
    ensures ReplaceAll("______-CHUVA", "CHUVA") == "______-" + ReplaceAll("CHUVA", "CHUVA")
  {
    var t := "______-CHUVA";
    NoEarlyChuva();
    ReplaceAllSkips(t, "CHUVA", 7);
    assert t[..7] == "______-";
    assert t[7..] == "CHUVA";
  }
  lemma MaskChuva()
    ensures ReplaceAll("______-CHUVA", "CHUVA") == "______-_____"
  {
    SkipToChuva();
    MaskWholeChuva();
    assert "______-" + "_____" == "______-_____";
  }
  lemma SpacedChuvaPart()
    ensures Spaced("CHUVA") == "C H U V A"
  {
  }

  lemma SpacedChuva()
    ensures Spaced("______-CHUVA") == "_ _ _ _ _ _ - C H U V A"
  {
    var a, b := "______-", "CHUVA";
    assert a + b == "______-CHUVA";
    SpacedAppend(a, b);
    SpacedMaskedGuarda();
    SpacedChuvaPart();
    assert "_ _ _ _ _ _ -" + " " + "C H U V A" == "_ _ _ _ _ _ - C H U V A";
  }

  lemma SpacedMaskedGuarda()
    ensures Spaced("______-") == "_ _ _ _ _ _ -"
  {
  }

  lemma SpacedMaskedChuva()
    ensures Spaced("_____") == "_ _ _ _ _"
  {
  }

  lemma SpacedAllMasked()
    ensures Spaced("______-_____") == "_ _ _ _ _ _ - _ _ _ _ _"
  {
    var a, b := "______-", "_____";
    assert a + b == "______-_____";
    SpacedAppend(a, b);
    SpacedMaskedGuarda();
    SpacedMaskedChuva();
    assert "_ _ _ _ _ _ -" + " " + "_ _ _ _ _" == "_ _ _ _ _ _ - _ _ _ _ _";
  }

  lemma NothingGuessedUnguessed()
    ensures Unguessed(("GUARDA", "CHUVA"), []) == ["GUARDA", "CHUVA"]
  {
    FilterKeepsAll(["GUARDA", "CHUVA"], p => Upper(p) !in []);
  }

  lemma ChuvaGuessedUnguessed()
    ensures Unguessed(("GUARDA", "CHUVA"), ["CHUVA"]) == ["GUARDA"]
  {
    assert IsUpperCase("CHUVA");
    UpperCaseFixed("CHUVA");
    assert Upper("GUARDA") != "CHUVA";
  }

  lemma MaskBothParts()
    ensures MaskAll("GUARDA-CHUVA", ["GUARDA", "CHUVA"]) == "______-_____"
  {
    MaskGuarda();
    MaskChuva();
    assert ["GUARDA", "CHUVA"][1..] == ["CHUVA"];
    assert ["CHUVA"][1..] == [];
  }

  /** A game on GUARDA-CHUVA with the given parts guessed. */
  function GuardaChuvaGame(partsGuessed: seq<string>): GameState {
    GameState(Some(Word(("GUARDA", "CHUVA"), "GUARDA-CHUVA")), Drawer("player1", "GUARDA"), Drawer("player2", "CHUVA"), [], 0, partsGuessed)
  }

  /** With nothing guessed the guesser sees only the hyphen. */
  lemma NothingGuessedDisplay(guesser: Player)
    requires guesser.role == Guesser
    ensures KeywordDisplay(GuardaChuvaGame([]), Some(guesser)) == "_ _ _ _ _ _ - _ _ _ _ _"
  {
    NothingGuessedUnguessed();
    MaskBothParts();
    SpacedAllMasked();
  }

  /** Once CHUVA is guessed the guesser sees it, and GUARDA stays masked. */
  lemma ChuvaGuessedDisplay(guesser: Player)
    requires guesser.role == Guesser
    ensures KeywordDisplay(GuardaChuvaGame(["CHUVA"]), Some(guesser)) == "_ _ _ _ _ _ - C H U V A"
  {
    ChuvaGuessedUnguessed();
    MaskGuarda();
    assert ["GUARDA"][1..] == [];
    SpacedChuva();
  }

  /** The game above is on the bank's first puzzle, and player3 is the
      guesser of the roster. */
  lemma ExampleFromTables()
    ensures WordList[0] == Word(("GUARDA", "CHUVA"), "GUARDA-CHUVA")
    ensures MockedPlayers["player3"].role == Guesser
  {
  }
}

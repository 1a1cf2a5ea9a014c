/** The choices of the console's main menu. */
module MainMenu {
  import opened Wrappers
  import EnumTrait

  /** The cases as the enum declares them: CREATE_FLASHCARD = 1 through EXIT = 6, and nothing for deleting. */
  function SourceCases(): seq<EnumTrait.EnumCase>
  {
    [ EnumTrait.EnumCase("CREATE_FLASHCARD", 1), EnumTrait.EnumCase("LIST_ALL_FLASHCARDS", 2),
      EnumTrait.EnumCase("PRACTICE", 3), EnumTrait.EnumCase("STATS", 4),
      EnumTrait.EnumCase("RESET", 5), EnumTrait.EnumCase("EXIT", 6) ]
  }

  /**
   * The cases the menu's dispatcher needs: the declared ones plus DELETE_FLASHCARD, given the unused value 7
   * and declared before EXIT, so that every existing value, and the default 6 for EXIT, stay as they are.
   */
  function Cases(): seq<EnumTrait.EnumCase>
  {
    [ EnumTrait.EnumCase("CREATE_FLASHCARD", 1), EnumTrait.EnumCase("LIST_ALL_FLASHCARDS", 2),
      EnumTrait.EnumCase("PRACTICE", 3), EnumTrait.EnumCase("STATS", 4),
      EnumTrait.EnumCase("RESET", 5), EnumTrait.EnumCase("DELETE_FLASHCARD", 7),
      EnumTrait.EnumCase("EXIT", 6) ]
  }

  /** The menu's default choice, the value of EXIT. */
  const Default: int := 6

  lemma CreateLabel() ensures EnumTrait.Label("CREATE_FLASHCARD") == "Create Flashcard"
  {
    EnumTrait.LabelIs("CREATE_FLASHCARD", "Create Flashcard");
  }

  lemma ListAllLabel() ensures EnumTrait.Label("LIST_ALL_FLASHCARDS") == "List All Flashcards"
  {
    EnumTrait.LabelIs("LIST_ALL_FLASHCARDS", "List All Flashcards");
  }

  lemma PracticeLabel() ensures EnumTrait.Label("PRACTICE") == "Practice"
  {
    EnumTrait.LabelIs("PRACTICE", "Practice");
  }

  lemma StatsLabel() ensures EnumTrait.Label("STATS") == "Stats"
  {
    EnumTrait.LabelIs("STATS", "Stats");
  }

  lemma ResetLabel() ensures EnumTrait.Label("RESET") == "Reset"
  {
    EnumTrait.LabelIs("RESET", "Reset");
  }

  lemma DeleteLabel() ensures EnumTrait.Label("DELETE_FLASHCARD") == "Delete Flashcard"
  {
    EnumTrait.LabelIs("DELETE_FLASHCARD", "Delete Flashcard");
  }

  lemma ExitLabel() ensures EnumTrait.Label("EXIT") == "Exit"
  {
    EnumTrait.LabelIs("EXIT", "Exit");
  }

  /** Labels as the menu shows them. */
  lemma CaseLabels()
    ensures EnumTrait.Label("CREATE_FLASHCARD") == "Create Flashcard"
    ensures EnumTrait.Label("LIST_ALL_FLASHCARDS") == "List All Flashcards"
    ensures EnumTrait.Label("PRACTICE") == "Practice"
    ensures EnumTrait.Label("STATS") == "Stats"
    ensures EnumTrait.Label("RESET") == "Reset"
    ensures EnumTrait.Label("DELETE_FLASHCARD") == "Delete Flashcard"
    ensures EnumTrait.Label("EXIT") == "Exit"
  {
    CreateLabel();
    ListAllLabel();
    PracticeLabel();
    StatsLabel();
    ResetLabel();
    DeleteLabel();
    ExitLabel();
  }

  /** Both case lists have distinct values; the declared one holds 1 to 6 in order. */
  lemma DeclaredValues()
    ensures |SourceCases()| == 6 && EnumTrait.DistinctValues(SourceCases())
    ensures forall i :: 0 <= i < 6 ==> SourceCases()[i].value == i + 1
    ensures |Cases()| == 7 && EnumTrait.DistinctValues(Cases())
  {
  }

  /** The default choice 6 is shown as "Exit", in the declared menu and in the completed one. */
  lemma DefaultIsExit()
    ensures EnumTrait.LabelFor(EnumTrait.Table(SourceCases()), Default) == Some("Exit")
    ensures EnumTrait.LabelFor(EnumTrait.Table(Cases()), Default) == Some("Exit")
  {
    DeclaredValues();
    ExitLabel();
    EnumTrait.LabelForCase(SourceCases(), 5);
    EnumTrait.LabelForCase(Cases(), 6);
  }

  /**
   * toArray as written: whichever enum it is called on, it walks MainMenu's cases, so the table it
   * builds ignores the caller's own cases.
   */
  method ToArrayAsWritten(callerCases: seq<EnumTrait.EnumCase>) returns (table: seq<(int, string)>)
    ensures table == EnumTrait.Table(SourceCases())
  {
    DeclaredValues();
    table := EnumTrait.ToArray(SourceCases());
  }

  /** The three-case enum of the unit test: its expected table is not what toArray as written returns. */
  lemma ToArrayAsWrittenMisses()
    ensures var testCases := [EnumTrait.EnumCase("TEST_VALUE_1", 1), EnumTrait.EnumCase("TEST_VALUE_2", 2),
                              EnumTrait.EnumCase("TEST_VALUE_3", 3)];
            EnumTrait.Table(SourceCases()) != EnumTrait.Table(testCases)
            && EnumTrait.Table(testCases)[0] == (1, "Test Value 1")
  {
    EnumTrait.TestValueLabel();
  }
}

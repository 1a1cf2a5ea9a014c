/** The outcome recorded for one user on one flashcard, stored as a small integer backing value. */
module FlashcardStatus {
  import opened Wrappers
  import EnumTrait

  datatype Status = NotAnswered | Correct | Incorrect

  /** The backing value held in the `status` column. */
  function Value(s: Status): int
  {
    match s
    case NotAnswered => 0
    case Correct => 1
    case Incorrect => 2
  }

  function Name(s: Status): string
  {
    match s
    case NotAnswered => "NOT_ANSWERED"
    case Correct => "CORRECT"
    case Incorrect => "INCORRECT"
  }

  /** The enum's cases in declaration order. */
  function Cases(): seq<EnumTrait.EnumCase>
  {
    [EnumTrait.EnumCase("NOT_ANSWERED", 0), EnumTrait.EnumCase("CORRECT", 1), EnumTrait.EnumCase("INCORRECT", 2)]
  }

  /** The cast from the stored integer back to a status; any other integer is not a status. */
  function From(v: int): (r: Option<Status>)
    ensures r.Some? <==> 0 <= v <= 2
    ensures r.Some? ==> Value(r.value) == v
  {
    if v == 0 then Some(NotAnswered)
    else if v == 1 then Some(Correct)
    else if v == 2 then Some(Incorrect)
    else None
  }

  /** Storing a status and casting it back gives the same status: the three values are distinct. */
  lemma ValueRoundTrip(s: Status)
    ensures From(Value(s)) == Some(s)
    ensures forall t :: Value(t) == Value(s) ==> t == s
  {
  }

  /** Every status is a declared case with its own name and value, and there are exactly three. */
  lemma CasesDeclareEveryStatus(s: Status)
    ensures |Cases()| == 3 && EnumTrait.DistinctValues(Cases())
    ensures EnumTrait.EnumCase(Name(s), Value(s)) in Cases()
  {
  }

  function Label(s: Status): string
  {
    EnumTrait.Label(Name(s))
  }

  lemma NotAnsweredLabel() ensures Label(NotAnswered) == "Not Answered"
  {
    EnumTrait.LabelIs("NOT_ANSWERED", "Not Answered");
  }

  lemma CorrectLabel() ensures Label(Correct) == "Correct"
  {
    EnumTrait.LabelIs("CORRECT", "Correct");
  }

  lemma IncorrectLabel() ensures Label(Incorrect) == "Incorrect"
  {
    EnumTrait.LabelIs("INCORRECT", "Incorrect");
  }

  /** The labels shown in the progress table, one per status and all different. */
  lemma Labels()
    ensures Label(NotAnswered) == "Not Answered"
    ensures Label(Correct) == "Correct"
    ensures Label(Incorrect) == "Incorrect"
    ensures forall s, t :: Label(s) == Label(t) ==> s == t
  {
    NotAnsweredLabel();
    CorrectLabel();
    IncorrectLabel();
  }
}

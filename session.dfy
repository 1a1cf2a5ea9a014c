/**
 * The interactive console command as the object it is: it holds the store, the menu enum's cases and
 * the session's username, reads lines from its input and writes messages to its output, and each of
 * its methods is proved to do exactly what the corresponding function of SessionSpec describes.
 */
module Session {
  import opened Wrappers
  import Seqs
  import opened Ascii
  import EnumTrait
  import opened FlashcardStatus
  import opened Models
  import opened Store
  import opened SessionSpec

  class FlashcardInteractive {
    const store: FlashcardStore
    /** The cases of the enum the main menu is built from. */
    const cases: seq<EnumTrait.EnumCase>
    var username: string
    var input: seq<Event>
    var output: seq<Message>

    ghost predicate Valid()
      reads this, store
    {
      store.Valid() && EnumTrait.DistinctValues(cases)
    }

    /** The state after a step: the store, the input left and the output written are the run's. */
    ghost predicate Reflects(r: Run, before: seq<Message>, outcome: Outcome)
      reads this, store
    {
      store.Value() == r.db && input == r.rest && output == before + r.out && outcome == r.outcome
    }

    constructor (store: FlashcardStore, cases: seq<EnumTrait.EnumCase>, input: seq<Event>)
      requires store.Valid() && EnumTrait.DistinctValues(cases)
      ensures Valid() && this.store == store && this.cases == cases
      ensures this.input == input && output == [] && username == ""
    {
      this.store := store;
      this.cases := cases;
      this.input := input;
      output := [];
      username := "";
    }

    /** askRequired: asks until a line is non-empty and at most 255 characters long. */
    method AskRequired() returns (answer: Option<string>)
      modifies this
      ensures var a := SessionSpec.AskRequired(old(input));
        answer == a.value && input == a.rest && output == old(output) + a.out
      ensures username == old(username)
    {
      ghost var events := input;
      ghost var k := 0;
      while true
        invariant 0 <= k <= |events| && input == events[k..]
        invariant forall j :: 0 <= j < k ==> !Accepted(events[j])
        invariant output == old(output) + Rejections(events[..k])
        invariant username == old(username)
        decreases |input|
      {
        if input == [] {
          assert events[..k] == events;
          return None;
        }
        var e := input[0];
        input := input[1..];
        assert e == events[k] && input == events[k + 1..];
        var asked := Asked(e);
        if asked.Some? && |asked.value| <= MaxLength {
          FirstAcceptedAt(events, k);
          return asked;
        }
        RejectionsAppend(events, k);
        Seqs.ConcatAssoc(old(output), Rejections(events[..k]), [Rejection(e)]);
        if asked.None? {
          output := output + [FieldEmpty];
        } else {
          output := output + [FieldTooLong];
        }
        k := k + 1;
      }
    }

    /** askUsername: the name, lower-cased, becomes the session's username. */
    method AskUsername() returns (outcome: Outcome)
      modifies this
      ensures var a := SessionSpec.AskUsername(old(input));
        input == a.rest && output == old(output) + a.out
        && (if a.value.Some? then outcome == Done && username == a.value.value
            else outcome == OutOfInput && username == old(username))
    {
      var name := AskRequired();
      if name.None? {
        return OutOfInput;
      }
      username := Lower(name.value);
      return Done;
    }

    /** createFlashcard. */
    method CreateFlashcard() returns (outcome: Outcome)
      requires Valid()
      modifies this, store
      ensures Valid() && username == old(username)
      ensures Reflects(CreateStep(old(store.Value()), old(input)), old(output), outcome)
    {
      ghost var before := output;
      var question := AskRequired();
      if question.None? {
        return OutOfInput;
      }
      ghost var asked := output[|before|..];
      var answer := AskRequired();
      Seqs.ConcatAssoc(before, asked, output[|before| + |asked|..]);
      if answer.None? {
        return OutOfInput;
      }
      var _ := store.Create(question.value, answer.value);
      output := output + [FlashcardCreated];
      return Done;
    }

    /** listFlashcards. */
    method ListFlashcards()
      requires Valid()
      modifies this
      ensures Valid() && username == old(username) && input == old(input)
      ensures output == old(output) + [ListView(store.Value())]
    {
      output := output + [ListView(store.Value())];
    }

    /** displayProgress. */
    method DisplayProgress()
      requires Valid()
      modifies this
      ensures Valid() && username == old(username) && input == old(input)
      ensures output == old(output) + [ProgressView(store.Value(), username)]
    {
      output := output + [ProgressView(store.Value(), username)];
    }

    /**
     * One pass of practiceFlashcards after the table is shown: None when the loop goes on, otherwise the
     * outcome it ends with (Done on 0 or an empty line, OutOfInput when the answer never comes).
     */
    method PracticePass() returns (stop: Option<Outcome>, ghost t: Turn)
      requires Valid() && |input| > 0
      modifies this, store
      ensures Valid() && username == old(username)
      ensures t == PracticeTurn(old(store.Value()), username, old(input))
      ensures input == t.rest
      ensures stop.None? <==> t.Next?
      ensures t.Next? ==> store.Value() == t.db && output == old(output) + t.out
      ensures t.Leave? ==> stop == Some(Done) && store.Value() == old(store.Value()) && output == old(output)
      ensures t.Abort? ==> stop == Some(OutOfInput) && store.Value() == old(store.Value()) && output == old(output) + t.out
    {
      t := PracticeTurn(store.Value(), username, input);
      var id := IdOf(input[0], Some(0));
      input := input[1..];
      if id == Some(0) {
        return Some(Done), t;
      }
      var card := if id.Some? then FindCard(store.cards, id.value) else None;
      if card.None? {
        output := output + [FlashcardNotFound];
        return None, t;
      }
      if UserStatus(store.records, card.value.id, username) == Correct {
        output := output + [AlreadyCorrect];
        return None, t;
      }
      var answer := AskRequired();
      if answer.None? {
        return Some(OutOfInput), t;
      }
      var right := IsRightAnswer(card.value, answer.value);
      store.UpdateOrCreate(card.value.id, username, if right then Correct else Incorrect);
      output := output + [if right then CorrectAnswer else IncorrectAnswer];
      return None, t;
    }

    /** A pass of practiceFlashcards with its progress table, stated against the whole loop. */
    method PracticeStep(ghost db: Db, ghost u: string, ghost events: seq<Event>)
      returns (stop: Option<Outcome>, ghost written: seq<Message>, ghost db': Db, ghost rest: seq<Event>)
      requires Valid() && store.Value() == db && username == u && input == events && |events| > 0
      modifies this, store
      ensures Valid() && username == u && store.Value() == db' && input == rest
      ensures output == old(output) + written
      ensures stop.None? ==> |rest| < |events| && PracticeLoop(db, u, events) == Prepend(written, PracticeLoop(db', u, rest))
      ensures stop.Some? ==> PracticeLoop(db, u, events) == Run(db', rest, written, stop.value)
    {
      ghost var before := output;
      DisplayProgress();
      PracticeLoopUnfolds(db, u, events);
      ghost var t;
      stop, t := PracticePass();
      db', rest := store.Value(), input;
      written := [ProgressView(db, u)] + (if t.Leave? then [] else t.out);
      Seqs.ConcatAssoc(before, [ProgressView(db, u)], if t.Leave? then [] else t.out);
    }

    /** The loop of practiceFlashcards: the progress table, then a pass, until the user leaves. */
    method PracticeUntilLeft() returns (outcome: Outcome)
      requires Valid()
      modifies this, store
      ensures Valid() && username == old(username)
      ensures Reflects(PracticeLoop(old(store.Value()), username, old(input)), old(output), outcome)
    {
      ghost var u := username;
      ghost var spec := PracticeLoop(store.Value(), u, input);
      ghost var written: seq<Message> := [];
      ghost var db := store.Value();
      ghost var events := input;
      while input != []
        invariant Valid() && username == u && store.Value() == db && input == events
        invariant output == old(output) + written
        invariant spec == Prepend(written, PracticeLoop(db, u, events))
        decreases |events|
      {
        ghost var more, db', rest;
        var stop;
        stop, more, db', rest := PracticeStep(db, u, events);
        if stop.Some? {
          PrependTwice(old(output), written, PracticeLoop(db, u, events));
          return stop.value;
        }
        PrependTwice(written, more, PracticeLoop(db', u, rest));
        Seqs.ConcatAssoc(old(output), written, more);
        written, db, events := written + more, db', rest;
      }
      PracticeLoopEnds(db, u);
      PrependTwice(old(output), written, PracticeLoop(db, u, events));
      DisplayProgress();
      return Done;
    }

    /** practiceFlashcards: with no cards there is nothing to practise. */
    method PracticeFlashcards() returns (outcome: Outcome)
      requires Valid()
      modifies this, store
      ensures Valid() && username == old(username)
      ensures Reflects(Practice(old(store.Value()), username, old(input)), old(output), outcome)
    {
      if |store.cards| == 0 {
        output := output + [NothingToPractice];
        return Done;
      }
      outcome := PracticeUntilLeft();
    }

    /** displayStats. */
    method DisplayStats()
      requires Valid()
      modifies this
      ensures Valid() && username == old(username) && input == old(input)
      ensures output == old(output) + [StatsView(store.Value(), username)]
    {
      output := output + [StatsView(store.Value(), username)];
    }

    /** resetProgress. */
    method ResetProgress() returns (outcome: Outcome)
      requires Valid()
      modifies this, store
      ensures Valid() && username == old(username)
      ensures Reflects(ResetStep(old(store.Value()), username, old(input)), old(output), outcome)
    {
      if input == [] {
        return Done;
      }
      var e := input[0];
      input := input[1..];
      if Confirmed(e) {
        store.DeleteWhereUsername(username);
        output := output + [ProgressReset];
      }
      return Done;
    }

    /** deleteFlashcard. */
    method DeleteFlashcard() returns (outcome: Outcome)
      requires Valid()
      modifies this, store
      ensures Valid() && username == old(username)
      ensures Reflects(DeleteStep(old(store.Value()), old(input)), old(output), outcome)
    {
      output := output + [DeletionView(store.Value())];
      if input == [] {
        return OutOfInput;
      }
      var id := IdOf(input[0], None);
      input := input[1..];
      if id.None? || FindCard(store.cards, id.value).None? {
        output := output + [DeletionNotFound];
        return Done;
      }
      store.Delete(id.value);
      return Done;
    }

    /** The arm of the main menu's switch that runs a command. */
    method Perform(action: Action) returns (outcome: Outcome)
      requires Valid()
      modifies this, store
      ensures Valid() && username == old(username)
      ensures Reflects(Step(action, old(store.Value()), username, old(input)), old(output), outcome)
    {
      match action
      case Creating => outcome := CreateFlashcard();
      case Listing => ListFlashcards(); outcome := Done;
      case Practicing => outcome := PracticeFlashcards();
      case ShowingStats => DisplayStats(); outcome := Done;
      case Resetting => outcome := ResetProgress();
      case Deleting => outcome := DeleteFlashcard();
      case Exiting => outcome := Done;
    }

    /** One pass of displayMainMenu: None when the menu is shown again, otherwise the outcome it ends with. */
    method MenuOnce() returns (stop: Option<Outcome>, ghost t: MenuTurn)
      requires Valid() && |input| > 0
      modifies this, store
      ensures Valid() && username == old(username)
      ensures t == MenuPass(cases, old(store.Value()), username, old(input))
      ensures stop.None? <==> t.Again?
      ensures t.Again? ==> store.Value() == t.db && input == t.rest && output == old(output) + t.out
      ensures t.Stop? ==> stop == Some(t.run.outcome) && Reflects(t.run, old(output), t.run.outcome)
    {
      t := MenuPass(cases, store.Value(), username, input);
      var table := EnumTrait.ToArray(cases);
      var choice := Choice(input[0], table);
      input := input[1..];
      if choice.None? {
        output := output + [ChoiceRejected];
        stop := None;
        return;
      }
      match Switch(choice.value, cases, Arms())
      case Undefined(name) =>
        stop := Some(Crashed(name));
      case NoMatch =>
        output := output + [InvalidChoice];
        stop := None;
      case Matched(action) =>
        if action == Exiting {
          stop := Some(Done);
        } else {
          var o := Perform(action);
          stop := if o == Done then None else Some(o);
        }
    }

    /** A pass of displayMainMenu, stated against the whole loop: what it writes is the loop's output so far. */
    method MenuStep() returns (stop: Option<Outcome>, ghost written: seq<Message>)
      requires Valid() && |input| > 0
      modifies this, store
      ensures Valid() && username == old(username)
      ensures stop.None? ==> |input| < |old(input)| && output == old(output) + written
      ensures stop.None? ==>
        MenuLoop(cases, old(store.Value()), username, old(input)) == Prepend(written, MenuLoop(cases, store.Value(), username, input))
      ensures stop.Some? ==> Reflects(MenuLoop(cases, old(store.Value()), username, old(input)), old(output), stop.value)
    {
      MenuLoopUnfolds(cases, store.Value(), username, input);
      ghost var t;
      stop, t := MenuOnce();
      written := if t.Stop? then t.run.out else t.out;
    }

    /** displayMainMenu: passes until Exit or an undefined case; at the end of input, the default choice. */
    method DisplayMainMenu() returns (outcome: Outcome)
      requires Valid()
      modifies this, store
      ensures Valid() && username == old(username)
      ensures Reflects(MenuLoop(cases, old(store.Value()), username, old(input)), old(output), outcome)
    {
      ghost var spec := MenuLoop(cases, store.Value(), username, input);
      ghost var written: seq<Message> := [];
      while input != []
        invariant Valid() && username == old(username)
        invariant output == old(output) + written
        invariant spec == Prepend(written, MenuLoop(cases, store.Value(), username, input))
        decreases |input|
      {
        ghost var rest := MenuLoop(cases, store.Value(), username, input);
        ghost var mid := output;
        ghost var more;
        var stop;
        stop, more := MenuStep();
        if stop.Some? {
          PrependTwice(old(output), written, rest);
          return stop.value;
        }
        ghost var next := MenuLoop(cases, store.Value(), username, input);
        assert rest == Prepend(more, next);
        PrependTwice(written, more, next);
        assert output == old(output) + (written + more);
        written := written + more;
      }
      PrependTwice(old(output), written, MenuAtEnd(cases, store.Value()));
      var table := EnumTrait.ToArray(cases);
      var choice := Choice(Enter, table);
      if choice.None? {
        return OutOfInput;
      }
      match Switch(choice.value, cases, Arms())
      case Undefined(name) =>
        outcome := Crashed(name);
      case Matched(action) =>
        outcome := if action == Exiting then Done else OutOfInput;
      case NoMatch =>
        outcome := OutOfInput;
    }

    /** handle: the username, then the main menu. */
    method Handle() returns (outcome: Outcome)
      requires Valid()
      modifies this, store
      ensures Valid()
      ensures Reflects(Command(cases, old(store.Value()), old(input)), old(output), outcome)
    {
      outcome := AskUsername();
      if outcome != Done {
        return;
      }
      outcome := DisplayMainMenu();
    }
  }
}

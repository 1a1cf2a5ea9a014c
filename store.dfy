/**
 * The database the console works on: the flashcards table and the flashcard_progress table with the
 * constraints its migration declares (a unique (flashcard_id, username) pair and a foreign key to
 * flashcards that cascades on delete), and the operations the console performs on them.
 */
module Store {
  import opened Wrappers
  import opened Seqs
  import opened FlashcardStatus
  import opened Models

  /** Both tables, and the id the next flashcard will receive (ids start at 1; 0 is never an id). */
  datatype Db = Db(cards: seq<Card>, records: seq<Progress>, nextId: nat)

  function Key(p: Progress): (nat, string)
  {
    (p.flashcardId, p.username)
  }

  /** The unique index: no two records share a (flashcard_id, username) pair. */
  predicate UniqueKeys(records: seq<Progress>)
  {
    Pairwise(records, (p: Progress, q: Progress) => Key(p) != Key(q))
  }

  /** The foreign key: every record names an existing flashcard. */
  predicate References(cards: seq<Card>, records: seq<Progress>)
  {
    forall p :: p in records ==> FindCard(cards, p.flashcardId).Some?
  }

  /** Auto-increment ids: positive, below the next id, increasing in table order. */
  predicate IdsAssigned(cards: seq<Card>, nextId: nat)
  {
    && (forall c :: c in cards ==> 0 < c.id < nextId)
    && Pairwise(cards, (c: Card, d: Card) => c.id < d.id)
  }

  predicate Inv(db: Db)
  {
    && 0 < db.nextId
    && IdsAssigned(db.cards, db.nextId)
    && UniqueKeys(db.records)
    && References(db.cards, db.records)
  }

  lemma InvIdsDistinct(db: Db)
    requires Inv(db)
    ensures IdsDistinct(db.cards)
  {
    forall i, j | 0 <= i < j < |db.cards| ensures db.cards[i].id != db.cards[j].id {
      assert db.cards[i].id < db.cards[j].id;
    }
  }

  /** The only record for the pair is found first: a record's status is the pair's status. */
  lemma UserStatusOfRecord(records: seq<Progress>, p: Progress)
    requires UniqueKeys(records) && p in records
    ensures UserStatus(records, p.flashcardId, p.username) == p.status
  {
    var j :| 0 <= j < |records| && records[j] == p;
    var i := FirstIndex(records, p.flashcardId, p.username).value;
    assert i < j ==> Key(records[i]) != Key(records[j]);
  }

  /** A user's status on a card is Correct exactly when that user has a Correct record on it. */
  lemma StatusIsRecorded(records: seq<Progress>, id: nat, u: string, s: Status)
    requires UniqueKeys(records) && s != NotAnswered
    ensures UserStatus(records, id, u) == s <==> Progress(id, u, s) in records
  {
    if Progress(id, u, s) in records {
      UserStatusOfRecord(records, Progress(id, u, s));
    }
  }

  /** updateOrCreate: overwrite the status of the pair's record, or add the record if there is none. */
  function Upsert(records: seq<Progress>, id: nat, u: string, s: Status): (r: seq<Progress>)
    ensures Progress(id, u, s) in r
    ensures forall p :: !IsFor(p, id, u) ==> (p in r <==> p in records)
    ensures |r| == if FirstIndex(records, id, u).Some? then |records| else |records| + 1
    ensures UniqueKeys(records) ==> UniqueKeys(r)
  {
    match FirstIndex(records, id, u)
    case Some(i) =>
      var r := records[i := Progress(id, u, s)];
      assert forall j :: 0 <= j < |r| ==> Key(r[j]) == Key(records[j]);
      assert forall p :: !IsFor(p, id, u) ==> (p in r <==> p in records) by {
        forall p | !IsFor(p, id, u) ensures p in r <==> p in records {
          if p in records {
            var j :| 0 <= j < |records| && records[j] == p;
            assert r[j] == p;
          }
        }
      }
      r
    case None =>
      var r := records + [Progress(id, u, s)];
      assert forall j :: 0 <= j < |records| ==> r[j] == records[j];
      r
  }

  /** Upserting the same pair twice leaves what the second upsert alone would: the last status wins. */
  lemma UpsertTwice(records: seq<Progress>, id: nat, u: string, s1: Status, s2: Status)
    ensures Upsert(Upsert(records, id, u, s1), id, u, s2) == Upsert(records, id, u, s2)
  {
    var once := Upsert(records, id, u, s1);
    match FirstIndex(records, id, u)
    case Some(i) =>
      FirstIndexAt(once, id, u, i);
    case None =>
      FirstIndexAt(once, id, u, |records|);
  }

  /** A record for the pair with none before it is what the lookup finds. */
  lemma FirstIndexAt(records: seq<Progress>, id: nat, u: string, i: nat)
    requires i < |records| && IsFor(records[i], id, u)
    requires forall j :: 0 <= j < i ==> !IsFor(records[j], id, u)
    ensures FirstIndex(records, id, u) == Some(i)
  {
  }

  /** After an upsert the pair's status is the new one, and every other pair's status is as before. */
  lemma UpsertStatus(records: seq<Progress>, id: nat, u: string, s: Status, id': nat, u': string)
    ensures UserStatus(Upsert(records, id, u, s), id, u) == s
    ensures (id', u') != (id, u) ==>
      UserStatus(Upsert(records, id, u, s), id', u') == UserStatus(records, id', u')
  {
    var r := Upsert(records, id, u, s);
    match FirstIndex(records, id, u)
    case Some(i) =>
      FirstIndexAt(r, id, u, i);
      if (id', u') != (id, u) {
        assert forall j :: 0 <= j < |r| ==> (IsFor(r[j], id', u') <==> IsFor(records[j], id', u'));
        match FirstIndex(records, id', u')
        case Some(k) => FirstIndexAt(r, id', u', k);
        case None =>
      }
    case None =>
      FirstIndexAt(r, id, u, |records|);
      if (id', u') != (id, u) {
        assert forall j :: 0 <= j < |records| ==> r[j] == records[j];
        match FirstIndex(records, id', u')
        case Some(k) => FirstIndexAt(r, id', u', k);
        case None =>
      }
  }

  /** Flashcard::create: the new card gets the next id; nothing else changes. */
  function CreateCard(db: Db, question: string, answer: string): (r: Db)
    ensures Inv(db) ==> Inv(r) && FindCard(r.cards, db.nextId) == Some(Card(db.nextId, question, answer))
    ensures forall c :: c in db.cards ==> c in r.cards
    ensures r.records == db.records
  {
    var card := Card(db.nextId, question, answer);
    var r := Db(db.cards + [card], db.records, db.nextId + 1);
    assert forall c :: c in r.cards <==> c in db.cards || c == card;
    if Inv(db) then
      assert Inv(r) by {
        assert forall i :: 0 <= i < |db.cards| ==> r.cards[i] == db.cards[i];
        assert forall p :: p in r.records ==> FindCard(r.cards, p.flashcardId).Some? by {
          forall p | p in r.records ensures FindCard(r.cards, p.flashcardId).Some? {
            assert FindCard(db.cards, p.flashcardId).Some?;
          }
        }
      }
      InvIdsDistinct(r);
      FindCardIsUnique(r.cards, card);
      r
    else r
  }

  /** The progress write the practice loop makes, always through an existing card. */
  function UpsertProgress(db: Db, id: nat, u: string, s: Status): (r: Db)
    requires FindCard(db.cards, id).Some?
    ensures Inv(db) ==> Inv(r)
    ensures r.cards == db.cards && r.nextId == db.nextId
    ensures UserStatus(r.records, id, u) == s
  {
    UpsertStatus(db.records, id, u, s, id, u);
    Db(db.cards, Upsert(db.records, id, u, s), db.nextId)
  }

  /** Deleting a flashcard, with the foreign key's cascade over its progress records. */
  function DeleteCard(db: Db, id: nat): (r: Db)
    ensures r.nextId == db.nextId
    ensures forall c :: c in r.cards <==> c in db.cards && c.id != id
    ensures forall p :: p in r.records <==> p in db.records && p.flashcardId != id
    ensures Inv(db) ==> Inv(r)
  {
    var cardRule := (c: Card) => c.id != id;
    var recordRule := (p: Progress) => p.flashcardId != id;
    var r := Db(Filter(db.cards, cardRule), Filter(db.records, recordRule), db.nextId);
    if Inv(db) then
      assert Inv(r) by {
        FilterPairwise(db.cards, cardRule, (c: Card, d: Card) => c.id < d.id);
        FilterPairwise(db.records, recordRule, (p: Progress, q: Progress) => Key(p) != Key(q));
        forall p | p in r.records ensures FindCard(r.cards, p.flashcardId).Some? {
          var c := FindCard(db.cards, p.flashcardId).value;
          assert c in r.cards;
        }
      }
      r
    else r
  }

  /** After the delete no record is left on the card, so every user's status on it is NotAnswered. */
  lemma DeleteCascades(db: Db, id: nat, u: string)
    ensures FindCard(DeleteCard(db, id).cards, id).None?
    ensures UserStatus(DeleteCard(db, id).records, id, u) == NotAnswered
  {
  }

  /** Resetting a user: delete every record with that username, and only those. */
  function ResetUser(db: Db, u: string): (r: Db)
    ensures r.cards == db.cards && r.nextId == db.nextId
    ensures forall p :: p in r.records <==> p in db.records && p.username != u
    ensures Inv(db) ==> Inv(r)
  {
    var rule := (p: Progress) => p.username != u;
    var r := Db(db.cards, Filter(db.records, rule), db.nextId);
    if Inv(db) then
      assert Inv(r) by {
        FilterPairwise(db.records, rule, (p: Progress, q: Progress) => Key(p) != Key(q));
      }
      r
    else r
  }

  /** After a reset the user has answered nothing, while other users keep their statuses. */
  lemma ResetStatus(db: Db, u: string, id: nat, v: string)
    requires UniqueKeys(db.records)
    ensures UserStatus(ResetUser(db, u).records, id, u) == NotAnswered
    ensures v != u ==> UserStatus(ResetUser(db, u).records, id, v) == UserStatus(db.records, id, v)
  {
    var r := ResetUser(db, u).records;
    if v != u {
      FilterPairwise(db.records, (p: Progress) => p.username != u, (p: Progress, q: Progress) => Key(p) != Key(q));
      match FirstIndex(db.records, id, v)
      case Some(i) =>
        UserStatusOfRecord(r, db.records[i]);
      case None =>
        NoRecordIsNotAnswered(r, id, v);
    }
  }

  /** The tables as the console sees them, changed in place by its commands. */
  class FlashcardStore {
    var cards: seq<Card>
    var records: seq<Progress>
    var nextId: nat

    function Value(): Db
      reads this
    {
      Db(cards, records, nextId)
    }

    ghost predicate Valid()
      reads this
    {
      Inv(Value())
    }

    constructor ()
      ensures Valid() && cards == [] && records == [] && nextId == 1
    {
      cards, records, nextId := [], [], 1;
    }

    /** Flashcard::create with the two fillable fields. */
    method Create(question: string, answer: string) returns (card: Card)
      requires Valid()
      modifies this
      ensures Valid() && Value() == CreateCard(old(Value()), question, answer)
      ensures card == Card(old(nextId), question, answer) && card.id != 0
    {
      card := Card(nextId, question, answer);
      var r := CreateCard(Value(), question, answer);
      cards, records, nextId := r.cards, r.records, r.nextId;
    }

    /** $flashcard->progress()->updateOrCreate(['username' => u], ['status' => s]). */
    method UpdateOrCreate(id: nat, u: string, s: Status)
      requires Valid() && FindCard(cards, id).Some?
      modifies this
      ensures Valid() && Value() == UpsertProgress(old(Value()), id, u, s)
    {
      records := Upsert(records, id, u, s);
    }

    /** $flashcard->delete(), cascading to the card's progress. */
    method Delete(id: nat)
      requires Valid()
      modifies this
      ensures Valid() && Value() == DeleteCard(old(Value()), id)
    {
      var r := DeleteCard(Value(), id);
      cards, records := r.cards, r.records;
    }

    /** FlashcardProgress::whereUsername(u)->delete(). */
    method DeleteWhereUsername(u: string)
      requires Valid()
      modifies this
      ensures Valid() && Value() == ResetUser(old(Value()), u)
    {
      records := ResetUser(Value(), u).records;
    }
  }
}

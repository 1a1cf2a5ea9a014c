/**
 * The two Eloquent models: a flashcard, and a user's progress on it. A flashcard has many progress
 * records; each record belongs to the flashcard its flashcard_id names.
 */
module Models {
  import opened Wrappers
  import opened Seqs
  import opened Ascii
  import opened FlashcardStatus

  /** A flashcards row: the id the store assigns, and the only two fields a caller supplies. */
  datatype Card = Card(id: nat, question: string, answer: string)

  /** A flashcard_progress row; its status column holds a FlashcardStatus. */
  datatype Progress = Progress(flashcardId: nat, username: string, status: Status)

  /** Whether a record is the one for this (flashcard, username) pair. */
  predicate IsFor(p: Progress, id: nat, u: string)
  {
    p.flashcardId == id && p.username == u
  }

  predicate IdsDistinct(cards: seq<Card>)
  {
    forall i, j :: 0 <= i < j < |cards| ==> cards[i].id != cards[j].id
  }

  /** Flashcard::find: the card with this id, if there is one. */
  function FindCard(cards: seq<Card>, id: int): (r: Option<Card>)
    ensures r.Some? ==> r.value in cards && r.value.id == id
    ensures r.None? <==> forall c :: c in cards ==> c.id != id
  {
    if |cards| == 0 then None
    else if cards[0].id == id then Some(cards[0])
    else
      assert forall c :: c in cards[1..] ==> c in cards;
      FindCard(cards[1..], id)
  }

  /** With distinct ids, find returns the very card that has the id. */
  lemma FindCardIsUnique(cards: seq<Card>, c: Card)
    requires IdsDistinct(cards) && c in cards
    ensures FindCard(cards, c.id) == Some(c)
  {
    var r := FindCard(cards, c.id);
    var i :| 0 <= i < |cards| && cards[i] == c;
    var j :| 0 <= j < |cards| && cards[j] == r.value;
    assert i == j;
  }

  /** The flashcard's `progress` relation: its records, in table order. */
  function ProgressOf(records: seq<Progress>, id: nat): (r: seq<Progress>)
    ensures forall p :: p in r <==> p in records && p.flashcardId == id
  {
    Filter(records, (p: Progress) => p.flashcardId == id)
  }

  /** The record's `flashcard` relation: the card its flashcard_id names. */
  function CardOf(cards: seq<Card>, p: Progress): Option<Card>
  {
    FindCard(cards, p.flashcardId)
  }

  /** The two relations are inverse: a record is in the progress of exactly the card it belongs to. */
  lemma RelationsAreInverse(cards: seq<Card>, records: seq<Progress>, c: Card, p: Progress)
    requires IdsDistinct(cards) && c in cards
    ensures p in ProgressOf(records, c.id) <==> p in records && CardOf(cards, p) == Some(c)
  {
    FindCardIsUnique(cards, c);
  }

  /** PHP_INT_MAX on a 64-bit build. */
  const PhpIntMax: nat := 9223372036854775807

  /**
   * How firstWhere compares a username with u: `===` when strict; otherwise PHP 8's `==`, under which
   * two digit strings are compared as the integers they denote, so "1" matches "01". Digit strings
   * above PHP_INT_MAX overflow on both sides and are then compared as text.
   */
  predicate NameMatches(name: string, u: string, strict: bool)
  {
    name == u
    || (!strict && IsDigits(name) && IsDigits(u) && DigitsValue(name) == DigitsValue(u) && DigitsValue(u) <= PhpIntMax)
  }

  /** Collection::firstWhere('username', u) on a loaded relation; `strict` selects the `===` operator. */
  function FirstWhere(relation: seq<Progress>, u: string, strict: bool): (r: Option<Progress>)
    ensures r.Some? ==> r.value in relation && NameMatches(r.value.username, u, strict)
    ensures r.None? <==> forall p :: p in relation ==> !NameMatches(p.username, u, strict)
    ensures forall i ::
      (0 <= i < |relation| && NameMatches(relation[i].username, u, strict)
       && forall j :: 0 <= j < i ==> !NameMatches(relation[j].username, u, strict))
      ==> r == Some(relation[i])
  {
    if |relation| == 0 then None
    else if NameMatches(relation[0].username, u, strict) then Some(relation[0])
    else
      assert forall p :: p in relation[1..] ==> p in relation;
      assert forall i :: 1 <= i < |relation| ==> relation[1..][i - 1] == relation[i];
      FirstWhere(relation[1..], u, strict)
  }

  /**
   * The query path of firstWhere, and the lookup updateOrCreate makes: the position of the first row
   * for this (flashcard, username) pair.
   */
  function FirstIndex(records: seq<Progress>, id: nat, u: string): (r: Option<nat>)
    ensures r.Some? ==> r.value < |records| && IsFor(records[r.value], id, u)
    ensures r.Some? ==> forall j :: 0 <= j < r.value ==> !IsFor(records[j], id, u)
    ensures r.None? <==> forall j :: 0 <= j < |records| ==> !IsFor(records[j], id, u)
  {
    if |records| == 0 then None
    else if IsFor(records[0], id, u) then Some(0)
    else
      match FirstIndex(records[1..], id, u)
      case None => None
      case Some(k) => Some(k + 1)
  }

  /**
   * userStatus on a card whose progress relation is already loaded: the loose comparison of the
   * source when `strict` is false, the `===` comparison when it is true.
   */
  function StatusIn(relation: seq<Progress>, u: string, strict: bool): (s: Status)
    ensures s == NotAnswered || exists p :: p in relation && NameMatches(p.username, u, strict) && p.status == s
    ensures (forall p :: p in relation ==> !NameMatches(p.username, u, strict)) ==> s == NotAnswered
    ensures forall i ::
      (0 <= i < |relation| && NameMatches(relation[i].username, u, strict)
       && forall j :: 0 <= j < i ==> !NameMatches(relation[j].username, u, strict))
      ==> s == relation[i].status
  {
    match FirstWhere(relation, u, strict)
    case Some(p) => p.status
    case None => NotAnswered
  }

  /** userStatus through a query on the card's relation. */
  function UserStatus(records: seq<Progress>, id: nat, u: string): Status
  {
    match FirstIndex(records, id, u)
    case Some(i) => records[i].status
    case None => NotAnswered
  }

  /** The strict lookup on the loaded relation selects the record the query selects. */
  lemma {:induction false} FirstWhereOfRelation(records: seq<Progress>, id: nat, u: string)
    ensures FirstWhere(ProgressOf(records, id), u, true) ==
      match FirstIndex(records, id, u)
      case Some(i) => Some(records[i])
      case None => None
  {
    if |records| > 0 {
      FirstWhereOfRelation(records[1..], id, u);
      var keep := (p: Progress) => p.flashcardId == id;
      assert ProgressOf(records, id) ==
        if keep(records[0]) then [records[0]] + ProgressOf(records[1..], id) else ProgressOf(records[1..], id);
      if keep(records[0]) {
        assert ([records[0]] + ProgressOf(records[1..], id))[1..] == ProgressOf(records[1..], id);
      }
    }
  }

  /** For a username that is not a digit string the loose comparison is exact, so both lookups agree. */
  lemma {:induction false} LooseIsStrictForNames(relation: seq<Progress>, u: string)
    requires !IsDigits(u)
    ensures FirstWhere(relation, u, false) == FirstWhere(relation, u, true)
  {
    if |relation| > 0 {
      LooseIsStrictForNames(relation[1..], u);
    }
  }

  /**
   * With the strict comparison, userStatus does not depend on whether the relation was loaded first;
   * with the source's loose one, it does not for usernames that are not digit strings.
   */
  lemma PathsAgree(records: seq<Progress>, id: nat, u: string)
    ensures StatusIn(ProgressOf(records, id), u, true) == UserStatus(records, id, u)
    ensures !IsDigits(u) ==> StatusIn(ProgressOf(records, id), u, false) == UserStatus(records, id, u)
  {
    FirstWhereOfRelation(records, id, u);
    if !IsDigits(u) {
      LooseIsStrictForNames(ProgressOf(records, id), u);
    }
  }

  /** As written, the loaded relation takes user "01"'s record to be user "1"'s, while the query finds none. */
  lemma LoadedPathDiffers()
    ensures var records := [Progress(1, "01", Correct)];
      StatusIn(ProgressOf(records, 1), "1", false) == Correct
      && StatusIn(ProgressOf(records, 1), "1", true) == NotAnswered
      && UserStatus(records, 1, "1") == NotAnswered
  {
    var records := [Progress(1, "01", Correct)];
    assert DigitsValue("01") == 1 && DigitsValue("1") == 1;
    assert ProgressOf(records, 1) == records;
  }

  /**
   * Above PHP_INT_MAX the loose comparison is the exact one: "09999999999999999999" does not match
   * "9999999999999999999", although both denote the same number.
   */
  lemma OverflowComparesAsText()
    ensures var records := [Progress(1, "09999999999999999999", Correct)];
      DigitsValue("09999999999999999999") == DigitsValue("9999999999999999999")
      && StatusIn(ProgressOf(records, 1), "9999999999999999999", false) == NotAnswered
  {
    var records := [Progress(1, "09999999999999999999", Correct)];
    LeadingZero("9999999999999999999");
    assert "0" + "9999999999999999999" == "09999999999999999999";
    AllNines("9999999999999999999");
    assert Pow10(3) == 1000;
    Pow10Add(3, 3);
    Pow10Add(6, 6);
    Pow10Add(12, 6);
    assert Pow10(19) == 10 * Pow10(18);
    assert ProgressOf(records, 1) == records;
  }

  function Pow10(n: nat): nat
  {
    if n == 0 then 1 else 10 * Pow10(n - 1)
  }

  lemma {:induction false} Pow10Add(a: nat, b: nat)
    ensures Pow10(a + b) == Pow10(a) * Pow10(b)
  {
    if a > 0 {
      Pow10Add(a - 1, b);
    }
  }

  /** A string of n nines denotes 10^n - 1. */
  lemma {:induction false} AllNines(s: string)
    requires forall i :: 0 <= i < |s| ==> s[i] == '9'
    ensures DigitsValue(s) == Pow10(|s|) - 1
  {
    if |s| > 0 {
      AllNines(s[..|s| - 1]);
    }
  }

  /** A leading zero does not change the number a digit string denotes. */
  lemma {:induction false} LeadingZero(s: string)
    ensures DigitsValue("0" + s) == DigitsValue(s)
  {
    if |s| > 0 {
      var t := s[..|s| - 1];
      assert ("0" + s)[..|s|] == "0" + t;
      LeadingZero(t);
    }
  }

  /** A user with no record on a card has not answered it, whatever other users have recorded. */
  lemma NoRecordIsNotAnswered(records: seq<Progress>, id: nat, u: string)
    requires forall p :: p in records ==> !IsFor(p, id, u)
    ensures UserStatus(records, id, u) == NotAnswered
  {
  }
}

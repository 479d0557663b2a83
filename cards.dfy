/** The flashcards of cards.py: a `Card` with question, answer and points, its
    multiple-choice and reveal variants, and a `CardPack` that hands its cards
    out one after the other through a cursor that starts at -1. */
module Cards {
  import opened Common

  /** The three card classes, told apart by their `question_type`. */
  datatype CardKind = Integer | MultipleChoice | Reveal

  /** The `question_type` string each class sets in `__init__`. */
  function KindName(kind: CardKind): (name: string)
    ensures name == "Multiple Choice" <==> kind == MultipleChoice
  {
    match kind
    case Integer => "Integer"
    case MultipleChoice => "Multiple Choice"
    case Reveal => "Reveal"
  }

  /** A multiple-choice card's `answer_choices` dictionary: the correct answer
      (`None` until set) under "correct" and every offered answer under "all". */
  datatype AnswerChoices = AnswerChoices(correct: Option<string>, all: seq<string>)

  /** `Card`, `MultipleChoiceCard` or `RevealCard`, according to `kind`. The
      fields that only one variant has are kept by all and used by that one. */
  class Card {
    const kind: CardKind
    var question: Option<string>
    var answer: Option<string>
    var points: int
    var cardId: int
    var choices: AnswerChoices
    var revealed: bool

    /** `__init__` of each class: no question or answer, 0 points, id 0, no
        choices, not revealed. */
    constructor(kind: CardKind)
      ensures this.kind == kind && question == None && answer == None
      ensures points == 0 && cardId == 0
      ensures choices == AnswerChoices(None, []) && !revealed
    {
      this.kind := kind;
      question, answer := None, None;
      points, cardId := 0, 0;
      choices := AnswerChoices(None, []);
      revealed := false;
    }

    /** The `answer` property: a multiple-choice card reports its "correct" entry. */
    function Answer(): (a: Option<string>)
      reads this
      ensures kind == MultipleChoice ==> a == choices.correct
      ensures kind != MultipleChoice ==> a == answer
    {
      if kind == MultipleChoice then choices.correct else answer
    }

    /** `Card.write_to_card`: question, answer and points, nothing else. */
    method WriteToCard(question: string, answer: string, points: int)
      requires kind != MultipleChoice
      modifies this
      ensures this.question == Some(question) && Answer() == Some(answer) && this.points == points
      ensures cardId == old(cardId) && choices == old(choices) && revealed == old(revealed)
    {
      this.question := Some(question);
      this.answer := Some(answer);
      this.points := points;
    }

    /** `MultipleChoiceCard.write_to_card`: question and points; the choices are
        replaced only when a dictionary is passed. */
    method WriteChoiceCard(question: string, points: int, answers: Option<AnswerChoices>)
      requires kind == MultipleChoice
      modifies this
      ensures this.question == Some(question) && this.points == points
      ensures choices == if answers.Some? then answers.value else old(choices)
      ensures answer == old(answer) && cardId == old(cardId) && revealed == old(revealed)
    {
      this.question := Some(question);
      this.points := points;
      if answers.Some? {
        choices := answers.value;
      }
    }

    /** `set_answer`: a multiple-choice card sets only its "correct" entry. */
    method SetAnswer(answer: string)
      modifies this
      ensures Answer() == Some(answer)
      ensures question == old(question) && points == old(points) && cardId == old(cardId)
      ensures choices.all == old(choices.all) && revealed == old(revealed)
      ensures kind == MultipleChoice ==> this.answer == old(this.answer)
      ensures kind != MultipleChoice ==> choices == old(choices)
    {
      if kind == MultipleChoice {
        choices := choices.(correct := Some(answer));
      } else {
        this.answer := Some(answer);
      }
    }

    /** `add_choice`: appends to "all" and leaves "correct" alone. */
    method AddChoice(answer: string)
      requires kind == MultipleChoice
      modifies this
      ensures choices == AnswerChoices(old(choices.correct), old(choices.all) + [answer])
      ensures question == old(question) && points == old(points) && Answer() == old(Answer())
      ensures this.answer == old(this.answer) && cardId == old(cardId) && revealed == old(revealed)
    {
      choices := choices.(all := choices.all + [answer]);
    }

    method SetCardId(cardId: int)
      modifies this
      ensures this.cardId == cardId
      ensures question == old(question) && Answer() == old(Answer()) && points == old(points)
      ensures answer == old(answer) && choices == old(choices) && revealed == old(revealed)
    {
      this.cardId := cardId;
    }

    /** `toggle_revealed_state`: flips the state and returns the new one. */
    method ToggleRevealedState() returns (state: bool)
      requires kind == Reveal
      modifies this
      ensures revealed == !old(revealed) && state == revealed
      ensures question == old(question) && Answer() == old(Answer()) && points == old(points)
      ensures answer == old(answer) && cardId == old(cardId) && choices == old(choices)
    {
      revealed := !revealed;
      state := revealed;
    }
  }

  /** Two toggles give the original state back. */
  method ToggleTwice(card: Card) returns (first: bool, second: bool)
    requires card.kind == Reveal
    modifies card
    ensures first == !old(card.revealed) && second == old(card.revealed)
    ensures card.revealed == old(card.revealed)
  {
    first := card.ToggleRevealedState();
    second := card.ToggleRevealedState();
  }

  /** The "answer" entry of `next_card`'s dictionary: the whole choices map for
      a multiple-choice card, the plain answer otherwise. */
  datatype CardAnswer = Plain(answer: Option<string>) | Choices(choices: AnswerChoices)

  /** The dictionary `next_card` returns. */
  datatype CardInfo = CardInfo(question: Option<string>, answer: CardAnswer, questionType: string, points: int)

  function Info(card: Card): (info: CardInfo)
    reads card
    ensures info.question == card.question && info.points == card.points
    ensures info.questionType == KindName(card.kind)
    ensures card.kind == MultipleChoice ==> info.answer == Choices(card.choices)
    ensures card.kind != MultipleChoice ==> info.answer == Plain(card.Answer())
  {
    var answer := if KindName(card.kind) == "Multiple Choice" then Choices(card.choices) else Plain(card.Answer());
    CardInfo(card.question, answer, KindName(card.kind), card.points)
  }

  /** `CardPack`: the cards in the order they were added and a cursor that
      `next_card` advances. */
  class CardPack {
    var cards: seq<Card>
    const name: string
    const uid: int
    var currentCardIndex: int

    /** The cursor starts at -1 and only moves forward. */
    ghost predicate Valid()
      reads this
    {
      currentCardIndex >= -1
    }

    constructor(name: string, uid: int)
      ensures Valid()
      ensures cards == [] && this.name == name && this.uid == uid && currentCardIndex == -1
    {
      cards := [];
      this.name := name;
      this.uid := uid;
      currentCardIndex := -1;
    }

    /** `add_card`: appends; the cards before it and the cursor stay as they were. */
    method AddCard(card: Card)
      requires Valid()
      modifies this
      ensures Valid()
      ensures cards == old(cards) + [card] && currentCardIndex == old(currentCardIndex)
    {
      cards := cards + [card];
    }

    /** `next_card`: the cursor moves first; `False` when it has just reached the
        number of cards, the card's details when it is on a card, and an
        IndexError once it has gone past the end. */
    method NextCard() returns (r: Completion<Outcome<CardInfo>>)
      requires Valid()
      modifies this
      ensures Valid()
      ensures currentCardIndex == old(currentCardIndex) + 1 && cards == old(cards)
      ensures r == Normal(ReturnedFalse) <==> currentCardIndex == |cards|
      ensures r.Raised? <==> currentCardIndex > |cards|
      ensures currentCardIndex < |cards| ==> r == Normal(Returned(Info(cards[currentCardIndex])))
    {
      currentCardIndex := currentCardIndex + 1;
      if currentCardIndex == |cards| {
        return Normal(ReturnedFalse);
      }
      match PyIndex(cards, currentCardIndex)
      case None =>
        r := Raised("IndexError");
      case Some(card) =>
        r := Normal(Returned(Info(card)));
    }

    /** `current_card_obj`: `cards[current_card_index]` with Python's indexing, so
        before the first `next_card` (cursor -1) it is the last card. */
    function CurrentCardObj(): (r: Completion<Card>)
      reads this
      ensures r.Raised? <==> !(-|cards| <= currentCardIndex < |cards|)
      ensures 0 <= currentCardIndex < |cards| ==> r == Normal(cards[currentCardIndex])
      ensures currentCardIndex == -1 && cards != [] ==> r == Normal(cards[|cards| - 1])
    {
      match PyIndex(cards, currentCardIndex)
      case None => Raised("IndexError")
      case Some(card) => Normal(card)
    }
  }

  /** Going through a fresh pack: `next_card` gives every card's details in the
      order the cards were added, then `False`. */
  method WalkPack(cards: seq<Card>) returns (infos: seq<CardInfo>, last: Completion<Outcome<CardInfo>>)
    ensures |infos| == |cards|
    ensures forall i :: 0 <= i < |cards| ==> infos[i] == Info(cards[i])
    ensures last == Normal(ReturnedFalse)
  {
    var pack := new CardPack("pack", 0);
    var i := 0;
    while i < |cards|
      invariant 0 <= i <= |cards|
      invariant pack.Valid() && pack.cards == cards[..i] && pack.currentCardIndex == -1
    {
      pack.AddCard(cards[i]);
      assert cards[..i + 1] == cards[..i] + [cards[i]];
      i := i + 1;
    }
    assert pack.cards == cards;
    infos := [];
    while pack.currentCardIndex + 1 < |cards|
      invariant pack.Valid() && pack.cards == cards && pack.currentCardIndex < |cards|
      invariant |infos| == pack.currentCardIndex + 1
      invariant forall k :: 0 <= k < |infos| ==> infos[k] == Info(cards[k])
      decreases |cards| - pack.currentCardIndex
    {
      var r := pack.NextCard();
      infos := infos + [r.value.item];
    }
    last := pack.NextCard();
  }
}

/** The input checks and small state machines of `DataHandler`
    (data_handler.py): the username and pack-name checks, the integer list
    behind the tree demo, the flashcard creator, the cursor of the theory
    reader and the reversal of the leaderboard. The graph part is in
    module `Graphs`. */
module DataHandler {
  import opened Common
  import opened Text
  import opened Cards
  import opened SearchTree

  // ---------------------------------------------------------------- usernames

  const UsernameMissing := "Please provide a username."
  const UsernameLength := "Username must be between 3 and 20 characters."
  const UsernameCharacters := "Username must be alphanumeric (A-Z, 0-9), with exception to underscores."

  /** `s.isalnum()`: at least one character, and every one a letter or digit. */
  predicate IsAlnum(s: string) {
    |s| > 0 && forall i :: 0 <= i < |s| ==> IsAsciiAlnum(s[i])
  }

  /** `_val_create_username`: a single message for an empty name; otherwise one
      message for a length outside 3..20 and one when the name, underscores
      removed, is not alphanumeric (so a name of underscores only fails). */
  function ValCreateUsername(username: string): (errors: seq<string>)
    ensures username == "" ==> errors == [UsernameMissing]
    ensures username != "" ==> (UsernameLength in errors <==> !(3 <= |username| <= 20))
    ensures username != "" ==>
      (UsernameCharacters in errors <==>
        !((forall i :: 0 <= i < |username| ==> username[i] == '_' || IsAsciiAlnum(username[i]))
          && exists i :: 0 <= i < |username| && username[i] != '_'))
    ensures |errors| <= 2 && forall e :: e in errors ==> e in {UsernameMissing, UsernameLength, UsernameCharacters}
  {
    if username == "" then [UsernameMissing]
    else
      var stripped := Remove(username, '_');
      UnderscoresRemoved(username);
      (if !(3 <= |username| <= 20) then [UsernameLength] else [])
        + (if !IsAlnum(stripped) then [UsernameCharacters] else [])
  }

  /** Removing the underscores leaves an alphanumeric string exactly when every
      character is an underscore, letter or digit and not all are underscores. */
  lemma UnderscoresRemoved(s: string)
    ensures IsAlnum(Remove(s, '_')) <==>
      (forall i :: 0 <= i < |s| ==> s[i] == '_' || IsAsciiAlnum(s[i]))
      && exists i :: 0 <= i < |s| && s[i] != '_'
  {
    var r := Remove(s, '_');
    if IsAlnum(r) {
      forall i | 0 <= i < |s|
        ensures s[i] == '_' || IsAsciiAlnum(s[i])
      {
        if s[i] != '_' {
          assert multiset(s)[s[i]] > 0;
          assert s[i] in multiset(r);
        }
      }
      var c := r[0];
      assert c in multiset(r);
      assert c in multiset(s);
    }
    if (forall i :: 0 <= i < |s| ==> s[i] == '_' || IsAsciiAlnum(s[i]))
      && exists i :: 0 <= i < |s| && s[i] != '_'
    {
      var k :| 0 <= k < |s| && s[k] != '_';
      assert s[k] in multiset(s);
      assert s[k] in multiset(r);
      forall j | 0 <= j < |r|
        ensures IsAsciiAlnum(r[j])
      {
        assert r[j] in multiset(r);
        assert r[j] in multiset(s);
      }
    }
  }

  /** A name of underscores only is turned away for its characters. */
  lemma UnderscoresOnlyRejected()
    ensures ValCreateUsername("___") == [UsernameCharacters]
  {
    assert "___"[0] == '_' && "___"[1] == '_' && "___"[2] == '_';
  }

  // ---------------------------------------------------------------- pack names

  const PackNameMessage := "Please ensure pack name is between 3 and 30 alphanumeric characters."

  /** The character class `[a-zA-Z0-9 ]`. */
  predicate PackNameChar(c: char) {
    IsAsciiAlnum(c) || c == ' '
  }

  predicate AllPackNameChars(s: string) {
    forall i :: 0 <= i < |s| ==> PackNameChar(s[i])
  }

  /** `re.match("^[a-zA-Z0-9 ]*$", name)`: `$` also matches just before a
      newline that ends the string, so one trailing newline gets through. */
  predicate PackNamePatternAsWritten(name: string) {
    AllPackNameChars(name)
    || (|name| > 0 && name[|name| - 1] == '\n' && AllPackNameChars(name[..|name| - 1]))
  }

  /** `validate_pack_name` as written: length 3..30 and the pattern above. */
  function ValidatePackNameAsWritten(name: string): (r: Check)
    ensures r.Accepted? <==> 3 <= |name| <= 30 && PackNamePatternAsWritten(name)
    ensures r.Rejected? ==> r.message == PackNameMessage
  {
    if 3 <= |name| <= 30 && PackNamePatternAsWritten(name) then Accepted else Rejected(PackNameMessage)
  }

  /** "abc" followed by a newline passes the check as written, although a
      newline is not one of the allowed characters. */
  lemma PackNameNewlineAccepted()
    ensures ValidatePackNameAsWritten("abc\n") == Accepted
    ensures !AllPackNameChars("abc\n")
  {
    assert "abc\n"[..3] == "abc";
    assert "abc\n"[3] == '\n';
  }

  /** The pack-name check as its message describes it: 3 to 30 characters,
      each a letter, a digit or a space. */
  function ValidatePackName(name: string): (r: Check)
    ensures r.Accepted? <==> 3 <= |name| <= 30 && forall i :: 0 <= i < |name| ==> PackNameChar(name[i])
    ensures r.Rejected? ==> r.message == PackNameMessage
  {
    if 3 <= |name| <= 30 && AllPackNameChars(name) then Accepted else Rejected(PackNameMessage)
  }

  /** The corrected check accepts a subset of what the check as written
      accepts, and the two differ only on names ending in a newline. */
  lemma PackNameChecksAgree(name: string)
    ensures ValidatePackName(name).Accepted? ==> ValidatePackNameAsWritten(name).Accepted?
    ensures ValidatePackName(name) != ValidatePackNameAsWritten(name) ==> |name| > 0 && name[|name| - 1] == '\n'
  {
  }

  // ---------------------------------------------------------------- tree demo input

  const TreeCountMessage := "Please enter betweeen 2 and 30 integers"
  const TreeIntegerMessage := "Please only enter integers"

  /** The validation part of `generate_tree`: cut at commas, 2 to 30 pieces,
      each an integer literal. */
  function ParseTreeInput(text: string): (r: Result<seq<int>>)
    ensures r.Ok? <==> 2 <= |Split(text, ',')| <= 30 && ParseAll(Split(text, ',')).Some?
    ensures r.Ok? ==> 2 <= |r.value| <= 30 && Some(r.value) == ParseAll(Split(text, ','))
    ensures !(2 <= |Split(text, ',')| <= 30) ==> r == Err(TreeCountMessage)
    ensures 2 <= |Split(text, ',')| <= 30 && r.Err? ==> r == Err(TreeIntegerMessage)
  {
    var parts := Split(text, ',');
    if 2 <= |parts| <= 30 then
      match ParseAll(parts)
      case None => Err(TreeIntegerMessage)
      case Some(integers) => Ok(integers)
    else Err(TreeCountMessage)
  }

  /** Two to thirty integers written out with commas are read back as they were. */
  lemma TreeInputRoundTrip(xs: seq<int>)
    requires 2 <= |xs| <= 30
    ensures ParseTreeInput(Join(",", IntStrings(xs))) == Ok(xs)
  {
    var parts := IntStrings(xs);
    forall i | 0 <= i < |parts|
      ensures ',' !in parts[i]
    {
      IntToStringAvoids(xs[i], ',');
    }
    JoinSplit(parts, ',');
    ParseAllRoundTrip(xs);
  }

  /** The tree of the binary-tree demo. */
  class TreeDemo {
    var tree: BinarySearchTree?

    constructor()
      ensures tree == null
    {
      tree := null;
    }

    /** `generate_tree` without the image: on valid input a fresh tree is
        built from the integers, balanced or by insertion in input order. */
    method GenerateTree(text: string, balanced: bool) returns (r: Check)
      modifies this
      ensures ParseTreeInput(text).Err? ==> r == Rejected(ParseTreeInput(text).message) && tree == old(tree)
      ensures ParseTreeInput(text).Ok? ==> r == Accepted && tree != null && fresh(tree) && tree.Valid()
      ensures ParseTreeInput(text).Ok? && balanced ==> tree.root == BalancedOf(ParseTreeInput(text).value)
      ensures ParseTreeInput(text).Ok? && !balanced ==> tree.root == InsertAll(Nil, ParseTreeInput(text).value)
    {
      match ParseTreeInput(text)
      case Err(message) =>
        r := Rejected(message);
      case Ok(integers) =>
        var t := new BinarySearchTree();
        if balanced {
          t.BuildBalancedTree(integers);
        } else {
          t.BuildTree(integers);
        }
        tree := t;
        r := Accepted;
    }
  }

  // ---------------------------------------------------------------- card creator

  /** The choices of a multiple-choice card being built: at most four, all
      different, each 1 to 125 characters, the correct one among them, and a
      correct one chosen by the time there are four. */
  predicate ChoicesValid(choices: AnswerChoices) {
    && |choices.all| <= 4
    && Distinct(choices.all)
    && (forall i :: 0 <= i < |choices.all| ==> 1 <= |choices.all[i]| <= 125)
    && (choices.correct.Some? ==> choices.correct.value in choices.all)
    && (|choices.all| == 4 ==> choices.correct.Some?)
  }

  /** The checks of `add_card_choice`, in order. */
  function ChoiceCheck(choices: AnswerChoices, answer: string, isCorrect: bool): (r: Check)
    ensures r.Accepted? <==>
      && |choices.all| != 4
      && !(|choices.all| == 3 && choices.correct == None && !isCorrect)
      && answer !in choices.all
      && 1 <= |answer| <= 125
      && !(isCorrect && choices.correct.Some?)
    ensures |choices.all| == 4 ==> r == Rejected("Maximum amount of answer submitted.")
  {
    if |choices.all| == 4 then Rejected("Maximum amount of answer submitted.")
    else if |choices.all| == 3 && choices.correct == None && !isCorrect then
      Rejected("You must have at least 1 corrct answer.")
    else if answer in choices.all then Rejected("You have already added this option.")
    else if !(1 <= |answer| <= 125) then Rejected("Please ensure the answer is between 1 and 125 characters.")
    else if isCorrect && choices.correct.Some? then Rejected("You have already set a correct answer.")
    else Accepted
  }

  /** The choices after an accepted `add_card_choice`. */
  function WithChoice(choices: AnswerChoices, answer: string, isCorrect: bool): (r: AnswerChoices)
    ensures r.all == choices.all + [answer]
    ensures r.correct == if isCorrect then Some(answer) else choices.correct
  {
    AnswerChoices(if isCorrect then Some(answer) else choices.correct, choices.all + [answer])
  }

  /** An accepted choice keeps the choices valid: never a fifth choice, never a
      duplicate, never a second correct answer, and no fourth choice without a
      correct one. */
  lemma ChoiceKeepsValid(choices: AnswerChoices, answer: string, isCorrect: bool)
    requires ChoicesValid(choices) && ChoiceCheck(choices, answer, isCorrect).Accepted?
    ensures ChoicesValid(WithChoice(choices, answer, isCorrect))
  {
    var r := WithChoice(choices, answer, isCorrect);
    assert forall i :: 0 <= i < |choices.all| ==> r.all[i] == choices.all[i];
  }

  /** The question types the card editor offers. */
  datatype QuestionType = RevealQuestion | MultipleChoiceQuestion | NumericalQuestion

  /** The checks of `add_card`, in order: the prompt's length, a duplicate
      prompt, then the checks of the chosen type. `pending` is the choices of
      the multiple-choice card being built, if there is one. */
  function CardCheck(kind: QuestionType, question: string, answer: string, duplicate: bool,
                     pending: Option<AnswerChoices>): (r: Check)
    ensures r.Accepted? <==>
      && 1 <= |question| <= 125
      && !duplicate
      && (kind == RevealQuestion ==> 1 <= |answer| <= 125)
      && (kind == MultipleChoiceQuestion ==>
            pending.Some? && |pending.value.all| >= 2 && pending.value.correct.Some?)
      && (kind == NumericalQuestion ==> ParseInt(answer).Some? && 1 <= |answer| <= 6)
    ensures 1 <= |question| <= 125 && duplicate ==> r == Rejected("You already have a card with this question.")
  {
    if !(1 <= |question| <= 125) then
      Rejected("Please ensure the prompt and answer is between 1 and 125 characters.")
    else if duplicate then Rejected("You already have a card with this question.")
    else
      match kind
      case RevealQuestion =>
        if 1 <= |answer| <= 125 then Accepted
        else Rejected("Please ensure the answer is between 1 and 125 characters.")
      case MultipleChoiceQuestion =>
        if pending.None? then Rejected("Please ensure there are at least 2 choices available.")
        else if |pending.value.all| >= 2 && pending.value.correct.Some? then Accepted
        else Rejected("Please ensure there are at least 2 choices available, inlcuding the correct option.")
      case NumericalQuestion =>
        if ParseInt(answer).Some? && 1 <= |answer| <= 6 then Accepted
        else Rejected("Please ensure the answer is an integer between 1 and 6 chracters in length.")
  }

  /** Some card in `cards` has `question` as its prompt. */
  ghost predicate HasQuestion(cards: seq<Card>, question: string)
    reads set i | 0 <= i < |cards| :: cards[i]
  {
    exists i :: 0 <= i < |cards| && cards[i].question == Some(question)
  }

  /** The flashcard-creation fields of `DataHandler`: the logged-in user, the
      pack being created and the multiple-choice card being built. */
  class CardCreator {
    var uid: int
    var currentPack: CardPack?
    var currentCard: Card?

    /** A pack being created has a valid cursor, and a card being built is a
        multiple-choice card with valid choices. */
    ghost predicate Valid()
      reads this, currentPack, currentCard
    {
      && (currentPack != null ==> currentPack.Valid())
      && (currentCard != null ==> currentCard.kind == MultipleChoice && ChoicesValid(currentCard.choices))
    }

    /** The choices of the card being built; none yet when there is no card. */
    function PendingChoices(): (r: Option<AnswerChoices>)
      reads this, currentCard
      ensures r.Some? <==> currentCard != null
    {
      if currentCard == null then None else Some(currentCard.choices)
    }

    constructor(uid: int)
      ensures Valid() && this.uid == uid && currentPack == null && currentCard == null
    {
      this.uid := uid;
      currentPack := null;
      currentCard := null;
    }

    /** `validate_pack_name`: an accepted name starts a new, empty pack for the
        current user; a rejected one changes nothing. */
    method ValidatePackNameAndCreate(name: string) returns (r: Check)
      requires Valid()
      modifies this
      ensures Valid() && r == ValidatePackName(name) && currentCard == old(currentCard) && uid == old(uid)
      ensures r.Accepted? ==> currentPack != null && fresh(currentPack)
      ensures r.Accepted? ==> currentPack.name == name && currentPack.uid == uid
      ensures r.Accepted? ==> currentPack.cards == [] && currentPack.currentCardIndex == -1
      ensures r.Rejected? ==> currentPack == old(currentPack)
    {
      r := ValidatePackName(name);
      if r.Accepted? {
        currentPack := new CardPack(name, uid);
      }
    }

    /** `add_card_choice`: starts a multiple-choice card if none is being
        built, then adds the choice (and makes it the correct one if so
        marked) when `ChoiceCheck` accepts it. */
    method AddCardChoice(answer: string, isCorrect: bool) returns (r: Check)
      requires Valid()
      modifies this, currentCard
      ensures Valid() && currentCard != null && currentPack == old(currentPack) && uid == old(uid)
      ensures old(currentCard) != null ==> currentCard == old(currentCard)
      ensures old(currentCard) == null ==> fresh(currentCard)
      ensures r == ChoiceCheck(old(if currentCard == null then AnswerChoices(None, []) else currentCard.choices), answer, isCorrect)
      ensures r.Accepted? ==>
        currentCard.choices == WithChoice(old(if currentCard == null then AnswerChoices(None, []) else currentCard.choices), answer, isCorrect)
      ensures r.Rejected? ==>
        currentCard.choices == old(if currentCard == null then AnswerChoices(None, []) else currentCard.choices)
      ensures currentCard.question == old(if currentCard == null then None else currentCard.question)
      ensures currentCard.answer == old(if currentCard == null then None else currentCard.answer)
      ensures currentCard.points == old(if currentCard == null then 0 else currentCard.points)
      ensures currentCard.cardId == old(if currentCard == null then 0 else currentCard.cardId)
      ensures currentCard.revealed == old(if currentCard == null then false else currentCard.revealed)
    {
      if currentCard == null {
        currentCard := new Card(MultipleChoice);
      }
      var card := currentCard;
      r := ChoiceCheck(card.choices, answer, isCorrect);
      if r.Accepted? {
        ChoiceKeepsValid(card.choices, answer, isCorrect);
        if isCorrect {
          card.SetAnswer(answer);
        }
        card.AddChoice(answer);
      }
    }

    /** `duplicate_cards_check`: whether a card of the pack has this prompt. */
    method DuplicateCardsCheck(question: string) returns (found: bool)
      requires currentPack != null
      ensures found <==> HasQuestion(currentPack.cards, question)
    {
      var cards := currentPack.cards;
      var i := 0;
      while i < |cards|
        invariant 0 <= i <= |cards|
        invariant forall k :: 0 <= k < i ==> cards[k].question != Some(question)
      {
        if cards[i].question == Some(question) {
          return true;
        }
        i := i + 1;
      }
      return false;
    }

    /** `add_card`: when `CardCheck` accepts, the card (a new reveal card with
        0 points, the multiple-choice card being built, or a new integer card)
        gets the prompt and is appended to the pack, and the card being built
        is cleared; otherwise nothing changes. */
    method AddCard(kind: QuestionType, question: string, answer: string, points: int) returns (r: Check)
      requires Valid() && currentPack != null
      modifies this, currentPack, currentCard
      ensures Valid() && currentPack == old(currentPack) && uid == old(uid)
      ensures r == CardCheck(kind, question, answer, old(HasQuestion(currentPack.cards, question)), old(PendingChoices()))
      ensures r.Rejected? ==> currentCard == old(currentCard) && currentPack.cards == old(currentPack.cards)
      ensures r.Rejected? && currentCard != null ==>
        currentCard.question == old(currentCard.question) && currentCard.answer == old(currentCard.answer) &&
        currentCard.points == old(currentCard.points) && currentCard.cardId == old(currentCard.cardId) &&
        currentCard.choices == old(currentCard.choices) && currentCard.revealed == old(currentCard.revealed)
      ensures r.Accepted? ==> currentCard == null
      ensures r.Accepted? ==> |currentPack.cards| == |old(currentPack.cards)| + 1
      ensures r.Accepted? ==> currentPack.cards[..|old(currentPack.cards)|] == old(currentPack.cards)
      ensures r.Accepted? ==>
        Info(currentPack.cards[|currentPack.cards| - 1]) ==
          (match kind
           case RevealQuestion => CardInfo(Some(question), Plain(Some(answer)), "Reveal", 0)
           case MultipleChoiceQuestion => CardInfo(Some(question), Choices(old(currentCard.choices)), "Multiple Choice", points)
           case NumericalQuestion => CardInfo(Some(question), Plain(Some(answer)), "Integer", points))
      ensures currentPack.currentCardIndex == old(currentPack.currentCardIndex)
    {
      var duplicate := DuplicateCardsCheck(question);
      r := CardCheck(kind, question, answer, duplicate, PendingChoices());
      if r.Rejected? {
        return;
      }
      var card: Card;
      match kind {
        case RevealQuestion =>
          card := new Card(Reveal);
          card.WriteToCard(question, answer, 0);
        case MultipleChoiceQuestion =>
          card := currentCard;
          card.WriteChoiceCard(question, points, None);
        case NumericalQuestion =>
          card := new Card(Integer);
          card.WriteToCard(question, answer, points);
      }
      currentPack.AddCard(card);
      currentCard := null;
    }
  }

  // ---------------------------------------------------------------- theory reader

  /** One page of a topic's theory: its heading (the page's only key), the
      image path with `\` separators (empty when there is none) and the text. */
  datatype TheoryPage = TheoryPage(heading: string, imageDir: string, text: string)

  /** What `get_next_theory_page` shows: the heading, the 1-based page number,
      the text with its lines separated by blank lines, and the image path's
      components, if there is an image. */
  datatype PageView = PageView(heading: string, pageNumber: int, body: string, image: Option<seq<string>>)

  function View(page: TheoryPage, index: int): (v: PageView)
    ensures v.heading == page.heading && v.pageNumber == index + 1
    ensures v.image.Some? <==> page.imageDir != ""
  {
    PageView(page.heading, index + 1, Join("\n\n", Split(page.text, '\n')),
             if page.imageDir == "" then None else Some(Split(page.imageDir, '\\')))
  }

  /** The cursor after a page turn: one forward or one back, and nothing when
      that leaves the pages. */
  function Turn(pageCount: nat, cursor: int, forward: bool): (r: Option<int>)
    ensures r.Some? ==> 0 <= r.value < pageCount
    ensures r.Some? ==> r.value == (if forward then cursor + 1 else cursor - 1)
    ensures r.None? <==> !(0 <= (if forward then cursor + 1 else cursor - 1) < pageCount)
  {
    var index := if forward then cursor + 1 else cursor - 1;
    if 0 <= index < pageCount then Some(index) else None
  }

  /** Going forward and then back returns to the page one started on. */
  lemma TurnBack(pageCount: nat, cursor: int)
    requires 0 <= cursor && Turn(pageCount, cursor, true).Some?
    ensures Turn(pageCount, Turn(pageCount, cursor, true).value, false) == Some(cursor)
  {
  }

  /** `k` forward turns in a row from `cursor`; nothing once a turn fails. */
  function TurnsForward(pageCount: nat, cursor: int, k: nat): Option<int>
  {
    if k == 0 then Some(cursor)
    else match TurnsForward(pageCount, cursor, k - 1)
      case None => None
      case Some(c) => Turn(pageCount, c, true)
  }

  /** From the state before the first page (cursor -1), `n + 1` forward turns
      reach page `n` for every page, and the turn after the last page fails. */
  lemma {:induction false} ForwardFromStart(pageCount: nat, n: nat)
    requires n <= pageCount
    ensures TurnsForward(pageCount, -1, n + 1) == if n < pageCount then Some(n) else None
  {
    if n > 0 {
      ForwardFromStart(pageCount, n - 1);
    }
  }

  /** The theory-reading fields of `DataHandler`: the loaded pages and the
      cursor `_topic_page`, -1 before the first page. */
  class TheoryReader {
    var pages: seq<TheoryPage>
    var topicPage: int

    ghost predicate Valid()
      reads this
    {
      -1 <= topicPage < |pages|
    }

    /** The reset done by `load_topic_id`; reading the pages from file is
        left to the caller. */
    constructor(pages: seq<TheoryPage>)
      ensures Valid() && this.pages == pages && topicPage == -1
    {
      this.pages := pages;
      topicPage := -1;
    }

    /** `get_next_theory_page`: turns one page forward or back. Off either end
        it returns `False` and the cursor stays; otherwise the cursor moves
        and the page is shown, and `completes` says that the last page was
        reached, when the topic is marked complete. */
    method GetNextTheoryPage(forward: bool) returns (r: Outcome<PageView>, completes: bool)
      requires Valid()
      modifies this
      ensures Valid() && pages == old(pages)
      ensures Turn(|pages|, old(topicPage), forward).None? ==>
        r == ReturnedFalse && topicPage == old(topicPage) && !completes
      ensures Turn(|pages|, old(topicPage), forward).Some? ==>
        && topicPage == Turn(|pages|, old(topicPage), forward).value
        && r == Returned(View(pages[topicPage], topicPage))
        && (completes <==> topicPage == |pages| - 1)
    {
      var pageIndex := if forward then topicPage + 1 else topicPage - 1;
      if !(0 <= pageIndex < |pages|) {
        return ReturnedFalse, false;
      }
      completes := pageIndex == |pages| - 1;
      topicPage := pageIndex;
      r := Returned(View(pages[topicPage], topicPage));
    }
  }

  // ---------------------------------------------------------------- leaderboard

  /** The leaderboard rows of `DataHandler`, in the order last produced. */
  class Leaderboard<Row> {
    var data: seq<Row>

    constructor(data: seq<Row>)
      ensures this.data == data
    {
      this.data := data;
    }

    /** `leaderboard_data_reverse`: reverses the stored rows and returns them. */
    method LeaderboardDataReverse() returns (r: seq<Row>)
      modifies this
      ensures data == Reversed(old(data)) && r == data
      ensures multiset(data) == multiset(old(data))
    {
      ReversedMultiset(data);
      data := Reversed(data);
      r := data;
    }
  }

  /** Reversing twice restores the original order. */
  method ReverseTwice<Row>(board: Leaderboard<Row>) returns (r: seq<Row>)
    modifies board
    ensures board.data == old(board.data) && r == board.data
  {
    r := board.LeaderboardDataReverse();
    r := board.LeaderboardDataReverse();
    ReversedInvolution(old(board.data));
  }
}

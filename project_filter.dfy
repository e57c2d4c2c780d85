/**
 * The click handler of `initializeProjectFiltering`: the clicked
 * `.filter-btn` becomes the only active one, and each `.project-card` is
 * shown when the filter is `all` or one of the card's comma-separated
 * categories, and otherwise hidden once its exit animation completes.
 */
module ProjectFilter {
  import Strings

  /** A `.filter-btn`: its `data-filter` token and whether it carries `active`. */
  datatype FilterButton = FilterButton(filter: string, active: bool)

  /** A card's `style.display`: never set, `block`, or `none`. */
  datatype Display = Unset | Block | Hidden

  /** A `.project-card`: its `data-categories` list and its display. */
  datatype Card = Card(categories: string, display: Display)

  const AllFilter := "all"

  /** `filter === 'all' || categories.split(',').includes(filter)`, with no trimming. */
  predicate Matches(filter: string, categories: string) {
    filter == AllFilter || filter in Strings.Split(categories, ',')
  }

  /**
   * A card matches exactly when the filter is `all` or occurs in the raw
   * category string as a whole comma-delimited entry, spaces included.
   */
  lemma MatchesIff(filter: string, categories: string)
    ensures Matches(filter, categories) <==>
      filter == AllFilter || Strings.Delimited(filter, categories, ',')
  {
    if filter in Strings.Split(categories, ',') {
      Strings.SplitPieceIsDelimited(categories, ',', filter);
    }
    if Strings.Delimited(filter, categories, ',') {
      Strings.DelimitedIsSplitPiece(categories, ',', filter);
    }
  }

  /** Entries are compared untrimmed: a space after the comma makes a different entry. */
  lemma NoTrimming()
    ensures Matches("design", "web,design")
    ensures !Matches("design", "web, design")
  {
    TightListMatches();
    SpacedListDoesNotMatch();
  }

  lemma TightListMatches()
    ensures Matches("design", "web,design")
  {
    var tight := "web,design";
    assert tight[4..10] == "design";
    assert Strings.DelimitedAt("design", tight, ',', 4, 10);
    MatchesIff("design", tight);
  }

  lemma SpacedListDoesNotMatch()
    ensures !Matches("design", "web, design")
  {
    var rest := " design";
    var loose: string := "web" + [','] + rest;
    var pieces := ["web", rest];
    assert pieces[1..] == [rest];
    assert Strings.Join(pieces, ',') == loose;
    assert Strings.NoSeparator(pieces, ',') by {
      assert Strings.Free("web", ',');
      assert Strings.Free(rest, ',');
    }
    Strings.SplitJoin(pieces, ',');
    assert loose == "web, design";
    assert "design" != rest;
  }

  /**
   * One click on button `clicked`: afterwards it is the only active button,
   * and every card is displayed exactly when it matches that button's
   * filter (`none` standing for the state once the exit animation ends).
   */
  method OnFilterClick(buttons: array<FilterButton>, clicked: nat, cards: array<Card>)
    requires clicked < buttons.Length
    modifies buttons, cards
    ensures forall i :: 0 <= i < buttons.Length ==>
      buttons[i].filter == old(buttons[i].filter) && (buttons[i].active <==> i == clicked)
    ensures forall i :: 0 <= i < cards.Length ==>
      cards[i].categories == old(cards[i].categories) &&
      cards[i].display == (if Matches(old(buttons[clicked].filter), cards[i].categories) then Block else Hidden)
  {
    var filter := buttons[clicked].filter;
    for i := 0 to buttons.Length
      modifies buttons
      invariant forall j :: 0 <= j < buttons.Length ==> buttons[j].filter == old(buttons[j].filter)
      invariant forall j :: 0 <= j < i ==> !buttons[j].active
    {
      buttons[i] := buttons[i].(active := false);
    }
    buttons[clicked] := buttons[clicked].(active := true);
    for i := 0 to cards.Length
      modifies cards
      invariant forall j :: 0 <= j < cards.Length ==> cards[j].categories == old(cards[j].categories)
      invariant forall j :: 0 <= j < i ==>
        cards[j].display == (if Matches(filter, cards[j].categories) then Block else Hidden)
    {
      var categories := Strings.Split(cards[i].categories, ',');
      if filter == AllFilter || filter in categories {
        cards[i] := cards[i].(display := Block);
      } else {
        cards[i] := cards[i].(display := Hidden);
      }
    }
  }
}

/**
 * The flashcard screen (web/src/App.tsx): the search filter, the shuffle,
 * and the state the card view keeps (the loaded cards, the query, the deck
 * on show, the position in it and whether the card is turned over).
 *
 * React's state hooks and effects become the fields and methods of
 * `FlashcardApp`: each method performs one user action or data arrival
 * together with the effects it triggers.
 */
module Deck {
  import opened Wrappers
  import opened JsText
  import opened Masking

  /** A card as the app reads it from the data file. */
  datatype Card = Card(
    id: int,
    name: string,
    imageUrl: Option<string>,
    location: Option<string>,
    description: Option<string>,
    reading: Option<string>)

  /** The text a query is searched in: name, location and description, separated by spaces. */
  function Haystack(c: Card): string {
    c.name + " " + c.location.GetOr("") + " " + c.description.GetOr("")
  }

  /** The filter's test for the trimmed query `q`: an empty query keeps every card. */
  predicate Matches(q: string, c: Card) {
    q == [] || Contains(Haystack(c), q)
  }

  function KeepIf(q: string): Card -> Option<Card> {
    (c: Card) => if Matches(q, c) then Some(c) else None
  }

  /** `filtered`: the cards whose haystack contains the trimmed query (case-sensitive), in order. */
  function Filtered(cards: seq<Card>, query: string): (r: seq<Card>)
    ensures |r| <= |cards|
  {
    Collect(KeepIf(Trim(query)), cards)
  }

  /** A query of nothing but whitespace keeps every card, in order. */
  lemma FilteredBlank(cards: seq<Card>, query: string)
    requires AllSpace(query)
    ensures Filtered(cards, query) == cards
  {
    CollectAll(KeepIf(Trim(query)), cards);
  }

  /** The filter works card by card, so it keeps the order: it distributes over concatenation. */
  lemma FilteredAppend(a: seq<Card>, b: seq<Card>, query: string)
    ensures Filtered(a + b, query) == Filtered(a, query) + Filtered(b, query)
  {
    CollectAppend(KeepIf(Trim(query)), a, b);
  }

  /** One card is kept exactly when its haystack contains the trimmed query. */
  lemma FilteredOne(c: Card, query: string)
    ensures Filtered([c], query) == if Matches(Trim(query), c) then [c] else []
  {
    assert [c][..0] == [];
  }

  /** A card is shown exactly when it was loaded and matches the query. */
  lemma FilteredMembers(cards: seq<Card>, query: string, c: Card)
    ensures c in Filtered(cards, query) <==> c in cards && Matches(Trim(query), c)
  {
    var f := KeepIf(Trim(query));
    if c in Filtered(cards, query) {
      CollectFrom(f, cards, c);
    }
    if c in cards && Matches(Trim(query), c) {
      var k :| 0 <= k < |cards| && cards[k] == c;
      CollectKeeps(f, cards, k);
    }
  }

  /**
   * `shuffleArray`: the array is copied, then for `i` from the last index
   * down to 1 the element at `i` is swapped with one at a position
   * `0 <= j <= i` (`Math.floor(Math.random() * (i + 1))`, any such `j`).
   */
  method ShuffleArray<T>(arr: seq<T>) returns (r: seq<T>)
    ensures |r| == |arr|
    ensures multiset(r) == multiset(arr)
  {
    var a := new T[|arr|](k requires 0 <= k < |arr| => arr[k]);
    assert a[..] == arr;
    var i := a.Length - 1;
    while i > 0
      invariant -1 <= i < a.Length
      invariant multiset(a[..]) == multiset(arr)
    {
      var j :| 0 <= j <= i;
      a[i], a[j] := a[j], a[i];
      i := i - 1;
    }
    r := a[..];
  }

  /** What the card view shows: the position in the deck and which side is up. */
  datatype View = View(index: nat, flipped: bool)

  /** `handleCardClick` on a deck of `size` cards. */
  function Click(v: View, size: nat): View {
    if size == 0 then v
    else if !v.flipped then View(v.index, true)
    else View(v.index + 1, false)
  }

  /** `times` clicks in a row. */
  function Clicks(v: View, size: nat, times: nat): View
    decreases times
  {
    if times == 0 then v else Clicks(Click(v, size), size, times - 1)
  }

  /** Two clicks on a face-down card turn it over and then move on to the next card, face down. */
  lemma {:induction false} TwoClicksAdvance(i: nat, size: nat, t: nat)
    requires size > 0
    ensures Clicks(View(i, false), size, 2 * t) == View(i + t, false)
    decreases t
  {
    if t > 0 {
      assert Click(Click(View(i, false), size), size) == View(i + 1, false);
      assert Clicks(View(i, false), size, 2 * t) == Clicks(View(i + 1, false), size, 2 * (t - 1));
      TwoClicksAdvance(i + 1, size, t - 1);
    }
  }

  /** Going through the whole deck once brings the same card back. */
  lemma DeckCycles(i: nat, size: nat)
    requires size > 0
    ensures Clicks(View(i, false), size, 2 * size).index % size == i % size
  {
    TwoClicksAdvance(i, size, size);
    AddSizeMod(i, size);
  }

  lemma MulAtLeast(d: int, n: int)
    requires d >= 1 && n > 0
    ensures d * n >= n
    decreases d
  {
    if d > 1 {
      MulAtLeast(d - 1, n);
      assert d * n == (d - 1) * n + n;
    }
  }

  /** Moving a whole deck's length ahead lands on the same position. */
  lemma AddSizeMod(i: nat, size: nat)
    requires size > 0
    ensures (i + size) % size == i % size
  {
    var x := i + size;
    var q, r := i / size, i % size;
    var q', r' := x / size, x % size;
    var d := q' - q - 1;
    assert d * size == r - r' by {
      assert x == q' * size + r';
      assert i == q * size + r;
      assert d * size == q' * size - q * size - size;
    }
    if d >= 1 {
      MulAtLeast(d, size);
    } else if d <= -1 {
      MulAtLeast(-d, size);
    }
  }

  /** Clicking with no card on show changes nothing. */
  lemma ClicksOnEmptyDeck(v: View, times: nat)
    ensures Clicks(v, 0, times) == v
  {
  }

  /** The app's state and the effects that keep it consistent. */
  class FlashcardApp {
    var yokai: seq<Card>
    var query: string
    var currentIndex: nat
    var flipped: bool
    var aliases: map<string, seq<string>>
    var deck: seq<Card>

    /** The deck on show is always a rearrangement of the cards the filter keeps. */
    predicate Valid()
      reads this
    {
      multiset(deck) == multiset(Filtered(yokai, query))
    }

    /** The first render: nothing loaded, an empty query, the first position, face down. */
    constructor ()
      ensures Valid()
      ensures yokai == [] && query == [] && currentIndex == 0 && !flipped && aliases == map[] && deck == []
    {
      yokai := [];
      query := [];
      currentIndex := 0;
      flipped := false;
      aliases := map[];
      deck := [];
    }

    function ViewOf(): View
      reads this
    {
      View(currentIndex, flipped)
    }

    /** `current`: the card at the position taken modulo the deck's size, if there are cards. */
    function Current(): (r: Option<Card>)
      reads this
      ensures r.Some? <==> |deck| > 0
      ensures r.Some? ==> r.value in deck
      ensures |deck| > 0 ==> r == Some(deck[currentIndex % |deck|])
    {
      if |deck| > 0 then Some(deck[currentIndex % |deck|]) else None
    }

    /** The counter under the card, shown only when the deck has cards. */
    function Counter(): (r: Option<nat>)
      reads this
      ensures r.Some? <==> |deck| > 0
      ensures r.Some? ==> 1 <= r.value <= |deck| && Current() == Some(deck[r.value - 1])
      ensures |deck| > 0 ==> r == Some(currentIndex % |deck| + 1)
    {
      if |deck| > 0 then Some(currentIndex % |deck| + 1) else None
    }

    /** The current card matches the query, because the deck only ever holds filtered cards. */
    lemma CurrentMatchesQuery()
      requires Valid() && Current().Some?
      ensures Current().value in yokai && Matches(Trim(query), Current().value)
    {
      var c := Current().value;
      assert c in multiset(Filtered(yokai, query));
      FilteredMembers(yokai, query, c);
    }

    /** `namesToMask`: the card's name followed by its aliases, if the alias table lists it. */
    function NamesToMask(): (r: seq<string>)
      reads this
      ensures Current().None? ==> r == []
      ensures Current().Some? ==> |r| >= 1 && r[0] == Current().value.name
      ensures Current().Some? && Current().value.name in aliases ==> r[1..] == aliases[Current().value.name]
      ensures Current().Some? && Current().value.name !in aliases ==> r == [Current().value.name]
    {
      match Current()
      case None => []
      case Some(c) => [c.name] + (if c.name in aliases then aliases[c.name] else [])
    }

    /** `descriptionToShow`: the description as it is on the back, masked on the front. */
    function DescriptionToShow(): (r: Option<string>)
      reads this
      ensures Current().None? ==> r.None?
      ensures Current().Some? && flipped ==> r == Current().value.description
      ensures Current().Some? && !flipped ==> r == MaskNames(NamesToMask(), Current().value.description)
    {
      match Current()
      case None => None
      case Some(c) => if flipped then c.description else MaskNames(NamesToMask(), c.description)
    }

    /** The front never shows more than the description with some characters masked, whitespace kept. */
    lemma FrontHidesOnlyCharacters()
      requires Current().Some? && !flipped
      ensures DescriptionToShow().Some? <==> Current().value.description.Some?
      ensures DescriptionToShow().Some? ==> Masked(Current().value.description.value, DescriptionToShow().value)
    {
    }

    /**
     * On the front, the card's own name is hidden whatever its aliases: each
     * occurrence of the name in the description starts with a masked
     * character, and an occurrence that no earlier one straddles is masked
     * whole, whitespace apart.
     */
    lemma FrontMasksOwnName(a: nat, e: nat, k: nat)
      requires Current().Some? && !flipped && Current().value.description.Some?
      requires Current().value.name != [] && a <= |Current().value.description.value|
      requires AtomsMatch(SpacedAtoms(Current().value.name), Current().value.description.value, a, e)
      ensures DescriptionToShow().Some? && a < |Current().value.description.value|
      ensures DescriptionToShow().value[a] == MaskCharOf(Current().value.name[0])
      ensures MatchEnd(SpacedAtoms(Current().value.name), Current().value.description.value, a).Some?
      ensures (forall b, f :: 0 <= b < a < f ==> !AtomsMatch(SpacedAtoms(Current().value.name), Current().value.description.value, b, f))
              && a <= k < MatchEnd(SpacedAtoms(Current().value.name), Current().value.description.value, a).value
              ==> DescriptionToShow().value[k] == MaskCharOf(Current().value.description.value[k])
    {
      var c := Current().value;
      var names := NamesToMask();
      assert names[0] == c.name;
      FirstOfListIsMasked(names, c.description.value, a, e, k);
    }

    /** `handleCardClick`: no card, no change; a face-down card is turned over; a turned card gives way to the next. */
    method HandleCardClick()
      modifies this
      ensures yokai == old(yokai) && query == old(query) && aliases == old(aliases) && deck == old(deck)
      ensures ViewOf() == Click(old(ViewOf()), |deck|)
      ensures |deck| == 0 ==> currentIndex == old(currentIndex) && flipped == old(flipped)
      ensures |deck| > 0 && !old(flipped) ==> flipped && currentIndex == old(currentIndex)
      ensures |deck| > 0 && old(flipped) ==> !flipped && currentIndex == old(currentIndex) + 1
      ensures old(Valid()) ==> Valid()
    {
      if Current().None? {
        return;
      }
      if !flipped {
        flipped := true;
      } else {
        currentIndex := currentIndex + 1;
        flipped := false;
      }
    }

    /**
     * Typing in the search box. A different query recomputes `filtered`, and
     * the effects then put the filtered cards on show from the first
     * position, face down; the same query changes nothing.
     */
    method SetQuery(q: string)
      modifies this
      ensures query == q && yokai == old(yokai) && aliases == old(aliases)
      ensures q == old(query) ==> deck == old(deck) && currentIndex == old(currentIndex) && flipped == old(flipped)
      ensures q != old(query) ==> deck == Filtered(yokai, q) && currentIndex == 0 && !flipped
      ensures old(Valid()) ==> Valid()
    {
      if q == query {
        return;
      }
      query := q;
      deck := Filtered(yokai, query);
      currentIndex := 0;
      flipped := false;
    }

    /** The card data arriving: `filtered` is recomputed and the deck reset to it. */
    method LoadYokai(data: seq<Card>)
      modifies this
      ensures yokai == data && query == old(query) && aliases == old(aliases)
      ensures deck == Filtered(data, query) && currentIndex == 0 && !flipped
      ensures Valid()
    {
      yokai := data;
      deck := Filtered(yokai, query);
      currentIndex := 0;
      flipped := false;
    }

    /** The alias table arriving; a missing or unreadable table counts as empty. */
    method LoadAliases(data: Option<map<string, seq<string>>>)
      modifies this
      ensures aliases == data.GetOr(map[])
      ensures yokai == old(yokai) && query == old(query) && deck == old(deck)
      ensures currentIndex == old(currentIndex) && flipped == old(flipped)
      ensures old(Valid()) ==> Valid()
    {
      aliases := data.GetOr(map[]);
    }

    /** `shuffleDeck`: the deck on show (or the filtered cards, if it is empty) in a new order, from the first position, face down. */
    method ShuffleDeck()
      modifies this
      ensures yokai == old(yokai) && query == old(query) && aliases == old(aliases)
      ensures multiset(deck) == multiset(if |old(deck)| > 0 then old(deck) else Filtered(yokai, query))
      ensures currentIndex == 0 && !flipped
      ensures old(Valid()) ==> Valid()
    {
      var source := if |deck| > 0 then deck else Filtered(yokai, query);
      deck := ShuffleArray(source);
      currentIndex := 0;
      flipped := false;
    }
  }
}

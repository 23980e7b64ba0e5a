/**
 * The card resolver: picks one printing among those the card API returned
 * for a query, scanning newest-first, and turns the API outcome into the
 * reply text.
 */
module CardSelect {
  import opened Wrappers
  import opened Text
  import opened Cards
  import opened CardQuery

  const FetchError := "Error fetching card from API. See command line output."
  const NotFound := "Card not found :("

  /** Characters with a meaning in a regular expression. The card name is
      spliced unescaped into `(?i)^<name>(,| )`; only names without these
      characters make that pattern a literal prefix test. */
  predicate NoRegexMeta(name: string) {
    forall i :: 0 <= i < |name| ==> name[i] !in "\\.+*?()|[]{}^$"
  }

  /** `(?i)^<name>(,| )` for a metacharacter-free name: the card name starts,
      ignoring case, with the query name followed by a comma or a space. */
  predicate PrefixMatch(cardName: string, name: string) {
    |name| < |cardName| && EqualFold(cardName[..|name|], name) && cardName[|name|] in {',', ' '}
  }

  /** The ranks of the selection heuristic, strongest first. */
  datatype Tier = Exact | Prefix | Named | Any

  predicate InTier(c: Card, name: string, t: Tier) {
    Qualifies(c) &&
    match t
    case Exact => EqualFold(c.name, name)
    case Prefix => PrefixMatch(c.name, name)
    case Named => c.name != ""
    case Any => true
  }

  /** The highest index at or above `lo` whose printing is in tier `t`. */
  function LastIn(cards: seq<Card>, name: string, t: Tier, lo: nat): (r: Option<nat>)
    requires lo <= |cards|
    ensures r.Some? ==>
      && lo <= r.value < |cards| && InTier(cards[r.value], name, t)
      && forall j :: r.value < j < |cards| ==> !InTier(cards[j], name, t)
    ensures r.None? <==> forall j :: lo <= j < |cards| ==> !InTier(cards[j], name, t)
    decreases |cards| - lo
  {
    if lo == |cards| then None
    else match LastIn(cards, name, t, lo + 1)
      case Some(k) => Some(k)
      case None => if InTier(cards[lo], name, t) then Some(lo) else None
  }

  /** The lowest index at or above `lo` whose printing is in tier `t`. */
  function FirstIn(cards: seq<Card>, name: string, t: Tier, lo: nat): (r: Option<nat>)
    requires lo <= |cards|
    ensures r.Some? ==>
      && lo <= r.value < |cards| && InTier(cards[r.value], name, t)
      && forall j :: lo <= j < r.value ==> !InTier(cards[j], name, t)
    ensures r.None? <==> forall j :: lo <= j < |cards| ==> !InTier(cards[j], name, t)
    decreases |cards| - lo
  {
    if lo == |cards| then None
    else if InTier(cards[lo], name, t) then Some(lo)
    else FirstIn(cards, name, t, lo + 1)
  }

  /** The printing held as provisional choice once `cards[lo..]` has been
      scanned without an exact match: the newest prefix match, else the newest
      qualifying printing with a name, else (all qualifying names empty) the
      oldest qualifying printing, else none. */
  function Provisional(cards: seq<Card>, name: string, lo: nat): Card
    requires lo <= |cards|
  {
    match LastIn(cards, name, Prefix, lo)
    case Some(k) => cards[k]
    case None =>
      match LastIn(cards, name, Named, lo)
      case Some(k) => cards[k]
      case None =>
        match FirstIn(cards, name, Any, lo)
        case Some(k) => cards[k]
        case None => NoCard
  }

  /** Taking one older printing into account changes the provisional choice
      as the selection loop does: a qualifying prefix match displaces a
      held card that is not one, and any qualifying printing displaces a
      held card without a name. */
  lemma ProvisionalStep(cards: seq<Card>, name: string, lo: nat)
    requires lo < |cards| && !InTier(cards[lo], name, Exact)
    ensures var held, c := Provisional(cards, name, lo + 1), cards[lo];
      Provisional(cards, name, lo) ==
        if !Qualifies(c) then held
        else if PrefixMatch(c.name, name) && !PrefixMatch(held.name, name) then c
        else if held.name == "" then c
        else held
  {
  }

  /** The image URL the resolver posts for a non-empty list of printings:
      the newest qualifying exact (case-insensitive) name match, otherwise
      the provisional choice. */
  function ChoosePrinting(cards: seq<Card>, name: string): string {
    match LastIn(cards, name, Exact, 0)
    case Some(k) => cards[k].imageUrl
    case None => Provisional(cards, name, 0).imageUrl
  }

  /** The selection loop: walks the printings newest-first, returns the first
      exact name match at once, and otherwise keeps a provisional card that a
      prefix match displaces from a non-prefix match, and that any qualifying
      card displaces while it has no name. */
  method SelectPrinting(cards: seq<Card>, name: string) returns (url: string)
    requires NoRegexMeta(name)
    ensures url == ChoosePrinting(cards, name)
  {
    var cardToReturn := NoCard;
    for i := 0 to |cards|
      invariant LastIn(cards, name, Exact, |cards| - i).None?
      invariant cardToReturn == Provisional(cards, name, |cards| - i)
    {
      var c := cards[|cards| - 1 - i];
      if !InTier(c, name, Exact) {
        ProvisionalStep(cards, name, |cards| - 1 - i);
      }
      if c.imageUrl != "" && AllowedCardRarity(c.rarity) && c.cardType != "Vanguard" {
        if EqualFold(c.name, name) {
          return c.imageUrl;
        } else if PrefixMatch(c.name, name) && !PrefixMatch(cardToReturn.name, name) {
          cardToReturn := c;
        } else if cardToReturn.name == "" {
          cardToReturn := c;
        }
      }
    }
    return cardToReturn.imageUrl;
  }

  /** The reply for one card query: the API failure and empty-result messages
      come before any selection, so only a query that reaches the selection
      needs a card name the prefix pattern reads literally. */
  method FetchCard(api: Api, query: string) returns (reply: string)
    requires (match api.get(Uri(api, ParseQuery(query)))
              case Some(cards) => cards != []
              case None => false) ==> NoRegexMeta(ParseQuery(query).name)
    ensures var ep := ParseQuery(query);
      match api.get(Uri(api, ep))
      case None => reply == FetchError
      case Some(cards) => reply == if cards == [] then NotFound else ChoosePrinting(cards, ep.name)
  {
    var ep := ParseQuery(query);
    var cc := api.get(Uri(api, ep));
    if cc.None? {
      return FetchError;
    }
    if |cc.value| == 0 {
      return NotFound;
    }
    reply := SelectPrinting(cc.value, ep.name);
  }

  // ---------------------------------------------------------------------
  // What the choice means

  /** Only a qualifying printing is ever chosen, and the choice is empty
      exactly when no printing qualifies. */
  lemma ChoiceQualifies(cards: seq<Card>, name: string)
    ensures var url := ChoosePrinting(cards, name);
      && (url == "" <==> forall k :: 0 <= k < |cards| ==> !Qualifies(cards[k]))
      && (url != "" ==> exists k :: 0 <= k < |cards| && Qualifies(cards[k]) && url == cards[k].imageUrl)
  {
    var url := ChoosePrinting(cards, name);
    if exists k :: 0 <= k < |cards| && Qualifies(cards[k]) {
      var k :| 0 <= k < |cards| && Qualifies(cards[k]);
      assert InTier(cards[k], name, Any);
    }
  }

  /** An exact (case-insensitive) name match among the qualifying printings
      is authoritative: the newest one is chosen. */
  lemma ExactMatchChosen(cards: seq<Card>, name: string, k: nat)
    requires k < |cards| && Qualifies(cards[k]) && EqualFold(cards[k].name, name)
    ensures exists e ::
      && k <= e < |cards| && Qualifies(cards[e]) && EqualFold(cards[e].name, name)
      && ChoosePrinting(cards, name) == cards[e].imageUrl
      && forall j :: e < j < |cards| ==> !(Qualifies(cards[j]) && EqualFold(cards[j].name, name))
  {
    assert InTier(cards[k], name, Exact);
  }

  /** Without an exact match, the newest qualifying prefix match is chosen. */
  lemma PrefixMatchChosen(cards: seq<Card>, name: string, k: nat)
    requires forall j :: 0 <= j < |cards| ==> !(Qualifies(cards[j]) && EqualFold(cards[j].name, name))
    requires k < |cards| && Qualifies(cards[k]) && PrefixMatch(cards[k].name, name)
    ensures exists e ::
      && k <= e < |cards| && Qualifies(cards[e]) && PrefixMatch(cards[e].name, name)
      && ChoosePrinting(cards, name) == cards[e].imageUrl
      && forall j :: e < j < |cards| ==> !(Qualifies(cards[j]) && PrefixMatch(cards[j].name, name))
  {
    assert InTier(cards[k], name, Prefix);
    assert LastIn(cards, name, Exact, 0).None?;
  }

  /** Without an exact or a prefix match, the newest qualifying printing that
      has a name is chosen. */
  lemma NewestNamedChosen(cards: seq<Card>, name: string, k: nat)
    requires forall j :: 0 <= j < |cards| ==>
      !(Qualifies(cards[j]) && (EqualFold(cards[j].name, name) || PrefixMatch(cards[j].name, name)))
    requires k < |cards| && Qualifies(cards[k]) && cards[k].name != ""
    ensures exists e ::
      && k <= e < |cards| && Qualifies(cards[e]) && cards[e].name != ""
      && ChoosePrinting(cards, name) == cards[e].imageUrl
      && forall j :: e < j < |cards| ==> !(Qualifies(cards[j]) && cards[j].name != "")
  {
    assert InTier(cards[k], name, Named);
    assert LastIn(cards, name, Exact, 0).None?;
    assert LastIn(cards, name, Prefix, 0).None?;
  }

  /** When every qualifying printing is nameless (and the query name is not
      empty), each one in turn replaces the nameless provisional card, so the
      OLDEST qualifying printing is chosen. */
  lemma UnnamedOldestChosen(cards: seq<Card>, name: string, k: nat)
    requires name != ""
    requires forall j :: 0 <= j < |cards| && Qualifies(cards[j]) ==> cards[j].name == ""
    requires k < |cards| && Qualifies(cards[k])
    ensures exists e ::
      && 0 <= e <= k && Qualifies(cards[e])
      && ChoosePrinting(cards, name) == cards[e].imageUrl
      && forall j :: 0 <= j < e ==> !Qualifies(cards[j])
  {
    assert InTier(cards[k], name, Any);
    assert ToLower(name) != ToLower("");
    assert LastIn(cards, name, Exact, 0).None?;
    assert LastIn(cards, name, Prefix, 0).None?;
    assert LastIn(cards, name, Named, 0).None?;
  }
}

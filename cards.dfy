/**
 * Card printings as returned by the card API, and the filter that decides
 * which printings may ever be posted.
 */
module Cards {

  /** One printing of a card (the JSON record of the card API). An absent
      `imageUrl` or `type` decodes to the empty string. */
  datatype Card = Card(
    name: string,
    multiverseId: int,
    setCode: string,
    setName: string,
    imageUrl: string,
    rarity: string,
    cardType: string)

  /** Go's zero value of the Card struct: every field empty. */
  const NoCard := Card("", 0, "", "", "", "", "")

  /** The lookup table of allowed rarities; a missing key reads as false. */
  const RarityTable: map<string, bool> := map[
    "Common" := true,
    "Uncommon" := true,
    "Rare" := true,
    "Mythic Rare" := true,
    "Mythic" := true,
    "Basic Land" := true]

  /** Rarities that may be posted; promotional and masterpiece tiers are not. */
  function AllowedCardRarity(rarity: string): (ok: bool)
    ensures ok <==> rarity in {"Common", "Uncommon", "Rare", "Mythic Rare", "Mythic", "Basic Land"}
  {
    rarity in RarityTable && RarityTable[rarity]
  }

  /** A printing the selection loop considers at all: it has an image, an
      allowed rarity, and is not a Vanguard card. */
  predicate Qualifies(c: Card) {
    c.imageUrl != "" && AllowedCardRarity(c.rarity) && c.cardType != "Vanguard"
  }
}

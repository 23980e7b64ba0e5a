# mtgbot: a Dafny model of the message-processing core

mtgbot is a chat bot. For every message it sees, it does three things in order:

1. It checks a table of custom trigger patterns. When one matches, it replies with one of that trigger's canned responses.
2. Otherwise it finds every `[[card name]]` or `[[card name|set]]` reference. It asks a trading-card API for the printings of each card and picks one printing's image URL.
3. It finds spell references written `<spell>`. They arrive HTML-escaped as `&lt;spell&gt;`. It looks the first one up in a local spell database and formats that spell's text.

This project models that core of `mtgbot.go` and proves what it computes:

- `Cards` holds the card record and the rarity filter.
- `CardQuery` holds the `Name|Set` query parsing and the choice of API endpoint.
- `CardSelect` holds the selection among printings, plus the error replies around it.
- `Extract` holds the two reference extractors. They are modelled as a scanner. The scanner is proved to find exactly the leftmost, non-overlapping matches of each regular expression.
- `Spells` holds two things:
  - the closest-spell-name loop;
  - the spell reply template, with a parser that reads the fields back.
- `Triggers` holds the custom responses.
- `Dispatch` holds `processMessage`.
- `Text` holds the Go `strings` functions the code relies on: `ToLower`, `EqualFold`, `Compare`, `Split`, `Trim`, `TrimPrefix` and `TrimSuffix`.
- `Wrappers` holds `Option`. A Go `nil` is modelled as `None`.

The loops of the source stay loops:

- `SelectPrinting` scans the printings newest-first.
- `ClosestSpellName` is the spell-name scan with `break`.
- The two extractors fill an `array`.
- `CheckCustomResponseMatches` returns early.
- `ProcessMessage` accumulates the card replies.

Each loop is proved equal to a declarative function. Lemmas then state what that function means.

Three behaviours of the code are easy to miss, and the model keeps them:

- **A nameless provisional card.** The comment before the selection loop (`mtgbot.go:167-175`) lists the tiers: exact match, prefix match, and "no card is currently set to be returned". The last test is on the held card's name (`mtgbot.go:185`), so a held card with an empty name keeps being replaced as the loop walks towards older printings. For a non-empty query name, when every qualifying printing is nameless, the OLDEST one is chosen (`UnnamedOldestChosen`). An empty query name (from a reference such as `[[|M19]]`) is an exact case-insensitive match for every nameless printing, so there the newest one is returned (`ExactMatchChosen`).
- **An exact spell row.** An exact spell row is adopted even after a row that compares greater, because the equality test comes first in the loop (`mtgbot.go:333-336`).
- **A spell lookup that fails.** Such a failure does not just omit the spell: `processMessage` returns `""`, which drops the card replies already accumulated (`mtgbot.go:309-321`, `mtgbot.go:264-278`).
  - A spell with no row in the main table or the description table is formatted with empty fields. `rows.Scan` leaves the variables as they were.

## Model

| member | source | states |
|---|---|---|
| Cards.AllowedCardRarity | mtgbot.go:51-63 | true exactly for Common, Uncommon, Rare, Mythic Rare, Mythic and Basic Land; false for every other string, including "" |
| CardQuery.ParseQuery | mtgbot.go:128-152 | the card name is the text before the first bar character and contains none; exactly one bar selects the name+code endpoint when the suffix is a set code and the name+set endpoint otherwise, and the query is the name, the bar and the suffix; zero or several bars select name-only |
| Text.Split | mtgbot.go:128 | `strings.Split` on one character yields one more piece than there are separators, and no piece contains the separator |
| Text.SplitJoin | mtgbot.go:128 | joining the pieces with the separator gives back the original string |
| Text.SplitHead | mtgbot.go:128-129 | the first piece is a prefix of the string followed by the separator or the end; one piece is the whole string; two pieces rebuild it around the one separator |
| CardSelect.LastIn | mtgbot.go:176-189 | the highest index in a range whose printing qualifies and is in the given tier; None exactly when there is none |
| CardSelect.FirstIn | mtgbot.go:176-189 | the lowest index in a range whose printing qualifies and is in the given tier; None exactly when there is none |
| CardSelect.ProvisionalStep | mtgbot.go:180-188 | one more printing, older than those already seen and not an exact match, updates the provisional card as the loop body does |
| CardSelect.SelectPrinting | mtgbot.go:163-191 | the newest-first loop with its early return yields the tiered choice: newest exact match, else newest prefix match, else newest named qualifying printing, else oldest qualifying printing, else "" |
| CardSelect.FetchCard | mtgbot.go:154-161 | a failed API call gives the fetch-error reply and an empty card list gives "Card not found :(", both before any selection; otherwise the selected image URL |
| CardSelect.ChoiceQualifies | mtgbot.go:180-191 | only a qualifying printing (image, allowed rarity, not Vanguard) is ever chosen, and the result is "" exactly when no printing qualifies |
| CardSelect.ExactMatchChosen | mtgbot.go:176-182 | with a qualifying case-insensitive exact name match, the result is the image URL of the highest-index such printing |
| CardSelect.PrefixMatchChosen | mtgbot.go:183-184 | without an exact match, the newest qualifying printing whose name starts (ignoring case) with the query followed by ',' or ' ' is chosen |
| CardSelect.NewestNamedChosen | mtgbot.go:185-186 | without an exact or prefix match, the newest qualifying printing with a non-empty name is chosen |
| CardSelect.UnnamedOldestChosen | mtgbot.go:185-186 | for a non-empty query name, when every qualifying printing is nameless, the oldest qualifying printing is chosen |
| Extract.Run | mtgbot.go:196 | the run of interior characters stays in the text and stops at the end or at a character outside the class |
| Extract.RunInterior | mtgbot.go:196 | every character of the run is in the interior class |
| Extract.OpenAtIsSlice | mtgbot.go:196 | the character-by-character test for the opening delimiter holds exactly when the text at that position is the delimiter |
| Extract.CloseAtIsSlice | mtgbot.go:196 | the character-by-character test for the closing delimiter holds exactly when the text at that position is the delimiter |
| Extract.MatchAt | mtgbot.go:196 | a match found at a position ends after both delimiters and within the text |
| Extract.ScanFinds | mtgbot.go:196 | an opening delimiter, interior characters and a closing delimiter make the scanner report that match's end |
| Extract.MatchFound | mtgbot.go:196 | where the regular expression matches, the scanner finds that very match |
| Extract.ScanSound | mtgbot.go:196 | what the scanner reports is an opening delimiter, a run of interior characters and a closing delimiter |
| Extract.MatchSound | mtgbot.go:196 | what the scanner reports is a match of the regular expression |
| Extract.CloseNotInterior | mtgbot.go:196 | the first character of the closing delimiter is outside the interior class, so the run cannot swallow it |
| Extract.MatchAtIsMatch | mtgbot.go:196 | the scanner finds a match at a position exactly when the regular expression matches there with that end, so a match is fixed by its start |
| Extract.MatchTable | mtgbot.go:197 | the table of match ends has one entry per start position from the given one to the end of the text |
| Extract.MatchesAt | mtgbot.go:197 | the table entry at each start position is what the scanner finds there |
| Extract.Matches | mtgbot.go:197 | the whole message's table covers every start position and only moves forward |
| Extract.NextMatch | mtgbot.go:197 | the leftmost match at or after a position, with no match starting in between; None exactly when no match starts there or later |
| Extract.FindAll | mtgbot.go:197 | the result is a leftmost-first scan: its first span is the first match at or after the start position, and the rest is the scan resumed where that match ends |
| Extract.ScanSpans | mtgbot.go:197 | the spans of a scan are table matches, in order and disjoint |
| Extract.ScanGaps | mtgbot.go:197 | a scan skips no match: none starts before its first span, between two of its spans, or after its last |
| Extract.Spans | mtgbot.go:197 | every span of the message leaves room for both delimiters and a non-empty interior, lies in the text and is a table match; the spans are in order and disjoint |
| Extract.SpansAreMatches | mtgbot.go:197 | every span found by the scan is a match of the regular expression, and the spans are in order and disjoint |
| Extract.SpansLeftmost | mtgbot.go:197 | no match of the regular expression starts before the first span, between two spans or after the last, so none at all when there is no span |
| Extract.MatchShape | mtgbot.go:196 | a match is its opening delimiter, a non-empty run of interior characters and its closing delimiter |
| Extract.InnerShape | mtgbot.go:205-208 | the text inside a found span is non-empty, made of interior characters, and is the span without its delimiters |
| Extract.References | mtgbot.go:199-201 | None exactly when nothing matches, otherwise one string per match |
| Extract.ReferencesFromInners | mtgbot.go:204-210 | a list holding, for each match in order, the text between its delimiters is exactly the references |
| Extract.ReferencesShape | mtgbot.go:205-208 | each extracted string is non-empty, contains only interior characters (so no `[`, `]` or `&`), and is its match with the delimiters removed |
| Extract.InteriorExcludesDelimiters | mtgbot.go:196 | the interior classes contain no bracket, and no `&`, `<` or `>` |
| Extract.TrimBrackets | mtgbot.go:206 | `strings.Trim(match, "[]")` removes exactly the two brackets on each side of a bracket-free interior |
| Extract.TrimEntities | mtgbot.go:227-228 | TrimPrefix of `&lt;` then TrimSuffix of `&gt;` removes each entity once |
| Extract.TrimmedCardRef | mtgbot.go:206 | trimming a found card match gives the text between its delimiters |
| Extract.TrimmedSpellRef | mtgbot.go:227-228 | trimming a found spell match gives the text between its delimiters |
| Extract.GetMTGStringsFromMessage | mtgbot.go:195-211 | the array-filling loop returns None for no match, otherwise the `[[...]]` interiors left to right |
| Extract.GetDNDStringsFromMessage | mtgbot.go:215-233 | the array-filling loop returns None for no match, otherwise the `&lt;...&gt;` interiors left to right |
| Text.ToLowerIdempotent | mtgbot.go:330 | lower-casing leaves no ASCII capital letter, so lower-casing twice is lower-casing once |
| Text.EqualFoldEquivalence | mtgbot.go:181 | the case-insensitive name test is reflexive, symmetric and transitive, and holds between a string and its lower-cased form |
| Text.Compare | mtgbot.go:330 | `strings.Compare` returns -1, 0 or 1, and 0 exactly for equal strings |
| Text.CompareLess | mtgbot.go:330 | Compare is -1 exactly when the first string sorts lexicographically before the second |
| Text.CompareGreater | mtgbot.go:330 | Compare is 1 exactly when the second string sorts lexicographically before the first |
| Text.CompareAntisymmetric | mtgbot.go:330 | swapping the arguments negates the comparison |
| Spells.Cmp | mtgbot.go:330 | the lower-cased comparison is 0 exactly when row and query are equal ignoring case |
| Spells.FirstCmp | mtgbot.go:328-342 | the lowest index whose row compares as the given value; None exactly when there is none |
| Spells.ClosestSpellName | mtgbot.go:323-342 | the loop with `break` yields the first exact row, else the first row comparing greater, else the first row, else "" |
| Spells.ExactRowChosen | mtgbot.go:332-336 | the first row equal to the query ignoring case is chosen, whatever rows come before it |
| Spells.GreaterRowChosen | mtgbot.go:338-341 | without an exact row, the first row sorting strictly after the query (ignoring case) is chosen |
| Spells.FirstRowChosen | mtgbot.go:325-341 | when no row is equal to or sorts after the query, the first row is adopted (and "" with no rows) |
| Spells.ClosestIsRow | mtgbot.go:326-342 | the chosen name is one of the rows, or "" when there are none |
| Spells.ParseFormat | mtgbot.go:272-283 | the reply template loses nothing: name, level, school and description are read back from it when they do not contain the template's separators |
| Spells.FormatInjective | mtgbot.go:272-283 | two different separable spell records never give the same reply |
| Spells.SpellReplyReadsBack | mtgbot.go:255-286 | when both queries succeed, the reply carries the first main row's name, level and school and the first description row (empty fields for a missing row), all read back from it when those fields contain none of the template's separators |
| Spells.ReplyNonEmpty | mtgbot.go:263-283 | the formatted reply is "" exactly when one of the two queries failed |
| Triggers.FirstMatching | mtgbot.go:239-241 | the first rule whose pattern matches the message; None exactly when none matches |
| Triggers.CheckCustomResponseMatches | mtgbot.go:236-250 | the loop with early return gives one response of the first matching rule, picked by the draw, plus "\n"; "" when none matches |
| Triggers.CustomReplyShape | mtgbot.go:239-249 | the custom reply is "" exactly when no rule matches; otherwise it ends in "\n" and is one of the first matching rule's responses |
| Dispatch.CardOutputIsJoin | mtgbot.go:297-302 | the accumulated card output is the resolver replies joined by newlines, plus a final newline |
| Dispatch.CardRepliesIsJoin | mtgbot.go:297-302 | the card part of the reply is "" without card references, otherwise the resolver replies joined by newlines plus a final newline |
| Dispatch.AppendCardReplies | mtgbot.go:297-302 | the card loop appends each resolver reply and a newline, in query order, to what was there |
| Dispatch.ProcessMessage | mtgbot.go:291-353 | the orchestration returns the specified reply: trigger first, then card replies, then the first spell reference |
| Dispatch.TriggerOverrides | mtgbot.go:292-295 | a matching trigger decides the reply alone: the custom reply is returned unchanged, non-empty, ending in "\n", and one of the first matching rule's responses |
| Dispatch.CardsOnlyReply | mtgbot.go:297-302 | without a trigger or spell reference, the reply is the resolver replies joined by newlines plus "\n", or "" without card references |
| Dispatch.SpellReplacesCards | mtgbot.go:307-348 | without a matching trigger, when a spell name is found for the first spell reference, the reply is that spell's formatted text, so the card replies are discarded and the reply does not depend on the card resolver |
| Dispatch.SpellNotFoundKeepsCards | mtgbot.go:344-348 | when the spell search chooses no name, the reply is the card output |

## Left out

- The chat event loop, the bot-self filter and the reply posting in `slackStuff` (`mtgbot.go:356-384`) are left out. They are network I/O.
- `callMtgAPI` (`mtgbot.go:89-122`) is HTTP and JSON decoding. It becomes the function `Api.get`, which yields `None` on any failure.
- `loadConfig` and `loadCustomResponses` (`mtgbot.go:66-85`) are file reads with `os.Exit`. Their results become parameters: the URL templates in `Api`, and the rule list in `Triggers`. A missing custom list (`nil`) is the empty sequence.
- `url.QueryEscape` and `fmt.Sprintf` are abstract functions in `Api`. `Uri` only records which arguments are escaped.
- SQLite is the `SpellDb` record, which has three query functions:
  - the `LIKE` search (`mtgbot.go:314`);
  - the main-table lookup (`mtgbot.go:263`);
  - the description lookup (`mtgbot.go:274`).

  An unopenable database is `None`. The `rows == nil` test (`mtgbot.go:319-321`) cannot hold once the query succeeded, so it is not modelled. Logging with `fmt.Println` is not modelled.
- `rand.Seed`/`rand.Intn` (`mtgbot.go:243-244`) become the parameter `intn`, required to draw below any positive bound. `rand.Intn(0)` panics, so the first rule that matches the message is required to have a response; the other rules may have none.
- User-supplied trigger patterns (`mtgbot.go:240-241`) are matched by the abstract predicate `matches`. The panic of `regexp.MustCompile` on an invalid pattern is not modelled.
- Case folding in `strings.EqualFold` and `strings.ToLower` is ASCII-only. Unicode folding is not modelled.
- CardSelect.SelectPrinting: requires that the card name contain no regular-expression metacharacter.
  - The name is spliced unescaped into `(?i)^<name>(,| )` (`mtgbot.go:164-165`).
  - The prefix test is modelled as a literal case-insensitive prefix followed by ',' or ' '.
  - Not modelled: a name such as `Fire (Ice)` makes `MustCompile` panic, or changes what the pattern matches. The extractor accepts such names.
- CardSelect.FetchCard: carries the same metacharacter precondition on the parsed card name, but only when the API returns a non-empty card list, the one case that reaches the selection. The two error replies are stated for every name.
- The branch at `mtgbot.go:145-147` cannot run, because a string length is never negative. It is not modelled.
- Dispatch.ProcessMessage: the loop over spell references (`mtgbot.go:307-349`) returns during its first iteration. It is modelled as a lookup of the first reference, with no loop.
- The card fields `multiverseId`, `setCode` and `setName` are carried but never read by the modelled code.

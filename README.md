# CompanionBot: the Pokémon and Terraria lookups, modelled in Dafny

CompanionBot is a Discord bot. Its `pokemon` command looks a Pokémon up on
Bulbapedia and posts a card with its category, types, abilities and base
stats. Its `prefix` command looks an item prefix up on the Terraria wiki and
replies with its ID. The script `setup.py` downloads the same data ahead of
time. This project models the logic under the scraping:

- **Index keys** (`DexIndex`): which links of the National Pokédex listing
  are indexed. Each key is the lower-cased href with "/wiki/" and
  "_(pok%c3%a9mon)" deleted in one pass. Only the escapes that the name's
  first letters select are rewritten.
- **Search resolution** (`Lookup`): a direct key wins. Then come the fixed
  aliases, then the question for a bare "nidoran", then the invalid-name
  message.
- **Grouped accumulation** (`Groups`): the ";"-appending dictionary update
  behind types and abilities.
- **The extractors** (`Extract`): the category suffix, type tables
  de-duplicated in first-seen order, hidden ability cells, and the fixed
  stride over the stat cells. A record exists only when every extractor
  succeeds.
- **The card** (`Names`, `Sorting`, `Embed`): the display name, fields in
  key order, and at most three stat groups.
- **The cog** (`PokemonCog`): the `Pokemon` class with its lazily built
  `pokedex`.
- **The prefix table** (`Prefixes`) and the `Terraria` class with its lazily
  built `prefixes` (`TerrariaCog`).
- **The setup script** (`Setup`): its two globals, the option fold, index
  building, enrichment and the prefix dictionary. It returns its exit
  status.

The web pages are abstracted:

- A listing page is a sequence of tables. Each has the pieces of its first
  `th` element's markup, tags included, split on single spaces, and its
  hrefs. A table without a `th` has the single piece "None".
- A species page is its info boxes and stat tables. Their texts are already
  extracted, and absent texts are `None`.
- The prefix page is a sequence of tables with attributes and rows.

Downloads are parameters. A failed download is `None` or a URL missing from a
map. Python exceptions become explicit outcomes: `Raised`, `Logged`, exit
status 1 or 2.

Python's string built-ins are written out in `Text`:

- `lower` (ASCII) and `capitalize`;
- `strip` over the `str.isspace` characters;
- single-pass `replace`;
- `split` and `join` on a separator;
- string `<`.

Dictionaries are maps. Their insertion order matters only through
`sorted(...)` and through "the only value". The model keeps those through
the sorted key order and the single-group case.

Where the two copies of the logic differ, the model follows the code:

- `setup.py` reads a page with several info boxes from the first box. It
  only prints a message, where the bot refuses the page.
- `setup.py` requires every non-data row of the prefix table to have a `th`
  cell. The bot skips such rows.

## Model

| member | source | states |
|---|---|---|
| Groups.AddToGroup | pokemon.py:99-111 | a new group key stores the value; an existing key stores old + ";" + value; every other key is unchanged |
| Groups.GroupAllContents | pokemon.py:139-142 | after a run of updates a key is present iff it was or some update names it, and it holds the old value and the added values joined by ";" in order |
| Groups.GroupSplitsBack | pokemon.py:107-111 | when no value holds ";", splitting a group on ";" gives back exactly the values added under that key, in insertion order |
| Groups.GroupAllAppend | pokemon.py:96-103 | two runs of updates equal one run of their concatenation |
| Groups.ValuesForAppend | pokemon.py:99-111 | the values added under a key by two runs of updates are those of the first run followed by those of the second |
| Extract.WithSuffixNormalises | pokemon.py:64-65 | the category always contains " Pokémon", is unchanged when it already did, and normalising twice equals once |
| Extract.FirstSeenOrder | pokemon.py:84-93 | the de-duplicated type tables are distinct, are exactly the anchors' tables, and keep first-seen order (tables of a prefix of the anchors form a prefix) |
| Extract.DistinctTables | pokemon.py:84-93 | the identity-comparison loop yields the first-seen table list |
| Extract.AddTableTypes | pokemon.py:99-103 | the inner loop over one table's anchors equals the grouped updates for those anchors under the table's label |
| Extract.PopTables | pokemon.py:95-103 | the popping loop fails iff some table has no label, and otherwise equals the grouped updates of every table's anchors under its label |
| Extract.TagAll | pokemon.py:104-111 | the single-table loop equals the grouped updates of every anchor under the display name |
| Extract.TableEntriesValues | pokemon.py:99-103 | the updates for one table put exactly that table's anchor texts under its label, and nothing under any other key |
| Extract.TaggedValues | pokemon.py:104-111 | the updates under the display name put every anchor text there in page order, and nothing under any other key |
| Extract.PoppedValues | pokemon.py:95-103 | some value is popped under a key iff a table labelled with that key has an anchor |
| Extract.PoppedTableValues | pokemon.py:95-103 | with distinct tables and distinct labels, the values under a table's label are exactly that table's anchor texts |
| Extract.GroupTypes | pokemon.py:81-116 | the type loops compute the reference type grouping, failing exactly when a table label is missing |
| Extract.TypesUnderDisplayName | pokemon.py:104-111 | with at most one distinct table the only key is the display name (present iff there is an anchor) and it splits back into the anchors' texts in page order |
| Extract.TypesPerTable | pokemon.py:94-103 | with more than one table the keys are exactly the tables' labels, and with distinct labels each splits back into its table's anchor texts |
| Extract.GroupAbilities | pokemon.py:118-147 | the ability loop computes the reference ability grouping, failing when the cells are missing or a visible cell has no link |
| Extract.HiddenCellsIgnored | pokemon.py:129-131 | cells whose style contains "display: none" never contribute: the result equals that of the visible cells alone |
| Extract.AbilityKeys | pokemon.py:133-142 | the extractor fails iff some visible cell lacks a link; otherwise the keys are exactly the visible cells' sublabels, or the display name for a cell without one |
| Extract.AbilityGroupKeys | pokemon.py:126-143 | a successful abilities map has as keys exactly the visible cells' keys |
| Extract.ReadStride | pokemon.py:159-178 | the stride loop (first stat, five more two cells apart, total two cells after) equals the reference stride read |
| Extract.ReadBaseStats | pokemon.py:149-186 | the table loop skips tables whose first span is not "Stat", fails on a broken one and keys each read table by its title |
| Extract.StrideStatsKeys | pokemon.py:167-176 | the keys of a successful stride are exactly the names of its stat cells |
| Extract.StrideStatsValues | pokemon.py:167-176 | with distinct names every stat is stored under its own name as "base;lv50;lv100" |
| Extract.StrideStatsSize | pokemon.py:167-176 | a successful stride with distinct names stores exactly one entry per stat cell read |
| Extract.StrideStatsCount | pokemon.py:167-179 | with distinct names other than "Total" there is one entry per stat and none named "Total", so the total never overwrites a stat |
| Extract.StatValueSplits | pokemon.py:167-168 | a stat value splits on ";" into exactly the stripped base value and the two ranges |
| Extract.StatTableShape | pokemon.py:151-179 | a read table had span "Stat", is titled by its heading or by the display name in place of "Base stats", and holds the six stride stats and "Total" (the stripped total) |
| Extract.StatTableEntries | pokemon.py:166-179 | with six distinct stat names other than "Total" a read table holds exactly seven entries, each stat under its name |
| Extract.RecordAllOrNothing | pokemon.py:45-188 | a record exists iff every extractor succeeds, and then each field is that extractor's result |
| Extract.ReadRecord | pokemon.py:45-188 | the extractor sequence with early failure returns exactly the reference record |
| Names.TitledIsJoin | pokemon.py:38 | the character-by-character title agrees with split on "_", capitalize each word, join with " " |
| Names.PrettyPokeIsTitled | pokemon.py:193-194 | the display name capitalises the first letter of each "_"-separated word, lower-cases the rest and turns "_" into " " |
| DexIndex.IndexLinksKeys | pokemon.py:284-305 | a key is in the index iff some indexed link yields it |
| DexIndex.IndexLinksLastWins | pokemon.py:305 | the URL under a key is the last indexed link with that key |
| DexIndex.IndexLinksAppend | pokemon.py:282-305 | indexing two runs of links in turn equals indexing their concatenation |
| DexIndex.SelectedHrefsMembers | pokemon.py:281-284 | a link counts iff it belongs to table 7 or to a table where a region name is one of the space-separated pieces of the first `th`'s markup |
| DexIndex.IndexedKeys | pokemon.py:275-309 | a key is indexed iff a link of a selected table contains "Pok%C3%A9mon", lacks "list" in lower case, and yields that key |
| DexIndex.IndexKeyLowerCase | pokemon.py:287-302 | every index key is lower-case |
| DexIndex.StripMarkersKeepsLowerCase | pokemon.py:290-291 | deleting "/wiki/" and "_(pok%c3%a9mon)" keeps a lower-case string lower-case |
| DexIndex.KeyOfPageLink | pokemon.py:287-302 | the key of a link "/wiki/NAME_(pok%c3%a9mon)", in any case, is the lower-case NAME with only the prefix-chosen escapes rewritten |
| DexIndex.NidoranFemaleKey | pokemon.py:296-297 | the Nidoran♀ link is keyed "nidoran_(f)" |
| DexIndex.NidoranMaleKey | pokemon.py:298-299 | the Nidoran♂ link is keyed "nidoran_(m)" |
| DexIndex.FarfetchdKey | pokemon.py:293-294 | the Farfetch'd link with "%27" is keyed "farfetch'd" |
| DexIndex.FlabebeKey | pokemon.py:301-302 | the Flabébé link is keyed "flabébé" |
| DexIndex.TypeNullKey | pokemon.py:287-291 | the Type: Null link, with no escape rewritten, is keyed "type:_null" |
| DexIndex.KeyIsFixedPoint | pokemon.py:287-302 | the key of a Pokémon page link "/wiki/NAME_(pok%c3%a9mon)" is its own key: lower-casing, deleting the markers and rewriting the escapes again changes nothing |
| DexIndex.SpecialCasesIdempotent | pokemon.py:293-302 | rewriting the escapes of an already rewritten key changes nothing, because no replacement text can start or continue an escape |
| DexIndex.SinglePassStrip | pokemon.py:290-291 | the marker deletion is one pass: "/wi/wiki/ki/" becomes "/wiki/" |
| Lookup.ResolveByTable | pokemon.py:328-346 | the if/elif chain equals: direct key, else the alias table, else the question for "nidoran", else unknown; an alias never shadows a key |
| Lookup.NidoranAsks | pokemon.py:338-341 | a bare "nidoran" that is not a key is answered with the question |
| Lookup.DerpkipIsMudkip | pokemon.py:324-331 | "derpkip" in any case resolves to "mudkip" unless it is itself a key |
| Lookup.KeyReachable | pokemon.py:324-329 | a lower-case key without "mega_" is found from itself |
| Lookup.SpeciesLowerCase | pokemon.py:324-325 | every species searched for is lower-case |
| Lookup.MegaWordDropped | pokemon.py:324-325 | a leading word "Mega" in any case is dropped: "mega charizard x" searches like "charizard x" |
| Lookup.SinglePassMega | pokemon.py:325 | "mega_" removal is one pass: "mmega_ega_" becomes "mega_" |
| Sorting.SortKeys | pokemon.py:227 | the selection loop returns the keys in strictly increasing order, each once |
| Sorting.SortedUnique | pokemon.py:209 | two strictly increasing sequences with the same members are equal, so `sorted` is determined by the key set |
| Embed.FieldValue | pokemon.py:203-221 | one group shows only its ";"-values joined by ", "; otherwise one "key: values" line per group in sorted key order, ability keys with gender signs |
| Embed.EntryLines | pokemon.py:208-220 | the line loop yields exactly one "key: values" line per key, in the given order |
| Embed.SingleGroupShowsValues | pokemon.py:203-206 | a field with one group shows that group's values whatever its key |
| Embed.ListedGroup | pokemon.py:205 | a shown group is the values added under it, in order, joined by ", " |
| Embed.StatBlockRows | pokemon.py:227-256 | the stat block is the groups in sorted key order, with only the first three followed by the see-more line when there are more than three |
| Embed.GroupShape | pokemon.py:237-244 | a group is eight rows titled by its key with gender signs |
| Embed.FirstBlocks | pokemon.py:234-246 | the loop that breaks after three groups yields the rows of the first three keys, or none when one of them fails |
| Embed.AllBlocks | pokemon.py:248-256 | the loop over every key yields the rows of all the keys, or none when one fails |
| Embed.BlocksShape | pokemon.py:234-256 | the rows of n groups are eight per group, titled by the keys in order with gender signs, and never hold the see-more line |
| Embed.StatBlockTruncation | pokemon.py:232-256 | the titles are the first min(3, n) sorted keys, the block has 8 rows per shown group plus one, and the see-more line is present iff n > 3 |
| Embed.ReadTableDisplays | pokemon.py:225 | a read stat table with the six shown stat names displays without error, each stat as its stripped base value and two ranges, the total as its stripped value |
| Embed.GetPokeEmbed | pokemon.py:190-261 | the card's title, description, url, fields, stat block, thumbnail and footer are those of the reference card, or none when the stat block raises |
| PokemonCog.Pokemon.GetPokeURLs | pokemon.py:263-309 | the index is reset to empty and filled with the selected links; a failed request or one to seven tables raises with the index left empty |
| PokemonCog.Pokemon.AddLinks | pokemon.py:284-305 | the link loop leaves the index equal to the reference indexing of those links on top of the old index |
| PokemonCog.Pokemon.GetPokeData | pokemon.py:24-45 | a page is read only with exactly one info box, and then as the record |
| PokemonCog.Pokemon.PokemonCommand | pokemon.py:312-371 | an empty search is answered at once; the index is built only while there is none; the reply follows the resolution, the page and the card |
| PokemonCog.Pokemon.Respond | pokemon.py:324-371 | with the index built, the reply is the reference answer: the question, the invalid message, or the resolved key's card |
| PokemonCog.Pokemon.ShowEntry | pokemon.py:348-371 | a resolved key missing from the index raises; a page that fails to load or read is logged; otherwise the card is posted, or the stat block raises |
| PokemonCog.NidoranAnswered | pokemon.py:338-341 | a search that becomes "nidoran" when no such key exists is answered with the question |
| PokemonCog.PostedCardIsIndexed | pokemon.py:348-370 | a posted card links to an index entry's URL and is titled with that key's display name |
| PokemonCog.EmptyIndexNeverPosts | pokemon.py:267-275 | after a failed build the empty index stays, and no search ever yields a card |
| PokemonCog.UnknownNameAnswered | pokemon.py:344-346 | a name that is no key, alias or "nidoran" gets the invalid message quoting the words of the search |
| PokemonCog.KeyAnswered | pokemon.py:328-370 | a key of the index is always found from itself and its readable page yields its card |
| PokemonCog.PokeDataAllOrNothing | pokemon.py:39-45 | a page is read iff it has one info box and every extractor succeeds |
| Prefixes.AddPrefix | terraria.py:41-44 | a first-seen prefix stores its id; a repeated one stores [previous, id]; other entries are unchanged |
| Prefixes.AddRows | terraria.py:34-44 | the row loop equals the updates for the two-cell rows, with lower-cased, stripped prefix and id |
| Prefixes.PrefixesHoldIds | terraria.py:41-44 | a prefix is a key iff some row gives it, and its value holds every id given for it, in page order |
| Prefixes.PrefixesKeys | terraria.py:41-44 | a prefix is a key of the table iff some row gives it |
| Prefixes.IdsShape | terraria.py:41-42 | a value holding one id is a plain id, one holding two is the pair of two plain ids |
| Prefixes.PageKeysNormal | terraria.py:38-39 | every key and id read from a page is lower-case with no surrounding white space |
| Prefixes.NormalizeIdempotent | terraria.py:38-39 | lower-casing and stripping twice equals doing it once |
| TerrariaCog.Terraria.GetTPrefixes | terraria.py:18-46 | a failed request leaves the table as it was; otherwise the table becomes the one built from the wanted tables' rows |
| TerrariaCog.Terraria.PrefixCommand | terraria.py:48-70 | an empty search gets the prompt; the table is built only while there is none; a failed build raises and is retried later |
| TerrariaCog.AnswerFromRows | terraria.py:59-69 | no row for the lower-cased search gives the invalid message with the search as typed; one row shows its id; two show both ids joined by ", "; three or more raise |
| TerrariaCog.PaddedSearchMisses | terraria.py:59-60 | a search beginning with white space never finds a prefix read from a page |
| Setup.OptionsByName | setup.py:272-281 | help anywhere wins; otherwise the Pokédex is asked for iff -a/--all/-p/--pokemon appears, the prefixes iff -a/--all/-t/--terraria appears |
| Setup.ParseOptions | setup.py:269-281 | the option loop stopping at the first help option computes the option fold |
| Setup.DexLinksMatchIndex | setup.py:307-327 | the script indexes a page with the same keys as the bot, each entry holding the bot's URL and nothing else |
| Setup.DexLinksAppend | setup.py:299-327 | adding two runs of links in turn equals adding their concatenation |
| Setup.EnrichedDex | setup.py:331-336 | after enrichment every entry keeps its URL and holds a record |
| Setup.Script.GetPokemon | setup.py:43-225 | no info box fails; several are read from the first; the record is the extractor sequence |
| Setup.Script.BuildNationalDex | setup.py:289-328 | status 1 iff the listing fails or has one to seven tables; otherwise the index entries are added |
| Setup.Script.AddDexLinks | setup.py:306-327 | the link loop leaves the index equal to the reference indexing of those links on top of the old index, and the prefix table unchanged |
| Setup.Script.Enrich | setup.py:329-336 | status 0 iff every entry's page loads and reads, and then each entry keeps its URL and gains its record; otherwise 1 |
| Setup.Script.EnrichEntries | setup.py:331-336 | the entry loop succeeds iff every entry's page loads and reads, and then yields every entry with its URL and its record |
| Setup.Script.BuildPrefixDict | setup.py:337-362 | status 1 iff the page fails or a wanted table has a row that is neither a two-cell row nor a header row; otherwise the prefix table is built |
| Setup.Script.CheckedPage | setup.py:343-362 | the table loop succeeds iff no wanted table has a bad row, and then adds the rows of the wanted tables in page order |
| Setup.Script.CheckedRows | setup.py:347-360 | the row loop succeeds iff every row has two cells or a header cell, and then adds each two-cell row's lower-cased, stripped prefix and id in order |
| Setup.Script.Run | setup.py:259-372 | exit 2 iff options fail, ask for help or ask for nothing; 1 iff an asked-for part fails; 0 with exactly the asked-for tables built and the others unchanged |

## Left out

- The HTML traversal (`find_all`, `find_parent`, `find_next`, `.string`) is abstracted. Pages are the sequences and options described above, so the correspondence between real HTML and these abstractions is not modelled.
- HTTP requests, the aiohttp and urllib sessions, response status checks, and Discord message sending are not modelled. Their outcomes are parameters or replies.
- asyncTest.py is not part of this model. Its concurrent fan-out is concurrency, and its index loop copies `setup.py`.
- bot.py is not part of this model. It is Discord wiring and configuration I/O.
- Logging, printing, `getExceptionDetails`, `help`'s message and the timing in `main` are not modelled (they are I/O).
- `saveDict` is not modelled. It is file I/O, and a failed write would add one more exit-1 case.
- Embed.GetPokeEmbed: the column padding of the base-stats block, its two header lines and its code fences are not modelled. Each line is a `StatRow` that holds the texts it shows, and the discord.Embed object is a `Card` record.
- A `None` in a page field means the element is missing: an ability cell or stat cell without its `<a>`, a stat cell without its two `<small>` ranges, or a base value without its `th`. A missing ability `<small>`, or one without text, falls back to the display name as in the source.
- A link without an `href` is not modelled.
- `.string` being None on an element that exists is not modelled, except for the category, the ability sublabel and the stat base value. In particular, the model does not capture an ability anchor or stat anchor whose `.string` is None, or a range `<small>` whose `.string` is None. In the source, an ability anchor without text is stored as `None`, and only a second ability under the same key raises. A stat anchor without text puts its stat under the key `None`. A range without text is formatted as "None". The model treats these texts as plain strings.
- Text.Lower: case mapping is ASCII only. Non-ASCII letters are left unchanged, whereas Python's `lower` and `capitalize` map them too.
- Setup.ParseOptions: getopt itself is not modelled. Its result is the list of option names, or None when it raises.
- Setup.Script.Enrich: entries are visited in an arbitrary order rather than insertion order. The outcome does not depend on the order, because any failure exits.
- Setup.Script.Enrich: each page is read through `GetPokemonOf`, the function that Setup.Script.GetPokemon is proved to compute, rather than by calling that method.
- Setup.Script.Run: on exit 1, the contents of the two globals at the moment of exit are not stated, because the process ends.
- A prefix seen three or more times nests lists. The model keeps the nesting and shows that the lookup then raises (TerrariaCog.AnswerFromRows). It does not claim that this was intended.

/** The `Pokemon` cog of pokemon.py: the lazily built index from lookup keys
    to page URLs, the record read from a page, and the reply to the
    `pokemon` command. Fetching a page is a parameter: the listing page is
    given as its tables (None when the request fails) and the detail pages
    as a map from URL to page (a URL that is absent fails to load). */
module PokemonCog {
  import opened Wrappers
  import opened Text
  import opened Names
  import opened Extract
  import opened DexIndex
  import opened Lookup
  import opened Embed

  const NoSearchMessage: string := "```Please specify a valid Pokemon to look up.```"
  const NidoranMessage: string := "```Please specify either Nidoran (F) or Nidoran (M).```"

  /** pokemon.py:316-317, pokemon.py:345: the reply to a name that is
      neither a key nor an alias. */
  function InvalidMessage(search: seq<string>): string {
    "```Invalid Pokemon '" + Join(" ", search) + "' specified. Please specify a valid Pokemon to look up.```"
  }

  /** What the command does: says a text, posts a card, logs an error and
      says nothing, or lets an exception escape. */
  datatype Reply = Say(text: string) | Post(card: Card) | Logged | Raised

  /** pokemon.py:24-41: a page is read only when it has exactly one info
      box. */
  function PokeData(page: DetailPage, species: string): Option<Record> {
    if |page.infoBoxes| != 1 then None
    else RecordOf(page.infoBoxes[0], page.statTables, species)
  }

  /** pokemon.py:326-371 once the index exists: resolve the species, load
      its page, read the record and build the card. */
  ghost function Answer(search: seq<string>, dex: map<string, string>, pages: map<string, DetailPage>): Reply {
    match Resolve(Species(search), dex.Keys)
    case AskWhichNidoran => Say(NidoranMessage)
    case Unknown => Say(InvalidMessage(search))
    case Found(p) => FoundAnswer(p, dex, pages)
  }

  /** pokemon.py:347-371 for a resolved key: a key missing from the index
      raises, a page that fails to load or read is logged, and a card that
      cannot be built raises. */
  ghost function FoundAnswer(p: string, dex: map<string, string>, pages: map<string, DetailPage>): Reply {
    if p !in dex then Raised
    else if dex[p] !in pages then Logged
    else
      match PokeData(pages[dex[p]], p)
      case None => Logged
      case Some(rec) =>
        match CardOf(rec, p, dex[p])
        case None => Raised
        case Some(card) => Post(card)
  }

  class Pokemon {
    /** The index, None until the first command builds it. */
    var pokedex: Option<map<string, string>>

    constructor()
      ensures pokedex == None
    {
      pokedex := None;
    }

    /** `getPokeURLs` (pokemon.py:263-309): the index starts empty and the
        links of the selected tables are added one by one. A failed request
        leaves the page unbound, and a listing with one to seven tables
        fails at its first table on the lookup of `tables[7]`: both raise
        with the index still empty. */
    method GetPokeURLs(listing: Option<seq<ListingTable>>) returns (raised: bool)
      modifies this
      ensures raised <==> listing.None? || TableLookupFails(listing.value)
      ensures raised ==> pokedex == Some(map[])
      ensures !raised ==> pokedex == BuildIndex(listing.value)
    {
      pokedex := Some(map[]);
      if listing.None? {
        return true;
      }
      var tables := listing.value;
      var i := 0;
      while i < |tables|
        invariant 0 <= i <= |tables|
        invariant i > 0 ==> !TableLookupFails(tables)
        invariant pokedex == Some(IndexLinks(map[], SelectedHrefs(tables, i)))
      {
        if |tables| <= FixedTable {
          return true;
        }
        ghost var before := SelectedHrefs(tables, i);
        if Selected(tables, i) {
          IndexLinksAppend(map[], before, tables[i].hrefs);
          AddLinks(tables[i].hrefs);
          assert SelectedHrefs(tables, i + 1) == before + tables[i].hrefs;
        } else {
          assert SelectedHrefs(tables, i + 1) == before + [] == before;
        }
        i := i + 1;
      }
      raised := false;
    }

    /** pokemon.py:284-305: the links of one selected table, added in
        order; a link to a Pokémon page replaces the entry under its key. */
    method AddLinks(hrefs: seq<string>)
      requires pokedex.Some?
      modifies this
      ensures pokedex == Some(IndexLinks(old(pokedex).value, hrefs))
    {
      ghost var start := pokedex.value;
      for j := 0 to |hrefs|
        invariant pokedex == Some(IndexLinks(start, hrefs[..j]))
      {
        var url := hrefs[j];
        assert hrefs[..j + 1][..j] == hrefs[..j];
        if Indexed(url) {
          pokedex := Some(pokedex.value[IndexKey(url) := IndexUrl(url)]);
        }
      }
      assert hrefs[..|hrefs|] == hrefs;
    }

    /** `getPokeData` (pokemon.py:24-188); computes `PokeData`. */
    method GetPokeData(page: DetailPage, species: string) returns (r: Option<Record>)
      ensures r == PokeData(page, species)
    {
      if |page.infoBoxes| != 1 {
        return None;
      }
      r := ReadRecord(page.infoBoxes[0], page.statTables, species);
    }

    /** The `pokemon` command (pokemon.py:311-371). An empty search is
        answered at once; otherwise the index is built if there is none yet
        (a failed build raises and leaves the empty index in place, so it is
        never rebuilt) and the search is answered from it. */
    method PokemonCommand(search: seq<string>, listing: Option<seq<ListingTable>>, pages: map<string, DetailPage>)
      returns (reply: Reply)
      modifies this
      ensures |search| == 0 ==> pokedex == old(pokedex) && reply == Say(NoSearchMessage)
      ensures |search| > 0 && old(pokedex).Some? ==>
        pokedex == old(pokedex) && reply == Answer(search, pokedex.value, pages)
      ensures |search| > 0 && old(pokedex).None? ==>
        if listing.None? || TableLookupFails(listing.value) then
          pokedex == Some(map[]) && reply == Raised
        else
          pokedex == BuildIndex(listing.value) && reply == Answer(search, pokedex.value, pages)
    {
      if |search| < 1 {
        return Say(NoSearchMessage);
      }
      if pokedex.None? {
        var raised := GetPokeURLs(listing);
        if raised {
          return Raised;
        }
      }
      reply := Respond(search, pokedex.value, pages);
    }

    /** pokemon.py:324-371 once the index exists; computes `Answer`. */
    method Respond(search: seq<string>, dex: map<string, string>, pages: map<string, DetailPage>) returns (reply: Reply)
      ensures reply == Answer(search, dex, pages)
    {
      var species := Species(search);
      match Resolve(species, dex.Keys)
      case AskWhichNidoran =>
        reply := Say(NidoranMessage);
      case Unknown =>
        reply := Say(InvalidMessage(search));
      case Found(pokemon) =>
        reply := ShowEntry(pokemon, dex, pages);
    }

    /** pokemon.py:347-371: the page of a resolved key, read and shown;
        computes `FoundAnswer`. */
    method ShowEntry(pokemon: string, dex: map<string, string>, pages: map<string, DetailPage>) returns (reply: Reply)
      ensures reply == FoundAnswer(pokemon, dex, pages)
    {
      if pokemon !in dex {
        return Raised;
      }
      var url := dex[pokemon];
      if url !in pages {
        return Logged;
      }
      var pokeDict := GetPokeData(pages[url], pokemon);
      if pokeDict.None? {
        return Logged;
      }
      var pokeEmbed := GetPokeEmbed(pokeDict.value, pokemon, url);
      if pokeEmbed.None? {
        return Raised;
      }
      reply := Post(pokeEmbed.value);
    }
  }

  // ------------------------------------------------------------ lemmas

  /** A posted card is the card of an index key, linking to that key's URL
      and titled with its display name. */
  lemma PostedCardIsIndexed(search: seq<string>, dex: map<string, string>, pages: map<string, DetailPage>)
    requires Answer(search, dex, pages).Post?
    ensures exists p ::
      p in dex && dex[p] in pages &&
      Answer(search, dex, pages).card.url == dex[p] &&
      Answer(search, dex, pages).card.title == PrettyName(p)
  {
    var p := Resolve(Species(search), dex.Keys).key;
    assert p in dex && dex[p] in pages;
  }

  /** After a failed build the index stays empty, so no search is ever
      answered with a card: names are invalid, and aliases raise on the
      missing key. */
  lemma EmptyIndexNeverPosts(search: seq<string>, pages: map<string, DetailPage>)
    ensures Answer(search, map[], pages) == Raised ||
      Answer(search, map[], pages) == Say(NidoranMessage) ||
      Answer(search, map[], pages) == Say(InvalidMessage(search))
  {
  }

  /** A bare "nidoran" (in any case) is answered with the question, unless
      the index has such a key. */
  lemma NidoranAnswered(search: seq<string>, dex: map<string, string>, pages: map<string, DetailPage>)
    requires Species(search) == Ambiguous && Ambiguous !in dex
    ensures Answer(search, dex, pages) == Say(NidoranMessage)
  {
  }

  /** A name that is neither a key, an alias nor "nidoran" is answered with
      the invalid-name message, which quotes the words of the search. */
  lemma UnknownNameAnswered(search: seq<string>, dex: map<string, string>, pages: map<string, DetailPage>)
    requires Species(search) !in dex && Species(search) !in Aliases && Species(search) != Ambiguous
    ensures Answer(search, dex, pages) == Say(InvalidMessage(search))
    ensures Contains(InvalidMessage(search), Join(" ", search))
  {
    ResolveByTable(Species(search), dex.Keys);
    var a := "```Invalid Pokemon '";
    var b := "' specified. Please specify a valid Pokemon to look up.```";
    assert InvalidMessage(search) == a + Join(" ", search) + b;
    ContainsInside(a, Join(" ", search), b);
  }

  /** A key of the index is always found from itself, so its page is loaded
      and, when readable, its card is posted. */
  lemma KeyAnswered(search: seq<string>, dex: map<string, string>, pages: map<string, DetailPage>)
    requires Species(search) in dex && dex[Species(search)] in pages
    requires PokeData(pages[dex[Species(search)]], Species(search)).Some?
    ensures var p := Species(search);
      var rec := PokeData(pages[dex[p]], p).value;
      Answer(search, dex, pages) == (if CardOf(rec, p, dex[p]).Some? then Post(CardOf(rec, p, dex[p]).value) else Raised)
  {
  }

  /** A page is read exactly when it has one info box and every extractor
      succeeds on it. */
  lemma PokeDataAllOrNothing(page: DetailPage, species: string)
    ensures PokeData(page, species).Some? <==>
      |page.infoBoxes| == 1 && RecordOf(page.infoBoxes[0], page.statTables, species).Some?
  {
  }
}

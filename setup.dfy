/** setup.py: the script that downloads the Pokédex and the Terraria prefix
    table ahead of time. Its two module globals, `nationalDex` and
    `prefixDict`, are the fields of `Script`; `main` is `Script.Run`, which
    returns the exit status instead of exiting. Downloads are parameters:
    the listing page and the prefix page as their tables (None when the
    request fails) and the detail pages as a map from URL to page (a URL
    that is absent fails to load). */
module Setup {
  import opened Wrappers
  import opened Text
  import opened Extract
  import opened DexIndex
  import opened Prefixes

  // ------------------------------------------------------------ options

  /** What the options ask for: the Pokédex, the prefixes, or both. */
  datatype Flags = Flags(pokedex: bool, prefixes: bool)

  /** setup.py:273-281: one option; None once help has been asked for,
      which exits at once. Options the chain does not name change
      nothing. */
  function Step(f: Option<Flags>, o: string): Option<Flags> {
    if f.None? then None
    else if o == "-a" || o == "--all" then Some(Flags(true, true))
    else if o == "-h" || o == "--help" then None
    else if o == "-p" || o == "--pokemon" then Some(f.value.(pokedex := true))
    else if o == "-t" || o == "--terraria" then Some(f.value.(prefixes := true))
    else f
  }

  /** setup.py:269-281: the options in order, from nothing asked for. */
  function FoldOptions(opts: seq<string>): Option<Flags>
    decreases |opts|
  {
    if |opts| == 0 then Some(Flags(false, false))
    else Step(FoldOptions(opts[..|opts| - 1]), opts[|opts| - 1])
  }

  /** Some option is one of `names`. */
  predicate AnyOf(opts: seq<string>, names: set<string>) {
    exists i :: 0 <= i < |opts| && opts[i] in names
  }

  const HelpNames: set<string> := {"-h", "--help"}
  const PokedexNames: set<string> := {"-a", "--all", "-p", "--pokemon"}
  const PrefixNames: set<string> := {"-a", "--all", "-t", "--terraria"}

  /** The fold does not depend on the order of the options: help anywhere
      wins, and otherwise each part is asked for exactly when some option
      names it or "all". */
  lemma {:induction false} OptionsByName(opts: seq<string>)
    ensures FoldOptions(opts) ==
      if AnyOf(opts, HelpNames) then None
      else Some(Flags(AnyOf(opts, PokedexNames), AnyOf(opts, PrefixNames)))
    decreases |opts|
  {
    if |opts| > 0 {
      var front := opts[..|opts| - 1];
      OptionsByName(front);
      assert forall i :: 0 <= i < |front| ==> front[i] == opts[i];
      var o := opts[|opts| - 1];
      assert AnyOf(opts, HelpNames) <==> AnyOf(front, HelpNames) || o in HelpNames;
      assert AnyOf(opts, PokedexNames) <==> AnyOf(front, PokedexNames) || o in PokedexNames;
      assert AnyOf(opts, PrefixNames) <==> AnyOf(front, PrefixNames) || o in PrefixNames;
    }
  }

  /** setup.py:282-284: help, with exit status 2, when the options could
      not be parsed, ask for help, or ask for nothing. */
  predicate WantsHelp(opts: Option<seq<string>>) {
    opts.None? || FoldOptions(opts.value).None? || FoldOptions(opts.value) == Some(Flags(false, false))
  }

  /** The option loop of setup.py:272-281, which stops at the first help
      option. */
  method ParseOptions(opts: seq<string>) returns (help: bool, pokedex: bool, prefixes: bool)
    ensures help <==> FoldOptions(opts).None?
    ensures !help ==> FoldOptions(opts) == Some(Flags(pokedex, prefixes))
  {
    pokedex, prefixes := false, false;
    for i := 0 to |opts|
      invariant FoldOptions(opts[..i]) == Some(Flags(pokedex, prefixes))
    {
      var o := opts[i];
      assert opts[..i + 1][..i] == opts[..i];
      if o == "-a" || o == "--all" {
        pokedex, prefixes := true, true;
      } else if o == "-h" || o == "--help" {
        HelpPersists(opts, i + 1);
        return true, pokedex, prefixes;
      } else if o == "-p" || o == "--pokemon" {
        pokedex := true;
      } else if o == "-t" || o == "--terraria" {
        prefixes := true;
      }
    }
    assert opts[..|opts|] == opts;
    help := false;
  }

  lemma {:induction false} HelpPersists(opts: seq<string>, n: nat)
    requires n <= |opts| && FoldOptions(opts[..n]).None?
    ensures FoldOptions(opts).None?
    decreases |opts| - n
  {
    if n < |opts| {
      var front := opts[..|opts| - 1];
      assert front[..n] == opts[..n];
      HelpPersists(front, n);
    } else {
      assert opts[..n] == opts;
    }
  }

  // ----------------------------------------------------------- pokédex

  /** An entry of the national Pokédex: its URL and, once read, the record
      of its page. */
  datatype DexEntry = DexEntry(url: string, data: Option<Record>)

  /** setup.py:307-327: the links `hrefs`, in order, on top of `d`; each
      indexed link stores a fresh entry holding only its URL. */
  function DexLinks(d: map<string, DexEntry>, hrefs: seq<string>): map<string, DexEntry>
    decreases |hrefs|
  {
    if |hrefs| == 0 then d
    else
      var h := hrefs[|hrefs| - 1];
      var prior := DexLinks(d, hrefs[..|hrefs| - 1]);
      if Indexed(h) then prior[IndexKey(h) := DexEntry(IndexUrl(h), None)] else prior
  }

  lemma {:induction false} DexLinksAppend(d: map<string, DexEntry>, a: seq<string>, b: seq<string>)
    ensures DexLinks(DexLinks(d, a), b) == DexLinks(d, a + b)
    decreases |b|
  {
    if |b| == 0 {
      assert a + b == a;
    } else {
      assert (a + b)[..|a + b| - 1] == a + b[..|b| - 1];
      DexLinksAppend(d, a, b[..|b| - 1]);
    }
  }

  /** The script indexes a page exactly as the bot does: the same keys,
      each holding the URL the bot stores under it. */
  lemma {:induction false} DexLinksMatchIndex(hrefs: seq<string>)
    ensures forall k :: k in DexLinks(map[], hrefs) <==> k in IndexLinks(map[], hrefs)
    ensures forall k :: k in DexLinks(map[], hrefs) ==>
      DexLinks(map[], hrefs)[k] == DexEntry(IndexLinks(map[], hrefs)[k], None)
    decreases |hrefs|
  {
    if |hrefs| > 0 {
      DexLinksMatchIndex(hrefs[..|hrefs| - 1]);
    }
  }

  /** setup.py:43-225 on a page: with no info box the lookup of the first
      raises; with several, a message is printed and the first is read. */
  function GetPokemonOf(page: DetailPage, key: string): Option<Record> {
    if |page.infoBoxes| == 0 then None
    else RecordOf(page.infoBoxes[0], page.statTables, key)
  }

  /** The record `read` gives for an entry, None when its page fails to
      load or to read. */
  function ReadWith(read: (DetailPage, string) -> Option<Record>, url: string, key: string,
                    pages: map<string, DetailPage>): Option<Record> {
    if url !in pages then None else read(pages[url], key)
  }

  /** Every entry's page loads and reads. */
  predicate ReadsAll(read: (DetailPage, string) -> Option<Record>, dex: map<string, DexEntry>,
                     pages: map<string, DetailPage>) {
    forall k :: k in dex ==> ReadWith(read, dex[k].url, k, pages).Some?
  }

  /** Each entry keeps its URL and gains the record of its page. */
  function ReadInto(read: (DetailPage, string) -> Option<Record>, dex: map<string, DexEntry>,
                    pages: map<string, DetailPage>): (r: map<string, DexEntry>)
    requires ReadsAll(read, dex, pages)
    ensures r.Keys == dex.Keys
    ensures forall k :: k in r ==> r[k].url == dex[k].url && r[k].data.Some?
  {
    map k | k in dex :: DexEntry(dex[k].url, ReadWith(read, dex[k].url, k, pages))
  }

  /** The entries outside `keys` have been read successfully; the others
      are as they were. */
  predicate PartlyRead(read: (DetailPage, string) -> Option<Record>, dex0: map<string, DexEntry>,
                       keys: set<string>, pages: map<string, DetailPage>, dex: map<string, DexEntry>) {
    dex.Keys == dex0.Keys &&
    (forall k :: k in keys && k in dex0 ==> dex[k] == dex0[k]) &&
    (forall k :: k in dex0 && k !in keys ==>
      ReadWith(read, dex0[k].url, k, pages).Some? && dex[k] == DexEntry(dex0[k].url, ReadWith(read, dex0[k].url, k, pages)))
  }

  /** Every entry's page loads and reads as setup.py:43-225 does. */
  predicate EnrichOk(dex: map<string, DexEntry>, pages: map<string, DetailPage>) {
    ReadsAll(GetPokemonOf, dex, pages)
  }

  /** setup.py:331-336 when every page reads. */
  function EnrichedDex(dex: map<string, DexEntry>, pages: map<string, DetailPage>): (r: map<string, DexEntry>)
    requires EnrichOk(dex, pages)
    ensures r.Keys == dex.Keys
    ensures forall k :: k in r ==> r[k].url == dex[k].url && r[k].data.Some?
  {
    ReadInto(GetPokemonOf, dex, pages)
  }

  /** The listing's failures: no page, or one to seven tables. */
  predicate ListingFails(listing: Option<seq<ListingTable>>) {
    listing.None? || TableLookupFails(listing.value)
  }

  /** The Pokédex part of `main` fails: the listing, or some entry's
      page. */
  predicate PokedexFails(dex: map<string, DexEntry>, listing: Option<seq<ListingTable>>, pages: map<string, DetailPage>) {
    ListingFails(listing) ||
    !EnrichOk(DexLinks(dex, SelectedHrefs(listing.value, |listing.value|)), pages)
  }

  // ----------------------------------------------------------- prefixes

  /** setup.py:357-360: a row without two data cells must be a header
      row. */
  predicate RowsFail(rows: seq<PrefixRow>) {
    exists j :: 0 <= j < |rows| && |rows[j].cells| != 2 && rows[j].headers == 0
  }

  predicate PageFails(tables: seq<PrefixTable>) {
    exists i :: 0 <= i < |tables| && Wanted(tables[i]) && RowsFail(tables[i].rows)
  }

  predicate PrefixesFail(page: Option<seq<PrefixTable>>) {
    page.None? || PageFails(page.value)
  }

  lemma RowsFailWitness(rows: seq<PrefixRow>, j: nat)
    requires j < |rows| && |rows[j].cells| != 2 && rows[j].headers == 0
    ensures RowsFail(rows)
  {
  }

  lemma RowsPassExtend(rows: seq<PrefixRow>, j: nat)
    requires j < |rows| && !RowsFail(rows[..j]) && (|rows[j].cells| == 2 || rows[j].headers > 0)
    ensures !RowsFail(rows[..j + 1])
  {
    assert forall k :: 0 <= k < j + 1 ==> rows[..j + 1][k] == rows[k];
  }

  lemma PageFailWitness(tables: seq<PrefixTable>, i: nat)
    requires i < |tables| && Wanted(tables[i]) && RowsFail(tables[i].rows)
    ensures PageFails(tables)
  {
  }

  lemma PagePassExtend(tables: seq<PrefixTable>, i: nat)
    requires i < |tables| && !PageFails(tables[..i]) && !(Wanted(tables[i]) && RowsFail(tables[i].rows))
    ensures !PageFails(tables[..i + 1])
  {
    assert forall k :: 0 <= k < i + 1 ==> tables[..i + 1][k] == tables[k];
  }

  // ------------------------------------------------------------- state

  class Script {
    var nationalDex: map<string, DexEntry>
    var prefixDict: map<string, PrefixValue>

    /** setup.py:17-20 */
    constructor()
      ensures nationalDex == map[] && prefixDict == map[]
    {
      nationalDex := map[];
      prefixDict := map[];
    }

    /** setup.py:43-225 (`getPokemon`); computes `GetPokemonOf`. */
    method GetPokemon(page: DetailPage, key: string) returns (r: Option<Record>)
      ensures r == GetPokemonOf(page, key)
    {
      if |page.infoBoxes| == 0 {
        return None;
      }
      r := ReadRecord(page.infoBoxes[0], page.statTables, key);
    }

    /** setup.py:289-328: the index part of `main`; 1 when the listing
        fails to load or has one to seven tables. */
    method BuildNationalDex(listing: Option<seq<ListingTable>>) returns (status: int)
      modifies this
      ensures prefixDict == old(prefixDict)
      ensures status == 1 <==> ListingFails(listing)
      ensures status == 0 <==> !ListingFails(listing)
      ensures status == 0 ==>
        nationalDex == DexLinks(old(nationalDex), SelectedHrefs(listing.value, |listing.value|))
    {
      if listing.None? {
        return 1;
      }
      var tables := listing.value;
      var i := 0;
      while i < |tables|
        invariant 0 <= i <= |tables|
        invariant i > 0 ==> !TableLookupFails(tables)
        invariant prefixDict == old(prefixDict)
        invariant nationalDex == DexLinks(old(nationalDex), SelectedHrefs(tables, i))
      {
        if |tables| <= FixedTable {
          return 1;
        }
        ghost var before := SelectedHrefs(tables, i);
        if Selected(tables, i) {
          DexLinksAppend(old(nationalDex), before, tables[i].hrefs);
          AddDexLinks(tables[i].hrefs);
          assert SelectedHrefs(tables, i + 1) == before + tables[i].hrefs;
        } else {
          assert SelectedHrefs(tables, i + 1) == before + [] == before;
        }
        i := i + 1;
      }
      status := 0;
    }

    /** setup.py:308-327: the links of one selected table. */
    method AddDexLinks(hrefs: seq<string>)
      modifies this
      ensures prefixDict == old(prefixDict)
      ensures nationalDex == DexLinks(old(nationalDex), hrefs)
    {
      for j := 0 to |hrefs|
        invariant prefixDict == old(prefixDict)
        invariant nationalDex == DexLinks(old(nationalDex), hrefs[..j])
      {
        var url := hrefs[j];
        assert hrefs[..j + 1][..j] == hrefs[..j];
        if Indexed(url) {
          nationalDex := nationalDex[IndexKey(url) := DexEntry(IndexUrl(url), None)];
        }
      }
      assert hrefs[..|hrefs|] == hrefs;
    }

    /** setup.py:329-336: every entry's page is read and merged into the
        entry; the first page that fails ends the script with status 1, so
        no partial record is kept. The result does not depend on the order
        in which the entries are visited. */
    method Enrich(pages: map<string, DetailPage>) returns (status: int)
      modifies this
      ensures prefixDict == old(prefixDict)
      ensures status == 0 || status == 1
      ensures status == 0 <==> EnrichOk(old(nationalDex), pages)
      ensures status == 0 ==> nationalDex == EnrichedDex(old(nationalDex), pages)
    {
      var ok, dex := EnrichEntries(nationalDex, pages, GetPokemonOf);
      if !ok {
        return 1;
      }
      nationalDex := dex;
      status := 0;
    }

    /** The loop of setup.py:331-336 over the entries of `dex0`, visited in
        any order, each page read by `read`; false as soon as a page fails. */
    static method EnrichEntries(dex0: map<string, DexEntry>, pages: map<string, DetailPage>,
                                read: (DetailPage, string) -> Option<Record>)
      returns (ok: bool, dex: map<string, DexEntry>)
      ensures ok <==> ReadsAll(read, dex0, pages)
      ensures ok ==> dex == ReadInto(read, dex0, pages)
    {
      dex := dex0;
      var keys := dex0.Keys;
      while keys != {}
        invariant keys <= dex0.Keys
        invariant PartlyRead(read, dex0, keys, pages, dex)
        decreases keys
      {
        var key :| key in keys;
        var entry := dex[key];
        if entry.url !in pages {
          return false, dex;
        }
        var rec := read(pages[entry.url], key);
        if rec.None? {
          return false, dex;
        }
        dex := dex[key := DexEntry(entry.url, rec)];
        keys := keys - {key};
      }
      ok := true;
    }

    /** setup.py:337-362: the prefix part of `main`; 1 when the page fails
        to load or a row of the wanted table is neither a data row nor a
        header row. */
    method BuildPrefixDict(page: Option<seq<PrefixTable>>) returns (status: int)
      modifies this
      ensures nationalDex == old(nationalDex)
      ensures status == 0 || status == 1
      ensures status == 1 <==> PrefixesFail(page)
      ensures status == 0 ==> prefixDict == PrefixesOf(old(prefixDict), PageEntries(page.value))
    {
      if page.None? {
        return 1;
      }
      var ok, d := CheckedPage(prefixDict, page.value);
      prefixDict := d;
      status := if ok then 0 else 1;
    }

    /** setup.py:344-362: the tables of the page in order, the rows of each
        wanted one added to `start`; false at the first row that is neither
        a data row nor a header row. */
    static method CheckedPage(start: map<string, PrefixValue>, tables: seq<PrefixTable>)
      returns (ok: bool, d: map<string, PrefixValue>)
      ensures ok <==> !PageFails(tables)
      ensures ok ==> d == PrefixesOf(start, PageEntries(tables))
    {
      d := start;
      for i := 0 to |tables|
        invariant !PageFails(tables[..i])
        invariant d == PrefixesOf(start, PageEntries(tables[..i]))
      {
        assert tables[..i + 1][..i] == tables[..i];
        ghost var before := PageEntries(tables[..i]);
        if Wanted(tables[i]) {
          PrefixesAppend(start, before, RowEntries(tables[i].rows));
          var rowsOk;
          rowsOk, d := CheckedRows(d, tables[i].rows);
          if !rowsOk {
            PageFailWitness(tables, i);
            return false, d;
          }
        } else {
          assert PageEntries(tables[..i + 1]) == before + [] == before;
        }
        PagePassExtend(tables, i);
      }
      assert tables[..|tables|] == tables;
      ok := true;
    }

    static method CheckedRows(start: map<string, PrefixValue>, rows: seq<PrefixRow>)
      returns (ok: bool, d: map<string, PrefixValue>)
      ensures ok <==> !RowsFail(rows)
      ensures ok ==> d == PrefixesOf(start, RowEntries(rows))
    {
      d := start;
      for j := 0 to |rows|
        invariant !RowsFail(rows[..j])
        invariant d == PrefixesOf(start, RowEntries(rows[..j]))
      {
        var cols := rows[j].cells;
        assert rows[..j + 1][..j] == rows[..j];
        ghost var before := RowEntries(rows[..j]);
        if |cols| == 2 {
          var prefix := Normalize(cols[0]);
          var id := Normalize(cols[1]);
          assert RowEntries(rows[..j + 1]) == before + [(prefix, id)];
          assert (before + [(prefix, id)])[..|before|] == before;
          d := AddPrefix(d, prefix, id);
        } else if rows[j].headers == 0 {
          RowsFailWitness(rows, j);
          return false, d;
        } else {
          assert RowEntries(rows[..j + 1]) == before + [] == before;
        }
        RowsPassExtend(rows, j);
      }
      assert rows[..|rows|] == rows;
      ok := true;
    }

    /** `main` (setup.py:259-372) without the timing and the writing of the
        two JSON files: 2 for help, 1 when a download or a page fails, 0
        with both tables built as asked. */
    method Run(opts: Option<seq<string>>, listing: Option<seq<ListingTable>>,
               pages: map<string, DetailPage>, prefixPage: Option<seq<PrefixTable>>)
      returns (status: int)
      modifies this
      ensures status == 0 || status == 1 || status == 2
      ensures status == 2 <==> WantsHelp(opts)
      ensures status == 1 <==>
        !WantsHelp(opts) &&
        ((FoldOptions(opts.value).value.pokedex && PokedexFails(old(nationalDex), listing, pages)) ||
         (FoldOptions(opts.value).value.prefixes && PrefixesFail(prefixPage)))
      ensures status == 0 ==>
        (FoldOptions(opts.value).value.pokedex ==>
          nationalDex == EnrichedDex(DexLinks(old(nationalDex), SelectedHrefs(listing.value, |listing.value|)), pages)) &&
        (!FoldOptions(opts.value).value.pokedex ==> nationalDex == old(nationalDex)) &&
        (FoldOptions(opts.value).value.prefixes ==>
          prefixDict == PrefixesOf(old(prefixDict), PageEntries(prefixPage.value))) &&
        (!FoldOptions(opts.value).value.prefixes ==> prefixDict == old(prefixDict))
    {
      if opts.None? {
        return 2;
      }
      var help, pokedex, prefixes := ParseOptions(opts.value);
      if help || (!pokedex && !prefixes) {
        return 2;
      }
      if pokedex {
        status := BuildNationalDex(listing);
        if status != 0 {
          return 1;
        }
        status := Enrich(pages);
        if status != 0 {
          return 1;
        }
      }
      if prefixes {
        status := BuildPrefixDict(prefixPage);
        if status != 0 {
          return 1;
        }
      }
      status := 0;
    }
  }
}

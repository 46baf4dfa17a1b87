/** The National Pokédex index: which links of Bulbapedia's listing page are
    Pokémon pages, the lookup key derived from each link, and the page URL
    stored under that key (pokemon.py:263-309, repeated at setup.py:287-330).
    A listing page is a sequence of tables, each with the space-separated
    pieces of its first header cell's markup and the hrefs of its links in
    document order. */
module DexIndex {
  import opened Wrappers
  import opened Text

  const BaseUrl: string := "http://bulbapedia.bulbagarden.net"
  const PokemonMarker: string := "Pok%C3%A9mon"
  const WikiPath: string := "/wiki/"
  const PokemonSuffix: string := "_(pok%c3%a9mon)"

  /** The regions whose name in a table's header marks a listing table. */
  const Regions: set<string> := {"Kanto", "Johto", "Hoenn", "Sinnoh", "Unova", "Kalos", "Alola"}

  /** The table at this position is read whatever its header says. */
  const FixedTable: nat := 7

  /** A table of the listing page. `headingWords` are the pieces of the
      first `th` element's markup, tags included, split on single spaces
      (pokemon.py:282), so a region name counts only where a space stands on
      both sides of it; a table with no `th` has the single piece "None". */
  datatype ListingTable = ListingTable(headingWords: seq<string>, hrefs: seq<string>)

  // ------------------------------------------------------------ one link

  /** pokemon.py:288: a link to a Pokémon page, but not to a list. */
  predicate Indexed(href: string) {
    Contains(href, PokemonMarker) && !Contains(LowerStr(href), "list")
  }

  /** The substitution of pokemon.py:290-291: one left-to-right pass that
      deletes each occurrence of "/wiki/" or "_(pok%c3%a9mon)". */
  function StripMarkers(s: string): (r: string)
    ensures |r| <= |s|
    decreases |s|
  {
    if |s| == 0 then ""
    else if StartsWith(s, WikiPath) then StripMarkers(s[|WikiPath|..])
    else if StartsWith(s, PokemonSuffix) then StripMarkers(s[|PokemonSuffix|..])
    else [s[0]] + StripMarkers(s[1..])
  }

  /** The escapes rewritten for the three names that carry one
      (pokemon.py:293-302); every other key is left as it is. */
  function SpecialCases(key: string): string {
    if StartsWith(key, "farfetch") then ReplaceAll(key, "%27", "'")
    else if StartsWith(key, "nidoran") then
      ReplaceAll(ReplaceAll(key, "%e2%99%80", "_(f)"), "%e2%99%82", "_(m)")
    else if StartsWith(key, "flab") then ReplaceAll(key, "%c3%a9", "é")
    else key
  }

  /** pokemon.py:287-302: the lookup key of an indexed link. */
  function IndexKey(href: string): string {
    SpecialCases(StripMarkers(LowerStr(href)))
  }

  /** pokemon.py:289, pokemon.py:305: the page URL of an indexed link, with
      its original case and only "%27" decoded. */
  function IndexUrl(href: string): string {
    BaseUrl + ReplaceAll(href, "%27", "'")
  }

  // ------------------------------------------------------------ the page

  /** pokemon.py:281-282: the table at position 7, or one whose header
      markup has a region name as one of its space-separated pieces. */
  predicate Selected(tables: seq<ListingTable>, i: nat)
    requires i < |tables|
  {
    i == FixedTable || exists w :: w in tables[i].headingWords && w in Regions
  }

  /** The hrefs of the selected tables among the first `n`, in order. */
  function SelectedHrefs(tables: seq<ListingTable>, n: nat): seq<string>
    requires n <= |tables|
  {
    if n == 0 then []
    else SelectedHrefs(tables, n - 1) + (if Selected(tables, n - 1) then tables[n - 1].hrefs else [])
  }

  /** The index after the links `hrefs`, in order, on top of `m`: a later
      link under the same key replaces an earlier one. */
  function IndexLinks(m: map<string, string>, hrefs: seq<string>): map<string, string>
    decreases |hrefs|
  {
    if |hrefs| == 0 then m
    else
      var h := hrefs[|hrefs| - 1];
      var prior := IndexLinks(m, hrefs[..|hrefs| - 1]);
      if Indexed(h) then prior[IndexKey(h) := IndexUrl(h)] else prior
  }

  /** The first table already looks up `tables[7]`, so a page with one to
      seven tables raises before anything is indexed. */
  predicate TableLookupFails(tables: seq<ListingTable>) {
    0 < |tables| <= FixedTable
  }

  /** pokemon.py:275-309: the index of a listing page, or None when the
      position lookup raises. */
  function BuildIndex(tables: seq<ListingTable>): Option<map<string, string>> {
    if TableLookupFails(tables) then None
    else Some(IndexLinks(map[], SelectedHrefs(tables, |tables|)))
  }

  // ------------------------------------------------------------ lemmas

  /** A key is present exactly when some indexed link yields it. */
  lemma {:induction false} IndexLinksKeys(hrefs: seq<string>, key: string)
    ensures key in IndexLinks(map[], hrefs) <==>
      exists i :: 0 <= i < |hrefs| && Indexed(hrefs[i]) && IndexKey(hrefs[i]) == key
    decreases |hrefs|
  {
    if |hrefs| > 0 {
      var front := hrefs[..|hrefs| - 1];
      IndexLinksKeys(front, key);
      assert forall i :: 0 <= i < |front| ==> front[i] == hrefs[i];
    }
  }

  /** The URL under a key is that of the last indexed link with that key:
      a later link replaces an earlier one. */
  lemma {:induction false} IndexLinksLastWins(hrefs: seq<string>, i: nat)
    requires i < |hrefs| && Indexed(hrefs[i])
    requires forall j :: i < j < |hrefs| ==> !(Indexed(hrefs[j]) && IndexKey(hrefs[j]) == IndexKey(hrefs[i]))
    ensures IndexKey(hrefs[i]) in IndexLinks(map[], hrefs)
    ensures IndexLinks(map[], hrefs)[IndexKey(hrefs[i])] == IndexUrl(hrefs[i])
    decreases |hrefs|
  {
    if i < |hrefs| - 1 {
      var front := hrefs[..|hrefs| - 1];
      assert front[i] == hrefs[i];
      assert forall j :: i < j < |front| ==> front[j] == hrefs[j];
      IndexLinksLastWins(front, i);
    }
  }

  /** Indexing two runs of links one after the other is indexing them
      together. */
  lemma {:induction false} IndexLinksAppend(m: map<string, string>, a: seq<string>, b: seq<string>)
    ensures IndexLinks(IndexLinks(m, a), b) == IndexLinks(m, a + b)
    decreases |b|
  {
    if |b| == 0 {
      assert a + b == a;
    } else {
      assert (a + b)[..|a + b| - 1] == a + b[..|b| - 1];
      IndexLinksAppend(m, a, b[..|b| - 1]);
    }
  }

  /** A link counts towards the index exactly when it belongs to a selected
      table. */
  lemma {:induction false} SelectedHrefsMembers(tables: seq<ListingTable>, n: nat, h: string)
    requires n <= |tables|
    ensures h in SelectedHrefs(tables, n) <==>
      exists i :: 0 <= i < n && Selected(tables, i) && h in tables[i].hrefs
    decreases n
  {
    if n > 0 {
      SelectedHrefsMembers(tables, n - 1, h);
    }
  }

  /** Index soundness and completeness over a whole page: when the page can
      be read, a key is indexed exactly when a link of a selected table is an
      indexed link with that key. */
  lemma IndexedKeys(tables: seq<ListingTable>, key: string)
    requires BuildIndex(tables).Some?
    ensures key in BuildIndex(tables).value <==>
      exists i, h :: 0 <= i < |tables| && Selected(tables, i) && h in tables[i].hrefs &&
        Indexed(h) && IndexKey(h) == key
  {
    var hrefs := SelectedHrefs(tables, |tables|);
    IndexLinksKeys(hrefs, key);
    if exists i, h :: 0 <= i < |tables| && Selected(tables, i) && h in tables[i].hrefs &&
        Indexed(h) && IndexKey(h) == key {
      var i, h :| 0 <= i < |tables| && Selected(tables, i) && h in tables[i].hrefs &&
        Indexed(h) && IndexKey(h) == key;
      SelectedHrefsMembers(tables, |tables|, h);
      var k :| 0 <= k < |hrefs| && hrefs[k] == h;
      assert Indexed(hrefs[k]) && IndexKey(hrefs[k]) == key;
    }
    if key in BuildIndex(tables).value {
      var k :| 0 <= k < |hrefs| && Indexed(hrefs[k]) && IndexKey(hrefs[k]) == key;
      SelectedHrefsMembers(tables, |tables|, hrefs[k]);
    }
  }

  /** Deleting the markers keeps a lower-case string lower-case. */
  lemma {:induction false} StripMarkersKeepsLowerCase(s: string)
    requires IsLowerCase(s)
    ensures IsLowerCase(StripMarkers(s))
    decreases |s|
  {
    if |s| > 0 {
      if StartsWith(s, WikiPath) {
        StripMarkersKeepsLowerCase(s[|WikiPath|..]);
      } else if StartsWith(s, PokemonSuffix) {
        StripMarkersKeepsLowerCase(s[|PokemonSuffix|..]);
      } else {
        StripMarkersKeepsLowerCase(s[1..]);
        var r := [s[0]] + StripMarkers(s[1..]);
        assert forall i :: 1 <= i < |r| ==> r[i] == StripMarkers(s[1..])[i - 1];
      }
    }
  }

  /** Every key is lower-case, so `lower()` on a search can reach it. */
  lemma IndexKeyLowerCase(href: string)
    ensures IsLowerCase(IndexKey(href))
  {
    var k := StripMarkers(LowerStr(href));
    StripMarkersKeepsLowerCase(LowerStr(href));
    if StartsWith(k, "farfetch") {
      ReplaceKeepsLowerCase(k, "%27", "'");
    } else if StartsWith(k, "nidoran") {
      ReplaceKeepsLowerCase(k, "%e2%99%80", "_(f)");
      ReplaceKeepsLowerCase(ReplaceAll(k, "%e2%99%80", "_(f)"), "%e2%99%82", "_(m)");
    } else if StartsWith(k, "flab") {
      ReplaceKeepsLowerCase(k, "%c3%a9", "é");
    }
  }

  /** A link whose path has none of the markers, escapes or upper-case
      letters of the special names is keyed by itself. */
  lemma PlainKey(href: string)
    requires IsLowerCase(href)
    requires !Contains(href, "/") && !Contains(href, "_")
    requires !StartsWith(href, "farfetch") && !StartsWith(href, "nidoran") && !StartsWith(href, "flab")
    ensures IndexKey(href) == href
  {
    assert LowerStr(href) == href;
    NoMarkers(href);
  }

  lemma {:induction false} NoMarkers(s: string)
    requires !Contains(s, "/") && !Contains(s, "_")
    ensures StripMarkers(s) == s
    decreases |s|
  {
    if |s| > 0 {
      assert !StartsWith(s, "/") && !StartsWith(s, "_");
      assert s[..1] == WikiPath[..1] ==> StartsWith(s, "/");
      assert s[..1] == PokemonSuffix[..1] ==> StartsWith(s, "_");
      NoMarkers(s[1..]);
      assert s == [s[0]] + s[1..];
    }
  }


  /** A page name with no "/" and no "_(" in it. */
  predicate PlainName(name: string) {
    (forall i :: 0 <= i < |name| ==> name[i] != '/') &&
    (forall i :: 0 <= i < |name| - 1 ==> !(name[i] == '_' && name[i + 1] == '('))
  }

  lemma {:induction false} StripBeforeSuffix(name: string)
    requires PlainName(name)
    ensures StripMarkers(name + PokemonSuffix) == name
    decreases |name|
  {
    var s := name + PokemonSuffix;
    if |name| == 0 {
      assert s == PokemonSuffix + "";
      StripSuffixStep("");
    } else {
      var tail := name[1..];
      assert StripMarkers(s) == [name[0]] + StripMarkers(tail + PokemonSuffix) by {
        NoMarkerAtName(name);
        StripPlainStep(s);
        assert s[1..] == tail + PokemonSuffix;
      }
      assert PlainName(tail) by {
        assert forall i :: 0 <= i < |tail| - 1 ==> tail[i] == name[i + 1];
      }
      StripBeforeSuffix(tail);
      assert name == [name[0]] + tail;
    }
  }

  /** A name that starts with neither '/' nor "_(" starts no marker, even
      with the suffix after it. */
  lemma NoMarkerAtName(name: string)
    requires |name| > 0 && name[0] != '/'
    requires |name| > 1 ==> !(name[0] == '_' && name[1] == '(')
    ensures !StartsWith(name + PokemonSuffix, WikiPath)
    ensures !StartsWith(name + PokemonSuffix, PokemonSuffix)
  {
    var s := name + PokemonSuffix;
    DiffersAt(s, WikiPath, 0);
    if name[0] == '_' {
      assert s[1] == if |name| == 1 then PokemonSuffix[0] else name[1];
      DiffersAt(s, PokemonSuffix, 1);
    } else {
      DiffersAt(s, PokemonSuffix, 0);
    }
  }

  /** A character that starts no marker is kept. */
  lemma StripPlainStep(s: string)
    requires |s| > 0 && !StartsWith(s, WikiPath) && !StartsWith(s, PokemonSuffix)
    ensures StripMarkers(s) == [s[0]] + StripMarkers(s[1..])
  {
  }

  /** A leading "/wiki/" is deleted. */
  lemma StripWikiStep(rest: string)
    ensures StripMarkers(WikiPath + rest) == StripMarkers(rest)
  {
    var s := WikiPath + rest;
    assert s[..|WikiPath|] == WikiPath && s[|WikiPath|..] == rest;
  }

  /** A leading "_(pok%c3%a9mon)" is deleted. */
  lemma StripSuffixStep(rest: string)
    ensures StripMarkers(PokemonSuffix + rest) == StripMarkers(rest)
  {
    var s := PokemonSuffix + rest;
    DiffersAt(s, WikiPath, 0);
    assert s[..|PokemonSuffix|] == PokemonSuffix && s[|PokemonSuffix|..] == rest;
  }

  /** A run with neither '/' nor '_' is kept as it is. */
  lemma {:induction false} StripPlainRun(a: string, rest: string)
    requires forall i :: 0 <= i < |a| ==> a[i] != '/' && a[i] != '_'
    ensures StripMarkers(a + rest) == a + StripMarkers(rest)
    decreases |a|
  {
    if |a| > 0 {
      var s := a + rest;
      var t := StripMarkers(rest);
      calc {
        StripMarkers(s);
        { StripPlainHead(s); }
        [s[0]] + StripMarkers(s[1..]);
        { assert s[1..] == a[1..] + rest; }
        [a[0]] + StripMarkers(a[1..] + rest);
        { StripPlainRun(a[1..], rest); }
        [a[0]] + (a[1..] + t);
        { assert a == [a[0]] + a[1..]; }
        a + t;
      }
    } else {
      assert a + rest == rest;
    }
  }

  /** A first character that is neither '/' nor '_' is kept. */
  lemma StripPlainHead(s: string)
    requires |s| > 0 && s[0] != '/' && s[0] != '_'
    ensures StripMarkers(s) == [s[0]] + StripMarkers(s[1..])
  {
    DiffersAt(s, WikiPath, 0);
    DiffersAt(s, PokemonSuffix, 0);
  }

  /** The key of a link to "/wiki/<name>_(Pokémon)", whatever the case of
      its letters, is the lower-case name with only the prefix-chosen escapes
      rewritten: no other percent-escape is decoded. */
  lemma KeyOfPageLink(href: string, name: string)
    requires PlainName(name) && LowerStr(href) == WikiPath + name + PokemonSuffix
    ensures IndexKey(href) == SpecialCases(name)
  {
    var s := WikiPath + name + PokemonSuffix;
    assert s[..|WikiPath|] == WikiPath;
    assert s[|WikiPath|..] == name + PokemonSuffix;
    StripBeforeSuffix(name);
  }

  // ------------------------------------------------------ stable keys
  // A key built from a Pokémon page link is its own key: lower-casing,
  // deleting the markers and rewriting the escapes again changes nothing.

  /** An index key is a fixed point of the normalisation. */
  lemma KeyIsFixedPoint(href: string, name: string)
    requires PlainName(name) && LowerStr(href) == WikiPath + name + PokemonSuffix
    ensures IndexKey(IndexKey(href)) == IndexKey(href)
  {
    var k := IndexKey(href);
    KeyOfPageLink(href, name);
    IndexKeyLowerCase(href);
    LowerStrOfLowerCase(k);
    PlainNameNoMarkers(name);
    SpecialCasesNoWiki(name);
    SpecialCasesNoSuffix(name);
    StripAbsentMarkers(k);
    SpecialCasesIdempotent(name);
  }

  /** A string without either marker is left as it is. */
  lemma {:induction false} StripAbsentMarkers(s: string)
    requires !Contains(s, WikiPath) && !Contains(s, PokemonSuffix)
    ensures StripMarkers(s) == s
    decreases |s|
  {
    if |s| > 0 {
      StripPlainStep(s);
      StripAbsentMarkers(s[1..]);
      assert s == [s[0]] + s[1..];
    }
  }

  lemma PlainNameNoMarkers(name: string)
    requires PlainName(name)
    ensures !Contains(name, WikiPath) && !Contains(name, PokemonSuffix)
  {
    if Contains(name, WikiPath) {
      ContainsChars(name, WikiPath, '/');
    }
    PlainNameNoSuffix(name);
  }

  lemma {:induction false} PlainNameNoSuffix(name: string)
    requires PlainName(name)
    ensures !Contains(name, PokemonSuffix)
    decreases |name|
  {
    if |name| > 0 {
      if name[0] != '_' {
        DiffersAt(name, PokemonSuffix, 0);
      } else if |name| > 1 {
        DiffersAt(name, PokemonSuffix, 1);
      }
      var tail := name[1..];
      assert PlainName(tail) by {
        assert forall i :: 0 <= i < |tail| ==> tail[i] == name[i + 1];
      }
      PlainNameNoSuffix(tail);
    }
  }

  /** No rewrite forms "/wiki/". */
  lemma SpecialCasesNoWiki(key: string)
    requires !Contains(key, WikiPath)
    ensures !Contains(SpecialCases(key), WikiPath)
  {
    if StartsWith(key, "farfetch") {
      ReplaceLeavesAbsent(key, "%27", "'", WikiPath, 0);
    } else if StartsWith(key, "nidoran") {
      ReplaceLeavesAbsent(key, "%e2%99%80", "_(f)", WikiPath, 0);
      ReplaceLeavesAbsent(ReplaceAll(key, "%e2%99%80", "_(f)"), "%e2%99%82", "_(m)", WikiPath, 0);
    } else if StartsWith(key, "flab") {
      ReplaceLeavesAbsent(key, "%c3%a9", "é", WikiPath, 0);
    }
  }

  /** No rewrite forms "_(pok%c3%a9mon)": the "_(" of a gender rewrite is
      followed by "f" or "m". */
  lemma SpecialCasesNoSuffix(key: string)
    requires !Contains(key, PokemonSuffix)
    ensures !Contains(SpecialCases(key), PokemonSuffix)
  {
    if StartsWith(key, "farfetch") {
      ReplaceLeavesAbsent(key, "%27", "'", PokemonSuffix, 0);
    } else if StartsWith(key, "nidoran") {
      GenderNoSuffix(key);
    } else if StartsWith(key, "flab") {
      ReplaceLeavesAbsent(key, "%c3%a9", "é", PokemonSuffix, 0);
    }
  }

  lemma GenderNoSuffix(key: string)
    requires !Contains(key, PokemonSuffix)
    ensures !Contains(ReplaceAll(ReplaceAll(key, "%e2%99%80", "_(f)"), "%e2%99%82", "_(m)"), PokemonSuffix)
  {
    var k1 := ReplaceAll(key, "%e2%99%80", "_(f)");
    ReplaceLeavesAbsent(key, "%e2%99%80", "_(f)", PokemonSuffix, 2);
    ReplaceLeavesAbsent(k1, "%e2%99%82", "_(m)", PokemonSuffix, 2);
  }

  /** Rewriting the escapes of a rewritten key changes nothing: no
      replacement text can start or continue an escape. */
  lemma SpecialCasesIdempotent(key: string)
    ensures SpecialCases(SpecialCases(key)) == SpecialCases(key)
  {
    if StartsWith(key, "farfetch") {
      FarfetchIdempotent(key);
    } else if StartsWith(key, "nidoran") {
      NidoranIdempotent(key);
    } else if StartsWith(key, "flab") {
      FlabIdempotent(key);
    }
  }

  lemma FarfetchIdempotent(key: string)
    requires StartsWith(key, "farfetch")
    ensures SpecialCases(SpecialCases(key)) == SpecialCases(key)
  {
    var k := ReplaceAll(key, "%27", "'");
    ReplaceKeepsStart(key, "farfetch", "%27", "'");
    ReplaceLeavesAbsent(key, "%27", "'", "%27", 0);
    ReplaceAbsent(k, "%27", "'");
  }

  lemma NidoranIdempotent(key: string)
    requires StartsWith(key, "nidoran")
    ensures SpecialCases(SpecialCases(key)) == SpecialCases(key)
  {
    var f, m := "%e2%99%80", "%e2%99%82";
    var k1 := ReplaceAll(key, f, "_(f)");
    var k := ReplaceAll(k1, m, "_(m)");
    NidoranBranch(key);
    ReplaceKeepsStart(key, "nidoran", f, "_(f)");
    ReplaceKeepsStart(k1, "nidoran", m, "_(m)");
    NidoranBranch(k);
    ReplaceLeavesAbsent(key, f, "_(f)", f, 0);
    ReplaceLeavesAbsent(k1, m, "_(m)", f, 0);
    ReplaceAbsent(k, f, "_(f)");
    ReplaceLeavesAbsent(k1, m, "_(m)", m, 0);
    ReplaceAbsent(k, m, "_(m)");
  }

  lemma FlabIdempotent(key: string)
    requires StartsWith(key, "flab")
    ensures SpecialCases(SpecialCases(key)) == SpecialCases(key)
  {
    var k := ReplaceAll(key, "%c3%a9", "é");
    FlabBranch(key);
    ReplaceKeepsStart(key, "flab", "%c3%a9", "é");
    FlabBranch(k);
    ReplaceLeavesAbsent(key, "%c3%a9", "é", "%c3%a9", 0);
    ReplaceAbsent(k, "%c3%a9", "é");
  }

  // ---------------------------------------------------- the special names
  // The keys of the four names whose page path carries an escape or a colon
  // are exactly the alias targets of the lookup command.

  lemma NidoranFemaleKey(href: string)
    requires LowerStr(href) == WikiPath + "nidoran%e2%99%80" + PokemonSuffix
    ensures IndexKey(href) == "nidoran_(f)"
  {
    var a, e := "nidoran", "%e2%99%80";
    var k := a + e;
    assert k == "nidoran%e2%99%80";
    NidoranPlain(e);
    KeyOfPageLink(href, k);
    NidoranFemaleEscape(a, e);
  }

  lemma NidoranMaleKey(href: string)
    requires LowerStr(href) == WikiPath + "nidoran%e2%99%82" + PokemonSuffix
    ensures IndexKey(href) == "nidoran_(m)"
  {
    var a, e := "nidoran", "%e2%99%82";
    var k := a + e;
    assert k == "nidoran%e2%99%82";
    NidoranPlain(e);
    KeyOfPageLink(href, k);
    NidoranMaleEscape(a, e);
  }

  lemma NidoranPlain(e: string)
    requires e == "%e2%99%80" || e == "%e2%99%82"
    ensures PlainName("nidoran" + e)
  {
  }

  /** A key starting "nidoran" takes both gender rewrites, female first. */
  lemma NidoranBranch(k: string)
    requires StartsWith(k, "nidoran")
    ensures SpecialCases(k) == ReplaceAll(ReplaceAll(k, "%e2%99%80", "_(f)"), "%e2%99%82", "_(m)")
  {
    assert !StartsWith(k, "farfetch") by { assert k[..7][0] == k[0]; }
  }

  /** A key starting "flab" takes the accent rewrite. */
  lemma FlabBranch(k: string)
    requires StartsWith(k, "flab")
    ensures SpecialCases(k) == ReplaceAll(k, "%c3%a9", "é")
  {
    assert !StartsWith(k, "farfetch") by { assert k[..4][1] == k[1]; }
    assert !StartsWith(k, "nidoran") by { assert k[..4][0] == k[0]; }
  }

  lemma NidoranFemaleEscape(a: string, e: string)
    requires a == "nidoran" && e == "%e2%99%80"
    ensures SpecialCases(a + e) == "nidoran_(f)"
  {
    var k, k2, m := a + e, a + "_(f)", "%e2%99%82";
    assert k[..|a|] == a;
    NidoranBranch(k);
    ReplaceOnceAfter(a, e, "_(f)");
    assert k2 == k2 + "";
    ReplacePlainPrefix(k2, "", m, "_(m)");
    ReplaceShort("", m, "_(m)");
  }

  lemma NidoranMaleEscape(a: string, e: string)
    requires a == "nidoran" && e == "%e2%99%82"
    ensures SpecialCases(a + e) == "nidoran_(m)"
  {
    var k, f := a + e, "%e2%99%80";
    assert k[..|a|] == a;
    NidoranBranch(k);
    assert e[8] != f[8];
    SkipThenReplace(a, e, f, "_(f)", "_(m)");
  }

  /** An escape that the first rewrite has no room to match is rewritten
      by the second. */
  lemma SkipThenReplace(a: string, e: string, f: string, rf: string, re: string)
    requires 0 < |e| == |f| && e != f && e[0] !in a && f[0] !in a
    ensures ReplaceAll(ReplaceAll(a + e, f, rf), e, re) == a + re
  {
    ReplacePlainPrefix(a, e, f, rf);
    ReplaceNoRoom(e, f, rf);
    ReplaceOnceAfter(a, e, re);
  }

  lemma FarfetchdKey(href: string)
    requires LowerStr(href) == WikiPath + "farfetch%27d" + PokemonSuffix
    ensures IndexKey(href) == "farfetch'd"
  {
    var a, e, b := "farfetch", "%27", "d";
    var k := a + e + b;
    assert k == "farfetch%27d";
    assert PlainName("farfetch%27d");
    KeyOfPageLink(href, k);
    assert k[..|a|] == a;
    assert a + e + b == a + (e + b);
    ReplacePlainPrefix(a, e + b, e, "'");
    ReplaceAtFront(e, b, "'");
    ReplacePlainPrefix(b, "", e, "'");
    assert ReplaceAll("", e, "'") == "" && b + "" == b;
    assert a + ("'" + b) == "farfetch'd";
  }

  lemma FlabebePlain(k: string)
    requires k == "flab%c3%a9b%c3%a9"
    ensures PlainName(k)
  {
  }

  lemma FlabebeEscapes(a: string, e: string, b: string)
    requires a == "flab" && e == "%c3%a9" && b == "b"
    ensures SpecialCases(a + (e + (b + e))) == "flabébé"
  {
    var k := a + (e + (b + e));
    assert k[..|a|] == a;
    FlabBranch(k);
    ReplaceTwiceAfter(a, e, b, "é");
    assert a + ("é" + (b + "é")) == "flabébé";
  }

  lemma FlabebeKey(href: string)
    requires LowerStr(href) == WikiPath + "flab%c3%a9b%c3%a9" + PokemonSuffix
    ensures IndexKey(href) == "flabébé"
  {
    var a, e, b := "flab", "%c3%a9", "b";
    var k := a + (e + (b + e));
    assert k == "flab%c3%a9b%c3%a9";
    FlabebePlain(k);
    KeyOfPageLink(href, k);
    FlabebeEscapes(a, e, b);
  }

  lemma TypeNullKey(href: string)
    requires LowerStr(href) == WikiPath + "type:_null" + PokemonSuffix
    ensures IndexKey(href) == "type:_null"
  {
    assert PlainName("type:_null");
    KeyOfPageLink(href, "type:_null");
    var k := "type:_null";
    assert k[0] == 't';
    assert !StartsWith(k, "farfetch") by { assert k[..8][0] != "farfetch"[0]; }
    assert !StartsWith(k, "nidoran") by { assert k[..7][0] != "nidoran"[0]; }
    assert !StartsWith(k, "flab") by { assert k[..4][0] != "flab"[0]; }
  }

  /** The deletion is a single pass: removing one "/wiki/" can bring
      another together, which stays in the key. */
  lemma SinglePassStrip(s: string)
    requires s == "/wi/wiki/ki/"
    ensures StripMarkers(s) == WikiPath
  {
    var a, b, c := "wi", "ki", "/";
    assert s == c + a + WikiPath + b + c;
    StripAroundMarker(a, b, c);
    assert c + a + b + c == WikiPath;
  }

  /** "/" + a + "/wiki/" + b + "/", for two plain letters a and a plain
      run b: only the inner "/wiki/" is deleted. */
  lemma StripAroundMarker(a: string, b: string, c: string)
    requires |a| == 2 && c == [WikiPath[0]]
    requires forall i :: 0 <= i < |a| ==> a[i] != '/' && a[i] != '_'
    requires forall i :: 0 <= i < |b| ==> b[i] != '/' && b[i] != '_'
    ensures StripMarkers(c + a + WikiPath + b + c) == c + a + b + c
  {
    var t := WikiPath + (b + c);
    calc {
      StripMarkers(c + a + WikiPath + b + c);
      { assert c + a + WikiPath + b + c == c + (a + t); }
      StripMarkers(c + (a + t));
      { SlashBeforeRun(c, a, t); }
      c + StripMarkers(a + t);
      { StripPlainRun(a, t); }
      c + (a + StripMarkers(t));
      { StripWikiStep(b + c); }
      c + (a + StripMarkers(b + c));
      { StripRunSlash(b, c); }
      c + (a + (b + c));
      c + a + b + c;
    }
  }

  /** A slash three characters before another is not the start of
      "/wiki/", so it is kept. */
  lemma SlashBeforeRun(c: string, a: string, rest: string)
    requires |a| == 2 && c == [WikiPath[0]] && |rest| > 0 && rest[0] == '/'
    ensures StripMarkers(c + (a + rest)) == c + StripMarkers(a + rest)
  {
    var s := c + (a + rest);
    assert s[3] == WikiPath[0] != WikiPath[3];
    DiffersAt(s, WikiPath, 3);
    DiffersAt(s, PokemonSuffix, 0);
    StripPlainStep(s);
    assert s[1..] == a + rest;
  }

  /** A plain run followed by a lone slash is kept. */
  lemma StripRunSlash(b: string, c: string)
    requires c == [WikiPath[0]]
    requires forall i :: 0 <= i < |b| ==> b[i] != '/' && b[i] != '_'
    ensures StripMarkers(b + c) == b + c
  {
    StripPlainRun(b, c);
    DiffersAt(c, PokemonSuffix, 0);
    StripPlainStep(c);
    assert c[1..] == "";
  }
}

/** How the `pokemon` command turns the words of a search into an index key
    (pokemon.py:324-346): the words are joined with "_", lower-cased and
    stripped of "mega_"; then a direct key wins, then a fixed list of
    aliases, then the ambiguous "nidoran" asks which one is meant, and
    anything else is unknown. */
module Lookup {
  import opened Text

  const MegaMark: string := "mega_"

  /** The only name that is answered with a question. */
  const Ambiguous: string := "nidoran"

  /** The alias chain of pokemon.py:330-343 as a table. */
  const Aliases: map<string, string> := map[
    "derpkip" := "mudkip",
    "farfetchd" := "farfetch'd",
    "flabebe" := "flabébé",
    "type_null" := "type:_null",
    "nidoran_f" := "nidoran_(f)",
    "nidoran_m" := "nidoran_(m)"]

  /** pokemon.py:324-325 */
  function Species(search: seq<string>): string {
    ReplaceAll(LowerStr(Join("_", search)), MegaMark, "")
  }

  datatype Resolution = Found(key: string) | AskWhichNidoran | Unknown

  /** The `if`/`elif` chain of pokemon.py:328-346, over the keys of the
      index. */
  function Resolve(species: string, keys: set<string>): Resolution {
    if species in keys then Found(species)
    else if species == "derpkip" then Found("mudkip")
    else if species == "farfetchd" then Found("farfetch'd")
    else if species == "flabebe" then Found("flabébé")
    else if species == "type_null" then Found("type:_null")
    else if species == Ambiguous then AskWhichNidoran
    else if species == "nidoran_f" || species == "nidoran_m" then
      Found(if species[|species| - 1] == 'f' then "nidoran_(f)" else "nidoran_(m)")
    else Unknown
  }

  // ------------------------------------------------------------ lemmas

  /** The chain agrees with the table: a direct key wins, then the aliases;
      "nidoran" alone asks which one is meant; everything else is unknown.
      In particular an alias never shadows a key of the index. */
  lemma ResolveByTable(species: string, keys: set<string>)
    ensures Resolve(species, keys) ==
      if species in keys then Found(species)
      else if species in Aliases then Found(Aliases[species])
      else if species == Ambiguous then AskWhichNidoran
      else Unknown
  {
    if species !in keys && species == "nidoran_f" {
      assert species[|species| - 1] == 'f';
    } else if species !in keys && species == "nidoran_m" {
      assert species[|species| - 1] == 'm';
    }
  }

  /** A bare "nidoran" that is not a key never yields a record. */
  lemma NidoranAsks(keys: set<string>)
    requires Ambiguous !in keys
    ensures Resolve(Species([Ambiguous]), keys) == AskWhichNidoran
  {
    NidoranSpecies();
    ResolveByTable(Ambiguous, keys);
  }

  lemma NidoranSpecies()
    ensures Species([Ambiguous]) == Ambiguous
  {
    NoUnderscoreNoMega(Ambiguous);
    KeyReachable(Ambiguous);
  }

  /** "derpkip", in any case, is looked up as "mudkip" unless the index has
      its own key for it. */
  lemma DerpkipIsMudkip(word: string, keys: set<string>)
    requires LowerStr(word) == "derpkip" && "derpkip" !in keys
    ensures Resolve(Species([word]), keys) == Found("mudkip")
  {
    var d := LowerStr(word);
    assert '_' !in d;
    NoUnderscoreNoMega(d);
    ReplaceAbsent(d, MegaMark, "");
    assert Join("_", [word]) == word;
  }

  /** A word without "_" has no "mega_" in it. */
  lemma NoUnderscoreNoMega(w: string)
    requires '_' !in w
    ensures !Contains(w, MegaMark)
  {
    if Contains(w, MegaMark) {
      ContainsChars(w, MegaMark, '_');
    }
  }

  lemma LowerStrAppend(a: string, b: string)
    ensures LowerStr(a + b) == LowerStr(a) + LowerStr(b)
  {
  }

  /** The search is lower-cased, so a lower-case key without "mega_" in it
      is found from itself, whatever the case of the search. */
  lemma KeyReachable(key: string)
    requires IsLowerCase(key) && !Contains(key, MegaMark)
    ensures Species([key]) == key
  {
    LowerStrOfLowerCase(key);
    ReplaceAbsent(key, MegaMark, "");
  }

  /** A single lower-case word is only stripped of "mega_". */
  lemma OneLowerWord(w: string)
    requires IsLowerCase(w)
    ensures Species([w]) == ReplaceAll(w, MegaMark, "")
  {
    LowerStrOfLowerCase(w);
    assert Join("_", [w]) == w;
  }

  /** Every species is lower-case. */
  lemma SpeciesLowerCase(search: seq<string>)
    ensures IsLowerCase(Species(search))
  {
    LowerStrIsLowerCase(Join("_", search));
    ReplaceKeepsLowerCase(LowerStr(Join("_", search)), MegaMark, "");
  }

  /** A leading word "Mega" (in any case) is dropped: "mega charizard x"
      looks up the same key as "charizard x". */
  lemma MegaWordDropped(mega: string, rest: seq<string>)
    requires LowerStr(mega) == "mega" && |rest| >= 1
    ensures Species([mega] + rest) == Species(rest)
  {
    var ws := [mega] + rest;
    assert ws[1..] == rest;
    assert Join("_", ws) == mega + "_" + Join("_", rest);
    LowerStrAppend(mega + "_", Join("_", rest));
    LowerStrAppend(mega, "_");
    assert LowerStr("_") == "_";
    assert LowerStr(mega + "_") == MegaMark;
    ReplaceAtFront(MegaMark, LowerStr(Join("_", rest)), "");
    assert "" + Species(rest) == Species(rest);
  }

  /** The removal is a single pass: a "mega_" that only forms once an inner
      one is removed stays in the species. */
  lemma SinglePassMega()
    ensures Species(["mmega_ega_"]) == MegaMark
  {
    var w := "mmega_ega_";
    MegaInMega(w);
    OneLowerWord(w);
    ReplaceAfterChar('m', MegaMark, "ega_", "");
    assert ['m'] + ("" + "ega_") == MegaMark;
  }

  lemma MegaInMega(w: string)
    requires w == "mmega_ega_"
    ensures IsLowerCase(w) && w == ['m'] + (MegaMark + "ega_")
  {
    assert IsLowerCase(w);
  }

}

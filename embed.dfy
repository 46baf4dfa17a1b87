/** The card the `pokemon` command posts for a record (pokemon.py:190-261):
    its title, description, link, the "Types" and "Abilities" fields, the
    base-stats block with at most three stat groups, the thumbnail and the
    footer. Column alignment inside the base-stats block is not modelled:
    each line of the block is a `StatRow` holding the texts it shows. */
module Embed {
  import opened Wrappers
  import opened Text
  import opened Names
  import opened Groups
  import opened Sorting
  import opened Extract

  const Footer: string := "Source: https://bulbapedia.bulbagarden.net/"

  /** The stats shown for every group, in order. */
  const ShownStats: seq<string> := ["HP", "Attack", "Defense", "Sp.Atk", "Sp.Def", "Speed"]

  /** More groups than this are cut off (pokemon.py:232-246). */
  const MaxGroups: nat := 3

  datatype StatRow =
    | GroupTitle(title: string)
    | StatValues(stat: string, base: string, lv50: string, lv100: string)
    | TotalValue(total: string)
    | SeeMore

  datatype Card = Card(
    title: string,
    description: string,
    url: string,
    types: string,
    abilities: string,
    stats: seq<StatRow>,
    thumbnail: string,
    footer: string)

  // ----------------------------------------------------- types, abilities

  /** A grouped value as shown: its ";"-separated parts separated by ", ". */
  function Listed(v: string): string {
    ReplaceAll(v, ";", ", ")
  }

  /** One "key: values" line; ability keys also get the gender signs. */
  function EntryLine(key: string, v: string, signs: bool): string {
    (if signs then GenderSigns(key) else key) + ": " + Listed(v)
  }

  function Lines(m: map<string, string>, keys: seq<string>, signs: bool): (r: seq<string>)
    requires forall k :: k in keys ==> k in m
    ensures |r| == |keys|
    ensures forall i :: 0 <= i < |keys| ==> r[i] == EntryLine(keys[i], m[keys[i]], signs)
  {
    seq(|keys|, i requires 0 <= i < |keys| => EntryLine(keys[i], m[keys[i]], signs))
  }

  /** pokemon.py:203-221: a single group shows only its values; otherwise
      one line per group, in key order. */
  ghost function FieldText(m: map<string, string>, signs: bool): string {
    var keys := SortedKeys(m.Keys);
    if |m| == 1 then Listed(m[keys[0]])
    else Join("\n", Lines(m, keys, signs))
  }

  /** The "Types" or "Abilities" field of pokemon.py:203-221. */
  method FieldValue(m: map<string, string>, signs: bool) returns (text: string)
    ensures text == FieldText(m, signs)
  {
    if |m| == 1 {
      var k :| k in m;
      SortedSingle(m.Keys, k);
      text := Listed(m[k]);
      return;
    }
    var keys := SortKeys(m.Keys);
    var lines := EntryLines(m, keys, signs);
    text := Join("\n", lines);
  }

  /** The loops of pokemon.py:208-210 and pokemon.py:216-220: one line per
      key, in order. */
  method EntryLines(m: map<string, string>, keys: seq<string>, signs: bool) returns (lines: seq<string>)
    requires forall k :: k in keys ==> k in m
    ensures lines == Lines(m, keys, signs)
  {
    lines := [];
    for i := 0 to |keys|
      invariant |lines| == i
      invariant forall j :: 0 <= j < i ==> lines[j] == EntryLine(keys[j], m[keys[j]], signs)
    {
      lines := lines + [EntryLine(keys[i], m[keys[i]], signs)];
    }
  }

  /** A field with one group shows that group's values, whatever its key. */
  lemma SingleGroupShowsValues(m: map<string, string>, k: string, signs: bool)
    requires |m| == 1 && k in m
    ensures FieldText(m, signs) == Listed(m[k])
  {
    SortedSingle(m.Keys, k);
  }

  /** With several groups the lines come in increasing key order, one per
      group. */
  lemma GroupLinesInOrder(m: map<string, string>, signs: bool)
    requires |m| != 1
    ensures exists keys: seq<string> ::
      StrictlySorted(keys) && (forall k :: k in keys <==> k in m) &&
      FieldText(m, signs) == Join("\n", Lines(m, keys, signs))
  {
    var keys := SortedKeys(m.Keys);
    assert StrictlySorted(keys) && (forall k :: k in keys <==> k in m);
  }

  /** A group of types or abilities is shown as the values added under it,
      in insertion order, separated by ", ", when no value holds ";". */
  lemma ListedGroup(entries: seq<(string, string)>, key: string)
    requires NoDelimiter(entries) && key in GroupAll(map[], entries)
    ensures Listed(GroupAll(map[], entries)[key]) == Join(", ", ValuesFor(entries, key))
  {
    GroupAllContents(map[], entries, key);
    assert [] + ValuesFor(entries, key) == ValuesFor(entries, key);
    ValuesForFree(entries, key);
    ReplaceSeparator(ValuesFor(entries, key), ';', ", ");
  }

  // ----------------------------------------------------------- stat block

  /** pokemon.py:225-226: a stat shown from its "base;lv50;lv100" value; a
      missing stat or a value with fewer than three fields raises. */
  function StatRowOf(d: map<string, string>, stat: string): Option<StatRow> {
    if stat !in d then None
    else
      var f := Split(d[stat], ';');
      if |f| < 3 then None else Some(StatValues(stat, f[0], f[1], f[2]))
  }

  function StatRowsOf(d: map<string, string>, stats: seq<string>): (r: Option<seq<StatRow>>)
    ensures r.Some? ==> |r.value| == |stats|
    decreases |stats|
  {
    if |stats| == 0 then Some([])
    else
      match StatRowsOf(d, stats[..|stats| - 1])
      case None => None
      case Some(rows) =>
        match StatRowOf(d, stats[|stats| - 1])
        case None => None
        case Some(row) => Some(rows + [row])
  }

  /** One stat group (pokemon.py:237-244): its title with gender signs, the
      six stats and the total, which is the first field of its value. */
  function GroupRows(title: string, d: map<string, string>): Option<seq<StatRow>> {
    match StatRowsOf(d, ShownStats)
    case None => None
    case Some(rows) =>
      if "Total" !in d then None
      else Some([GroupTitle(GenderSigns(title))] + rows + [TotalValue(Split(d["Total"], ';')[0])])
  }

  /** The groups for `keys`, in order. */
  function Blocks(stats: map<string, map<string, string>>, keys: seq<string>): Option<seq<StatRow>>
    requires forall k :: k in keys ==> k in stats
    decreases |keys|
  {
    if |keys| == 0 then Some([])
    else
      match Blocks(stats, keys[..|keys| - 1])
      case None => None
      case Some(rows) =>
        var key := keys[|keys| - 1];
        match GroupRows(key, stats[key])
        case None => None
        case Some(g) => Some(rows + g)
  }

  /** pokemon.py:227-256: the groups in key order; with more than three,
      only the first three and the see-more line (`SeeMore`). */
  ghost function StatBlock(stats: map<string, map<string, string>>): Option<seq<StatRow>> {
    var keys := SortedKeys(stats.Keys);
    if |keys| > MaxGroups then
      match Blocks(stats, keys[..MaxGroups])
      case None => None
      case Some(rows) => Some(rows + [SeeMore])
    else Blocks(stats, keys)
  }

  /** The stat groups of pokemon.py:222-258. */
  method StatBlockRows(stats: map<string, map<string, string>>) returns (r: Option<seq<StatRow>>)
    ensures r == StatBlock(stats)
  {
    var keys := SortKeys(stats.Keys);
    if |keys| > MaxGroups {
      r := FirstBlocks(stats, keys);
      if r.Some? {
        r := Some(r.value + [SeeMore]);
      }
    } else {
      r := AllBlocks(stats, keys);
    }
  }

  /** pokemon.py:234-246: the loop that stops after three groups. */
  method FirstBlocks(stats: map<string, map<string, string>>, keys: seq<string>) returns (r: Option<seq<StatRow>>)
    requires |keys| > MaxGroups && forall k :: k in keys ==> k in stats
    ensures r == Blocks(stats, keys[..MaxGroups])
  {
    var rows: seq<StatRow> := [];
    var count := 0;
    var i := 0;
    while i < |keys|
      invariant i == count <= MaxGroups
      invariant Blocks(stats, keys[..i]) == Some(rows)
    {
      if count == MaxGroups {
        break;
      }
      var g := GroupRows(keys[i], stats[keys[i]]);
      if g.None? {
        assert keys[..MaxGroups][..i + 1] == keys[..i + 1];
        BlocksFailurePersists(stats, keys[..MaxGroups], i + 1);
        return None;
      }
      BlocksStep(stats, keys, i, rows, g.value);
      rows := rows + g.value;
      count := count + 1;
      i := i + 1;
    }
    r := Some(rows);
  }

  /** pokemon.py:248-256: every group, when there are at most three. */
  method AllBlocks(stats: map<string, map<string, string>>, keys: seq<string>) returns (r: Option<seq<StatRow>>)
    requires forall k :: k in keys ==> k in stats
    ensures r == Blocks(stats, keys)
  {
    var rows: seq<StatRow> := [];
    for i := 0 to |keys|
      invariant Blocks(stats, keys[..i]) == Some(rows)
    {
      var g := GroupRows(keys[i], stats[keys[i]]);
      if g.None? {
        BlocksFailurePersists(stats, keys, i + 1);
        return None;
      }
      BlocksStep(stats, keys, i, rows, g.value);
      rows := rows + g.value;
    }
    assert keys[..|keys|] == keys;
    r := Some(rows);
  }

  /** One more group extends the rows of the groups before it. */
  lemma BlocksStep(stats: map<string, map<string, string>>, keys: seq<string>, i: nat, rows: seq<StatRow>, g: seq<StatRow>)
    requires i < |keys| && forall k :: k in keys ==> k in stats
    requires Blocks(stats, keys[..i]) == Some(rows)
    requires GroupRows(keys[i], stats[keys[i]]) == Some(g)
    ensures Blocks(stats, keys[..i + 1]) == Some(rows + g)
  {
    assert keys[..i + 1][..i] == keys[..i];
  }

  lemma {:induction false} BlocksFailurePersists(stats: map<string, map<string, string>>, keys: seq<string>, n: nat)
    requires forall k :: k in keys ==> k in stats
    requires n <= |keys| && Blocks(stats, keys[..n]).None?
    ensures Blocks(stats, keys).None?
    decreases |keys| - n
  {
    if n < |keys| {
      var front := keys[..|keys| - 1];
      assert front[..n] == keys[..n];
      BlocksFailurePersists(stats, front, n);
    } else {
      assert keys[..n] == keys;
    }
  }

  /** The titles of the groups a block shows. */
  function Titles(rows: seq<StatRow>): seq<string>
    decreases |rows|
  {
    if |rows| == 0 then []
    else Titles(rows[..|rows| - 1]) + (if rows[|rows| - 1].GroupTitle? then [rows[|rows| - 1].title] else [])
  }

  lemma {:induction false} TitlesAppend(a: seq<StatRow>, b: seq<StatRow>)
    ensures Titles(a + b) == Titles(a) + Titles(b)
    decreases |b|
  {
    if |b| == 0 {
      assert a + b == a;
    } else {
      assert (a + b)[..|a + b| - 1] == a + b[..|b| - 1];
      TitlesAppend(a, b[..|b| - 1]);
    }
  }

  /** A group is eight rows with its title first. */
  lemma GroupShape(title: string, d: map<string, string>)
    requires GroupRows(title, d).Some?
    ensures |GroupRows(title, d).value| == 2 + |ShownStats|
    ensures Titles(GroupRows(title, d).value) == [GenderSigns(title)]
    ensures SeeMore !in GroupRows(title, d).value
  {
    var rows := StatRowsOf(d, ShownStats).value;
    StatRowsValues(d, ShownStats);
    var g := GroupRows(title, d).value;
    TitlesAppend([GroupTitle(GenderSigns(title))] + rows, [TotalValue(Split(d["Total"], ';')[0])]);
    TitlesAppend([GroupTitle(GenderSigns(title))], rows);
    NoTitles(rows);
    assert Titles([GroupTitle(GenderSigns(title))]) == [GenderSigns(title)] by {
      assert [GroupTitle(GenderSigns(title))][..0] == [];
    }
    assert Titles([TotalValue(Split(d["Total"], ';')[0])]) == [] by {
      assert [TotalValue(Split(d["Total"], ';')[0])][..0] == [];
    }
  }

  lemma {:induction false} StatRowsValues(d: map<string, string>, stats: seq<string>)
    requires StatRowsOf(d, stats).Some?
    ensures forall i :: 0 <= i < |stats| ==> StatRowsOf(d, stats).value[i].StatValues?
    decreases |stats|
  {
    if |stats| > 0 {
      StatRowsValues(d, stats[..|stats| - 1]);
    }
  }

  lemma {:induction false} NoTitles(rows: seq<StatRow>)
    requires forall i :: 0 <= i < |rows| ==> rows[i].StatValues?
    ensures Titles(rows) == []
    decreases |rows|
  {
    if |rows| > 0 {
      NoTitles(rows[..|rows| - 1]);
    }
  }

  /** The groups for `keys` are eight rows per key, titled by the keys in
      order, with no see-more line among them. */
  lemma BlocksShape(stats: map<string, map<string, string>>, keys: seq<string>)
    requires forall k :: k in keys ==> k in stats
    requires Blocks(stats, keys).Some?
    ensures |Blocks(stats, keys).value| == (2 + |ShownStats|) * |keys|
    ensures Titles(Blocks(stats, keys).value) == SignedKeys(keys)
    ensures SeeMore !in Blocks(stats, keys).value
  {
    BlocksLength(stats, keys);
    BlocksTitles(stats, keys);
    BlocksNoSeeMore(stats, keys);
  }

  lemma {:induction false} BlocksLength(stats: map<string, map<string, string>>, keys: seq<string>)
    requires forall k :: k in keys ==> k in stats
    requires Blocks(stats, keys).Some?
    ensures |Blocks(stats, keys).value| == (2 + |ShownStats|) * |keys|
    decreases |keys|
  {
    if |keys| > 0 {
      var front, key := keys[..|keys| - 1], keys[|keys| - 1];
      BlocksLength(stats, front);
      GroupShape(key, stats[key]);
    }
  }

  lemma {:induction false} BlocksTitles(stats: map<string, map<string, string>>, keys: seq<string>)
    requires forall k :: k in keys ==> k in stats
    requires Blocks(stats, keys).Some?
    ensures Titles(Blocks(stats, keys).value) == SignedKeys(keys)
    decreases |keys|
  {
    if |keys| > 0 {
      var front, key := keys[..|keys| - 1], keys[|keys| - 1];
      var rows, g := Blocks(stats, front).value, GroupRows(key, stats[key]).value;
      assert Blocks(stats, keys).value == rows + g;
      BlocksTitles(stats, front);
      GroupShape(key, stats[key]);
      TitlesAppend(rows, g);
    }
  }

  /** The keys with their gender signs, in order. */
  function SignedKeys(keys: seq<string>): (r: seq<string>)
    ensures |r| == |keys|
    decreases |keys|
  {
    if |keys| == 0 then []
    else SignedKeys(keys[..|keys| - 1]) + [GenderSigns(keys[|keys| - 1])]
  }

  lemma {:induction false} SignedKeysAt(keys: seq<string>, i: nat)
    requires i < |keys|
    ensures SignedKeys(keys)[i] == GenderSigns(keys[i])
    decreases |keys|
  {
    if i < |keys| - 1 {
      SignedKeysAt(keys[..|keys| - 1], i);
    }
  }

  lemma {:induction false} BlocksNoSeeMore(stats: map<string, map<string, string>>, keys: seq<string>)
    requires forall k :: k in keys ==> k in stats
    requires Blocks(stats, keys).Some?
    ensures SeeMore !in Blocks(stats, keys).value
    decreases |keys|
  {
    if |keys| > 0 {
      var front, key := keys[..|keys| - 1], keys[|keys| - 1];
      BlocksNoSeeMore(stats, front);
      GroupShape(key, stats[key]);
    }
  }

  /** The truncation rule: the block shows the groups of the first
      min(3, n) keys in order, eight rows each, and ends with the see-more
      line exactly when there are more than three groups. */
  lemma StatBlockTruncation(stats: map<string, map<string, string>>)
    requires StatBlock(stats).Some?
    ensures var keys := SortedKeys(stats.Keys);
      var shown := if |keys| > MaxGroups then keys[..MaxGroups] else keys;
      Titles(StatBlock(stats).value) == SignedKeys(shown) &&
      |StatBlock(stats).value| == (2 + |ShownStats|) * |shown| + (if |keys| > MaxGroups then 1 else 0) &&
      (SeeMore in StatBlock(stats).value <==> |keys| > MaxGroups)
  {
    var keys := SortedKeys(stats.Keys);
    if |keys| > MaxGroups {
      var rows := Blocks(stats, keys[..MaxGroups]).value;
      BlocksShape(stats, keys[..MaxGroups]);
      TitlesAppend(rows, [SeeMore]);
      assert Titles([SeeMore]) == [] by {
        assert [SeeMore][..0] == [];
      }
    } else {
      BlocksShape(stats, keys);
    }
  }

  /** A table the extractor reads, whose six stats are the shown ones and
      whose texts hold no ";", is displayed without error: each stat shows
      its stripped base value and its two ranges, and the total its stripped
      value. */
  lemma ReadTableDisplays(t: StatTable, pretty: string)
    requires ReadStatTable(t, pretty).Read?
    requires forall k :: 0 <= k < |ShownStats| ==>
      2 * k < |t.cells| && t.cells[2 * k].name == Some(ShownStats[k])
    requires forall k :: 0 <= k < |ShownStats| ==>
      t.cells[2 * k].header.Some? && t.cells[2 * k].ranges.Some? &&
      ';' !in Strip(t.cells[2 * k].header.value) &&
      ';' !in t.cells[2 * k].ranges.value.0 && ';' !in t.cells[2 * k].ranges.value.1
    requires TotalCell < |t.cells| && t.cells[TotalCell].header.Some? &&
      ';' !in Strip(t.cells[TotalCell].header.value)
    ensures var title := ReadStatTable(t, pretty).title;
      var d := ReadStatTable(t, pretty).stats;
      GroupRows(title, d) == Some(
        [GroupTitle(GenderSigns(title))] +
        seq(|ShownStats|, k requires 0 <= k < |ShownStats| =>
          StatValues(ShownStats[k], Strip(t.cells[2 * k].header.value),
                     t.cells[2 * k].ranges.value.0, t.cells[2 * k].ranges.value.1)) +
        [TotalValue(Strip(t.cells[TotalCell].header.value))])
  {
    var d := ReadStatTable(t, pretty).stats;
    forall j, k | 0 <= j < k < StatCount
      ensures StrideCell(t.cells, j).name != StrideCell(t.cells, k).name
    {
      assert ShownStats[j] != ShownStats[k];
    }
    forall k | 0 <= k < StatCount
      ensures StrideCell(t.cells, k).name != Some("Total")
    {
    }
    StatTableShape(t, pretty);
    StatTableEntries(t, pretty);
    var want := seq(|ShownStats|, k requires 0 <= k < |ShownStats| =>
      StatValues(ShownStats[k], Strip(t.cells[2 * k].header.value),
                 t.cells[2 * k].ranges.value.0, t.cells[2 * k].ranges.value.1));
    forall k | 0 <= k < |ShownStats|
      ensures StatRowOf(d, ShownStats[k]) == Some(want[k])
    {
      var c := StrideCell(t.cells, k);
      assert StrideName(t.cells, k) == ShownStats[k];
      StatValueSplits(c);
    }
    StatRowsMatch(d, ShownStats, want);
    SplitNoSeparator(Strip(t.cells[TotalCell].header.value), ';');
  }

  lemma {:induction false} StatRowsMatch(d: map<string, string>, stats: seq<string>, want: seq<StatRow>)
    requires |want| == |stats|
    requires forall k :: 0 <= k < |stats| ==> StatRowOf(d, stats[k]) == Some(want[k])
    ensures StatRowsOf(d, stats) == Some(want)
    decreases |stats|
  {
    if |stats| > 0 {
      var n := |stats| - 1;
      assert forall k :: 0 <= k < n ==> stats[..n][k] == stats[k];
      StatRowsMatch(d, stats[..n], want[..n]);
      assert want[..n] + [want[n]] == want;
    }
  }

  // ----------------------------------------------------------------- card

  /** pokemon.py:190-261: the card for a record, or None when the stat
      block raises. */
  ghost function CardOf(rec: Record, species: string, url: string): Option<Card> {
    match StatBlock(rec.baseStats)
    case None => None
    case Some(rows) =>
      Some(Card(PrettyName(species), rec.natDexNo + ": " + rec.category, url,
                FieldText(rec.types, false), FieldText(rec.abilities, true), rows,
                "https:" + rec.img, Footer))
  }

  /** `getPokeEmbed`. */
  method GetPokeEmbed(rec: Record, species: string, url: string) returns (r: Option<Card>)
    ensures r == CardOf(rec, species, url)
  {
    var pokeName := PrettyPoke(species);
    var prettyName := GenderSigns(pokeName);
    var types := FieldValue(rec.types, false);
    var abilities := FieldValue(rec.abilities, true);
    var stats := StatBlockRows(rec.baseStats);
    if stats.None? {
      return None;
    }
    r := Some(Card(prettyName, rec.natDexNo + ": " + rec.category, url, types, abilities,
                   stats.value, "https:" + rec.img, Footer));
  }
}

/** The field extractors of a Bulbapedia species page and the all-or-nothing
    record they are assembled into. The HTML tree itself is not modelled: a
    page is given by what the Beautiful Soup queries return (the info box's
    anchors, the type anchors with the table that encloses each, the ability
    cells, the left-aligned stat tables with the cells that follow them).
    pokemon.py (`getPokeData`) and setup.py (`getPokemon`) run the same
    extractors; they differ only in what they do on failure, which the
    callers in PokemonCog and Setup model. */
module Extract {
  import opened Wrappers
  import opened Text
  import opened Groups
  import opened Names

  // ------------------------------------------------------------ the page

  /** The anchor whose title names the category: its own text, or failing
      that the text of a nested "explain" span. */
  datatype CategoryLink = CategoryLink(text: Option<string>, explain: Option<string>)

  /** A type anchor and the identity of the nearest table enclosing it. */
  datatype TypeLink = TypeLink(table: nat, text: string)

  /** A cell under the abilities heading: its inline style, the stripped-to-be
      text of its `<small>` sublabel (None when there is no `<small>` or it
      has no text, both of which fall back to the display name), and the
      text of its anchor (None when the cell has no `<a>`). */
  datatype AbilityCell = AbilityCell(style: Option<string>, small: Option<string>, link: Option<string>)

  /** The single right-floating info table. `imageSrc` is the source of the
      image anchor's picture, `typeLabels` the `<small>` label above each
      type table, `abilityCells` the cells under the "Ability" anchor's cell
      (None when that anchor or cell is missing). */
  datatype InfoBox = InfoBox(
    imageSrc: Option<string>,
    category: Option<CategoryLink>,
    dexNo: Option<string>,
    typeLinks: seq<TypeLink>,
    typeLabels: map<nat, string>,
    abilityCells: Option<seq<AbilityCell>>)

  /** A `td` reached by the stat stride: its anchor's text (the stat name;
      None when the cell has no `<a>`), the text of the second `th` after it
      (the base value, before stripping; None when that `th` is missing or
      has no text), and the texts of the two `small` elements after it (the
      ranges at level 50 and level 100; None when they are missing). */
  datatype StatCell = StatCell(name: Option<string>, header: Option<string>, ranges: Option<(string, string)>)

  /** A left-aligned table: the text of its first `span`, the text of the
      element before it, and the `td` elements from the table onwards in
      document order. */
  datatype StatTable = StatTable(span: Option<string>, heading: string, cells: seq<StatCell>)

  /** What the scraper sees of a species page. */
  datatype DetailPage = DetailPage(infoBoxes: seq<InfoBox>, statTables: seq<StatTable>)

  /** The dictionary `getPokeData` returns. */
  datatype Record = Record(
    img: string,
    category: string,
    natDexNo: string,
    types: map<string, string>,
    abilities: map<string, string>,
    baseStats: map<string, map<string, string>>)

  // ------------------------------------------------------------ category

  const CategorySuffix: string := " Pokémon"

  /** pokemon.py:64-65: the suffix is appended only when it is absent. */
  function WithSuffix(text: string): string {
    if Contains(text, CategorySuffix) then text else text + CategorySuffix
  }

  /** The category always mentions " Pokémon", a text that already did is left
      alone, and normalising twice is normalising once. */
  lemma WithSuffixNormalises(text: string)
    ensures Contains(WithSuffix(text), CategorySuffix)
    ensures Contains(text, CategorySuffix) ==> WithSuffix(text) == text
    ensures !Contains(text, CategorySuffix) ==> WithSuffix(text) == text + CategorySuffix
    ensures WithSuffix(WithSuffix(text)) == WithSuffix(text)
  {
    if !Contains(text, CategorySuffix) {
      ContainsAppended(text, CategorySuffix);
    }
  }

  /** pokemon.py:55-67: the anchor's text, else the explain span's text;
      a missing anchor or a missing explanation is a failure. */
  function CategoryOf(link: Option<CategoryLink>): Option<string> {
    match link
    case None => None
    case Some(l) =>
      if l.text.Some? then Some(WithSuffix(l.text.value))
      else if l.explain.Some? then Some(WithSuffix(l.explain.value))
      else None
  }

  // --------------------------------------------------------------- types

  /** The distinct enclosing tables of the type anchors, in the order each is
      first met (the `typeSet` list, compared by identity). */
  function FirstSeen(links: seq<TypeLink>): seq<nat>
    decreases |links|
  {
    if |links| == 0 then []
    else
      var seen := FirstSeen(links[..|links| - 1]);
      var t := links[|links| - 1].table;
      if t in seen then seen else seen + [t]
  }

  predicate IsPrefix(a: seq<nat>, b: seq<nat>) {
    |a| <= |b| && b[..|a|] == a
  }

  predicate Distinct(ts: seq<nat>) {
    forall i, j :: 0 <= i < j < |ts| ==> ts[i] != ts[j]
  }

  /** The de-duplicated tables hold no repeats, hold exactly the tables of the
      anchors, and grow only at the end as more anchors are read: the tables
      of a prefix of the anchors are a prefix of the whole list (first-seen
      order). */
  lemma {:induction false} FirstSeenOrder(links: seq<TypeLink>)
    ensures Distinct(FirstSeen(links))
    ensures forall t :: t in FirstSeen(links) <==> exists i :: 0 <= i < |links| && links[i].table == t
    ensures forall k :: 0 <= k <= |links| ==> IsPrefix(FirstSeen(links[..k]), FirstSeen(links))
    decreases |links|
  {
    if |links| > 0 {
      var front := links[..|links| - 1];
      FirstSeenOrder(front);
      forall t | t in FirstSeen(links)
        ensures exists i :: 0 <= i < |links| && links[i].table == t
      {
        if t in FirstSeen(front) {
          var i :| 0 <= i < |front| && front[i].table == t;
          assert links[i].table == t;
        } else {
          assert links[|links| - 1].table == t;
        }
      }
      forall t | exists i :: 0 <= i < |links| && links[i].table == t
        ensures t in FirstSeen(links)
      {
        var i :| 0 <= i < |links| && links[i].table == t;
        if i < |links| - 1 {
          assert front[i].table == t;
        }
      }
      forall k | 0 <= k <= |links|
        ensures IsPrefix(FirstSeen(links[..k]), FirstSeen(links))
      {
        if k < |links| {
          assert links[..k] == front[..k];
        } else {
          assert links[..k] == links;
        }
      }
    }
  }

  /** The (key, value) updates for the anchors of table `t`, in page order. */
  function TableEntries(key: string, t: nat, links: seq<TypeLink>): seq<(string, string)>
    decreases |links|
  {
    if |links| == 0 then []
    else
      var last := links[|links| - 1];
      TableEntries(key, t, links[..|links| - 1]) + (if last.table == t then [(key, last.text)] else [])
  }

  /** The texts of the anchors of table `t`, in page order. */
  function TableTexts(t: nat, links: seq<TypeLink>): seq<string>
    decreases |links|
  {
    if |links| == 0 then []
    else
      var last := links[|links| - 1];
      TableTexts(t, links[..|links| - 1]) + (if last.table == t then [last.text] else [])
  }

  predicate Labelled(ts: seq<nat>, labels: map<nat, string>) {
    forall t :: t in ts ==> t in labels
  }

  /** The updates made while popping `ts` from its end: the last table's
      anchors first, each under its table's label. */
  function PoppedEntries(ts: seq<nat>, links: seq<TypeLink>, labels: map<nat, string>): seq<(string, string)>
    requires Labelled(ts, labels)
    decreases |ts|
  {
    if |ts| == 0 then []
    else PoppedEntries(ts[1..], links, labels) + TableEntries(labels[ts[0]], ts[0], links)
  }

  /** Every anchor tagged with the same key. */
  function Tagged(key: string, links: seq<TypeLink>): (r: seq<(string, string)>)
    ensures |r| == |links|
    decreases |links|
  {
    if |links| == 0 then []
    else Tagged(key, links[..|links| - 1]) + [(key, links[|links| - 1].text)]
  }

  /** pokemon.py:81-116: with more than one distinct type table every table
      is keyed by its label (a table without one is a failure); otherwise all
      anchors go under the display name. */
  function TypeGroups(links: seq<TypeLink>, labels: map<nat, string>, pretty: string): Option<map<string, string>> {
    var tables := FirstSeen(links);
    if |tables| > 1 then
      if Labelled(tables, labels) then Some(GroupAll(map[], PoppedEntries(tables, links, labels)))
      else None
    else Some(GroupAll(map[], Tagged(pretty, links)))
  }

  /** The type-gathering loops of pokemon.py:84-111 (setup.py:111-142). */
  method GroupTypes(links: seq<TypeLink>, labels: map<nat, string>, pretty: string)
    returns (r: Option<map<string, string>>)
    ensures r == TypeGroups(links, labels, pretty)
  {
    var typeSet := DistinctTables(links);
    if |typeSet| > 1 {
      r := PopTables(typeSet, links, labels);
    } else {
      var pokeTypes := TagAll(links, pretty);
      r := Some(pokeTypes);
    }
  }

  /** pokemon.py:95-103: the tables popped from the end, each table's
      anchors under its label; a table without a label ends the loop with a
      failure. */
  method PopTables(tables: seq<nat>, links: seq<TypeLink>, labels: map<nat, string>)
    returns (r: Option<map<string, string>>)
    ensures r == if Labelled(tables, labels) then Some(GroupAll(map[], PoppedEntries(tables, links, labels))) else None
  {
    var typeSet := tables;
    var pokeTypes: map<string, string> := map[];
    while |typeSet| > 0
      invariant typeSet == tables[..|typeSet|]
      invariant Labelled(tables[|typeSet|..], labels)
      invariant pokeTypes == GroupAll(map[], PoppedEntries(tables[|typeSet|..], links, labels))
    {
      var typeTable := typeSet[|typeSet| - 1];
      typeSet := typeSet[..|typeSet| - 1];
      if typeTable !in labels {
        assert tables[|typeSet|] == typeTable;
        return None;
      }
      var key := labels[typeTable];
      ghost var done := PoppedEntries(tables[|typeSet| + 1..], links, labels);
      assert tables[|typeSet|..][1..] == tables[|typeSet| + 1..];
      pokeTypes := AddTableTypes(pokeTypes, key, typeTable, links);
      GroupAllAppend(map[], done, TableEntries(key, typeTable, links));
    }
    assert tables[0..] == tables;
    r := Some(pokeTypes);
  }

  /** pokemon.py:104-111: every anchor under the display name. */
  method TagAll(links: seq<TypeLink>, pretty: string) returns (pokeTypes: map<string, string>)
    ensures pokeTypes == GroupAll(map[], Tagged(pretty, links))
  {
    pokeTypes := map[];
    for j := 0 to |links|
      invariant pokeTypes == GroupAll(map[], Tagged(pretty, links[..j]))
    {
      assert links[..j + 1][..j] == links[..j];
      pokeTypes := AddToGroup(pokeTypes, pretty, links[j].text);
    }
    assert links[..|links|] == links;
  }

  /** The identity-based de-duplication loop of pokemon.py:84-93. */
  method DistinctTables(links: seq<TypeLink>) returns (typeSet: seq<nat>)
    ensures typeSet == FirstSeen(links)
  {
    typeSet := [];
    for i := 0 to |links|
      invariant typeSet == FirstSeen(links[..i])
    {
      var add := true;
      for j := 0 to |typeSet|
        invariant add <==> links[i].table !in typeSet[..j]
      {
        if links[i].table == typeSet[j] {
          add := false;
        }
      }
      assert typeSet[..|typeSet|] == typeSet;
      if add {
        typeSet := typeSet + [links[i].table];
      }
      assert links[..i + 1][..i] == links[..i];
    }
    assert links[..|links|] == links;
  }

  /** The inner loop of pokemon.py:99-103: every anchor of one table added
      under that table's label. */
  method AddTableTypes(m: map<string, string>, key: string, t: nat, links: seq<TypeLink>)
    returns (r: map<string, string>)
    ensures r == GroupAll(m, TableEntries(key, t, links))
  {
    r := m;
    for j := 0 to |links|
      invariant r == GroupAll(m, TableEntries(key, t, links[..j]))
    {
      assert links[..j + 1][..j] == links[..j];
      assert links[..j + 1][j] == links[j];
      if links[j].table == t {
        r := AddToGroup(r, key, links[j].text);
        ghost var e := TableEntries(key, t, links[..j]) + [(key, links[j].text)];
        assert TableEntries(key, t, links[..j + 1]) == e;
        assert e[..|e| - 1] == TableEntries(key, t, links[..j]);
      } else {
        assert TableEntries(key, t, links[..j + 1]) == TableEntries(key, t, links[..j]) + [];
        assert TableEntries(key, t, links[..j]) + [] == TableEntries(key, t, links[..j]);
      }
    }
    assert links[..|links|] == links;
  }

  /** The texts of the anchors, in page order. */
  function Texts(links: seq<TypeLink>): (r: seq<string>)
    ensures |r| == |links|
    decreases |links|
  {
    if |links| == 0 then []
    else Texts(links[..|links| - 1]) + [links[|links| - 1].text]
  }

  lemma {:induction false} TextsAt(links: seq<TypeLink>, i: nat)
    requires i < |links|
    ensures Texts(links)[i] == links[i].text
    decreases |links|
  {
    if i < |links| - 1 {
      TextsAt(links[..|links| - 1], i);
    }
  }

  /** Under the tag, the values are the anchors' texts in page order; under
      any other key there are none. */
  lemma {:induction false} TaggedValues(key: string, links: seq<TypeLink>, k: string)
    ensures ValuesFor(Tagged(key, links), k) == if k == key then Texts(links) else []
    decreases |links|
  {
    if |links| > 0 {
      var front := links[..|links| - 1];
      TaggedValues(key, front, k);
      assert Tagged(key, links)[..|links| - 1] == Tagged(key, front);
    }
  }

  lemma {:induction false} TaggedNoDelimiter(key: string, links: seq<TypeLink>)
    requires forall i :: 0 <= i < |links| ==> ';' !in links[i].text
    ensures NoDelimiter(Tagged(key, links))
    decreases |links|
  {
    if |links| > 0 {
      var front := links[..|links| - 1];
      TaggedNoDelimiter(key, front);
      assert Tagged(key, links)[..|links| - 1] == Tagged(key, front);
    }
  }

  /** With at most one distinct type table, the types map has no key but the
      display name, has it as soon as there is a type anchor, and that group
      splits back into the anchors' texts in page order. */
  lemma TypesUnderDisplayName(links: seq<TypeLink>, labels: map<nat, string>, pretty: string)
    requires |FirstSeen(links)| <= 1
    ensures TypeGroups(links, labels, pretty).Some?
    ensures TypeGroups(links, labels, pretty).value.Keys == if |links| == 0 then {} else {pretty}
    ensures (forall i :: 0 <= i < |links| ==> ';' !in links[i].text) && |links| > 0 ==>
      Split(TypeGroups(links, labels, pretty).value[pretty], ';')
        == Texts(links)
  {
    var m := TypeGroups(links, labels, pretty).value;
    forall k ensures k in m <==> |links| > 0 && k == pretty {
      GroupAllContents(map[], Tagged(pretty, links), k);
      TaggedValues(pretty, links, k);
    }
    if (forall i :: 0 <= i < |links| ==> ';' !in links[i].text) && |links| > 0 {
      TaggedValues(pretty, links, pretty);
      TaggedNoDelimiter(pretty, links);
      GroupSplitsBack(Tagged(pretty, links), pretty);
    }
  }

  lemma {:induction false} TableEntriesValues(key: string, t: nat, links: seq<TypeLink>, k: string)
    ensures ValuesFor(TableEntries(key, t, links), k) == if k == key then TableTexts(t, links) else []
    decreases |links|
  {
    if |links| > 0 {
      var front := links[..|links| - 1];
      TableEntriesValues(key, t, front, k);
      var last := links[|links| - 1];
      ValuesForAppend(TableEntries(key, t, front), if last.table == t then [(key, last.text)] else [], k);
      assert ValuesFor([], k) == [];
    }
  }

  lemma {:induction false} TableTextsNonEmpty(t: nat, links: seq<TypeLink>, i: nat)
    requires i < |links| && links[i].table == t
    ensures TableTexts(t, links) != []
    decreases |links|
  {
    if i < |links| - 1 {
      TableTextsNonEmpty(t, links[..|links| - 1], i);
    }
  }

  /** Something is popped under `k` exactly when some table labelled `k`
      has an anchor. */
  lemma {:induction false} PoppedValues(ts: seq<nat>, links: seq<TypeLink>, labels: map<nat, string>, k: string)
    requires Labelled(ts, labels)
    ensures ValuesFor(PoppedEntries(ts, links, labels), k) != [] <==>
      exists t :: t in ts && labels[t] == k && TableTexts(t, links) != []
    decreases |ts|
  {
    if |ts| > 0 {
      var rest := ts[1..];
      assert Labelled(rest, labels);
      PoppedValues(rest, links, labels, k);
      ValuesForAppend(PoppedEntries(rest, links, labels), TableEntries(labels[ts[0]], ts[0], links), k);
      TableEntriesValues(labels[ts[0]], ts[0], links, k);
      forall t | t in ts ensures t == ts[0] || t in rest {
      }
    }
  }

  /** Tables with distinct labels: the values popped under a table's label
      are that table's anchor texts. */
  lemma {:induction false} PoppedTableValues(ts: seq<nat>, links: seq<TypeLink>, labels: map<nat, string>, t: nat)
    requires Labelled(ts, labels) && Distinct(ts) && t in ts
    requires forall u, v :: u in ts && v in ts && u != v ==> labels[u] != labels[v]
    ensures ValuesFor(PoppedEntries(ts, links, labels), labels[t]) == TableTexts(t, links)
    decreases |ts|
  {
    var rest, k, t0 := ts[1..], labels[t], ts[0];
    assert Labelled(rest, labels);
    var front, here := PoppedEntries(rest, links, labels), TableEntries(labels[t0], t0, links);
    ValuesForAppend(front, here, k);
    if t == t0 {
      assert ValuesFor(here, k) == TableTexts(t, links) by {
        TableEntriesValues(labels[t0], t0, links, k);
      }
      assert ValuesFor(front, k) == [] by {
        PoppedValues(rest, links, labels, k);
        forall u | u in rest ensures labels[u] != k {
          var i :| 0 <= i < |rest| && rest[i] == u;
          assert ts[i + 1] == u;
        }
      }
    } else {
      assert ValuesFor(here, k) == [] by {
        TableEntriesValues(labels[t0], t0, links, k);
      }
      assert ValuesFor(front, k) == TableTexts(t, links) by {
        assert Distinct(rest);
        assert t in rest by {
          var i :| 0 <= i < |ts| && ts[i] == t;
          assert rest[i - 1] == t;
        }
        PoppedTableValues(rest, links, labels, t);
      }
    }
  }

  /** With more than one distinct type table, each group key is the label of
      one of those tables and every table's label is a key; when the labels
      differ, each label's group splits back into that table's anchor texts. */
  lemma TypesPerTable(links: seq<TypeLink>, labels: map<nat, string>, pretty: string)
    requires |FirstSeen(links)| > 1 && Labelled(FirstSeen(links), labels)
    ensures TypeGroups(links, labels, pretty).Some?
    ensures forall k :: k in TypeGroups(links, labels, pretty).value <==>
      exists t :: t in FirstSeen(links) && labels[t] == k
    ensures (forall i :: 0 <= i < |links| ==> ';' !in links[i].text) &&
            (forall t, u :: t in FirstSeen(links) && u in FirstSeen(links) && t != u ==> labels[t] != labels[u]) ==>
      forall t :: t in FirstSeen(links) ==>
        Split(TypeGroups(links, labels, pretty).value[labels[t]], ';') == TableTexts(t, links)
  {
    var tables := FirstSeen(links);
    var entries := PoppedEntries(tables, links, labels);
    var m := TypeGroups(links, labels, pretty).value;
    FirstSeenOrder(links);
    forall k ensures k in m <==> exists t :: t in tables && labels[t] == k {
      GroupAllContents(map[], entries, k);
      PoppedValues(tables, links, labels, k);
      if exists t :: t in tables && labels[t] == k {
        var t :| t in tables && labels[t] == k;
        var i :| 0 <= i < |links| && links[i].table == t;
        TableTextsNonEmpty(t, links, i);
      }
    }
    if (forall i :: 0 <= i < |links| ==> ';' !in links[i].text) &&
       (forall t, u :: t in tables && u in tables && t != u ==> labels[t] != labels[u]) {
      PoppedNoDelimiter(tables, links, labels);
      forall t | t in tables ensures Split(m[labels[t]], ';') == TableTexts(t, links) {
        PoppedTableValues(tables, links, labels, t);
        GroupSplitsBack(entries, labels[t]);
      }
    }
  }

  lemma {:induction false} TableEntriesNoDelimiter(key: string, t: nat, links: seq<TypeLink>)
    requires forall i :: 0 <= i < |links| ==> ';' !in links[i].text
    ensures NoDelimiter(TableEntries(key, t, links))
    decreases |links|
  {
    if |links| > 0 {
      TableEntriesNoDelimiter(key, t, links[..|links| - 1]);
    }
  }

  lemma {:induction false} PoppedNoDelimiter(ts: seq<nat>, links: seq<TypeLink>, labels: map<nat, string>)
    requires Labelled(ts, labels)
    requires forall i :: 0 <= i < |links| ==> ';' !in links[i].text
    ensures NoDelimiter(PoppedEntries(ts, links, labels))
    decreases |ts|
  {
    if |ts| > 0 {
      PoppedNoDelimiter(ts[1..], links, labels);
      TableEntriesNoDelimiter(labels[ts[0]], ts[0], links);
    }
  }

  // ----------------------------------------------------------- abilities

  const HiddenStyle: string := "display: none"

  /** pokemon.py:129-131: a cell whose inline style hides it. */
  predicate Hidden(c: AbilityCell) {
    c.style.Some? && Contains(c.style.value, HiddenStyle)
  }

  /** pokemon.py:133-138: the stripped sublabel, or the display name when the
      cell has none. */
  function AbilityKey(c: AbilityCell, pretty: string): string {
    if c.small.Some? then Strip(c.small.value) else pretty
  }

  /** The updates the ability loop makes, in cell order; None when a visible
      cell has no anchor. */
  function AbilityEntries(cells: seq<AbilityCell>, pretty: string): Option<seq<(string, string)>>
    decreases |cells|
  {
    if |cells| == 0 then Some([])
    else
      var c := cells[|cells| - 1];
      match AbilityEntries(cells[..|cells| - 1], pretty)
      case None => None
      case Some(es) =>
        if Hidden(c) then Some(es)
        else if c.link.None? then None
        else Some(es + [(AbilityKey(c, pretty), c.link.value)])
  }

  /** pokemon.py:118-147: no ability cells (the "Ability" anchor or its cell
      is missing) or a visible cell without an anchor is a failure. */
  function AbilityGroups(cells: Option<seq<AbilityCell>>, pretty: string): Option<map<string, string>> {
    if cells.None? then None
    else
      match AbilityEntries(cells.value, pretty)
      case None => None
      case Some(es) => Some(GroupAll(map[], es))
  }

  /** The ability loop of pokemon.py:126-142 (setup.py:160-176). */
  method GroupAbilities(cells: Option<seq<AbilityCell>>, pretty: string)
    returns (r: Option<map<string, string>>)
    ensures r == AbilityGroups(cells, pretty)
  {
    if cells.None? {
      return None;
    }
    var abilitiesCells := cells.value;
    var abilities: map<string, string> := map[];
    for i := 0 to |abilitiesCells|
      invariant AbilityEntries(abilitiesCells[..i], pretty).Some?
      invariant abilities == GroupAll(map[], AbilityEntries(abilitiesCells[..i], pretty).value)
    {
      var ability := abilitiesCells[i];
      assert abilitiesCells[..i + 1][..i] == abilitiesCells[..i];
      if Hidden(ability) {
        continue;
      }
      var key := if ability.small.Some? then Strip(ability.small.value) else pretty;
      if ability.link.None? {
        AbilityFailurePersists(abilitiesCells, i + 1, pretty);
        return None;
      }
      abilities := AddToGroup(abilities, key, ability.link.value);
      ghost var es := AbilityEntries(abilitiesCells[..i], pretty).value + [(key, ability.link.value)];
      assert es[..|es| - 1] == AbilityEntries(abilitiesCells[..i], pretty).value;
    }
    assert abilitiesCells[..|abilitiesCells|] == abilitiesCells;
    r := Some(abilities);
  }

  lemma {:induction false} AbilityFailurePersists(cells: seq<AbilityCell>, k: nat, pretty: string)
    requires k <= |cells| && AbilityEntries(cells[..k], pretty).None?
    ensures AbilityEntries(cells, pretty).None?
    decreases |cells| - k
  {
    if k < |cells| {
      var front := cells[..|cells| - 1];
      assert front[..k] == cells[..k];
      AbilityFailurePersists(front, k, pretty);
    } else {
      assert cells[..k] == cells;
    }
  }

  /** The visible cells, in order. */
  function VisibleCells(cells: seq<AbilityCell>): (r: seq<AbilityCell>)
    ensures forall c :: c in r ==> c in cells && !Hidden(c)
    decreases |cells|
  {
    if |cells| == 0 then []
    else
      var c := cells[|cells| - 1];
      VisibleCells(cells[..|cells| - 1]) + (if Hidden(c) then [] else [c])
  }

  /** Hidden cells never contribute: neither their sublabels nor their
      anchors (present or not) make any difference to the abilities. */
  lemma {:induction false} HiddenCellsIgnored(cells: seq<AbilityCell>, pretty: string)
    ensures AbilityEntries(cells, pretty) == AbilityEntries(VisibleCells(cells), pretty)
    decreases |cells|
  {
    if |cells| > 0 {
      var front := cells[..|cells| - 1];
      var c := cells[|cells| - 1];
      HiddenCellsIgnored(front, pretty);
      if !Hidden(c) {
        var v := VisibleCells(front) + [c];
        assert v[..|v| - 1] == VisibleCells(front);
      } else {
        assert VisibleCells(cells) == VisibleCells(front);
      }
    }
  }

  /** The ability extractor fails exactly when some visible cell has no
      anchor; otherwise its keys are exactly the keys of the visible cells (a
      stripped sublabel, or the display name for a cell without one). */
  lemma {:induction false} AbilityKeys(cells: seq<AbilityCell>, pretty: string)
    ensures AbilityEntries(cells, pretty).None? <==>
      exists i :: 0 <= i < |cells| && !Hidden(cells[i]) && cells[i].link.None?
    ensures AbilityEntries(cells, pretty).Some? ==>
      forall k :: ValuesFor(AbilityEntries(cells, pretty).value, k) != [] <==>
        exists i :: 0 <= i < |cells| && !Hidden(cells[i]) && AbilityKey(cells[i], pretty) == k
    decreases |cells|
  {
    if |cells| > 0 {
      var front := cells[..|cells| - 1];
      var c := cells[|cells| - 1];
      AbilityKeys(front, pretty);
      assert forall i :: 0 <= i < |front| ==> front[i] == cells[i];
      if AbilityEntries(cells, pretty).Some? {
        var es := AbilityEntries(front, pretty).value;
        forall k ensures ValuesFor(AbilityEntries(cells, pretty).value, k) != [] <==>
          exists i :: 0 <= i < |cells| && !Hidden(cells[i]) && AbilityKey(cells[i], pretty) == k
        {
          if !Hidden(c) {
            var e := es + [(AbilityKey(c, pretty), c.link.value)];
            assert e[..|e| - 1] == es;
          }
          if exists i :: 0 <= i < |cells| && !Hidden(cells[i]) && AbilityKey(cells[i], pretty) == k {
            var i :| 0 <= i < |cells| && !Hidden(cells[i]) && AbilityKey(cells[i], pretty) == k;
            if i < |front| {
              assert !Hidden(front[i]) && AbilityKey(front[i], pretty) == k;
            }
          }
        }
      }
    }
  }

  /** The abilities map, when there is one, has as keys exactly the keys of
      the visible cells. */
  lemma AbilityGroupKeys(cells: seq<AbilityCell>, pretty: string)
    requires AbilityGroups(Some(cells), pretty).Some?
    ensures forall k :: k in AbilityGroups(Some(cells), pretty).value <==>
      exists i :: 0 <= i < |cells| && !Hidden(cells[i]) && AbilityKey(cells[i], pretty) == k
  {
    AbilityKeys(cells, pretty);
    forall k {
      GroupAllContents(map[], AbilityEntries(cells, pretty).value, k);
    }
  }

  // ---------------------------------------------------------- base stats

  /** Six stats are read, two cells apart; the total sits two cells after
      the last of them. */
  const StatCount: nat := 6
  const TotalCell: nat := 12

  /** The stat read from one stride cell, encoded "base;lv50;lv100". */
  function StatEntry(c: StatCell): Option<(string, string)> {
    if c.name.Some? && c.header.Some? && c.ranges.Some? then
      Some((c.name.value, Strip(c.header.value) + ";" + c.ranges.value.0 + ";" + c.ranges.value.1))
    else None
  }

  /** The first `n` stats of the stride; None when a cell is missing or
      incomplete. */
  function StrideStats(cells: seq<StatCell>, n: nat): Option<map<string, string>> {
    if n == 0 then Some(map[])
    else
      match StrideStats(cells, n - 1)
      case None => None
      case Some(d) =>
        if 2 * (n - 1) >= |cells| then None
        else
          match StatEntry(cells[2 * (n - 1)])
          case None => None
          case Some(e) => Some(d[e.0 := e.1])
  }

  /** The stats of one table: six stride entries and the total, or None. */
  function StrideRead(cells: seq<StatCell>): Option<map<string, string>> {
    match StrideStats(cells, StatCount)
    case None => None
    case Some(d) =>
      if |cells| <= TotalCell || cells[TotalCell].header.None? then None
      else Some(d["Total" := Strip(cells[TotalCell].header.value)])
  }

  datatype StatRead = Skipped | Broken | Read(title: string, stats: map<string, string>)

  /** pokemon.py:152-179 for one left-aligned table: skipped unless its first
      span reads "Stat" (a table without a span breaks the extractor); the
      title "Base stats" stands for the display name. */
  function ReadStatTable(t: StatTable, pretty: string): StatRead {
    if t.span.None? then Broken
    else if t.span.value != "Stat" then Skipped
    else
      match StrideRead(t.cells)
      case None => Broken
      case Some(d) => Read(if t.heading == "Base stats" then pretty else t.heading, d)
  }

  /** pokemon.py:149-186: every stat table read, keyed by its title. */
  function BaseStats(tables: seq<StatTable>, pretty: string): Option<map<string, map<string, string>>>
    decreases |tables|
  {
    if |tables| == 0 then Some(map[])
    else
      match BaseStats(tables[..|tables| - 1], pretty)
      case None => None
      case Some(m) =>
        match ReadStatTable(tables[|tables| - 1], pretty)
        case Skipped => Some(m)
        case Broken => None
        case Read(title, d) => Some(m[title := d])
  }

  /** The table loop of pokemon.py:150-179 (setup.py:184-216). */
  method ReadBaseStats(tables: seq<StatTable>, pretty: string)
    returns (r: Option<map<string, map<string, string>>>)
    ensures r == BaseStats(tables, pretty)
  {
    var baseStats: map<string, map<string, string>> := map[];
    for i := 0 to |tables|
      invariant BaseStats(tables[..i], pretty) == Some(baseStats)
    {
      var table := tables[i];
      assert tables[..i + 1][..i] == tables[..i];
      if table.span.None? {
        BaseStatsFailurePersists(tables, i + 1, pretty);
        return None;
      }
      if table.span.value != "Stat" {
        continue;
      }
      var title := table.heading;
      if title == "Base stats" {
        title := pretty;
      }
      var tempDict := ReadStride(table.cells);
      if tempDict.None? {
        BaseStatsFailurePersists(tables, i + 1, pretty);
        return None;
      }
      baseStats := baseStats[title := tempDict.value];
    }
    assert tables[..|tables|] == tables;
    r := Some(baseStats);
  }

  /** The fixed stride of pokemon.py:159-178: the first stat, five more two
      cells apart, and the total two cells after the last. */
  method ReadStride(cells: seq<StatCell>) returns (r: Option<map<string, string>>)
    ensures r == StrideRead(cells)
  {
    var tempDict: map<string, string> := map[];
    if |cells| == 0 {
      return None;
    }
    var baseStat := 0;
    var entry := StatEntry(cells[baseStat]);
    if entry.None? {
      StrideFailurePersists(cells, 1, StatCount);
      return None;
    }
    tempDict := tempDict[entry.value.0 := entry.value.1];
    for i := 0 to 5
      invariant baseStat == 2 * i
      invariant StrideStats(cells, i + 1) == Some(tempDict)
    {
      baseStat := baseStat + 2;
      if baseStat >= |cells| {
        StrideFailurePersists(cells, i + 2, StatCount);
        return None;
      }
      entry := StatEntry(cells[baseStat]);
      if entry.None? {
        StrideFailurePersists(cells, i + 2, StatCount);
        return None;
      }
      tempDict := tempDict[entry.value.0 := entry.value.1];
    }
    baseStat := baseStat + 2;
    if baseStat >= |cells| || cells[baseStat].header.None? {
      return None;
    }
    tempDict := tempDict["Total" := Strip(cells[baseStat].header.value)];
    r := Some(tempDict);
  }

  lemma {:induction false} StrideFailurePersists(cells: seq<StatCell>, n: nat, m: nat)
    requires n <= m && StrideStats(cells, n).None?
    ensures StrideStats(cells, m).None?
    decreases m - n
  {
    if n < m {
      StrideFailurePersists(cells, n + 1, m);
    }
  }

  lemma {:induction false} BaseStatsFailurePersists(tables: seq<StatTable>, k: nat, pretty: string)
    requires k <= |tables| && BaseStats(tables[..k], pretty).None?
    ensures BaseStats(tables, pretty).None?
    decreases |tables| - k
  {
    if k < |tables| {
      var front := tables[..|tables| - 1];
      assert front[..k] == tables[..k];
      BaseStatsFailurePersists(front, k, pretty);
    } else {
      assert tables[..k] == tables;
    }
  }

  /** The `k`-th stat cell of the stride. */
  function StrideCell(cells: seq<StatCell>, k: nat): StatCell
    requires 2 * k < |cells|
  {
    cells[2 * k]
  }

  /** The name the `k`-th stride cell stores its stat under. */
  function StrideName(cells: seq<StatCell>, k: nat): string
    requires 2 * k < |cells| && StatEntry(StrideCell(cells, k)).Some?
  {
    StatEntry(StrideCell(cells, k)).value.0
  }

  /** A successful stride has its first `n` cells present and complete. */
  lemma {:induction false} StrideStatsCells(cells: seq<StatCell>, n: nat)
    requires StrideStats(cells, n).Some?
    ensures 2 * n <= |cells| + 1
    ensures forall k :: 0 <= k < n ==> 2 * k < |cells| && StatEntry(StrideCell(cells, k)).Some?
    decreases n
  {
    if n > 0 {
      StrideStatsCells(cells, n - 1);
    }
  }

  /** The keys of a successful stride are exactly the names of its cells. */
  lemma {:induction false} StrideStatsKeys(cells: seq<StatCell>, n: nat)
    requires StrideStats(cells, n).Some?
    ensures 2 * n <= |cells| + 1
    ensures forall k :: 0 <= k < n ==> 2 * k < |cells| && StatEntry(StrideCell(cells, k)).Some?
    ensures StrideStats(cells, n).value.Keys == set k | 0 <= k < n :: StrideName(cells, k)
    decreases n
  {
    StrideStatsCells(cells, n);
    if n > 0 {
      StrideStatsKeys(cells, n - 1);
      var d := StrideStats(cells, n - 1).value;
      var e := StatEntry(StrideCell(cells, n - 1)).value;
      assert StrideStats(cells, n).value == d[e.0 := e.1];
      assert (set k | 0 <= k < n :: StrideName(cells, k)) ==
        (set k | 0 <= k < n - 1 :: StrideName(cells, k)) + {StrideName(cells, n - 1)};
    }
  }

  /** With distinct names, every stat of the stride is stored under its own
      name. */
  lemma {:induction false} StrideStatsValues(cells: seq<StatCell>, n: nat)
    requires StrideStats(cells, n).Some?
    requires forall k :: 0 <= k < n ==> 2 * k < |cells| && StatEntry(StrideCell(cells, k)).Some?
    requires forall j, k :: 0 <= j < k < n ==> StrideCell(cells, j).name != StrideCell(cells, k).name
    ensures forall k :: 0 <= k < n ==>
      StrideName(cells, k) in StrideStats(cells, n).value &&
      StrideStats(cells, n).value[StrideName(cells, k)] == StatEntry(StrideCell(cells, k)).value.1
    decreases n
  {
    if n > 0 {
      StrideStatsValues(cells, n - 1);
      var d := StrideStats(cells, n - 1).value;
      var e := StatEntry(StrideCell(cells, n - 1)).value;
      assert StrideStats(cells, n).value == d[e.0 := e.1];
      forall k | 0 <= k < n - 1
        ensures StrideName(cells, k) != e.0
      {
        assert StrideCell(cells, k).name != StrideCell(cells, n - 1).name;
      }
    }
  }

  /** A stat value splits back into exactly three fields: the stripped base
      value and the two ranges, when none of them contains ";". */
  lemma StatValueSplits(c: StatCell)
    requires StatEntry(c).Some?
    requires ';' !in Strip(c.header.value) && ';' !in c.ranges.value.0 && ';' !in c.ranges.value.1
    ensures Split(StatEntry(c).value.1, ';') == [Strip(c.header.value), c.ranges.value.0, c.ranges.value.1]
  {
    var a, b, d := Strip(c.header.value), c.ranges.value.0, c.ranges.value.1;
    var parts := [a, b, d];
    assert parts[1..] == [b, d] && [b, d][1..] == [d];
    assert Join(";", [b, d]) == b + ";" + d;
    assert Join(";", parts) == a + ";" + (b + ";" + d);
    assert a + ";" + (b + ";" + d) == a + ";" + b + ";" + d;
    SplitJoin(parts, ';');
  }

  /** Only tables whose first span reads "Stat" are read. A read table is
      titled by its heading, or by the display name in place of "Base stats";
      it holds the six stride stats and "Total". */
  lemma StatTableShape(t: StatTable, pretty: string)
    requires ReadStatTable(t, pretty).Read?
    ensures t.span == Some("Stat")
    ensures ReadStatTable(t, pretty).title == if t.heading == "Base stats" then pretty else t.heading
    ensures |t.cells| > TotalCell && t.cells[TotalCell].header.Some?
    ensures ReadStatTable(t, pretty).stats["Total"] == Strip(t.cells[TotalCell].header.value)
    ensures forall k :: 0 <= k < StatCount ==> StatEntry(StrideCell(t.cells, k)).Some?
    ensures forall k :: 0 <= k < StatCount ==> StrideName(t.cells, k) in ReadStatTable(t, pretty).stats
  {
    StrideStatsKeys(t.cells, StatCount);
  }

  /** When the six stat names differ from each other and from "Total", a
      read table holds exactly seven entries, each stat under its own name. */
  lemma StatTableEntries(t: StatTable, pretty: string)
    requires ReadStatTable(t, pretty).Read?
    requires forall k :: 0 <= k < StatCount ==> 2 * k < |t.cells|
    requires forall j, k :: 0 <= j < k < StatCount ==> StrideCell(t.cells, j).name != StrideCell(t.cells, k).name
    requires forall k :: 0 <= k < StatCount ==> StrideCell(t.cells, k).name != Some("Total")
    ensures forall k :: 0 <= k < StatCount ==> StatEntry(StrideCell(t.cells, k)).Some?
    ensures |ReadStatTable(t, pretty).stats| == StatCount + 1
    ensures forall k :: 0 <= k < StatCount ==>
      StrideName(t.cells, k) in ReadStatTable(t, pretty).stats &&
      ReadStatTable(t, pretty).stats[StrideName(t.cells, k)] == StatEntry(StrideCell(t.cells, k)).value.1
  {
    var cells := t.cells;
    StrideStatsKeys(cells, StatCount);
    StrideStatsValues(cells, StatCount);
    StrideStatsCount(cells, StatCount);
    var d := StrideStats(cells, StatCount).value;
    assert ReadStatTable(t, pretty).stats == d["Total" := Strip(cells[TotalCell].header.value)];
  }

  /** `n` distinct names, none of them "Total", make `n` keys. */
  lemma StrideStatsCount(cells: seq<StatCell>, n: nat)
    requires StrideStats(cells, n).Some?
    requires forall k :: 0 <= k < n ==> 2 * k < |cells|
    requires forall j, k :: 0 <= j < k < n ==> StrideCell(cells, j).name != StrideCell(cells, k).name
    requires forall k :: 0 <= k < n ==> StrideCell(cells, k).name != Some("Total")
    ensures |StrideStats(cells, n).value| == n
    ensures "Total" !in StrideStats(cells, n).value
  {
    StrideStatsKeys(cells, n);
    StrideStatsSize(cells, n);
    forall k | 0 <= k < n ensures StrideName(cells, k) != "Total" {
      assert StrideCell(cells, k).name != Some("Total");
    }
  }

  lemma {:induction false} StrideStatsSize(cells: seq<StatCell>, n: nat)
    requires StrideStats(cells, n).Some?
    requires forall j, k :: 0 <= j < k < n && 2 * k < |cells| ==> StrideCell(cells, j).name != StrideCell(cells, k).name
    ensures |StrideStats(cells, n).value| == n
    decreases n
  {
    if n > 0 {
      StrideStatsKeys(cells, n);
      StrideStatsKeys(cells, n - 1);
      StrideStatsSize(cells, n - 1);
      var d := StrideStats(cells, n - 1).value;
      var e := StatEntry(StrideCell(cells, n - 1)).value;
      assert StrideStats(cells, n).value == d[e.0 := e.1];
      assert e.0 !in d by {
        forall k | 0 <= k < n - 1 ensures StrideName(cells, k) != e.0 {
          assert StrideCell(cells, k).name != StrideCell(cells, n - 1).name;
        }
      }
    }
  }

  // -------------------------------------------------------------- record

  /** pokemon.py:45-188 from the info box on: each extractor in turn, and no
      record at all as soon as one fails. */
  function RecordOf(box: InfoBox, tables: seq<StatTable>, species: string): Option<Record> {
    var pretty := PrettyPoke(species);
    if box.imageSrc.None? then None
    else
      match CategoryOf(box.category)
      case None => None
      case Some(category) =>
        if box.dexNo.None? then None
        else
          match TypeGroups(box.typeLinks, box.typeLabels, pretty)
          case None => None
          case Some(types) =>
            match AbilityGroups(box.abilityCells, pretty)
            case None => None
            case Some(abilities) =>
              match BaseStats(tables, pretty)
              case None => None
              case Some(stats) => Some(Record(box.imageSrc.value, category, box.dexNo.value, types, abilities, stats))
  }

  /** All or nothing: a record exists exactly when every extractor succeeds,
      and then each of its fields is what that extractor produced. */
  lemma RecordAllOrNothing(box: InfoBox, tables: seq<StatTable>, species: string)
    ensures var pretty := PrettyPoke(species);
      RecordOf(box, tables, species).Some? <==>
        box.imageSrc.Some? && CategoryOf(box.category).Some? && box.dexNo.Some? &&
        TypeGroups(box.typeLinks, box.typeLabels, pretty).Some? &&
        AbilityGroups(box.abilityCells, pretty).Some? && BaseStats(tables, pretty).Some?
    ensures var pretty := PrettyPoke(species);
      RecordOf(box, tables, species).Some? ==>
        RecordOf(box, tables, species).value == Record(
          box.imageSrc.value, CategoryOf(box.category).value, box.dexNo.value,
          TypeGroups(box.typeLinks, box.typeLabels, pretty).value,
          AbilityGroups(box.abilityCells, pretty).value, BaseStats(tables, pretty).value)
  {
  }

  /** The extractor sequence of pokemon.py:45-188 (setup.py:72-225), step
      by step with early returns; computes `RecordOf`. */
  method ReadRecord(box: InfoBox, tables: seq<StatTable>, species: string) returns (r: Option<Record>)
    ensures r == RecordOf(box, tables, species)
  {
    var prettyPoke := Join(" ", CapitalizeAll(Split(species, '_')));
    if box.imageSrc.None? {
      return None;
    }
    var category := CategoryOf(box.category);
    if category.None? {
      return None;
    }
    if box.dexNo.None? {
      return None;
    }
    var types := GroupTypes(box.typeLinks, box.typeLabels, prettyPoke);
    if types.None? {
      return None;
    }
    var abilities := GroupAbilities(box.abilityCells, prettyPoke);
    if abilities.None? {
      return None;
    }
    var baseStats := ReadBaseStats(tables, prettyPoke);
    if baseStats.None? {
      return None;
    }
    r := Some(Record(box.imageSrc.value, category.value, box.dexNo.value, types.value, abilities.value, baseStats.value));
  }
}

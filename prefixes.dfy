/** The Terraria prefix table (terraria.py:29-44, setup.py:343-356): the
    rows with exactly two data cells of the table whose attributes are
    exactly `class="terraria sortable"` give a prefix and its ID, both
    lower-cased and stripped. The first ID seen for a prefix is stored as
    it is; a repeated prefix stores the pair of its previous value and the
    new ID. */
module Prefixes {
  import opened Text

  /** An ID, or the list `[previous, id]` a repeated prefix stores. */
  datatype PrefixValue = Id(id: string) | Pair(prev: PrefixValue, id: string)

  /** A table row: the texts of its `td` cells and how many `th` cells it
      has. */
  datatype PrefixRow = PrefixRow(cells: seq<string>, headers: nat)

  datatype PrefixTable = PrefixTable(attrs: map<string, seq<string>>, rows: seq<PrefixRow>)

  const WantedAttrs: map<string, seq<string>> := map["class" := ["terraria", "sortable"]]

  /** terraria.py:33 */
  predicate Wanted(t: PrefixTable) {
    t.attrs == WantedAttrs
  }

  /** terraria.py:38-39: `.lower().strip()`. */
  function Normalize(s: string): string {
    Strip(LowerStr(s))
  }

  /** terraria.py:41-44: the update for one row. */
  function AddPrefix(d: map<string, PrefixValue>, prefix: string, id: string): (r: map<string, PrefixValue>)
    ensures r.Keys == d.Keys + {prefix}
    ensures prefix !in d ==> r[prefix] == Id(id)
    ensures prefix in d ==> r[prefix] == Pair(d[prefix], id)
    ensures forall k :: k in d && k != prefix ==> r[k] == d[k]
  {
    if prefix in d then d[prefix := Pair(d[prefix], id)] else d[prefix := Id(id)]
  }

  /** The (prefix, ID) pairs the rows give, in order. */
  function RowEntries(rows: seq<PrefixRow>): seq<(string, string)>
    decreases |rows|
  {
    if |rows| == 0 then []
    else
      var row := rows[|rows| - 1];
      RowEntries(rows[..|rows| - 1]) +
        (if |row.cells| == 2 then [(Normalize(row.cells[0]), Normalize(row.cells[1]))] else [])
  }

  /** The pairs of every wanted table of a page, in order. */
  function PageEntries(tables: seq<PrefixTable>): seq<(string, string)>
    decreases |tables|
  {
    if |tables| == 0 then []
    else
      var t := tables[|tables| - 1];
      PageEntries(tables[..|tables| - 1]) + (if Wanted(t) then RowEntries(t.rows) else [])
  }

  /** The table after the updates for `entries`, in order, on top of `d`. */
  function PrefixesOf(d: map<string, PrefixValue>, entries: seq<(string, string)>): map<string, PrefixValue>
    decreases |entries|
  {
    if |entries| == 0 then d
    else
      var e := entries[|entries| - 1];
      AddPrefix(PrefixesOf(d, entries[..|entries| - 1]), e.0, e.1)
  }

  /** The rows of one wanted table, added to `d` in order
      (terraria.py:34-44). */
  method AddRows(d: map<string, PrefixValue>, rows: seq<PrefixRow>) returns (r: map<string, PrefixValue>)
    ensures r == PrefixesOf(d, RowEntries(rows))
  {
    r := d;
    for j := 0 to |rows|
      invariant r == PrefixesOf(d, RowEntries(rows[..j]))
    {
      var cols := rows[j].cells;
      assert rows[..j + 1][..j] == rows[..j];
      ghost var before := RowEntries(rows[..j]);
      if |cols| == 2 {
        var prefix := Normalize(cols[0]);
        var id := Normalize(cols[1]);
        assert RowEntries(rows[..j + 1]) == before + [(prefix, id)];
        assert (before + [(prefix, id)])[..|before|] == before;
        r := AddPrefix(r, prefix, id);
      } else {
        assert RowEntries(rows[..j + 1]) == before + [] == before;
      }
    }
    assert rows[..|rows|] == rows;
  }

  // ------------------------------------------------------------ lemmas

  /** Adding two runs of pairs one after the other is adding them
      together. */
  lemma {:induction false} PrefixesAppend(d: map<string, PrefixValue>, a: seq<(string, string)>, b: seq<(string, string)>)
    ensures PrefixesOf(PrefixesOf(d, a), b) == PrefixesOf(d, a + b)
    decreases |b|
  {
    if |b| == 0 {
      assert a + b == a;
    } else {
      assert (a + b)[..|a + b| - 1] == a + b[..|b| - 1];
      PrefixesAppend(d, a, b[..|b| - 1]);
    }
  }

  /** The IDs a value holds, oldest first. */
  function Ids(v: PrefixValue): (r: seq<string>)
    ensures |r| >= 1
  {
    match v
    case Id(id) => [id]
    case Pair(prev, id) => Ids(prev) + [id]
  }

  /** The IDs given for `prefix`, in order. */
  function IdsFor(entries: seq<(string, string)>, prefix: string): seq<string>
    decreases |entries|
  {
    if |entries| == 0 then []
    else
      var e := entries[|entries| - 1];
      IdsFor(entries[..|entries| - 1], prefix) + (if e.0 == prefix then [e.1] else [])
  }

  /** A prefix is in the table exactly when some row gives it, and its value
      holds every ID given for it, in order: nothing is lost by the
      nesting. */
  lemma {:induction false} PrefixesHoldIds(entries: seq<(string, string)>, prefix: string)
    ensures prefix in PrefixesOf(map[], entries) <==> |IdsFor(entries, prefix)| > 0
    ensures prefix in PrefixesOf(map[], entries) ==>
      Ids(PrefixesOf(map[], entries)[prefix]) == IdsFor(entries, prefix)
    decreases |entries|
  {
    if |entries| > 0 {
      PrefixesHoldIds(entries[..|entries| - 1], prefix);
    }
  }

  /** A value holds one ID exactly when it is a plain ID, and two exactly
      when it is the pair of two plain IDs. */
  lemma IdsShape(v: PrefixValue)
    ensures |Ids(v)| == 1 <==> v.Id?
    ensures |Ids(v)| == 2 <==> v.Pair? && v.prev.Id?
    ensures v.Pair? && v.prev.Id? ==> Ids(v) == [v.prev.id, v.id]
  {
    if v.Pair? && v.prev.Pair? {
      assert |Ids(v.prev)| >= 2;
    }
  }

  /** Lower case with no surrounding white space. */
  predicate NormalForm(k: string) {
    IsLowerCase(k) && Strip(k) == k
  }

  lemma NormalizeNormalForm(s: string)
    ensures NormalForm(Normalize(s))
  {
    NormalizeIdempotent(s);
    LowerStrIsLowerCase(s);
    StripKeepsLowerCase(LowerStr(s));
  }

  lemma {:induction false} RowEntriesNormal(rows: seq<PrefixRow>)
    ensures forall i :: 0 <= i < |RowEntries(rows)| ==>
      NormalForm(RowEntries(rows)[i].0) && NormalForm(RowEntries(rows)[i].1)
    decreases |rows|
  {
    if |rows| > 0 {
      var row := rows[|rows| - 1];
      RowEntriesNormal(rows[..|rows| - 1]);
      if |row.cells| == 2 {
        NormalizeNormalForm(row.cells[0]);
        NormalizeNormalForm(row.cells[1]);
      }
    }
  }

  lemma {:induction false} PageEntriesNormal(tables: seq<PrefixTable>)
    ensures forall i :: 0 <= i < |PageEntries(tables)| ==>
      NormalForm(PageEntries(tables)[i].0) && NormalForm(PageEntries(tables)[i].1)
    decreases |tables|
  {
    if |tables| > 0 {
      PageEntriesNormal(tables[..|tables| - 1]);
      RowEntriesNormal(tables[|tables| - 1].rows);
    }
  }

  /** A prefix is a key exactly when some pair gives it. */
  lemma {:induction false} PrefixesKeys(entries: seq<(string, string)>, prefix: string)
    ensures prefix in PrefixesOf(map[], entries) <==>
      exists i :: 0 <= i < |entries| && entries[i].0 == prefix
    decreases |entries|
  {
    if |entries| > 0 {
      var front := entries[..|entries| - 1];
      PrefixesKeys(front, prefix);
      assert forall i :: 0 <= i < |front| ==> front[i] == entries[i];
    }
  }

  /** Every key of the table built from a page, and every ID in it, is in
      normal form, so a lookup can only hit with a search that is. */
  lemma PageKeysNormal(tables: seq<PrefixTable>, prefix: string)
    requires prefix in PrefixesOf(map[], PageEntries(tables))
    ensures NormalForm(prefix)
    ensures forall id :: id in Ids(PrefixesOf(map[], PageEntries(tables))[prefix]) ==> NormalForm(id)
  {
    var es := PageEntries(tables);
    PageEntriesNormal(tables);
    PrefixesKeys(es, prefix);
    PrefixesHoldIds(es, prefix);
    IdsForNormal(es, prefix);
  }

  lemma {:induction false} IdsForNormal(entries: seq<(string, string)>, prefix: string)
    requires forall i :: 0 <= i < |entries| ==> NormalForm(entries[i].1)
    ensures forall id :: id in IdsFor(entries, prefix) ==> NormalForm(id)
    decreases |entries|
  {
    if |entries| > 0 {
      IdsForNormal(entries[..|entries| - 1], prefix);
    }
  }

  /** Normalising twice is normalising once. */
  lemma NormalizeIdempotent(s: string)
    ensures Normalize(Normalize(s)) == Normalize(s)
  {
    var t := Normalize(s);
    LowerStrIsLowerCase(s);
    StripKeepsLowerCase(LowerStr(s));
    assert LowerStr(t) == t;
    StripIdempotent(LowerStr(s));
  }
}

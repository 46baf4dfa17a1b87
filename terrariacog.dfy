/** The `Terraria` cog of terraria.py: the prefix table, built the first
    time it is needed, and the reply to the `prefix` command. The wiki page
    is a parameter: its tables, or None when the request fails. */
module TerrariaCog {
  import opened Wrappers
  import opened Text
  import opened Prefixes

  const NoSearchMessage: string := "Please specify a Terraria prefix to look up."

  /** terraria.py:68-69: the closing fence comes before the full stop. */
  function InvalidMessage(search: string): string {
    "```Invalid prefix '" + search + "' specified. Please specify a valid prefix to look up```."
  }

  /** What the command does: says a text, or lets an exception escape. */
  datatype Reply = Say(text: string) | Raised

  /** terraria.py:59-69 with a table: the search is lower-cased (not
      stripped) and looked up. A plain ID is shown as it is, a pair as its
      two IDs joined by ", "; a value nested deeper holds a list inside the
      list, which `", ".join` rejects. */
  function PrefixAnswer(search: string, d: map<string, PrefixValue>): Reply {
    var prefix := LowerStr(search);
    if prefix !in d then Say(InvalidMessage(search))
    else
      match d[prefix]
      case Id(id) => Say("```" + prefix + ": " + id + "```")
      case Pair(Id(a), b) => Say("```" + prefix + ": " + Join(", ", [a, b]) + "```")
      case Pair(Pair(_, _), _) => Raised
  }

  class Terraria {
    /** The prefix table, None until it has been read. */
    var prefixes: Option<map<string, PrefixValue>>

    constructor()
      ensures prefixes == None
    {
      prefixes := None;
    }

    /** `_getTPrefixes` (terraria.py:18-46): a failed request changes
        nothing; otherwise the table is built from the wanted tables of the
        page and replaces the field. */
    method GetTPrefixes(page: Option<seq<PrefixTable>>)
      modifies this
      ensures page.None? ==> prefixes == old(prefixes)
      ensures page.Some? ==> prefixes == Some(PrefixesOf(map[], PageEntries(page.value)))
    {
      if page.None? {
        return;
      }
      var tables := page.value;
      var d: map<string, PrefixValue> := map[];
      for i := 0 to |tables|
        invariant d == PrefixesOf(map[], PageEntries(tables[..i]))
      {
        assert tables[..i + 1][..i] == tables[..i];
        ghost var before := PageEntries(tables[..i]);
        if Wanted(tables[i]) {
          PrefixesAppend(map[], before, RowEntries(tables[i].rows));
          d := AddRows(d, tables[i].rows);
        } else {
          assert PageEntries(tables[..i + 1]) == before + [] == before;
        }
      }
      assert tables[..|tables|] == tables;
      prefixes := Some(d);
    }

    /** The `prefix` command (terraria.py:48-70). An empty search is
        answered at once. Otherwise the table is read if there is none yet;
        when that fails the field stays None, the lookup in None raises, and
        the next command tries again. */
    method PrefixCommand(search: string, page: Option<seq<PrefixTable>>) returns (reply: Reply)
      modifies this
      ensures search == "" ==> prefixes == old(prefixes) && reply == Say(NoSearchMessage)
      ensures search != "" && old(prefixes).Some? ==>
        prefixes == old(prefixes) && reply == PrefixAnswer(search, prefixes.value)
      ensures search != "" && old(prefixes).None? && page.None? ==>
        prefixes == None && reply == Raised
      ensures search != "" && old(prefixes).None? && page.Some? ==>
        prefixes == Some(PrefixesOf(map[], PageEntries(page.value))) &&
        reply == PrefixAnswer(search, prefixes.value)
    {
      if search == "" {
        return Say(NoSearchMessage);
      }
      if prefixes.None? {
        GetTPrefixes(page);
      }
      if prefixes.None? {
        return Raised;
      }
      var prefix := LowerStr(search);
      var d := prefixes.value;
      if prefix in d {
        var id := d[prefix];
        if id.Pair? {
          if id.prev.Pair? {
            return Raised;
          }
          reply := Say("```" + prefix + ": " + Join(", ", [id.prev.id, id.id]) + "```");
        } else {
          reply := Say("```" + prefix + ": " + id.id + "```");
        }
      } else {
        reply := Say(InvalidMessage(search));
      }
    }
  }

  // ------------------------------------------------------------ lemmas

  /** The reply to a search, in terms of the rows of the page: no row for
      the lower-cased search gives the invalid-prefix message quoting the
      search as typed; one row shows its ID; two rows show both IDs in page
      order; three or more make the lookup raise. */
  lemma AnswerFromRows(search: string, tables: seq<PrefixTable>)
    ensures var ids := IdsFor(PageEntries(tables), LowerStr(search));
      var reply := PrefixAnswer(search, PrefixesOf(map[], PageEntries(tables)));
      (|ids| == 0 ==> reply == Say(InvalidMessage(search))) &&
      (|ids| == 1 ==> reply == Say("```" + LowerStr(search) + ": " + ids[0] + "```")) &&
      (|ids| == 2 ==> reply == Say("```" + LowerStr(search) + ": " + Join(", ", ids) + "```")) &&
      (|ids| >= 3 ==> reply == Raised)
  {
    var es := PageEntries(tables);
    var prefix := LowerStr(search);
    PrefixesHoldIds(es, prefix);
    if prefix in PrefixesOf(map[], es) {
      IdsShape(PrefixesOf(map[], es)[prefix]);
    }
  }

  /** A search with white space around it never finds a prefix read from a
      page, because the keys are stripped and the search is not. */
  lemma PaddedSearchMisses(search: string, tables: seq<PrefixTable>)
    requires |search| > 0 && IsSpace(search[0])
    ensures PrefixAnswer(search, PrefixesOf(map[], PageEntries(tables))) == Say(InvalidMessage(search))
  {
    var prefix := LowerStr(search);
    if prefix in PrefixesOf(map[], PageEntries(tables)) {
      PageKeysNormal(tables, prefix);
    }
  }
}

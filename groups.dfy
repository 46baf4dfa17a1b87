/** The dictionary update the scraper uses for types and abilities
    (pokemon.py:99-111, pokemon.py:139-142, setup.py:127-142,
    setup.py:173-176): a value added under a group key that is new is stored
    as it is; under a key already present it is appended after a ";". */
module Groups {
  import opened Text

  /** One dictionary update of the grouped accumulation. */
  function AddToGroup(m: map<string, string>, key: string, v: string): (r: map<string, string>)
    ensures r.Keys == m.Keys + {key}
    ensures key !in m ==> r[key] == v
    ensures key in m ==> r[key] == m[key] + ";" + v
    ensures forall k :: k in m && k != key ==> r[k] == m[k]
  {
    if key in m then m[key := m[key] + ";" + v] else m[key := v]
  }

  /** The dictionary after adding `entries` (group key, value) in order. */
  function GroupAll(m: map<string, string>, entries: seq<(string, string)>): map<string, string>
    decreases |entries|
  {
    if |entries| == 0 then m
    else
      var last := entries[|entries| - 1];
      AddToGroup(GroupAll(m, entries[..|entries| - 1]), last.0, last.1)
  }

  /** The values added under `key`, in the order they were added. */
  function ValuesFor(entries: seq<(string, string)>, key: string): seq<string>
    decreases |entries|
  {
    if |entries| == 0 then []
    else
      var last := entries[|entries| - 1];
      ValuesFor(entries[..|entries| - 1], key) + (if last.0 == key then [last.1] else [])
  }

  /** None of the values contains the ";" delimiter. */
  predicate NoDelimiter(entries: seq<(string, string)>) {
    forall i :: 0 <= i < |entries| ==> ';' !in entries[i].1
  }

  /** What a group holds after a run of updates: the old value (if any)
      followed by every value added under that key, joined with ";". The keys
      are the old keys and the keys something was added under. */
  lemma {:induction false} GroupAllContents(m: map<string, string>, entries: seq<(string, string)>, key: string)
    ensures key in GroupAll(m, entries) <==> key in m || ValuesFor(entries, key) != []
    ensures key in GroupAll(m, entries) ==>
      GroupAll(m, entries)[key] == Join(";", (if key in m then [m[key]] else []) + ValuesFor(entries, key))
    decreases |entries|
  {
    if |entries| > 0 {
      var front := entries[..|entries| - 1];
      var last := entries[|entries| - 1];
      GroupAllContents(m, front, key);
      var prior := if key in m then [m[key]] else [];
      var before := prior + ValuesFor(front, key);
      if last.0 == key {
        assert ValuesFor(entries, key) == ValuesFor(front, key) + [last.1];
        assert prior + ValuesFor(entries, key) == before + [last.1];
        if |before| >= 1 {
          assert key in GroupAll(m, front);
          JoinSnoc(";", before, last.1);
        } else {
          assert key !in GroupAll(m, front);
        }
      } else {
        assert ValuesFor(entries, key) == ValuesFor(front, key);
      }
    }
  }

  /** Splitting a group on ";" gives back exactly the values added under
      that key, in insertion order, when no value contains ";". */
  lemma GroupSplitsBack(entries: seq<(string, string)>, key: string)
    requires NoDelimiter(entries)
    requires key in GroupAll(map[], entries)
    ensures Split(GroupAll(map[], entries)[key], ';') == ValuesFor(entries, key)
  {
    GroupAllContents(map[], entries, key);
    assert [] + ValuesFor(entries, key) == ValuesFor(entries, key);
    ValuesForFree(entries, key);
    SplitJoin(ValuesFor(entries, key), ';');
  }

  lemma {:induction false} ValuesForFree(entries: seq<(string, string)>, key: string)
    requires NoDelimiter(entries)
    ensures Free(ValuesFor(entries, key), ';')
    decreases |entries|
  {
    if |entries| > 0 {
      ValuesForFree(entries[..|entries| - 1], key);
    }
  }

  /** Adding two runs of entries is adding their concatenation. */
  lemma {:induction false} GroupAllAppend(m: map<string, string>, a: seq<(string, string)>, b: seq<(string, string)>)
    ensures GroupAll(m, a + b) == GroupAll(GroupAll(m, a), b)
    decreases |b|
  {
    if |b| == 0 {
      assert a + b == a;
    } else {
      assert (a + b)[..|a + b| - 1] == a + b[..|b| - 1];
      GroupAllAppend(m, a, b[..|b| - 1]);
    }
  }

  lemma {:induction false} ValuesForAppend(a: seq<(string, string)>, b: seq<(string, string)>, key: string)
    ensures ValuesFor(a + b, key) == ValuesFor(a, key) + ValuesFor(b, key)
    decreases |b|
  {
    if |b| == 0 {
      assert a + b == a;
    } else {
      assert (a + b)[..|a + b| - 1] == a + b[..|b| - 1];
      ValuesForAppend(a, b[..|b| - 1], key);
    }
  }
}

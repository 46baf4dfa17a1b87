/** `sorted(d.keys())` and `sorted(d.items())` for a dictionary with string
    keys (pokemon.py:209, pokemon.py:218, pokemon.py:227): the keys in
    increasing order of Python's string comparison, each once. */
module Sorting {
  import opened Text

  /** `m` is the smallest of `keys`. */
  predicate Least(m: string, keys: set<string>) {
    m in keys && forall k :: k in keys ==> k == m || Below(m, k)
  }

  lemma {:induction false} LeastExists(keys: set<string>)
    requires keys != {}
    ensures exists m :: Least(m, keys)
    decreases keys
  {
    var x :| x in keys;
    var others := keys - {x};
    if others == {} {
      assert keys == {x};
      assert Least(x, keys);
    } else {
      LeastExists(others);
      var m :| Least(m, others);
      if Below(m, x) {
        assert Least(m, keys);
      } else {
        BelowTotal(m, x);
        forall k | k in keys && k != x
          ensures Below(x, k)
        {
          if k != m {
            BelowTransitive(x, m, k);
          }
        }
        assert Least(x, keys);
      }
    }
  }

  /** The reference: the keys in increasing order. */
  ghost function SortedKeys(keys: set<string>): (r: seq<string>)
    ensures StrictlySorted(r)
    ensures forall k :: k in r <==> k in keys
    ensures |r| == |keys|
    decreases keys
  {
    if keys == {} then []
    else
      LeastExists(keys);
      var m :| Least(m, keys);
      var rest := SortedKeys(keys - {m});
      assert forall j :: 0 <= j < |rest| ==> Below(m, rest[j]);
      [m] + rest
  }

  /** Two increasing sequences with the same elements are equal, so the
      sorted order does not depend on how it is found. */
  lemma {:induction false} SortedUnique(a: seq<string>, b: seq<string>)
    requires StrictlySorted(a) && StrictlySorted(b)
    requires forall k :: k in a <==> k in b
    ensures a == b
    decreases |a|
  {
    if |a| > 0 {
      assert a[0] in b;
      assert b[0] in a;
      if a[0] != b[0] {
        var i :| 0 <= i < |b| && b[i] == a[0];
        var j :| 0 <= j < |a| && a[j] == b[0];
        assert Below(b[0], a[0]);
        assert Below(a[0], b[0]);
        BelowTransitive(a[0], b[0], a[0]);
        BelowIrreflexive(a[0]);
      }
      forall k
        ensures k in a[1..] <==> k in b[1..]
      {
        if k in a[1..] {
          var i :| 0 <= i < |a| - 1 && a[1..][i] == k;
          assert Below(a[0], a[i + 1]);
          BelowIrreflexive(k);
          assert k in b;
          var j :| 0 <= j < |b| && b[j] == k;
          assert j != 0;
          assert b[1..][j - 1] == k;
        }
        if k in b[1..] {
          var i :| 0 <= i < |b| - 1 && b[1..][i] == k;
          assert Below(b[0], b[i + 1]);
          BelowIrreflexive(k);
          assert k in a;
          var j :| 0 <= j < |a| && a[j] == k;
          assert j != 0;
          assert a[1..][j - 1] == k;
        }
      }
      SortedUnique(a[1..], b[1..]);
    } else {
      HeadIsMember(b);
    }
  }

  lemma HeadIsMember(s: seq<string>)
    ensures |s| > 0 ==> s[0] in s
  {
  }

  /** A single key is its own sorted order. */
  lemma SortedSingle(keys: set<string>, k: string)
    requires |keys| == 1 && k in keys
    ensures SortedKeys(keys) == [k]
  {
    var r := SortedKeys(keys);
    assert k in r;
  }

  /** `sorted`: repeatedly take the smallest remaining key. */
  method SortKeys(keys: set<string>) returns (r: seq<string>)
    ensures r == SortedKeys(keys)
  {
    r := [];
    var rest := keys;
    while rest != {}
      invariant StrictlySorted(r)
      invariant forall k :: k in keys <==> k in r || k in rest
      invariant forall k :: k in r ==> k !in rest
      invariant forall i, k :: 0 <= i < |r| && k in rest ==> Below(r[i], k)
      decreases rest
    {
      LeastExists(rest);
      var m :| Least(m, rest);
      r := r + [m];
      rest := rest - {m};
    }
    SortedUnique(r, SortedKeys(keys));
  }
}

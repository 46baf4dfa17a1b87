/** The handful of Python `str` operations the bot relies on, over `seq<char>`:
    `lower`, `capitalize`, `strip`, `startswith`, `in` (substring),
    `replace`, `split` on one character, `join`, and the ordering `<` that
    `sorted` uses. Case mapping covers ASCII letters only. */
module Text {

  // ---------------------------------------------------------------- case

  function Lower(c: char): char {
    if 'A' <= c <= 'Z' then (c as int + 32) as char else c
  }

  function Upper(c: char): char {
    if 'a' <= c <= 'z' then (c as int - 32) as char else c
  }

  /** `s.lower()` */
  function LowerStr(s: string): string {
    seq(|s|, i requires 0 <= i < |s| => Lower(s[i]))
  }

  /** A string that `lower()` leaves as it is. */
  predicate IsLowerCase(s: string) {
    forall i :: 0 <= i < |s| ==> Lower(s[i]) == s[i]
  }

  /** `lower()` leaves a lower-case string as it is. */
  lemma LowerStrOfLowerCase(s: string)
    requires IsLowerCase(s)
    ensures LowerStr(s) == s
  {
  }

  lemma LowerStrIsLowerCase(s: string)
    ensures IsLowerCase(LowerStr(s))
  {
  }

  /** `w.capitalize()`: first character upper-cased, the rest lower-cased. */
  function Capitalize(w: string): string {
    if |w| == 0 then "" else [Upper(w[0])] + LowerStr(w[1..])
  }

  // ---------------------------------------------------------- whitespace

  /** The characters Python's `str.isspace` accepts. */
  predicate IsSpace(c: char) {
    c == ' ' || '\t' <= c <= '\r' || '\U{1C}' <= c <= '\U{1F}' ||
    c == '\U{85}' || c == '\U{A0}' || c == '\U{1680}' ||
    '\U{2000}' <= c <= '\U{200A}' || c == '\U{2028}' || c == '\U{2029}' ||
    c == '\U{202F}' || c == '\U{205F}' || c == '\U{3000}'
  }

  /** `s.lstrip()` */
  function TrimStart(s: string): string
    decreases |s|
  {
    if |s| > 0 && IsSpace(s[0]) then TrimStart(s[1..]) else s
  }

  /** `s.rstrip()` */
  function TrimEnd(s: string): string
    decreases |s|
  {
    if |s| > 0 && IsSpace(s[|s| - 1]) then TrimEnd(s[..|s| - 1]) else s
  }

  /** `lstrip` removes exactly the leading run of whitespace: what is left is
      a suffix that does not start with whitespace. */
  lemma {:induction false} TrimStartRemovesLeadingSpace(s: string)
    ensures |TrimStart(s)| <= |s| && TrimStart(s) == s[|s| - |TrimStart(s)|..]
    ensures TrimStart(s) != [] ==> !IsSpace(TrimStart(s)[0])
    ensures forall i :: 0 <= i < |s| - |TrimStart(s)| ==> IsSpace(s[i])
    decreases |s|
  {
    if |s| > 0 && IsSpace(s[0]) {
      TrimStartRemovesLeadingSpace(s[1..]);
    }
  }

  /** `rstrip` removes exactly the trailing run of whitespace: what is left
      is a prefix that does not end with whitespace. */
  lemma {:induction false} TrimEndRemovesTrailingSpace(s: string)
    ensures |TrimEnd(s)| <= |s| && TrimEnd(s) == s[..|TrimEnd(s)|]
    ensures TrimEnd(s) != [] ==> !IsSpace(TrimEnd(s)[|TrimEnd(s)| - 1])
    ensures forall i :: |TrimEnd(s)| <= i < |s| ==> IsSpace(s[i])
    decreases |s|
  {
    if |s| > 0 && IsSpace(s[|s| - 1]) {
      TrimEndRemovesTrailingSpace(s[..|s| - 1]);
    }
  }

  /** `s.strip()` */
  function Strip(s: string): (r: string)
    ensures r == [] || (!IsSpace(r[0]) && !IsSpace(r[|r| - 1]))
  {
    TrimStartRemovesLeadingSpace(s);
    TrimEndRemovesTrailingSpace(TrimStart(s));
    TrimEnd(TrimStart(s))
  }

  lemma TrimStartNoLeadingSpace(s: string)
    requires s == [] || !IsSpace(s[0])
    ensures TrimStart(s) == s
  {
  }

  lemma TrimEndNoTrailingSpace(s: string)
    requires s == [] || !IsSpace(s[|s| - 1])
    ensures TrimEnd(s) == s
  {
  }

  /** Stripping twice is stripping once. */
  lemma StripIdempotent(s: string)
    ensures Strip(Strip(s)) == Strip(s)
  {
    var t := Strip(s);
    TrimStartNoLeadingSpace(t);
    TrimEndNoTrailingSpace(t);
  }

  /** `strip` only removes characters, so a lower-case string stays lower-case. */
  lemma StripKeepsLowerCase(s: string)
    requires IsLowerCase(s)
    ensures IsLowerCase(Strip(s))
  {
    var u := TrimStart(s);
    TrimStartRemovesLeadingSpace(s);
    TrimEndRemovesTrailingSpace(u);
    assert forall i :: 0 <= i < |u| ==> u[i] == s[|s| - |u| + i];
    var r := TrimEnd(u);
    assert forall i :: 0 <= i < |r| ==> r[i] == u[i];
  }

  // ------------------------------------------------------------ searching

  /** `s.startswith(p)` */
  predicate StartsWith(s: string, p: string) {
    |p| <= |s| && s[..|p|] == p
  }

  /** A string that differs from `p` at some position of both does not
      start with `p`. */
  lemma DiffersAt(s: string, p: string, i: nat)
    requires i < |s| && i < |p| && s[i] != p[i]
    ensures !StartsWith(s, p)
  {
    if |p| <= |s| {
      assert s[..|p|][i] == s[i];
    }
  }

  /** `p in s` for strings: `p` occurs somewhere in `s`. */
  predicate Contains(s: string, p: string)
    decreases |s|
  {
    StartsWith(s, p) || (|s| > 0 && Contains(s[1..], p))
  }

  /** Every character of an occurring pattern occurs in `s`. */
  lemma {:induction false} ContainsChars(s: string, p: string, c: char)
    requires Contains(s, p) && c in p
    ensures c in s
    decreases |s|
  {
    if StartsWith(s, p) {
      var i :| 0 <= i < |p| && p[i] == c;
      assert s[..|p|][i] == c;
    } else {
      ContainsChars(s[1..], p, c);
    }
  }

  /** A character occurs in `s` exactly when `s` contains it as a substring. */
  lemma {:induction false} ContainsChar(s: string, c: char)
    ensures Contains(s, [c]) <==> c in s
    decreases |s|
  {
    if |s| > 0 {
      ContainsChar(s[1..], c);
      assert s == [s[0]] + s[1..];
    }
  }

  /** Every string contains what was appended to it. */
  lemma {:induction false} ContainsAppended(t: string, p: string)
    ensures Contains(t + p, p)
    decreases |t|
  {
    if |t| == 0 {
      assert (t + p)[..|p|] == p;
    } else {
      assert (t + p)[1..] == t[1..] + p;
      ContainsAppended(t[1..], p);
    }
  }

  /** A pattern occurs wherever it is placed. */
  lemma {:induction false} ContainsInside(t: string, p: string, u: string)
    ensures Contains(t + p + u, p)
    decreases |t|
  {
    if |t| == 0 {
      assert t + p + u == p + u;
      assert (p + u)[..|p|] == p;
    } else {
      assert (t + p + u)[1..] == t[1..] + p + u;
      ContainsInside(t[1..], p, u);
    }
  }

  /** `c + y` starts with `q` exactly when `c` is the first character of
      `q` and `y` starts with the rest of it. */
  lemma StartsWithCons(c: char, y: string, q: string)
    requires |q| > 0
    ensures StartsWith([c] + y, q) <==> c == q[0] && StartsWith(y, q[1..])
  {
    var s := [c] + y;
    assert q == [q[0]] + q[1..];
    if |q| <= |s| {
      assert s[..|q|] == [c] + y[..|q| - 1];
    }
  }

  /** What follows the first `k` characters of a string without `p` has no
      `p` either. */
  lemma {:induction false} AbsentFrom(s: string, k: nat, p: string)
    requires k <= |s| && !Contains(s, p)
    ensures !Contains(s[k..], p)
    decreases k
  {
    if k > 0 {
      assert s[k..] == s[1..][k - 1..];
      AbsentFrom(s[1..], k - 1, p);
    }
  }

  /** Characters none of which can start `p`, put in front of a string
      without `p`, bring no occurrence. */
  lemma {:induction false} AbsentAfterPlain(b: string, y: string, p: string)
    requires |p| > 0 && !Contains(y, p)
    requires forall j :: 0 <= j < |b| ==> b[j] != p[0]
    ensures !Contains(b + y, p)
    decreases |b|
  {
    if |b| == 0 {
      assert b + y == y;
    } else {
      DiffersAt(b + y, p, 0);
      assert (b + y)[1..] == b[1..] + y;
      AbsentAfterPlain(b[1..], y, p);
    }
  }

  /** A piece that differs from `p` at position `d` and has no later
      character that can start `p`, put in front of a string without `p`,
      brings no occurrence. */
  lemma AbsentAfterPiece(a: string, y: string, p: string, d: nat)
    requires d < |a| && d < |p| && a[d] != p[d] && !Contains(y, p)
    requires forall j :: 0 < j < |a| ==> a[j] != p[0]
    ensures !Contains(a + y, p)
  {
    DiffersAt(a + y, p, d);
    assert (a + y)[1..] == a[1..] + y;
    AbsentAfterPlain(a[1..], y, p);
  }

  // ------------------------------------------------------------ replacing

  /** `s.replace(pat, rep)`: one left-to-right pass that replaces every
      non-overlapping occurrence of `pat`. */
  function ReplaceAll(s: string, pat: string, rep: string): string
    requires |pat| > 0
    decreases |s|
  {
    if |s| == 0 then s
    else if StartsWith(s, pat) then rep + ReplaceAll(s[|pat|..], pat, rep)
    else [s[0]] + ReplaceAll(s[1..], pat, rep)
  }

  /** Replacing a pattern that does not occur changes nothing. */
  lemma {:induction false} ReplaceAbsent(s: string, pat: string, rep: string)
    requires |pat| > 0 && !Contains(s, pat)
    ensures ReplaceAll(s, pat, rep) == s
    decreases |s|
  {
    if |s| > 0 {
      ReplaceAbsent(s[1..], pat, rep);
    }
  }

  /** A stretch that cannot start the pattern passes through unchanged. */
  lemma {:induction false} ReplacePlainPrefix(a: string, rest: string, pat: string, rep: string)
    requires |pat| > 0 && pat[0] !in a
    ensures ReplaceAll(a + rest, pat, rep) == a + ReplaceAll(rest, pat, rep)
    decreases |a|
  {
    if |a| > 0 {
      var s := a + rest;
      assert s[0] == a[0];
      assert !StartsWith(s, pat) by {
        if |pat| <= |s| {
          assert s[..|pat|][0] == s[0];
        }
      }
      assert s[1..] == a[1..] + rest;
      ReplacePlainPrefix(a[1..], rest, pat, rep);
    } else {
      assert a + rest == rest;
    }
  }

  /** A string shorter than the pattern passes through unchanged. */
  lemma {:induction false} ReplaceShort(s: string, pat: string, rep: string)
    requires 0 < |pat| && |s| < |pat|
    ensures ReplaceAll(s, pat, rep) == s
    decreases |s|
  {
    if |s| > 0 {
      ReplaceShort(s[1..], pat, rep);
      assert s == [s[0]] + s[1..];
    }
  }

  /** One character ahead of the pattern, and a tail too short to hold
      another: only the occurrence after that character is replaced. */
  lemma ReplaceAfterChar(c: char, pat: string, tail: string, rep: string)
    requires 1 < |pat| && pat[0] != pat[1] && |tail| < |pat|
    ensures ReplaceAll([c] + (pat + tail), pat, rep) == [c] + (rep + tail)
  {
    var w := [c] + (pat + tail);
    calc {
      ReplaceAll(w, pat, rep);
      { assert w[1] == pat[0];
        DiffersAt(w, pat, 1);
        assert w[1..] == pat + tail; }
      [c] + ReplaceAll(pat + tail, pat, rep);
      { ReplaceAtFront(pat, tail, rep); }
      [c] + (rep + ReplaceAll(tail, pat, rep));
      { ReplaceShort(tail, pat, rep); }
      [c] + (rep + tail);
    }
  }

  /** A replacement beginning with a character outside `q` never makes
      the result start with `q` when the input does not. */
  lemma {:induction false} ReplacedPrefix(t: string, pat: string, rep: string, q: string)
    requires |pat| > 0 && |rep| > 0 && rep[0] !in q && !StartsWith(t, q)
    ensures !StartsWith(ReplaceAll(t, pat, rep), q)
    decreases |t|
  {
    var r := ReplaceAll(t, pat, rep);
    assert t[..0] == [];
    if |t| == 0 {
    } else if StartsWith(t, pat) {
      assert r[0] == rep[0];
      DiffersAt(r, q, 0);
    } else if t[0] != q[0] {
      DiffersAt(r, q, 0);
    } else {
      assert t == [t[0]] + t[1..];
      StartsWithCons(t[0], t[1..], q);
      ReplacedPrefix(t[1..], pat, rep, q[1..]);
      StartsWithCons(t[0], ReplaceAll(t[1..], pat, rep), q);
    }
  }

  /** No occurrence of `p` survives or is formed by the replacement, when
      `p` is the pattern itself or was absent, and the replacement text
      can neither start `p` (it differs from `p` at `d`, and no later
      character of it is `p`'s first) nor continue one (its first
      character is not in the rest of `p`). */
  lemma {:induction false} ReplaceLeavesAbsent(s: string, pat: string, rep: string, p: string, d: nat)
    requires |pat| > 0 && d < |rep| && d < |p| && rep[d] != p[d]
    requires forall j :: 0 < j < |rep| ==> rep[j] != p[0]
    requires rep[0] !in p[1..]
    requires p == pat || !Contains(s, p)
    ensures !Contains(ReplaceAll(s, pat, rep), p)
    decreases |s|
  {
    if |s| == 0 {
    } else if StartsWith(s, pat) {
      var rest := s[|pat|..];
      if p != pat {
        AbsentFrom(s, |pat|, p);
      }
      ReplaceLeavesAbsent(rest, pat, rep, p, d);
      AbsentAfterPiece(rep, ReplaceAll(rest, pat, rep), p, d);
    } else {
      var t := s[1..];
      ReplaceLeavesAbsent(t, pat, rep, p, d);
      var y := ReplaceAll(t, pat, rep);
      assert !StartsWith([s[0]] + y, p) by {
        if s[0] == p[0] {
          assert s == [s[0]] + t;
          StartsWithCons(s[0], t, p);
          ReplacedPrefix(t, pat, rep, p[1..]);
          StartsWithCons(s[0], y, p);
        } else {
          DiffersAt([s[0]] + y, p, 0);
        }
      }
      assert ([s[0]] + y)[1..] == y;
    }
  }

  /** A start that the pattern's first character is not in is kept. */
  lemma ReplaceKeepsStart(s: string, a: string, pat: string, rep: string)
    requires |pat| > 0 && pat[0] !in a && StartsWith(s, a)
    ensures StartsWith(ReplaceAll(s, pat, rep), a)
  {
    var rest := s[|a|..];
    assert s == a + rest;
    ReplacePlainPrefix(a, rest, pat, rep);
    assert (a + ReplaceAll(rest, pat, rep))[..|a|] == a;
  }

  /** A string no longer than the pattern, and different from it, has no
      room for an occurrence. */
  lemma ReplaceNoRoom(s: string, pat: string, rep: string)
    requires 0 < |pat| && |s| <= |pat| && s != pat
    ensures ReplaceAll(s, pat, rep) == s
  {
    if |s| > 0 {
      assert !StartsWith(s, pat) by {
        if |s| == |pat| {
          assert s[..|pat|] == s;
        }
      }
      ReplaceShort(s[1..], pat, rep);
      assert s == [s[0]] + s[1..];
    }
  }

  /** A single occurrence after a stretch that cannot start the pattern is
      the only one replaced. */
  lemma ReplaceOnceAfter(a: string, pat: string, rep: string)
    requires |pat| > 0 && pat[0] !in a
    ensures ReplaceAll(a + pat, pat, rep) == a + rep
  {
    ReplacePlainPrefix(a, pat, pat, rep);
    assert pat + [] == pat;
    ReplaceAtFront(pat, [], rep);
    ReplaceShort([], pat, rep);
    assert rep + [] == rep;
  }

  /** Two occurrences, each after a stretch that cannot start the pattern,
      are both replaced. */
  lemma ReplaceTwiceAfter(a: string, pat: string, b: string, rep: string)
    requires |pat| > 0 && pat[0] !in a && pat[0] !in b
    ensures ReplaceAll(a + (pat + (b + pat)), pat, rep) == a + (rep + (b + rep))
  {
    ReplacePlainPrefix(a, pat + (b + pat), pat, rep);
    ReplaceAtFront(pat, b + pat, rep);
    ReplaceOnceAfter(b, pat, rep);
  }

  /** An occurrence at the front is replaced. */
  lemma ReplaceAtFront(pat: string, rest: string, rep: string)
    requires |pat| > 0
    ensures ReplaceAll(pat + rest, pat, rep) == rep + ReplaceAll(rest, pat, rep)
  {
    var s := pat + rest;
    assert s[..|pat|] == pat;
    assert s[|pat|..] == rest;
  }

  /** With a lower-case replacement the result of a lower-case string is
      lower-case: `replace` only removes characters and inserts `rep`. */
  lemma {:induction false} ReplaceKeepsLowerCase(s: string, pat: string, rep: string)
    requires |pat| > 0 && IsLowerCase(s) && IsLowerCase(rep)
    ensures IsLowerCase(ReplaceAll(s, pat, rep))
    decreases |s|
  {
    if |s| > 0 {
      if StartsWith(s, pat) {
        ReplaceKeepsLowerCase(s[|pat|..], pat, rep);
      } else {
        ReplaceKeepsLowerCase(s[1..], pat, rep);
      }
    }
  }

  // ------------------------------------------------- splitting and joining

  /** `s.split(sep)` for a one-character separator: never empty, and empty
      pieces are kept. */
  function Split(s: string, sep: char): (r: seq<string>)
    ensures |r| >= 1
    decreases |s|
  {
    if |s| == 0 then [""]
    else
      var rest := Split(s[1..], sep);
      if s[0] == sep then [""] + rest
      else [[s[0]] + rest[0]] + rest[1..]
  }

  /** `sep.join(parts)` */
  function Join(sep: string, parts: seq<string>): string
    decreases |parts|
  {
    if |parts| == 0 then ""
    else if |parts| == 1 then parts[0]
    else parts[0] + sep + Join(sep, parts[1..])
  }

  /** None of the pieces contains the separator character. */
  predicate Free(parts: seq<string>, sep: char) {
    forall i :: 0 <= i < |parts| ==> sep !in parts[i]
  }

  lemma {:induction false} SplitNoSeparator(s: string, sep: char)
    requires sep !in s
    ensures Split(s, sep) == [s]
    decreases |s|
  {
    if |s| > 0 {
      SplitNoSeparator(s[1..], sep);
      assert s == [s[0]] + s[1..];
    }
  }

  /** Splitting `w + [sep] + rest` where `w` has no separator yields `w`
      followed by the pieces of `rest`. */
  lemma {:induction false} SplitAfterPiece(w: string, sep: char, rest: string)
    requires sep !in w
    ensures Split(w + [sep] + rest, sep) == [w] + Split(rest, sep)
    decreases |w|
  {
    var s := w + [sep] + rest;
    if |w| == 0 {
      assert s[1..] == rest;
    } else {
      assert s[1..] == w[1..] + [sep] + rest;
      SplitAfterPiece(w[1..], sep, rest);
      assert [w[0]] + w[1..] == w;
    }
  }

  /** Joining pieces that are free of the separator and splitting again
      returns the pieces. */
  lemma {:induction false} SplitJoin(parts: seq<string>, sep: char)
    requires |parts| >= 1 && Free(parts, sep)
    ensures Split(Join([sep], parts), sep) == parts
    decreases |parts|
  {
    if |parts| == 1 {
      SplitNoSeparator(parts[0], sep);
    } else {
      SplitJoin(parts[1..], sep);
      SplitAfterPiece(parts[0], sep, Join([sep], parts[1..]));
      assert [parts[0]] + parts[1..] == parts;
    }
  }

  /** Joining after splitting gives back the original string. */
  lemma {:induction false} JoinSplit(s: string, sep: char)
    ensures Join([sep], Split(s, sep)) == s
    decreases |s|
  {
    if |s| > 0 {
      var rest := Split(s[1..], sep);
      JoinSplit(s[1..], sep);
      if s[0] == sep {
        assert Join([sep], [""] + rest) == "" + [sep] + Join([sep], rest);
      } else {
        JoinConsFirst([s[0]], rest[0], rest[1..], [sep]);
        assert [rest[0]] + rest[1..] == rest;
        assert s == [s[0]] + s[1..];
      }
    }
  }

  /** Text glued to the front of the first piece ends up at the front of the join. */
  lemma JoinConsFirst(pre: string, w: string, ws: seq<string>, sep: string)
    ensures Join(sep, [pre + w] + ws) == pre + Join(sep, [w] + ws)
  {
    if |ws| > 0 {
      assert ([pre + w] + ws)[1..] == ws;
      assert ([w] + ws)[1..] == ws;
    }
  }

  /** Appending one more piece to a non-empty join. */
  lemma JoinSnoc(sep: string, parts: seq<string>, v: string)
    requires |parts| >= 1
    ensures Join(sep, parts + [v]) == Join(sep, parts) + sep + v
    decreases |parts|
  {
    if |parts| > 1 {
      assert (parts + [v])[1..] == parts[1..] + [v];
      JoinSnoc(sep, parts[1..], v);
    }
  }

  /** Replacing a one-character separator inside a join re-joins the pieces
      with the replacement: `";".join(vs).replace(";", ", ") == ", ".join(vs)`. */
  lemma {:induction false} ReplaceSeparator(parts: seq<string>, sep: char, rep: string)
    requires Free(parts, sep)
    ensures ReplaceAll(Join([sep], parts), [sep], rep) == Join(rep, parts)
    decreases |parts|
  {
    if |parts| == 1 {
      ContainsChar(parts[0], sep);
      ReplaceAbsent(parts[0], [sep], rep);
    } else if |parts| > 1 {
      ReplaceSeparator(parts[1..], sep, rep);
      ReplaceAfterPiece(parts[0], sep, rep, Join([sep], parts[1..]));
    }
  }

  lemma {:induction false} ReplaceAfterPiece(w: string, sep: char, rep: string, rest: string)
    requires sep !in w
    ensures ReplaceAll(w + [sep] + rest, [sep], rep) == w + rep + ReplaceAll(rest, [sep], rep)
    decreases |w|
  {
    var s := w + [sep] + rest;
    if |w| == 0 {
      assert s[1..] == rest;
    } else {
      assert s[1..] == w[1..] + [sep] + rest;
      ReplaceAfterPiece(w[1..], sep, rep, rest);
      assert [w[0]] + w[1..] == w;
    }
  }

  // ------------------------------------------------------------- ordering

  /** Python's `a < b` on strings: lexicographic by code point. */
  predicate Below(a: string, b: string)
    decreases |a|
  {
    |b| > 0 && (|a| == 0 || a[0] < b[0] || (a[0] == b[0] && Below(a[1..], b[1..])))
  }

  lemma {:induction false} BelowIrreflexive(a: string)
    ensures !Below(a, a)
    decreases |a|
  {
    if |a| > 0 {
      BelowIrreflexive(a[1..]);
    }
  }

  lemma {:induction false} BelowTransitive(a: string, b: string, c: string)
    requires Below(a, b) && Below(b, c)
    ensures Below(a, c)
    decreases |a|
  {
    if |a| > 0 && a[0] == b[0] && b[0] == c[0] {
      BelowTransitive(a[1..], b[1..], c[1..]);
    }
  }

  lemma {:induction false} BelowTotal(a: string, b: string)
    requires a != b
    ensures Below(a, b) || Below(b, a)
    decreases |a|
  {
    if |a| > 0 && |b| > 0 && a[0] == b[0] {
      assert a == [a[0]] + a[1..];
      assert b == [b[0]] + b[1..];
      BelowTotal(a[1..], b[1..]);
    }
  }

  /** The strings of `r` are in increasing order with no repeats, which is
      what `sorted` yields for the keys of a dictionary. */
  predicate StrictlySorted(r: seq<string>) {
    forall i, j :: 0 <= i < j < |r| ==> Below(r[i], r[j])
  }
}

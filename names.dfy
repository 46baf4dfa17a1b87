/** How a lookup key such as "nidoran_(f)" or "tapu_koko" is shown to people:
    every underscore-separated word capitalised and the words joined with
    spaces (pokemon.py:38, pokemon.py:193-194, setup.py:56), and the
    gender marks "(m)" and "(f)" turned into the male and female signs
    (pokemon.py:195, pokemon.py:219, pokemon.py:237). */
module Names {
  import opened Text

  /** `" ".join(w.capitalize() for w in species.split("_"))` */
  function PrettyPoke(species: string): string {
    Join(" ", CapitalizeAll(Split(species, '_')))
  }

  function CapitalizeAll(words: seq<string>): (r: seq<string>)
    ensures |r| == |words|
    ensures forall i :: 0 <= i < |words| ==> r[i] == Capitalize(words[i])
  {
    seq(|words|, i requires 0 <= i < |words| => Capitalize(words[i]))
  }

  /** Character-by-character reference for the display name: an underscore
      becomes a space, a character right after an underscore (or at the very
      start) is upper-cased, every other one is lower-cased. */
  function Titled(s: string, atWordStart: bool): (r: string)
    ensures |r| == |s|
    decreases |s|
  {
    if |s| == 0 then ""
    else if s[0] == '_' then " " + Titled(s[1..], true)
    else [if atWordStart then Upper(s[0]) else Lower(s[0])] + Titled(s[1..], false)
  }

  /** The first word treated as a word start (capitalised) or as the middle of
      a word (lower-cased). */
  function FirstWord(atWordStart: bool, w: string): string {
    if atWordStart then Capitalize(w) else LowerStr(w)
  }

  /** The join the reference should agree with, for a given list of words. */
  function JoinWords(atWordStart: bool, ws: seq<string>): string
    requires |ws| >= 1
  {
    Join(" ", [FirstWord(atWordStart, ws[0])] + CapitalizeAll(ws[1..]))
  }

  lemma JoinWordsAfterUnderscore(atWordStart: bool, rest: seq<string>)
    requires |rest| >= 1
    ensures JoinWords(atWordStart, [""] + rest) == " " + JoinWords(true, rest)
  {
    var ws := [""] + rest;
    assert ws[1..] == rest;
    assert [Capitalize(rest[0])] + CapitalizeAll(rest[1..]) == CapitalizeAll(rest);
    assert ([FirstWord(atWordStart, "")] + CapitalizeAll(rest))[1..] == CapitalizeAll(rest);
  }

  lemma JoinWordsInsideWord(atWordStart: bool, c: char, rest: seq<string>)
    requires |rest| >= 1
    ensures JoinWords(atWordStart, [[c] + rest[0]] + rest[1..])
         == [if atWordStart then Upper(c) else Lower(c)] + JoinWords(false, rest)
  {
    var ws := [[c] + rest[0]] + rest[1..];
    assert ws[1..] == rest[1..];
    var w := [c] + rest[0];
    assert w[1..] == rest[0];
    var d := if atWordStart then Upper(c) else Lower(c);
    assert FirstWord(atWordStart, w) == [d] + LowerStr(rest[0]);
    JoinConsFirst([d], LowerStr(rest[0]), CapitalizeAll(rest[1..]), " ");
  }

  lemma {:induction false} TitledIsJoin(s: string, atWordStart: bool)
    ensures Titled(s, atWordStart) == JoinWords(atWordStart, Split(s, '_'))
    decreases |s|
  {
    if |s| > 0 {
      var rest := Split(s[1..], '_');
      if s[0] == '_' {
        TitledIsJoin(s[1..], true);
        JoinWordsAfterUnderscore(atWordStart, rest);
      } else {
        TitledIsJoin(s[1..], false);
        JoinWordsInsideWord(atWordStart, s[0], rest);
      }
    }
  }

  /** The display name agrees with the character-by-character reference: it is
      as long as the key, has a space exactly where the key has an underscore,
      and capitalises exactly the first letter of each word. */
  lemma PrettyPokeIsTitled(species: string)
    ensures PrettyPoke(species) == Titled(species, true)
  {
    TitledIsJoin(species, true);
    var ws := Split(species, '_');
    assert [Capitalize(ws[0])] + CapitalizeAll(ws[1..]) == CapitalizeAll(ws);
  }

  /** `s.replace("(m)", "♂").replace("(f)", "♀")` */
  function GenderSigns(s: string): string {
    ReplaceAll(ReplaceAll(s, "(m)", "♂"), "(f)", "♀")
  }

  /** The title of the Pokémon card. */
  function PrettyName(species: string): string {
    GenderSigns(PrettyPoke(species))
  }
}

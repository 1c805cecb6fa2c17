/** `getInitials`, written identically in src/pages/StudentDashboard.tsx and
    src/components/ProfileManagement.tsx: `name.split(' ').map(n => n[0]).join('')
    .toUpperCase().slice(0, 2)`. `toUpperCase` is the parameter `up`, applied to the
    joined string. */
module Initials {
  import opened Text
  import Seqs

  predicate NonEmpty(w: string) { w != "" }

  /** The words of `name` that have a first character, in order. */
  function Words(name: string): (r: seq<string>)
    ensures forall i :: 0 <= i < |r| ==> r[i] != ""
  {
    Seqs.Filter(Split(name, ' '), NonEmpty)
  }

  /** `words.map(n => n[0]).join('')`: an empty word maps to `undefined`, which `join`
      writes as nothing. */
  function FirstChars(words: seq<string>): string {
    if words == [] then ""
    else (if words[0] == "" then "" else [words[0][0]]) + FirstChars(words[1..])
  }

  lemma {:induction false} FirstCharsOfWords(words: seq<string>)
    ensures var f := Seqs.Filter(words, NonEmpty);
            |FirstChars(words)| == |f| &&
            forall i :: 0 <= i < |f| ==> FirstChars(words)[i] == f[i][0]
  {
    if words != [] {
      FirstCharsOfWords(words[1..]);
    }
  }

  function Min(a: int, b: int): int { if a <= b then a else b }

  /** The first characters of the words of `name` that have one, in order. */
  function Letters(name: string): (r: string)
    ensures |r| == |Words(name)|
    ensures forall i :: 0 <= i < |r| ==> r[i] == Words(name)[i][0]
  {
    FirstCharsOfWords(Split(name, ' '));
    FirstChars(Split(name, ' '))
  }

  /** `.slice(0, 2)`. */
  function SliceTo2(s: string): (r: string)
    ensures |r| == Min(2, |s|) && r == s[..|r|]
  {
    if |s| <= 2 then s else s[..2]
  }

  /** `getInitials`: the first two characters of `toUpperCase()` of the joined first
      characters. `up` is `toUpperCase` on a whole string, so it may change the length
      (a full case mapping turns "ß" into "SS"). */
  function GetInitials(name: string, up: string -> string): (r: string)
    ensures |r| <= 2
    ensures |r| == Min(2, |up(Letters(name))|) && r == up(Letters(name))[..|r|]
  {
    SliceTo2(up(Letters(name)))
  }

  /** `up` maps each character on its own, keeping the length. */
  ghost predicate Charwise(up: string -> string, upChar: char -> char) {
    forall s :: up(s) == Seqs.Map(s, upChar)
  }

  /** Under a character-by-character upper-casing, the initials are the upper-cased first
      characters of the first two non-empty words. */
  lemma CharwiseInitials(name: string, up: string -> string, upChar: char -> char)
    requires Charwise(up, upChar)
    ensures var r := GetInitials(name, up);
            |r| == Min(2, |Words(name)|) &&
            forall i :: 0 <= i < |r| ==> r[i] == upChar(Words(name)[i][0])
  {
    assert up(Letters(name)) == Seqs.Map(Letters(name), upChar);
  }

  /** A name with no space gives the upper-cased first character. */
  lemma SingleWord(name: string, up: string -> string)
    requires name != "" && ' ' !in name
    ensures GetInitials(name, up) == SliceTo2(up([name[0]]))
  {
    SplitNoSeparator(name, ' ');
    assert Split(name, ' ') == [name];
    assert Seqs.Filter([name][1..], NonEmpty) == [];
    assert Words(name) == [name];
    assert Letters(name) == [name[0]];
  }

  /** Two words separated by one space give the upper-cased pair of first characters. */
  lemma TwoWords(first: string, last: string, up: string -> string)
    requires first != "" && last != "" && ' ' !in first && ' ' !in last
    ensures GetInitials(first + " " + last, up) == SliceTo2(up([first[0], last[0]]))
  {
    var parts := [first, last];
    assert parts[1..] == [last];
    assert Join(parts, [' ']) == first + " " + last;
    SplitJoin(parts, ' ');
    assert Split(first + " " + last, ' ') == parts;
    assert parts[1..][1..] == [];
    assert Seqs.Filter(parts[1..], NonEmpty) == [last] + Seqs.Filter(parts[1..][1..], NonEmpty);
    assert Seqs.Filter(parts, NonEmpty) == [first] + Seqs.Filter(parts[1..], NonEmpty);
    assert Words(first + " " + last) == parts;
    assert Letters(first + " " + last) == [first[0], last[0]];
  }

  /** Upper-casing after the join can take both places from one word: with the full case
      mapping of "ß", the name "ßa b" has the initials "SS", not "SB". */
  lemma UpperCaseCanLengthen(up: string -> string)
    requires up("ßb") == "SSB"
    ensures GetInitials("ßa b", up) == "SS"
  {
    TwoWords("ßa", "b", up);
    assert "ßa" + " " + "b" == "ßa b";
    assert ['ß', 'b'] == "ßb";
  }
}

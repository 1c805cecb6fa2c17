/** The JavaScript string operations the components use: `trim`, `split` with a
    one-character separator, `join`, `includes`, `startsWith`, `parseInt` and
    number-to-string conversion. Strings are sequences of code points. */
module Text {
  import opened Wrappers

  /** The ECMAScript WhiteSpace and LineTerminator characters: what `trim` removes
      and what the regular-expression class `\s` matches. */
  predicate IsWhitespace(c: char) {
    c == ' ' || c == '\t' || c == '\n' || c == '\r' || c == '\U{000B}' || c == '\U{000C}' ||
    c == '\U{00A0}' || c == '\U{1680}' || ('\U{2000}' <= c <= '\U{200A}') ||
    c == '\U{2028}' || c == '\U{2029}' || c == '\U{202F}' || c == '\U{205F}' ||
    c == '\U{3000}' || c == '\U{FEFF}'
  }

  predicate AllWhitespace(s: string) {
    forall i :: 0 <= i < |s| ==> IsWhitespace(s[i])
  }

  function TrimStart(s: string): (r: string)
    ensures |r| <= |s| && r == s[|s| - |r|..]
    ensures AllWhitespace(s[..|s| - |r|])
    ensures r == [] || !IsWhitespace(r[0])
  {
    if s != [] && IsWhitespace(s[0]) then TrimStart(s[1..]) else s
  }

  function TrimEnd(s: string): (r: string)
    ensures |r| <= |s| && r == s[..|r|]
    ensures AllWhitespace(s[|r|..])
    ensures r == [] || !IsWhitespace(r[|r| - 1])
  {
    if s != [] && IsWhitespace(s[|s| - 1]) then TrimEnd(s[..|s| - 1]) else s
  }

  /** `r` is `s[i..i + |r|]` and everything around it is whitespace. */
  predicate TrimmedAt(s: string, r: string, i: int) {
    0 <= i <= |s| - |r| && r == s[i..i + |r|] && AllWhitespace(s[..i]) && AllWhitespace(s[i + |r|..])
  }

  /** `s.trim()`: `s` without its leading and trailing whitespace. */
  function Trim(s: string): (r: string)
    ensures exists i :: TrimmedAt(s, r, i)
    ensures r == [] || (!IsWhitespace(r[0]) && !IsWhitespace(r[|r| - 1]))
  {
    TrimmedAtFrom(s, TrimStart(s), TrimEnd(TrimStart(s)));
    TrimEnd(TrimStart(s))
  }

  /** Dropping a whitespace prefix and then a whitespace suffix leaves a slice with only
      whitespace around it. */
  lemma TrimmedAtFrom(s: string, t: string, r: string)
    requires |t| <= |s| && t == s[|s| - |t|..] && AllWhitespace(s[..|s| - |t|])
    requires |r| <= |t| && r == t[..|r|] && AllWhitespace(t[|r|..])
    ensures TrimmedAt(s, r, |s| - |t|)
  {
    SliceOfSuffix(s, t, r, |s| - |t|);
  }

  /** A prefix `r` of the suffix `t == s[i..]` is the slice `s[i..i + |r|]`, and what
      follows it in `t` is what follows it in `s`. */
  lemma SliceOfSuffix<T>(s: seq<T>, t: seq<T>, r: seq<T>, i: int)
    requires 0 <= i <= |s| && t == s[i..] && |r| <= |t| && r == t[..|r|]
    ensures r == s[i..i + |r|] && s[i + |r|..] == t[|r|..]
  {
  }

  lemma {:induction false} TrimStartBlank(s: string)
    requires AllWhitespace(s)
    ensures TrimStart(s) == []
  {
    if s != [] {
      TrimStartBlank(s[1..]);
    }
  }

  /** A line is blank (falsy after `trim`) exactly when all of it is whitespace. */
  lemma {:induction false} TrimEmptyIffBlank(s: string)
    ensures Trim(s) == [] <==> AllWhitespace(s)
  {
    if AllWhitespace(s) {
      TrimStartBlank(s);
    }
    if Trim(s) == [] {
      var i :| TrimmedAt(s, [], i);
      forall k | 0 <= k < |s| ensures IsWhitespace(s[k]) {
        if k < i {
          assert s[k] == s[..i][k];
        } else {
          assert s[k] == s[i..][k - i];
        }
      }
    }
  }

  // ---------------------------------------------------------------------------
  // split / join

  /** `s.split(sep)` for a one-character separator: always at least one piece, and no
      piece contains the separator. */
  function Split(s: string, sep: char): (r: seq<string>)
    ensures |r| >= 1
    ensures forall k :: 0 <= k < |r| ==> sep !in r[k]
  {
    if s == [] then [""]
    else
      var rest := Split(s[1..], sep);
      if s[0] == sep then [""] + rest
      else [[s[0]] + rest[0]] + rest[1..]
  }

  /** `parts.join(sep)`. */
  function Join(parts: seq<string>, sep: string): string {
    if |parts| == 0 then ""
    else if |parts| == 1 then parts[0]
    else parts[0] + sep + Join(parts[1..], sep)
  }

  /** A character in neither the pieces nor the separator is not in their join. */
  lemma {:induction false} JoinAvoids(parts: seq<string>, sep: string, c: char)
    requires c !in sep
    requires forall k :: 0 <= k < |parts| ==> c !in parts[k]
    ensures c !in Join(parts, sep)
  {
    if |parts| > 1 {
      JoinAvoids(parts[1..], sep, c);
    }
  }

  /** Joining the pieces of a split with the separator gives back the string. */
  lemma {:induction false} JoinSplit(s: string, sep: char)
    ensures Join(Split(s, sep), [sep]) == s
  {
    if s != [] {
      var rest := Split(s[1..], sep);
      JoinSplit(s[1..], sep);
      if s[0] == sep {
        assert Split(s, sep) == [""] + rest;
        assert Join(Split(s, sep), [sep]) == "" + [sep] + Join(rest, [sep]);
        assert s == [s[0]] + s[1..];
      } else {
        var r := Split(s, sep);
        assert r == [[s[0]] + rest[0]] + rest[1..];
        if |rest| == 1 {
          assert Join(r, [sep]) == [s[0]] + rest[0];
        } else {
          assert r[1..] == rest[1..];
          assert Join(r, [sep]) == [s[0]] + rest[0] + [sep] + Join(rest[1..], [sep]);
        }
        assert s == [s[0]] + s[1..];
      }
    }
  }

  /** Splitting a join of separator-free pieces gives back the pieces. */
  lemma {:induction false} SplitJoin(parts: seq<string>, sep: char)
    requires |parts| >= 1
    requires forall k :: 0 <= k < |parts| ==> sep !in parts[k]
    ensures Split(Join(parts, [sep]), sep) == parts
  {
    if |parts| == 1 {
      SplitNoSeparator(parts[0], sep);
    } else {
      SplitJoin(parts[1..], sep);
      SplitWithSeparator(parts[0], sep, Join(parts[1..], [sep]));
      assert Join(parts, [sep]) == parts[0] + [sep] + Join(parts[1..], [sep]);
      assert [parts[0]] + parts[1..] == parts;
    }
  }

  lemma {:induction false} SplitNoSeparator(s: string, sep: char)
    requires sep !in s
    ensures Split(s, sep) == [s]
  {
    if s != [] {
      SplitNoSeparator(s[1..], sep);
      assert [s[0]] + s[1..] == s;
    }
  }

  lemma {:induction false} SplitWithSeparator(a: string, sep: char, b: string)
    requires sep !in a
    ensures Split(a + [sep] + b, sep) == [a] + Split(b, sep)
  {
    var s := a + [sep] + b;
    if a == [] {
      assert s == [sep] + b;
      assert s[1..] == b;
    } else {
      assert s[1..] == a[1..] + [sep] + b;
      SplitWithSeparator(a[1..], sep, b);
      assert [a[0]] + a[1..] == a;
    }
  }

  function Last<T>(s: seq<T>): T
    requires |s| >= 1
  {
    s[|s| - 1]
  }

  /** `s.split(sep).pop()`: the last piece of the split. */
  function LastPiece(s: string, sep: char): string {
    Last(Split(s, sep))
  }

  /** `piece` is `s[k..]` and is preceded by the separator, unless it is all of `s`. */
  predicate SuffixAfterSeparator(s: string, piece: string, sep: char, k: int) {
    0 <= k <= |s| && piece == s[k..] && (k == 0 || s[k - 1] == sep)
  }

  /** The last piece is the text after the last separator, or the whole string when
      there is no separator. */
  lemma {:induction false} LastPieceIsSuffix(s: string, sep: char)
    ensures sep !in LastPiece(s, sep)
    ensures sep !in s ==> LastPiece(s, sep) == s
    ensures exists k :: SuffixAfterSeparator(s, LastPiece(s, sep), sep, k)
  {
    if sep !in s {
      SplitNoSeparator(s, sep);
      assert SuffixAfterSeparator(s, LastPiece(s, sep), sep, 0);
    } else {
      JoinSplit(s, sep);
      LastOfJoin(Split(s, sep), sep);
    }
  }

  /** A name ending in the separator and a separator-free extension has that extension
      as its last piece. */
  lemma LastPieceAfter(stem: string, sep: char, ext: string)
    requires sep !in ext
    ensures LastPiece(stem + [sep] + ext, sep) == ext
  {
    var s := stem + [sep] + ext;
    LastPieceIsSuffix(s, sep);
    var k :| SuffixAfterSeparator(s, LastPiece(s, sep), sep, k);
    assert s[|stem|] == sep;
    assert k == |stem| + 1;
    assert s[|stem| + 1..] == ext;
  }

  lemma {:induction false} LastOfJoin(parts: seq<string>, sep: char)
    requires |parts| >= 1
    ensures exists k :: SuffixAfterSeparator(Join(parts, [sep]), Last(parts), sep, k)
  {
    var s := Join(parts, [sep]);
    if |parts| == 1 {
      assert s == parts[0] && Last(parts) == parts[0];
      assert s[0..] == s;
      assert SuffixAfterSeparator(s, Last(parts), sep, 0);
    } else {
      LastOfJoin(parts[1..], sep);
      var t := Join(parts[1..], [sep]);
      var k :| SuffixAfterSeparator(t, Last(parts[1..]), sep, k);
      var off := |parts[0]| + 1;
      assert s == parts[0] + [sep] + t;
      assert s[off + k..] == t[k..];
      assert s[off + k - 1] == sep by {
        if k == 0 { assert s[off - 1] == sep; } else { assert s[off + k - 1] == t[k - 1]; }
      }
      assert Last(parts) == Last(parts[1..]);
      assert SuffixAfterSeparator(s, Last(parts), sep, off + k);
    }
  }

  // ---------------------------------------------------------------------------
  // startsWith / includes

  predicate StartsWith(s: string, prefix: string) {
    |prefix| <= |s| && s[..|prefix|] == prefix
  }

  /** `hay.includes(needle)`: `needle` occurs somewhere in `hay`. */
  predicate Contains(hay: string, needle: string) {
    StartsWith(hay, needle) || (hay != [] && Contains(hay[1..], needle))
  }

  predicate OccursAt(hay: string, needle: string, i: int) {
    0 <= i && i + |needle| <= |hay| && hay[i..i + |needle|] == needle
  }

  /** `includes` holds exactly when the needle occurs at some position. */
  lemma {:induction false} ContainsAt(hay: string, needle: string)
    ensures Contains(hay, needle) <==> exists i :: OccursAt(hay, needle, i)
  {
    if Contains(hay, needle) {
      var i := ContainsWitness(hay, needle);
    }
    if exists i :: OccursAt(hay, needle, i) {
      var i :| OccursAt(hay, needle, i);
      OccursContains(hay, needle, i);
    }
  }

  lemma {:induction false} ContainsWitness(hay: string, needle: string) returns (i: int)
    requires Contains(hay, needle)
    ensures OccursAt(hay, needle, i)
  {
    if StartsWith(hay, needle) {
      i := 0;
    } else {
      var j := ContainsWitness(hay[1..], needle);
      assert hay[j + 1..j + 1 + |needle|] == hay[1..][j..j + |needle|];
      i := j + 1;
    }
  }

  lemma {:induction false} OccursContains(hay: string, needle: string, i: int)
    requires OccursAt(hay, needle, i)
    ensures Contains(hay, needle)
    decreases i
  {
    if i > 0 {
      assert hay[1..][i - 1..i - 1 + |needle|] == hay[i..i + |needle|];
      OccursContains(hay[1..], needle, i - 1);
    }
  }

  /** Every string includes the empty string. */
  lemma ContainsEmpty(hay: string)
    ensures Contains(hay, "")
  {
  }

  /** The search test the list pages share,
      `a.toLowerCase().includes(term.toLowerCase()) || b?.toLowerCase().includes(...)`,
      with lower-casing the parameter `lower`; a missing second field does not match. */
  predicate SearchHit(first: string, second: Option<string>, term: string, lower: string -> string) {
    Contains(lower(first), lower(term)) || (second.Some? && Contains(lower(second.value), lower(term)))
  }

  /** With the empty search term every item matches. */
  lemma EmptyTermMatchesAll(first: string, second: Option<string>, lower: string -> string)
    requires lower("") == ""
    ensures SearchHit(first, second, "", lower)
  {
    ContainsEmpty(lower(first));
  }

  // ---------------------------------------------------------------------------
  // Decimal digits, number-to-string, parseInt

  predicate IsDigit(c: char) { '0' <= c <= '9' }

  function DigitChar(d: nat): (c: char)
    requires d < 10
    ensures IsDigit(c) && c as int - '0' as int == d
  {
    (48 + d) as char
  }

  /** `String(n)` for a non-negative integer: its decimal digits, without leading zeros. */
  function NatToString(n: nat): (r: string)
    ensures |r| >= 1 && forall i :: 0 <= i < |r| ==> IsDigit(r[i])
    ensures r[0] == '0' ==> n == 0 && r == "0"
  {
    if n < 10 then [DigitChar(n)] else NatToString(n / 10) + [DigitChar(n % 10)]
  }

  /** `String(i)` / `i.toString()` for any integer. */
  function IntToString(i: int): string {
    if i < 0 then "-" + NatToString(-i) else NatToString(i)
  }

  lemma {:induction false} ValueOfNatToString(n: nat)
    ensures ValueIn(NatToString(n), false) == n
  {
    if n >= 10 {
      ValueOfNatToString(n / 10);
      var s := NatToString(n);
      assert s[..|s| - 1] == NatToString(n / 10);
    }
  }

  /** The longest prefix of `s` whose characters satisfy `ok`. */
  function TakeWhileDigits(s: string, hex: bool): (r: string)
    ensures |r| <= |s| && r == s[..|r|]
    ensures forall i :: 0 <= i < |r| ==> IsDigitIn(r[i], hex)
    ensures |r| < |s| ==> !IsDigitIn(s[|r|], hex)
  {
    if s != [] && IsDigitIn(s[0], hex) then [s[0]] + TakeWhileDigits(s[1..], hex) else []
  }

  predicate IsHexLetter(c: char) { ('a' <= c <= 'f') || ('A' <= c <= 'F') }

  predicate IsDigitIn(c: char, hex: bool) { IsDigit(c) || (hex && IsHexLetter(c)) }

  function DigitValueIn(c: char): nat
  {
    if IsDigit(c) then c as int - '0' as int
    else if 'a' <= c <= 'f' then c as int - 'a' as int + 10
    else if 'A' <= c <= 'F' then c as int - 'A' as int + 10
    else 0
  }

  /** The value of a digit string in base 10 or 16. */
  function ValueIn(s: string, hex: bool): nat {
    if s == [] then 0
    else (if hex then 16 else 10) * ValueIn(s[..|s| - 1], hex) + DigitValueIn(s[|s| - 1])
  }

  /** `parseInt(s)` without a radix: leading whitespace is skipped, an optional sign is
      read, a `0x`/`0X` prefix selects base 16, and the longest run of digits that
      follows is the value; with no digits the result is NaN, here `None`. */
  function ParseInt(s: string): Option<int> {
    var t := TrimStart(s);
    if t != [] && t[0] == '-' then
      match ParseUnsigned(t[1..])
      case Some(v) => Some(-v)
      case None => None
    else if t != [] && t[0] == '+' then ParseUnsigned(t[1..])
    else ParseUnsigned(t)
  }

  function ParseUnsigned(u: string): Option<int> {
    if |u| >= 2 && u[0] == '0' && (u[1] == 'x' || u[1] == 'X') then ParseDigits(u[2..], true)
    else ParseDigits(u, false)
  }

  function ParseDigits(b: string, hex: bool): Option<int> {
    var d := TakeWhileDigits(b, hex);
    if d == [] then None else Some(ValueIn(d, hex))
  }

  lemma {:induction false} TakeWhileAll(s: string, hex: bool)
    requires forall i :: 0 <= i < |s| ==> IsDigitIn(s[i], hex)
    ensures TakeWhileDigits(s, hex) == s
  {
    if s != [] {
      TakeWhileAll(s[1..], hex);
    }
  }

  /** `parseInt` of a string of decimal digits that is not a `0x` prefix. */
  lemma {:induction false} ParseUnsignedDigits(s: string)
    requires |s| >= 1 && forall i :: 0 <= i < |s| ==> IsDigit(s[i])
    requires |s| >= 2 ==> s[0] != '0'
    ensures ParseUnsigned(s) == Some(ValueIn(s, false))
  {
    TakeWhileAll(s, false);
  }

  /** `parseInt(String(n)) === n`: number-to-string and parseInt round-trip. */
  lemma {:induction false} ParseIntNatToString(n: nat)
    ensures ParseInt(NatToString(n)) == Some(n)
  {
    var d := NatToString(n);
    DigitIsPlain(d[0]);
    assert TrimStart(d) == d;
    assert ParseInt(d) == ParseUnsigned(d);
    ParseUnsignedDigits(d);
    ValueOfNatToString(n);
  }

  lemma DigitIsPlain(c: char)
    requires IsDigit(c)
    ensures !IsWhitespace(c) && c != '-' && c != '+'
  {
  }

  lemma {:induction false} ParseIntIntToString(i: int)
    ensures ParseInt(IntToString(i)) == Some(i)
  {
    if i < 0 {
      var d := NatToString(-i);
      var w := "-" + d;
      assert IntToString(i) == w;
      assert TrimStart(w) == w;
      assert w[1..] == d;
      ParseUnsignedDigits(d);
      ValueOfNatToString(-i);
      assert ParseUnsigned(w[1..]) == Some(-i);
    } else {
      ParseIntNatToString(i);
    }
  }

  /** `String(n)` is injective, so comparing decimal strings compares the numbers. */
  lemma {:induction false} NatToStringInjective(m: nat, n: nat)
    ensures NatToString(m) == NatToString(n) <==> m == n
  {
    if NatToString(m) == NatToString(n) {
      ValueOfNatToString(m);
      ValueOfNatToString(n);
    }
  }
}

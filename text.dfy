/** Python `str` operations the portal monitor relies on, over Dafny strings. */
module Text {

  /** Python's `str.isspace` for one character (the set `str.strip()` and
      `str.split()` treat as whitespace). */
  predicate IsSpace(c: char) {
    c == ' ' || '\t' <= c <= '\r' || '\U{1C}' <= c <= '\U{1F}' || c == '\U{85}' || c == '\U{A0}'
    || c == '\U{1680}' || '\U{2000}' <= c <= '\U{200A}' || c == '\U{2028}' || c == '\U{2029}'
    || c == '\U{202F}' || c == '\U{205F}' || c == '\U{3000}'
  }

  predicate IsAsciiAlnum(c: char) {
    'A' <= c <= 'Z' || 'a' <= c <= 'z' || '0' <= c <= '9'
  }

  /** The number of whitespace characters `s` starts with. */
  function LeadingSpaces(s: string): (n: nat)
    ensures n <= |s|
    ensures forall i :: 0 <= i < n ==> IsSpace(s[i])
    ensures n < |s| ==> !IsSpace(s[n])
  {
    if s != [] && IsSpace(s[0]) then
      var n := 1 + LeadingSpaces(s[1..]);
      assert forall i :: 1 <= i < n ==> s[i] == s[1..][i - 1];
      n
    else 0
  }

  /** The number of whitespace characters `s` ends with. */
  function TrailingSpaces(s: string): (n: nat)
    ensures n <= |s|
    ensures forall i :: |s| - n <= i < |s| ==> IsSpace(s[i])
    ensures n < |s| ==> !IsSpace(s[|s| - n - 1])
  {
    if s != [] && IsSpace(s[|s| - 1]) then
      var n := 1 + TrailingSpaces(s[..|s| - 1]);
      assert forall i :: |s| - n <= i < |s| - 1 ==> s[i] == s[..|s| - 1][i];
      n
    else 0
  }

  /** `s.lstrip()`: leading whitespace removed. */
  function LStrip(s: string): (r: string)
    ensures |r| <= |s| && r == s[|s| - |r|..]
    ensures r != [] ==> !IsSpace(r[0])
    ensures forall i :: 0 <= i < |s| - |r| ==> IsSpace(s[i])
  {
    s[LeadingSpaces(s)..]
  }

  /** Where `s.strip()` starts in `s`: the length of the leading whitespace. */
  function StripStart(s: string): nat
  {
    LeadingSpaces(s)
  }

  /** `s.strip()`: the slice of `s` between its leading and trailing whitespace. */
  function Strip(s: string): (r: string)
    ensures r != [] ==> !IsSpace(r[0]) && !IsSpace(r[|r| - 1])
    ensures r == [] <==> forall i :: 0 <= i < |s| ==> IsSpace(s[i])
    ensures StripStart(s) + |r| <= |s| && r == s[StripStart(s)..StripStart(s) + |r|]
    ensures forall i :: 0 <= i < StripStart(s) ==> IsSpace(s[i])
    ensures forall i :: StripStart(s) + |r| <= i < |s| ==> IsSpace(s[i])
    ensures s != [] && !IsSpace(s[0]) && !IsSpace(s[|s| - 1]) ==> r == s
  {
    var a := LeadingSpaces(s);
    if a == |s| then []
    else
      var t := TrailingSpaces(s);
      assert a < |s| - t;
      s[a..|s| - t]
  }

  lemma StripIdempotent(s: string)
    ensures Strip(Strip(s)) == Strip(s)
  {
  }

  /** `s.lstrip(c)` for a single character `c`. */
  function LStripChar(s: string, c: char): (r: string)
    ensures |r| <= |s| && r == s[|s| - |r|..]
    ensures r != [] ==> r[0] != c
    ensures forall i :: 0 <= i < |s| - |r| ==> s[i] == c
  {
    if s != [] && s[0] == c then LStripChar(s[1..], c) else s
  }

  /** `s.replace(a, b)` for single characters. */
  function ReplaceChar(s: string, a: char, b: char): (r: string)
    ensures |r| == |s|
    ensures forall i :: 0 <= i < |s| ==> r[i] == if s[i] == a then b else s[i]
  {
    if s == [] then [] else [if s[0] == a then b else s[0]] + ReplaceChar(s[1..], a, b)
  }

  /** ASCII case mapping of one character; every other character is kept. */
  function LowerChar(c: char): (d: char)
  {
    if 'A' <= c <= 'Z' then (c as int + 32) as char else c
  }

  function Lower(s: string): (r: string)
    ensures |r| == |s|
    ensures forall i :: 0 <= i < |s| ==> r[i] == LowerChar(s[i])
  {
    seq(|s|, i requires 0 <= i < |s| => LowerChar(s[i]))
  }

  predicate StartsWith(s: string, t: string) {
    |t| <= |s| && s[..|t|] == t
  }

  /** Python's `t in s` for strings. */
  predicate Contains(s: string, t: string)
    decreases |s|
  {
    StartsWith(s, t) || (s != [] && Contains(s[1..], t))
  }

  /** `sep.join(parts)`. */
  function Join(parts: seq<string>, sep: string): string
  {
    if parts == [] then "" else if |parts| == 1 then parts[0] else parts[0] + sep + Join(parts[1..], sep)
  }

  /** The first line of a joined list is the list's first element. */
  lemma {:induction false} JoinStartsWithFirst(parts: seq<string>, sep: string)
    requires parts != []
    ensures StartsWith(Join(parts, sep), parts[0])
  {
  }

  /** Appending one element to a non-empty list appends a separator and that element. */
  lemma {:induction false} JoinSnoc(parts: seq<string>, x: string, sep: string)
    requires parts != []
    ensures Join(parts + [x], sep) == Join(parts, sep) + sep + x
    decreases |parts|
  {
    if |parts| == 1 {
      assert parts + [x] == [parts[0], x];
    } else {
      assert (parts + [x])[1..] == parts[1..] + [x];
      JoinSnoc(parts[1..], x, sep);
    }
  }

  predicate IsWord(w: string) {
    w != [] && forall j :: 0 <= j < |w| ==> !IsSpace(w[j])
  }

  /** The longest prefix of `s` without whitespace. */
  function Word(s: string): (w: string)
    ensures |w| <= |s| && w == s[..|w|]
    ensures forall i :: 0 <= i < |w| ==> !IsSpace(w[i])
    ensures |w| < |s| ==> IsSpace(s[|w|])
    ensures s != [] && !IsSpace(s[0]) ==> w != []
  {
    if s == [] || IsSpace(s[0]) then [] else [s[0]] + Word(s[1..])
  }

  /** `s.split()`: the maximal runs of non-whitespace characters, in order. */
  function Split(s: string): (parts: seq<string>)
    ensures forall p :: p in parts ==> IsWord(p)
    ensures parts == [] <==> forall i :: 0 <= i < |s| ==> IsSpace(s[i])
    decreases |s|
  {
    var t := LStrip(s);
    if t == [] then []
    else
      var w := Word(t);
      assert t[0] == s[|s| - |t|];
      [w] + Split(t[|w|..])
  }

  /** Whitespace is only `' '`, used singly, never at either end. */
  ghost predicate SingleSpaced(t: string) {
    && t != []
    && !IsSpace(t[0]) && !IsSpace(t[|t| - 1])
    && (forall i :: 0 <= i < |t| ==> IsSpace(t[i]) ==> t[i] == ' ')
    && (forall i, j :: 0 <= i < j < |t| && j == i + 1 ==> t[i] == ' ' ==> t[j] != ' ')
  }

  /** A string that starts with a non-space splits into its first word and the split of the rest. */
  lemma SplitFromWord(t: string)
    requires t != [] && !IsSpace(t[0])
    ensures Split(t) == [Word(t)] + Split(t[|Word(t)|..])
  {
    assert LStrip(t) == t;
  }

  /** One leading space before a non-space does not change the split. */
  lemma SplitAfterSpace(u: string)
    requires |u| >= 2 && IsSpace(u[0]) && !IsSpace(u[1])
    ensures Split(u) == Split(u[1..])
  {
    assert LStrip(u[1..]) == u[1..];
    assert LStrip(u) == u[1..];
  }

  lemma {:induction false} ReplaceCharConcat(a: string, b: string, x: char, y: char)
    ensures ReplaceChar(a + b, x, y) == ReplaceChar(a, x, y) + ReplaceChar(b, x, y)
  {
    var l, r := ReplaceChar(a + b, x, y), ReplaceChar(a, x, y) + ReplaceChar(b, x, y);
    forall i | 0 <= i < |l| ensures l[i] == r[i] {
      if i < |a| {
        assert (a + b)[i] == a[i];
      } else {
        assert (a + b)[i] == b[i - |a|];
      }
    }
  }

  lemma ReplaceCharAbsent(s: string, a: char, b: char)
    requires forall i :: 0 <= i < |s| ==> s[i] != a
    ensures ReplaceChar(s, a, b) == s
  {
  }

  lemma SplitAround(t: string, n: nat)
    requires n < |t|
    ensures t == t[..n] + [t[n]] + t[n + 1..]
  {
  }

  lemma JoinCons(w: string, rest: seq<string>, sep: string)
    requires rest != []
    ensures Join([w] + rest, sep) == w + sep + Join(rest, sep)
  {
    assert ([w] + rest)[1..] == rest;
  }

  /** What follows the first space of a single-spaced string is single-spaced. */
  lemma SingleSpacedTail(t: string, n: nat)
    requires SingleSpaced(t) && n < |t| && t[n] == ' '
    ensures n + 1 < |t| && SingleSpaced(t[n + 1..])
  {
    var rest := t[n + 1..];
    assert n + 1 < |t|;
    assert forall i :: 0 <= i < |rest| ==> rest[i] == t[n + 1 + i];
  }

  /** On a single-spaced string, `"_".join(t.split())` turns each space into `_`. */
  lemma {:induction false} JoinSplitSingleSpaced(t: string)
    requires SingleSpaced(t)
    ensures Join(Split(t), "_") == ReplaceChar(t, ' ', '_')
    decreases |t|
  {
    var w := Word(t);
    WordHasNoSpace(t);
    if |w| == |t| {
      SplitOneWord(t);
    } else {
      var rest := SplitSingleSpacedStep(t);
      JoinSplitSingleSpaced(rest);
      JoinSplitStep(t, w, rest);
    }
  }

  lemma WordHasNoSpace(t: string)
    ensures forall i :: 0 <= i < |Word(t)| ==> Word(t)[i] != ' '
  {
    var w := Word(t);
    forall i | 0 <= i < |w| ensures w[i] != ' ' {
      assert !IsSpace(w[i]);
    }
  }

  /** A string that is one word splits into itself, and has no space to replace. */
  lemma SplitOneWord(t: string)
    requires t != [] && !IsSpace(t[0]) && |Word(t)| == |t|
    ensures Split(t) == [t]
    ensures Join(Split(t), "_") == ReplaceChar(t, ' ', '_')
  {
    SplitFromWord(t);
    assert Word(t) == t && t[|t|..] == [];
    assert Split([]) == [];
    WordHasNoSpace(t);
    ReplaceCharAbsent(t, ' ', '_');
    assert Join([t], "_") == t;
  }

  /** A single-spaced string with a space is its first word, one space and a single-spaced rest. */
  lemma SplitSingleSpacedStep(t: string) returns (rest: string)
    requires SingleSpaced(t) && |Word(t)| < |t|
    ensures SingleSpaced(rest) && |rest| < |t|
    ensures t == Word(t) + " " + rest
    ensures Split(rest) != [] && Split(t) == [Word(t)] + Split(rest)
  {
    var w := Word(t);
    var n := |w|;
    SplitFromWord(t);
    assert t[n] == ' ';
    SingleSpacedTail(t, n);
    rest := t[n + 1..];
    SplitAfterSpace(t[n..]);
    assert t[n..][1..] == rest;
    SplitAround(t, n);
    assert rest[0] == t[n + 1];
  }

  /** One word, a space and a rest whose split already joins correctly. */
  lemma JoinSplitStep(t: string, w: string, rest: string)
    requires t == w + " " + rest
    requires forall i :: 0 <= i < |w| ==> w[i] != ' '
    requires Split(rest) != [] && Split(t) == [w] + Split(rest)
    requires Join(Split(rest), "_") == ReplaceChar(rest, ' ', '_')
    ensures Join(Split(t), "_") == ReplaceChar(t, ' ', '_')
  {
    JoinCons(w, Split(rest), "_");
    ReplaceCharAbsent(w, ' ', '_');
    ReplaceCharConcat(w + " ", rest, ' ', '_');
    ReplaceCharConcat(w, " ", ' ', '_');
    assert ReplaceChar(" ", ' ', '_') == "_";
  }

  function DigitChar(d: nat): (c: char)
    requires d < 10
    ensures '0' <= c <= '9'
  {
    ('0' as int + d) as char
  }

  /** `str(n)` for a non-negative integer. */
  function NatToString(n: nat): (r: string)
    ensures r != []
    ensures forall i :: 0 <= i < |r| ==> '0' <= r[i] <= '9'
  {
    if n < 10 then [DigitChar(n)] else NatToString(n / 10) + [DigitChar(n % 10)]
  }

  /** Joining two non-empty lists puts one separator between their joins. */
  lemma {:induction false} JoinAppend(a: seq<string>, b: seq<string>, sep: string)
    requires a != [] && b != []
    ensures Join(a + b, sep) == Join(a, sep) + sep + Join(b, sep)
    decreases |a|
  {
    if |a| == 1 {
      assert (a + b)[1..] == b;
    } else {
      assert (a + b)[1..] == a[1..] + b;
      JoinAppend(a[1..], b, sep);
    }
  }

  /** Stripping a text that starts with a word keeps that word in front. */
  lemma StripKeepsPrefix(p: string, q: string)
    requires p != [] && !IsSpace(p[0]) && !IsSpace(p[|p| - 1])
    ensures StartsWith(Strip(p + q), p)
  {
    var s := p + q;
    assert s[|p| - 1] == p[|p| - 1];
    assert LeadingSpaces(s) == 0;
    var t := TrailingSpaces(s);
    assert t <= |q|;
    assert Strip(s) == s[..|s| - t];
    assert s[..|p|] == p;
  }

  /** How many characters of `s` come before its first `c`; `|s|` when there is none. */
  function CountBefore(s: string, c: char): (n: nat)
    ensures n <= |s|
    ensures forall i :: 0 <= i < n ==> s[i] != c
    ensures n < |s| ==> s[n] == c
  {
    if s == [] || s[0] == c then 0 else 1 + CountBefore(s[1..], c)
  }

  /** `s.split("\n")`. */
  function SplitLines(s: string): (ls: seq<string>)
    ensures ls != []
    ensures forall l :: l in ls ==> '\n' !in l
    decreases |s|
  {
    var n := CountBefore(s, '\n');
    if n == |s| then [s] else [s[..n]] + SplitLines(s[n + 1..])
  }

  /** Lines joined with line breaks split back into the same lines. */
  lemma {:induction false} SplitLinesJoin(ls: seq<string>)
    requires ls != []
    requires forall l :: l in ls ==> '\n' !in l
    ensures SplitLines(Join(ls, "\n")) == ls
    decreases |ls|
  {
    var first := ls[0];
    assert first in ls;
    if |ls| == 1 {
      assert CountBefore(first, '\n') == |first|;
    } else {
      var rest := Join(ls[1..], "\n");
      var s := Join(ls, "\n");
      assert s == first + "\n" + rest;
      assert forall i :: 0 <= i < |first| ==> s[i] == first[i];
      assert s[|first|] == '\n';
      assert CountBefore(s, '\n') == |first|;
      assert s[..|first|] == first;
      assert s[|first| + 1..] == rest;
      assert forall l :: l in ls[1..] ==> l in ls;
      SplitLinesJoin(ls[1..]);
    }
  }
}

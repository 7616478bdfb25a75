/** The JavaScript string primitives the editor calls (`trim`, `split('\n')`,
    `startsWith`, `endsWith`, and the search for a fixed text behind
    `includes`) as total functions on strings, with `JoinLines`, the inverse
    of `SplitLines`, and the facts about them that the parsers' proofs use. */
module Text {
  import opened Wrappers

  /** The ECMAScript WhiteSpace and LineTerminator code points: what `trim`
      removes and what `\s` matches in a regular expression. */
  predicate IsSpace(c: char) {
    || c == ' ' || c == '\t' || c == '\n' || c == '\r' || c == '\U{000B}' || c == '\U{000C}'
    || c == '\U{00A0}' || c == '\U{1680}' || ('\U{2000}' <= c <= '\U{200A}')
    || c == '\U{2028}' || c == '\U{2029}' || c == '\U{202F}' || c == '\U{205F}'
    || c == '\U{3000}' || c == '\U{FEFF}'
  }

  /** The LineTerminator code points: the characters a regular-expression `.`
      does not match and after which a multiline `^` matches. */
  predicate IsLineTerminator(c: char) {
    c == '\n' || c == '\r' || c == '\U{2028}' || c == '\U{2029}'
  }

  lemma {:induction false} LineTerminatorIsSpace(c: char)
    requires IsLineTerminator(c)
    ensures IsSpace(c)
  {
  }

  predicate AllSpace(s: string) {
    forall i {:trigger IsSpace(s[i])} :: 0 <= i < |s| ==> IsSpace(s[i])
  }

  /** No line terminator at all: the text fits on one line. */
  predicate SingleLine(s: string) {
    forall i {:trigger IsLineTerminator(s[i])} :: 0 <= i < |s| ==> !IsLineTerminator(s[i])
  }

  /** Line breaks, if any, are `\n`: no `\r`, U+2028 or U+2029. */
  predicate OnlyNewlineBreaks(s: string) {
    forall i {:trigger IsLineTerminator(s[i])} :: 0 <= i < |s| ==> (IsLineTerminator(s[i]) ==> s[i] == '\n')
  }

  /** `s.trimStart()` */
  function TrimStart(s: string): (r: string)
    ensures |r| <= |s|
    ensures r == [] || (!IsSpace(r[0]) && r[|r| - 1] == s[|s| - 1])
  {
    if s != [] && IsSpace(s[0]) then TrimStart(s[1..]) else s
  }

  /** `s.trimEnd()` */
  function TrimEnd(s: string): (r: string)
    ensures |r| <= |s|
    ensures r == [] || (!IsSpace(r[|r| - 1]) && r[0] == s[0])
  {
    if s != [] && IsSpace(s[|s| - 1]) then TrimEnd(s[..|s| - 1]) else s
  }

  /** `trimStart` keeps a suffix and what it drops is white space. */
  lemma {:induction false} TrimStartDrops(s: string)
    ensures TrimStart(s) == s[|s| - |TrimStart(s)|..]
    ensures AllSpace(s[..|s| - |TrimStart(s)|])
  {
    if s != [] && IsSpace(s[0]) {
      TrimStartDrops(s[1..]);
      var r := TrimStart(s);
      assert s[..|s| - |r|] == [s[0]] + s[1..][..|s| - 1 - |r|];
    }
  }

  /** `trimEnd` keeps a prefix and what it drops is white space. */
  lemma {:induction false} TrimEndDrops(s: string)
    ensures TrimEnd(s) == s[..|TrimEnd(s)|]
    ensures AllSpace(s[|TrimEnd(s)|..])
  {
    if s != [] && IsSpace(s[|s| - 1]) {
      TrimEndDrops(s[..|s| - 1]);
      var r := TrimEnd(s);
      assert s[|r|..] == s[..|s| - 1][|r|..] + [s[|s| - 1]];
    }
  }

  /** `s.trim()`: the text between the leading and the trailing white space. */
  function Trim(s: string): (r: string)
    ensures r == [] || (!IsSpace(r[0]) && !IsSpace(r[|r| - 1]))
  {
    TrimEnd(TrimStart(s))
  }

  /** Trimming leaves nothing exactly when the text is all white space. */
  lemma TrimEmpty(s: string)
    ensures Trim(s) == [] <==> AllSpace(s)
  {
    var t := TrimStart(s);
    TrimStartDrops(s);
    TrimEndDrops(t);
    var r := TrimEnd(t);
    if r == [] {
      assert t == [] by { assert AllSpace(t[|r|..]); }
      assert s[..|s| - |t|] == s;
    } else {
      assert s[|s| - |t|] == t[0] && t[0] == r[0];
    }
  }

  /** A text that starts with a non-space character loses only trailing white space. */
  lemma {:induction false} TrimOfNonSpaceStart(s: string)
    requires s != [] && !IsSpace(s[0])
    ensures Trim(s) == TrimEnd(s) && Trim(s) != [] && Trim(s)[0] == s[0]
  {
    assert TrimStart(s) == s;
    TrimEndDrops(s);
    assert s[|TrimEnd(s)|..] == s || TrimEnd(s) != [];
  }

  /** A text that ends with a non-space character loses nothing at its end. */
  lemma TrimEndOfNonSpaceEnd(s: string)
    requires s != [] && !IsSpace(s[|s| - 1])
    ensures TrimEnd(s) == s
  {
  }

  lemma {:induction false} TrimStartOfSpaces(a: string, x: string)
    requires AllSpace(a)
    ensures TrimStart(a + x) == TrimStart(x)
  {
    if a != [] {
      assert (a + x)[0] == a[0] && (a + x)[1..] == a[1..] + x;
      TrimStartOfSpaces(a[1..], x);
    } else {
      assert a + x == x;
    }
  }

  lemma {:induction false} TrimEndOfSpaces(x: string, b: string)
    requires AllSpace(b)
    ensures TrimEnd(x + b) == TrimEnd(x)
  {
    if b != [] {
      assert (x + b)[|x + b| - 1] == b[|b| - 1];
      assert (x + b)[..|x + b| - 1] == x + b[..|b| - 1];
      TrimEndOfSpaces(x, b[..|b| - 1]);
    } else {
      assert x + b == x;
    }
  }

  /** Trimming cuts only into the trailing part when the front keeps a
      non-space character further right. */
  lemma {:induction false} TrimEndAppend(a: string, b: string)
    requires TrimEnd(b) != []
    ensures TrimEnd(a + b) == a + TrimEnd(b)
  {
    assert (a + b)[|a + b| - 1] == b[|b| - 1];
    if IsSpace(b[|b| - 1]) {
      assert (a + b)[..|a + b| - 1] == a + b[..|b| - 1];
      TrimEndAppend(a, b[..|b| - 1]);
    }
  }

  lemma {:induction false} TrimStartAppend(a: string, b: string)
    requires TrimStart(a) != []
    ensures TrimStart(a + b) == TrimStart(a) + b
  {
    assert (a + b)[0] == a[0];
    if IsSpace(a[0]) {
      assert (a + b)[1..] == a[1..] + b;
      TrimStartAppend(a[1..], b);
    }
  }

  /** The partner of `Trim`: the trimmed text is the unique core between
      white space that starts and ends with a non-space character. */
  lemma {:induction false} TrimExact(a: string, m: string, b: string)
    requires AllSpace(a) && AllSpace(b)
    requires m == [] || (!IsSpace(m[0]) && !IsSpace(m[|m| - 1]))
    ensures Trim(a + m + b) == m
  {
    assert a + m + b == a + (m + b);
    TrimStartOfSpaces(a, m + b);
    if m == [] {
      assert m + b == b;
      assert TrimStart(b) == [] by { TrimStartDrops(b); }
    } else {
      assert TrimStart(m + b) == m + b;
      TrimEndOfSpaces(m, b);
    }
  }

  lemma {:induction false} TrimIdempotent(s: string)
    ensures Trim(Trim(s)) == Trim(s)
  {
    TrimExact([], Trim(s), []);
    assert [] + Trim(s) + [] == Trim(s);
  }

  /** Trimming after appending white space changes nothing. */
  lemma {:induction false} TrimAppendSpaces(s: string, b: string)
    requires AllSpace(b)
    ensures Trim(s + b) == Trim(s)
  {
    var t := TrimStart(s);
    if t == [] {
      TrimStartDrops(s);
      assert s[..|s| - |t|] == s;
      TrimEmpty(s);
      TrimEmpty(s + b);
      assert AllSpace(s + b) by {
        forall i | 0 <= i < |s + b| ensures IsSpace((s + b)[i]) {
          if i < |s| { assert (s + b)[i] == s[i]; } else { assert (s + b)[i] == b[i - |s|]; }
        }
      }
    } else {
      TrimStartAppend(s, b);
      TrimEndOfSpaces(t, b);
    }
  }

  /** A final `\n` does not survive trimming. */
  lemma {:induction false} TrimNewline(s: string)
    ensures Trim(s + "\n") == Trim(s)
  {
    assert AllSpace("\n");
    TrimAppendSpaces(s, "\n");
  }

  // ---------------------------------------------------------------------------
  // Searching

  predicate StartsWith(s: string, p: string) {
    |p| <= |s| && s[..|p|] == p
  }

  predicate EndsWith(s: string, p: string) {
    |p| <= |s| && s[|s| - |p|..] == p
  }

  /** `s.indexOf(p)`, with `None` for -1: the leftmost occurrence. */
  function IndexOf(s: string, p: string): (r: Option<nat>)
    ensures r.Some? ==> r.value + |p| <= |s| && StartsWith(s[r.value..], p)
    decreases |s|
  {
    if StartsWith(s, p) then Some(0)
    else if s == [] then None
    else
      match IndexOf(s[1..], p)
      case None => None
      case Some(k) =>
        assert s[k + 1..] == s[1..][k..];
        Some(k + 1)
  }

  /** The occurrence `indexOf` finds is the leftmost one, and `None` means
      there is none. */
  lemma {:induction false} IndexOfLeftmost(s: string, p: string)
    ensures var r := IndexOf(s, p);
      && (r.Some? ==> forall k :: 0 <= k < r.value ==> !StartsWith(s[k..], p))
      && (r.None? ==> forall k :: 0 <= k <= |s| ==> !StartsWith(s[k..], p))
    decreases |s|
  {
    if !StartsWith(s, p) && s != [] {
      IndexOfLeftmost(s[1..], p);
      forall k | 1 <= k <= |s| ensures s[k..] == s[1..][k - 1..] { }
    }
  }

  /** An occurrence with none before it is the one `indexOf` finds. */
  lemma IndexOfAt(s: string, p: string, k: nat)
    requires k <= |s| && StartsWith(s[k..], p)
    requires forall j :: 0 <= j < k ==> !StartsWith(s[j..], p)
    ensures IndexOf(s, p) == Some(k)
  {
    IndexOfLeftmost(s, p);
  }

  /** `s.includes(p)` */
  predicate Contains(s: string, p: string) {
    IndexOf(s, p).Some?
  }

  /** Any occurrence makes `includes` true. */
  lemma ContainsAt(s: string, p: string, k: nat)
    requires k <= |s| && StartsWith(s[k..], p)
    ensures Contains(s, p)
  {
    IndexOfLeftmost(s, p);
  }

  /** Index of the first `c` in `s`, or `|s|` when there is none. */
  function IndexOfChar(s: string, c: char): (r: nat)
    ensures r <= |s| && (r < |s| ==> s[r] == c)
  {
    IndexOfCharFrom(s, c, 0)
  }

  /** Index of the first `c` in `s` at or after `from`, or `|s|` when there
      is none. */
  function IndexOfCharFrom(s: string, c: char, from: nat): (r: nat)
    requires from <= |s|
    ensures from <= r <= |s| && (r < |s| ==> s[r] == c)
    decreases |s| - from
  {
    if from == |s| then |s| else if s[from] == c then from else IndexOfCharFrom(s, c, from + 1)
  }

  /** No `c` comes before the index found. */
  lemma IndexOfCharFirst(s: string, c: char)
    ensures forall k :: 0 <= k < IndexOfChar(s, c) ==> s[k] != c
  {
    IndexOfCharFromFirst(s, c, 0);
  }

  lemma {:induction false} IndexOfCharFromFirst(s: string, c: char, from: nat)
    requires from <= |s|
    ensures forall k :: from <= k < IndexOfCharFrom(s, c, from) ==> s[k] != c
    decreases |s| - from
  {
    if from < |s| && s[from] != c {
      IndexOfCharFromFirst(s, c, from + 1);
    }
  }

  /** Length of the longest prefix without a line terminator: how far a
      regular-expression `.*` reaches. */
  function LineLength(s: string): (r: nat)
    ensures r <= |s| && (r < |s| ==> IsLineTerminator(s[r]))
  {
    LineEnd(s, 0)
  }

  /** Index of the first line terminator in `s` at or after `from`, or `|s|`
      when there is none. */
  function LineEnd(s: string, from: nat): (r: nat)
    requires from <= |s|
    ensures from <= r <= |s| && (r < |s| ==> IsLineTerminator(s[r]))
    decreases |s| - from
  {
    if from == |s| || IsLineTerminator(s[from]) then from else LineEnd(s, from + 1)
  }

  /** What `.*` reaches holds no line terminator. */
  lemma LineLengthLine(s: string)
    ensures SingleLine(s[..LineLength(s)])
  {
    var r := LineLength(s);
    LineEndFirst(s, 0);
    assert forall i :: 0 <= i < r ==> s[..r][i] == s[i];
  }

  lemma {:induction false} LineEndFirst(s: string, from: nat)
    requires from <= |s|
    ensures forall k :: from <= k < LineEnd(s, from) ==> !IsLineTerminator(s[k])
    decreases |s| - from
  {
    if from < |s| && !IsLineTerminator(s[from]) {
      LineEndFirst(s, from + 1);
    }
  }

  lemma LineLengthOfLine(l: string, rest: string)
    requires SingleLine(l)
    requires rest == [] || IsLineTerminator(rest[0])
    ensures LineLength(l + rest) == |l|
  {
    LineEndOfLine(l, rest, 0);
  }

  lemma {:induction false} LineEndOfLine(l: string, rest: string, from: nat)
    requires SingleLine(l)
    requires rest == [] || IsLineTerminator(rest[0])
    requires from <= |l|
    ensures LineEnd(l + rest, from) == |l|
    decreases |l| - from
  {
    var s := l + rest;
    if from < |l| {
      assert s[from] == l[from];
      LineEndOfLine(l, rest, from + 1);
    } else if rest != [] {
      assert s[from] == rest[0];
    }
  }

  // ---------------------------------------------------------------------------
  // Lines

  /** `s.split('\n')` */
  function SplitLines(s: string): (ls: seq<string>)
    ensures |ls| >= 1
    decreases |s|
  {
    var k := IndexOfChar(s, '\n');
    if k == |s| then [s] else [s[..k]] + SplitLines(s[k + 1..])
  }

  /** No line of `s.split('\n')` holds a `\n`. */
  lemma {:induction false} SplitLinesNoNewline(s: string)
    ensures var ls := SplitLines(s); forall i :: 0 <= i < |ls| ==> '\n' !in ls[i]
    decreases |s|
  {
    var k := IndexOfChar(s, '\n');
    IndexOfCharFirst(s, '\n');
    if k < |s| {
      SplitLinesNoNewline(s[k + 1..]);
      var ls := SplitLines(s);
      assert ls == [s[..k]] + SplitLines(s[k + 1..]);
      forall i | 0 <= i < |ls| ensures '\n' !in ls[i] {
        if i > 0 { assert ls[i] == SplitLines(s[k + 1..])[i - 1]; }
      }
    }
  }

  /** `ls.join('\n')` */
  function JoinLines(ls: seq<string>): string {
    if ls == [] then "" else if |ls| == 1 then ls[0] else ls[0] + "\n" + JoinLines(ls[1..])
  }

  /** Splitting on newlines loses nothing: joining the lines gives the text back. */
  lemma {:induction false} JoinSplitLines(s: string)
    ensures JoinLines(SplitLines(s)) == s
    decreases |s|
  {
    var k := IndexOfChar(s, '\n');
    if k < |s| {
      var rest := SplitLines(s[k + 1..]);
      SplitLinesStep(s);
      JoinCons(s[..k], rest);
      JoinSplitLines(s[k + 1..]);
      SplitAround(s, k);
    } else {
      assert SplitLines(s) == [s];
    }
  }

  /** Past a `\n`, `split` gives the text before it and the lines after it. */
  lemma SplitLinesStep(s: string)
    requires IndexOfChar(s, '\n') < |s|
    ensures var k := IndexOfChar(s, '\n');
      SplitLines(s) == [s[..k]] + SplitLines(s[k + 1..])
  {
  }

  /** `join` puts one `\n` after the first line. */
  lemma JoinCons(a: string, rest: seq<string>)
    requires rest != []
    ensures JoinLines([a] + rest) == a + "\n" + JoinLines(rest)
  {
    assert ([a] + rest)[1..] == rest;
  }

  /** A text is the part before a `\n`, the `\n` and the part after it. */
  lemma SplitAround(s: string, k: nat)
    requires k < |s| && s[k] == '\n'
    ensures s == s[..k] + "\n" + s[k + 1..]
  {
  }

  /** The last line ends where the text does: when it is not empty, its last
      character is the last character of the text. */
  lemma {:induction false} LastLine(s: string)
    ensures var ls := SplitLines(s); var l := ls[|ls| - 1];
      l != [] ==> s != [] && l[|l| - 1] == s[|s| - 1]
    decreases |s|
  {
    var k := IndexOfChar(s, '\n');
    if k < |s| {
      var t := s[k + 1..];
      LastLine(t);
      SplitLinesLast(s);
      LastOfSuffix(s, k + 1);
    } else {
      assert SplitLines(s) == [s];
    }
  }

  /** A non-empty suffix ends where the sequence does. */
  lemma LastOfSuffix<T>(s: seq<T>, n: nat)
    requires n <= |s|
    ensures |s[n..]| > 0 ==> s[n..][|s[n..]| - 1] == s[|s| - 1]
  {
  }

  /** Past a `\n`, the last line is the last line of the rest of the text. */
  lemma {:induction false} SplitLinesLast(s: string)
    requires IndexOfChar(s, '\n') < |s|
    ensures var ls := SplitLines(s); var rs := SplitLines(s[IndexOfChar(s, '\n') + 1..]);
      ls[|ls| - 1] == rs[|rs| - 1]
  {
    var k := IndexOfChar(s, '\n');
    var rs := SplitLines(s[k + 1..]);
    var ls := [s[..k]] + rs;
    assert SplitLines(s) == ls;
    assert ls[|ls| - 1] == rs[|rs| - 1];
  }

  /** Regrouping a concatenation of three sequences. */
  lemma ConcatAssoc<T>(a: seq<T>, b: seq<T>, c: seq<T>)
    ensures a + (b + c) == (a + b) + c
  {
  }

  /** The two halves of a concatenation. */
  lemma AppendParts<T>(a: seq<T>, b: seq<T>)
    ensures (a + b)[..|a|] == a && (a + b)[|a|..] == b
  {
  }

  /** Appending nothing. */
  lemma AppendNil<T>(a: seq<T>)
    ensures a + [] == a
  {
  }

  /** A prefix ending in one more character, cut at `k`: the front, the
      middle up to `c` (also a prefix of `s[k..]`) and the character at `c`. */
  lemma {:induction false} SliceParts(s: string, k: nat, c: nat)
    requires k <= c < |s|
    ensures s[..c + 1] == s[..k] + s[k..c] + [s[c]]
    ensures s[k..c] == s[k..][..c - k]
  {
    assert s[..c + 1] == s[..c] + [s[c]];
    assert s[..c] == s[..k] + s[k..c];
  }
}

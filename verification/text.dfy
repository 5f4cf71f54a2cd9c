/**
 * Character classes and the string operations the parser relies on:
 * `trim()`, `split(sep)`, `join(sep)`, `split(/\s+/)`, and the runs a
 * greedy `\s*`, `\w+` or `.*` consumes.
 */
module Text {
  import opened Wrappers

  /** ECMAScript WhiteSpace and LineTerminator: the class `\s` matches and `trim()` removes. */
  predicate IsSpace(c: char) {
    var n := c as int;
    (0x09 <= n <= 0x0D) || n == 0x20 || n == 0xA0 || n == 0x1680
    || (0x2000 <= n <= 0x200A) || n == 0x2028 || n == 0x2029
    || n == 0x202F || n == 0x205F || n == 0x3000 || n == 0xFEFF
  }

  predicate NotSpace(c: char) { !IsSpace(c) }

  /** The characters `.` refuses and after which `^` matches under the `m` flag. */
  predicate IsLineTerminator(c: char) {
    c == '\n' || c == '\r' || c as int == 0x2028 || c as int == 0x2029
  }

  predicate NotLineTerminator(c: char) { !IsLineTerminator(c) }

  predicate IsLetter(c: char) { ('a' <= c <= 'z') || ('A' <= c <= 'Z') }

  predicate IsDigit(c: char) { '0' <= c <= '9' }

  /** The class `\w` without the `u` flag: `[A-Za-z0-9_]`. */
  predicate IsWordChar(c: char) { IsLetter(c) || IsDigit(c) || c == '_' }

  /** `[a-zA-Z_]`, the first character of a target name. */
  predicate IsNameStart(c: char) { IsLetter(c) || c == '_' }

  /** `[a-zA-Z0-9_-]`, the later characters of a target name. */
  predicate IsNameChar(c: char) { IsWordChar(c) || c == '-' }

  predicate AllSpace(s: string) {
    forall k :: 0 <= k < |s| ==> IsSpace(s[k])
  }

  predicate AllWord(s: string) {
    forall k :: 0 <= k < |s| ==> IsWordChar(s[k])
  }

  predicate NoSpace(s: string) {
    forall k :: 0 <= k < |s| ==> !IsSpace(s[k])
  }

  predicate NoLineTerminator(s: string) {
    forall k :: 0 <= k < |s| ==> !IsLineTerminator(s[k])
  }

  predicate StartsWith(s: string, prefix: string) {
    |prefix| <= |s| && s[..|prefix|] == prefix
  }

  /** A string does not start with a pattern whose first character differs from its own. */
  lemma HeadMismatch(s: string, prefix: string)
    requires s != [] && prefix != [] && s[0] != prefix[0]
    ensures !StartsWith(s, prefix)
  {
  }

  /** `s` holds `pat` at position `i`. */
  predicate HasAt(s: string, i: nat, pat: string) {
    i + |pat| <= |s| && s[i..i + |pat|] == pat
  }

  /** `s.includes(pat)`. */
  predicate Contains(s: string, pat: string) {
    exists i :: 0 <= i <= |s| && HasAt(s, i, pat)
  }

  /** The end of the longest run of `p`-characters starting at `i`: what a greedy `p*` consumes. */
  function SpanEnd(s: string, i: nat, p: char -> bool): (j: nat)
    requires i <= |s|
    ensures i <= j <= |s|
    ensures forall k :: i <= k < j ==> p(s[k])
    ensures j == |s| || !p(s[j])
    decreases |s| - i
  {
    if i == |s| || !p(s[i]) then i else SpanEnd(s, i + 1, p)
  }

  /** The start of the longest run of `p`-characters ending at `j`. */
  function SpanStart(s: string, j: nat, p: char -> bool): (i: nat)
    requires j <= |s|
    ensures i <= j
    ensures forall k :: i <= k < j ==> p(s[k])
    ensures i == 0 || !p(s[i - 1])
  {
    if j == 0 || !p(s[j - 1]) then j else SpanStart(s, j - 1, p)
  }

  /** A run that satisfies `p` and is not followed by a `p`-character is the greedy run. */
  lemma {:induction false} SpanEndUnique(s: string, i: nat, j: nat, p: char -> bool)
    requires i <= j <= |s|
    requires forall k :: i <= k < j ==> p(s[k])
    requires j == |s| || !p(s[j])
    ensures SpanEnd(s, i, p) == j
    decreases j - i
  {
    if i < j {
      SpanEndUnique(s, i + 1, j, p);
    }
  }

  lemma {:induction false} SpanStartUnique(s: string, i: nat, j: nat, p: char -> bool)
    requires i <= j <= |s|
    requires forall k :: i <= k < j ==> p(s[k])
    requires i == 0 || !p(s[i - 1])
    ensures SpanStart(s, j, p) == i
    decreases j - i
  {
    if i < j {
      SpanStartUnique(s, i, j - 1, p);
    }
  }

  /** A whitespace slice followed by a non-space is what a greedy `\s*` consumes. */
  lemma SpanEndSpaces(s: string, i: nat, j: nat)
    requires i <= j <= |s| && AllSpace(s[i..j]) && (j == |s| || !IsSpace(s[j]))
    ensures SpanEnd(s, i, IsSpace) == j
  {
    assert forall x :: i <= x < j ==> s[x] == s[i..j][x - i];
    SpanEndUnique(s, i, j, IsSpace);
  }

  /** What a greedy `\s*` consumes is whitespace. */
  lemma SpaceRun(s: string, i: nat)
    requires i <= |s|
    ensures AllSpace(s[i..SpanEnd(s, i, IsSpace)])
  {
    var j := SpanEnd(s, i, IsSpace);
    assert forall x :: 0 <= x < j - i ==> s[i..j][x] == s[i + x];
  }

  /** A whitespace-free slice followed by whitespace is what a greedy `\S*` consumes. */
  lemma SpanEndWordRun(s: string, i: nat, j: nat)
    requires i <= j <= |s| && NoSpace(s[i..j]) && (j == |s| || IsSpace(s[j]))
    ensures SpanEnd(s, i, NotSpace) == j
  {
    assert forall x :: i <= x < j ==> s[x] == s[i..j][x - i];
    SpanEndUnique(s, i, j, NotSpace);
  }

  /** A whole word run from `i` to `j` is where the word-character scan stops. */
  lemma SpanEndWords(s: string, i: nat, j: nat)
    requires i <= j <= |s| && AllWord(s[i..j]) && (j == |s| || !IsWordChar(s[j]))
    ensures SpanEnd(s, i, IsWordChar) == j
  {
    assert forall x :: i <= x < j ==> s[x] == s[i..j][x - i];
    SpanEndUnique(s, i, j, IsWordChar);
  }

  /** A tail without line terminators is what a greedy `.*` consumes. */
  lemma SpanEndToLineEnd(s: string, i: nat)
    requires i <= |s| && NoLineTerminator(s[i..])
    ensures SpanEnd(s, i, NotLineTerminator) == |s|
  {
    assert forall x :: i <= x < |s| ==> s[x] == s[i..][x - i];
    SpanEndUnique(s, i, |s|, NotLineTerminator);
  }

  /** The number of leading whitespace characters of `s`. */
  function LeadingSpaces(s: string): (n: nat)
    ensures n <= |s| && AllSpace(s[..n])
    ensures n == |s| || !IsSpace(s[n])
  {
    SpanEnd(s, 0, IsSpace)
  }

  /** `s.trimStart()`: the suffix left after the leading whitespace. */
  function TrimStart(s: string): (r: string)
    ensures |r| <= |s| && r == s[|s| - |r|..]
    ensures AllSpace(s[..|s| - |r|])
    ensures r == [] || !IsSpace(r[0])
  {
    s[LeadingSpaces(s)..]
  }

  /** `trimStart()` drops a whitespace lead in front of a text that starts with no whitespace. */
  lemma TrimStartPadded(lead: string, core: string)
    requires AllSpace(lead) && (core == [] || !IsSpace(core[0]))
    ensures TrimStart(lead + core) == core
  {
    var s := lead + core;
    assert s[0..|lead|] == lead;
    if core != [] { assert s[|lead|] == core[0]; }
    SpanEndSpaces(s, 0, |lead|);
    assert s[|lead|..] == core;
  }

  /** `s.trimEnd()`: the prefix left before the trailing whitespace. */
  function TrimEnd(s: string): (r: string)
    ensures |r| <= |s| && r == s[..|r|]
    ensures AllSpace(s[|r|..])
    ensures r == [] || !IsSpace(r[|r| - 1])
  {
    s[..SpanStart(s, |s|, IsSpace)]
  }

  /** `s.trim()`: what is left after removing leading and trailing whitespace. */
  function Trim(s: string): (r: string)
    ensures IsTrimmed(r)
  {
    TrimEnd(TrimStart(s))
  }

  /** `trim()` keeps the infix between the leading and the trailing whitespace runs. */
  lemma TrimIsInfix(s: string)
    ensures LeadingSpaces(s) + |Trim(s)| <= |s|
    ensures Trim(s) == s[LeadingSpaces(s)..LeadingSpaces(s) + |Trim(s)|]
    ensures AllSpace(s[..LeadingSpaces(s)]) && AllSpace(s[LeadingSpaces(s) + |Trim(s)|..])
  {
    var t := TrimStart(s);
    var r := TrimEnd(t);
    assert r == [] ==> AllSpace(t);
    assert t[|r|..] == s[LeadingSpaces(s) + |r|..];
  }

  /** Whatever sits between whitespace-only ends, starting and ending with non-space, is what `trim()` keeps. */
  lemma TrimOf(s: string, a: nat, b: nat)
    requires a <= b <= |s|
    requires AllSpace(s[..a]) && AllSpace(s[b..])
    requires a < b ==> !IsSpace(s[a]) && !IsSpace(s[b - 1])
    ensures Trim(s) == s[a..b]
  {
    if a < b {
      TrimOfText(s, a, b);
    } else {
      TrimOfBlank(s, a);
    }
  }

  lemma TrimOfText(s: string, a: nat, b: nat)
    requires a < b <= |s|
    requires AllSpace(s[..a]) && AllSpace(s[b..])
    requires !IsSpace(s[a]) && !IsSpace(s[b - 1])
    ensures Trim(s) == s[a..b]
  {
    TrimStartAt(s, a);
    TrimEndAt(s[a..], b - a) by {
      assert s[a..][b - a..] == s[b..];
    }
    assert s[a..][..b - a] == s[a..b];
  }

  lemma TrimStartAt(s: string, a: nat)
    requires a < |s| && AllSpace(s[..a]) && !IsSpace(s[a])
    ensures TrimStart(s) == s[a..]
  {
    SpanEndUnique(s, 0, a, IsSpace);
  }

  lemma TrimEndAt(t: string, n: nat)
    requires 0 < n <= |t| && AllSpace(t[n..]) && !IsSpace(t[n - 1])
    ensures TrimEnd(t) == t[..n]
  {
    SpanStartUnique(t, n, |t|, IsSpace) by {
      assert forall k :: n <= k < |t| ==> t[k] == t[n..][k - n];
    }
  }

  lemma TrimOfBlank(s: string, a: nat)
    requires a <= |s|
    requires AllSpace(s[..a]) && AllSpace(s[a..])
    ensures Trim(s) == []
  {
    assert forall k :: 0 <= k < |s| ==> IsSpace(s[k]) by {
      forall k | 0 <= k < |s| ensures IsSpace(s[k]) {
        if k < a { assert s[k] == s[..a][k]; } else { assert s[k] == s[a..][k - a]; }
      }
    }
    SpanEndUnique(s, 0, |s|, IsSpace);
  }

  /** Trimming whitespace-only padding off a string that starts and ends with non-space gives that string. */
  lemma TrimPadded(lead: string, core: string, trail: string)
    requires AllSpace(lead) && AllSpace(trail) && IsTrimmed(core)
    ensures Trim(lead + core + trail) == core
  {
    var s := lead + core + trail;
    var a := |lead|;
    var b := a + |core|;
    assert s[..a] == lead;
    assert s[b..] == trail;
    assert s[a..b] == core;
    if core != [] {
      assert s[a] == core[0];
      assert s[b - 1] == core[|core| - 1];
    }
    TrimOf(s, a, b);
  }

  /** A string that starts with a non-space keeps its first character under `trim()`. */
  lemma TrimKeepsHead(s: string)
    requires s != [] && !IsSpace(s[0])
    ensures Trim(s) != [] && Trim(s)[0] == s[0]
  {
    TrimIsInfix(s);
    TrimEmptyIff(s);
    assert LeadingSpaces(s) == 0;
  }

  /** A whitespace lead in front of a text that starts with no whitespace makes no difference to `trim()`. */
  lemma TrimDropsLead(lead: string, core: string)
    requires AllSpace(lead) && (core == [] || !IsSpace(core[0]))
    ensures Trim(lead + core) == Trim(core)
  {
    TrimStartPadded(lead, core);
    TrimStartPadded([], core);
    assert [] + core == core;
  }

  /** Trimming twice is trimming once. */
  lemma TrimIdempotent(s: string)
    ensures Trim(Trim(s)) == Trim(s)
  {
    TrimmedIff(Trim(s));
  }

  /** `trim()` yields the empty string exactly on whitespace-only input. */
  lemma TrimEmptyIff(s: string)
    ensures Trim(s) == [] <==> AllSpace(s)
  {
    if AllSpace(s) {
      TrimOf(s, 0, 0);
    }
  }

  /** A string is trimmed when `trim()` leaves it unchanged. */
  predicate IsTrimmed(s: string) {
    s == [] || (!IsSpace(s[0]) && !IsSpace(s[|s| - 1]))
  }

  /** Every value `trim()` returns is trimmed, and trimmed strings are its fixed points. */
  lemma TrimmedIff(s: string)
    ensures IsTrimmed(s) <==> Trim(s) == s
  {
    if IsTrimmed(s) {
      TrimOf(s, 0, |s|);
    }
  }

  /** The position of the first `c` in `s`: JavaScript's `indexOf`. */
  function IndexOf<T(==)>(s: seq<T>, c: T): (i: nat)
    requires c in s
    ensures i < |s| && s[i] == c && c !in s[..i]
  {
    if s[0] == c then 0 else 1 + IndexOf(s[1..], c)
  }

  /** A first occurrence is what `IndexOf` finds. */
  lemma {:induction false} IndexOfUnique<T>(s: seq<T>, c: T, i: nat)
    requires i < |s| && s[i] == c && c !in s[..i]
    ensures IndexOf(s, c) == i
  {
    if i > 0 {
      assert s[0] == s[..i][0];
      assert s[1..][..i - 1] == s[1..i];
      assert forall k :: 1 <= k < i ==> s[k] == s[..i][k];
      IndexOfUnique(s[1..], c, i - 1);
    }
  }

  /** `parts.join(sep)` for a one-character separator. */
  function Join(parts: seq<string>, sep: char): string
  {
    if |parts| == 0 then []
    else if |parts| == 1 then parts[0]
    else parts[0] + [sep] + Join(parts[1..], sep)
  }

  /** `s.split(sep)` for a one-character separator: the separator-free pieces that `Join` glues back. */
  function Split(s: string, sep: char): (r: seq<string>)
    ensures |r| >= 1
    ensures forall k :: 0 <= k < |r| ==> sep !in r[k]
    ensures Join(r, sep) == s
    decreases |s|
  {
    if sep in s then
      var i := IndexOf(s, sep);
      var rest := Split(s[i + 1..], sep);
      assert s == s[..i] + [sep] + s[i + 1..];
      [s[..i]] + rest
    else
      [s]
  }

  /** The first piece of `s.split(sep)` is the text before the first separator. */
  lemma SplitHead(s: string, sep: char)
    ensures sep in s ==> Split(s, sep)[0] == s[..IndexOf(s, sep)]
    ensures sep !in s ==> Split(s, sep)[0] == s
  {
  }

  /** Splitting a join of separator-free pieces gives the pieces back. */
  lemma {:induction false} SplitJoin(parts: seq<string>, sep: char)
    requires |parts| >= 1
    requires forall k :: 0 <= k < |parts| ==> sep !in parts[k]
    ensures Split(Join(parts, sep), sep) == parts
  {
    if |parts| > 1 {
      var s := Join(parts, sep);
      var p := parts[0];
      assert s == p + [sep] + Join(parts[1..], sep);
      assert s[|p|] == sep;
      assert s[..|p|] == p;
      assert sep in s;
      IndexOfUnique(s, sep, |p|);
      assert s[|p| + 1..] == Join(parts[1..], sep);
      SplitJoin(parts[1..], sep);
    }
  }

  /** The non-whitespace characters of `s`, in order. */
  function NonSpaceChars(s: string): string
  {
    if s == [] then []
    else (if IsSpace(s[0]) then [] else [s[0]]) + NonSpaceChars(s[1..])
  }

  /** The pieces glued together without separators. */
  function Concat(parts: seq<string>): string
  {
    if parts == [] then [] else parts[0] + Concat(parts[1..])
  }

  lemma {:induction false} NonSpaceCharsAppend(a: string, b: string)
    ensures NonSpaceChars(a + b) == NonSpaceChars(a) + NonSpaceChars(b)
    decreases |a|
  {
    if a != [] {
      assert (a + b)[1..] == a[1..] + b;
      NonSpaceCharsAppend(a[1..], b);
    } else {
      assert a + b == b;
    }
  }

  lemma {:induction false} NonSpaceCharsOfWord(a: string)
    requires NoSpace(a)
    ensures NonSpaceChars(a) == a
    decreases |a|
  {
    if a != [] {
      NonSpaceCharsOfWord(a[1..]);
    }
  }

  lemma {:induction false} NonSpaceCharsOfBlank(a: string)
    requires AllSpace(a)
    ensures NonSpaceChars(a) == []
    decreases |a|
  {
    if a != [] {
      NonSpaceCharsOfBlank(a[1..]);
    }
  }

  /**
   * `s.split(/\s+/)`: cuts at every maximal whitespace run; a leading or
   * trailing run yields an empty first or last piece. The pieces are
   * whitespace-free and together hold exactly the non-whitespace of `s`.
   */
  function SplitWs(s: string): (r: seq<string>)
    ensures |r| >= 1
    ensures forall k :: 0 <= k < |r| ==> NoSpace(r[k])
    ensures Concat(r) == NonSpaceChars(s)
    decreases |s|
  {
    var i := SpanEnd(s, 0, NotSpace);
    if i == |s| then
      NonSpaceCharsOfWord(s);
      [s]
    else
      var j := SpanEnd(s, i, IsSpace);
      var rest := SplitWs(s[j..]);
      RunSlices(s, i, j);
      NonSpaceCharsCut(s[..i], s[i..j], s[j..]);
      ConcatCons(s[..i], rest);
      [s[..i]] + rest
  }

  /** A word, then a whitespace run, then the rest: the non-whitespace is the word and the rest's. */
  lemma NonSpaceCharsCut(word: string, gap: string, rest: string)
    requires NoSpace(word) && AllSpace(gap)
    ensures NonSpaceChars(word + gap + rest) == word + NonSpaceChars(rest)
  {
    NonSpaceCharsAppend(word, gap);
    NonSpaceCharsOfWord(word);
    NonSpaceCharsOfBlank(gap);
    assert NonSpaceChars(word + gap) == word;
    NonSpaceCharsAppend(word + gap, rest);
  }

  /** The runs a scan found, as slices. */
  lemma RunSlices(s: string, i: nat, j: nat)
    requires i <= j <= |s|
    requires forall k :: 0 <= k < i ==> !IsSpace(s[k])
    requires forall k :: i <= k < j ==> IsSpace(s[k])
    ensures NoSpace(s[..i]) && AllSpace(s[i..j]) && s == s[..i] + s[i..j] + s[j..]
  {
    assert forall k :: 0 <= k < i ==> s[..i][k] == s[k];
    assert forall k :: 0 <= k < j - i ==> s[i..j][k] == s[i + k];
  }

  lemma AppendAssoc<T>(a: seq<T>, b: seq<T>, c: seq<T>)
    ensures a + b + c == a + (b + c)
  {
  }

  lemma ConcatCons(head: string, rest: seq<string>)
    ensures Concat([head] + rest) == head + Concat(rest)
  {
    assert ([head] + rest)[1..] == rest;
  }

  /** On a trimmed, non-empty string no piece of `split(/\s+/)` is empty. */
  lemma {:induction false} SplitWsTrimmed(s: string)
    requires s != [] && IsTrimmed(s)
    ensures forall k :: 0 <= k < |SplitWs(s)| ==> SplitWs(s)[k] != []
    decreases |s|
  {
    var i := SpanEnd(s, 0, NotSpace);
    if i < |s| {
      var j := SpanEnd(s, i, IsSpace);
      assert i <= |s| - 1 && !IsSpace(s[|s| - 1]);
      assert j < |s|;
      var t := s[j..];
      assert t[|t| - 1] == s[|s| - 1];
      SplitWsTrimmed(t);
      assert SplitWs(s) == [s[..i]] + SplitWs(t);
    }
  }

  /** Words with the whitespace gap that follows each but the last: `words[0] + gaps[0] + words[1] + ...`. */
  function Spaced(words: seq<string>, gaps: seq<string>): string
    requires |words| >= 1 && |gaps| == |words| - 1
    decreases |words|
  {
    if |words| == 1 then words[0] else words[0] + gaps[0] + Spaced(words[1..], gaps[1..])
  }

  /**
   * A layout of a string as whitespace-free words separated by non-empty
   * whitespace runs; only the first and the last word may be empty (a
   * leading or trailing run).
   */
  predicate SpacedParts(words: seq<string>, gaps: seq<string>) {
    && |words| >= 1 && |gaps| == |words| - 1
    && (forall k :: 0 <= k < |words| ==> NoSpace(words[k]))
    && (forall k :: 0 < k < |words| - 1 ==> words[k] != [])
    && (forall k :: 0 <= k < |gaps| ==> gaps[k] != [] && AllSpace(gaps[k]))
  }

  lemma SpacedHead(words: seq<string>, gaps: seq<string>)
    requires |words| >= 1 && |gaps| == |words| - 1
    ensures StartsWith(Spaced(words, gaps), words[0])
  {
  }

  /** A layout with more than one word is its first word, its first gap and a layout of the rest. */
  lemma SpacedTail(words: seq<string>, gaps: seq<string>)
    requires SpacedParts(words, gaps) && |words| > 1
    ensures SpacedParts(words[1..], gaps[1..])
    ensures Spaced(words, gaps) == words[0] + gaps[0] + Spaced(words[1..], gaps[1..])
    ensures Spaced(words[1..], gaps[1..]) == [] || !IsSpace(Spaced(words[1..], gaps[1..])[0])
  {
    var tail := Spaced(words[1..], gaps[1..]);
    SpacedHead(words[1..], gaps[1..]);
    if words[1] != [] {
      assert tail[0] == words[1][0];
    }
  }

  /** A word and a layout of the rest, joined by a gap, make a layout. */
  lemma SpacedCons(w: string, g: string, rest: seq<string>, more: seq<string>)
    requires SpacedParts(rest, more) && NoSpace(w) && g != [] && AllSpace(g)
    requires |rest| >= 2 ==> rest[0] != []
    ensures SpacedParts([w] + rest, [g] + more)
    ensures Spaced([w] + rest, [g] + more) == w + g + Spaced(rest, more)
  {
    assert ([w] + rest)[1..] == rest;
    assert ([g] + more)[1..] == more;
  }

  /** Where the two greedy scans of `split(/\s+/)` stop on a word, a gap and a rest that starts with no space. */
  lemma WordGapCut(s: string, w: string, g: string, tail: string)
    requires s == w + g + tail && NoSpace(w) && g != [] && AllSpace(g)
    requires tail == [] || !IsSpace(tail[0])
    ensures SpanEnd(s, 0, NotSpace) == |w| && SpanEnd(s, |w|, IsSpace) == |w| + |g|
    ensures s[..|w|] == w && s[|w| + |g|..] == tail
  {
    assert s[0..|w|] == w;
    assert s[|w|..|w| + |g|] == g;
    assert s[|w| + |g|..] == tail;
    assert s[|w|] == g[0];
    SpanEndWordRun(s, 0, |w|);
    SpanEndSpaces(s, |w|, |w| + |g|);
  }

  /** `split(/\s+/)` cuts exactly at the whitespace runs of any such layout. */
  lemma {:induction false} SplitWsGaps(words: seq<string>, gaps: seq<string>)
    requires SpacedParts(words, gaps)
    ensures SplitWs(Spaced(words, gaps)) == words
    decreases |words|
  {
    var s := Spaced(words, gaps);
    if |words| == 1 {
      SpanEndUnique(s, 0, |s|, NotSpace);
    } else {
      SpacedTail(words, gaps);
      WordGapCut(s, words[0], gaps[0], Spaced(words[1..], gaps[1..]));
      SplitWsGaps(words[1..], gaps[1..]);
    }
  }

  /** A non-empty string that starts with no space has a non-empty first piece. */
  lemma SplitWsHead(t: string)
    requires t != [] && !IsSpace(t[0])
    ensures SplitWs(t)[0] != []
  {
    assert SpanEnd(t, 0, NotSpace) >= 1;
  }

  /** Conversely, the pieces of `split(/\s+/)` and the runs between them lay out the whole string. */
  lemma {:induction false} SplitWsSpaced(s: string) returns (gaps: seq<string>)
    ensures SpacedParts(SplitWs(s), gaps) && Spaced(SplitWs(s), gaps) == s
    decreases |s|
  {
    var i := SpanEnd(s, 0, NotSpace);
    if i == |s| {
      gaps := [];
    } else {
      var j := SpanEnd(s, i, IsSpace);
      var t := s[j..];
      var more := SplitWsSpaced(t);
      RunSlices(s, i, j);
      if t != [] {
        SplitWsHead(t);
      }
      SpacedCons(s[..i], s[i..j], SplitWs(t), more);
      gaps := [s[i..j]] + more;
    }
  }

  /** The first index at or after `from` whose element satisfies `p`: JavaScript's `findIndex` from `from`. */
  function FindFirst<T>(xs: seq<T>, from: nat, p: T -> bool): (r: Option<nat>)
    requires from <= |xs|
    ensures r.Some? ==> from <= r.value < |xs| && p(xs[r.value])
    ensures r.Some? ==> forall k :: from <= k < r.value ==> !p(xs[k])
    ensures r.None? ==> forall k :: from <= k < |xs| ==> !p(xs[k])
    decreases |xs| - from
  {
    if from == |xs| then None
    else if p(xs[from]) then Some(from)
    else FindFirst(xs, from + 1, p)
  }

  /** The first value `f` gives at an index from `p` up to `n`. */
  function FirstHit<R>(n: nat, p: nat, f: nat -> Option<R>): Option<R>
    requires p <= n
    decreases n - p
  {
    if p == n then None
    else
      match f(p)
      case Some(h) => Some(h)
      case None => FirstHit(n, p + 1, f)
  }

  /** `FirstHit` gives the value at the first index where `f` gives one. */
  lemma {:induction false} FirstHitLeftmost<R>(n: nat, p: nat, f: nat -> Option<R>) returns (at: nat)
    requires p <= n && FirstHit(n, p, f).Some?
    ensures p <= at < n && f(at) == FirstHit(n, p, f)
    ensures forall k :: p <= k < at ==> f(k).None?
    decreases n - p
  {
    if f(p).Some? {
      at := p;
    } else {
      at := FirstHitLeftmost(n, p + 1, f);
    }
  }

  /** When `at` is the first index where `f` gives a value, `FirstHit` gives that value. */
  lemma {:induction false} FirstHitAt<R>(n: nat, p: nat, f: nat -> Option<R>, at: nat)
    requires p <= at < n && f(at).Some?
    requires forall k :: p <= k < at ==> f(k).None?
    ensures FirstHit(n, p, f) == f(at)
    decreases at - p
  {
    if p < at {
      FirstHitAt(n, p + 1, f, at);
    }
  }

  /** `FirstHit` gives nothing only when `f` gives nothing at every index. */
  lemma {:induction false} FirstHitNone<R>(n: nat, p: nat, f: nat -> Option<R>)
    requires p <= n && FirstHit(n, p, f).None?
    ensures forall k :: p <= k < n ==> f(k).None?
    decreases n - p
  {
    if p < n {
      FirstHitNone(n, p + 1, f);
    }
  }

  /** The last index below `upto` whose element satisfies `p`. */
  function FindLast<T>(xs: seq<T>, upto: nat, p: T -> bool): (r: Option<nat>)
    requires upto <= |xs|
    ensures r.Some? ==> r.value < upto && p(xs[r.value])
    ensures r.Some? ==> forall k :: r.value < k < upto ==> !p(xs[k])
    ensures r.None? ==> forall k :: 0 <= k < upto ==> !p(xs[k])
  {
    if upto == 0 then None
    else if p(xs[upto - 1]) then Some(upto - 1)
    else FindLast(xs, upto - 1, p)
  }

  /** `FindLast` is determined by its contract. */
  lemma {:induction false} FindLastUnique<T>(xs: seq<T>, upto: nat, p: T -> bool, r: Option<nat>)
    requires upto <= |xs|
    requires r.Some? ==> r.value < upto && p(xs[r.value])
    requires r.Some? ==> forall k :: r.value < k < upto ==> !p(xs[k])
    requires r.None? ==> forall k :: 0 <= k < upto ==> !p(xs[k])
    ensures FindLast(xs, upto, p) == r
    decreases upto
  {
    if upto > 0 && !p(xs[upto - 1]) {
      FindLastUnique(xs, upto - 1, p, r);
    }
  }

  /** The indices at or after `from` whose elements satisfy `p`, in increasing order. */
  function Indices<T>(xs: seq<T>, from: nat, p: T -> bool): (r: seq<nat>)
    requires from <= |xs|
    ensures forall k :: 0 <= k < |r| ==> from <= r[k] < |xs| && p(xs[r[k]])
    ensures forall j :: from <= j < |xs| && p(xs[j]) ==> j in r
    ensures forall a, b :: 0 <= a < b < |r| ==> r[a] < r[b]
    decreases |xs| - from
  {
    if from == |xs| then []
    else if p(xs[from]) then [from] + Indices(xs, from + 1, p)
    else Indices(xs, from + 1, p)
  }

  /** The values `f` gives for the indices from `i` up to `n`, skipping those it gives none for. */
  function Select<R>(n: nat, i: nat, f: nat -> Option<R>): seq<R>
    requires i <= n
    decreases n - i
  {
    if i == n then []
    else
      match f(i)
      case Some(x) => [x] + Select(n, i + 1, f)
      case None => Select(n, i + 1, f)
  }

  /** Prefixing the value at `i` and the index `i` keeps the two sequences in step. */
  lemma ConsPointwise<R>(x: R, rest: seq<R>, i: nat, idx: seq<nat>, f: nat -> Option<R>)
    requires f(i) == Some(x) && |rest| == |idx|
    requires forall k :: 0 <= k < |idx| ==> f(idx[k]) == Some(rest[k])
    ensures forall k :: 0 <= k < |idx| + 1 ==> f(([i] + idx)[k]) == Some(([x] + rest)[k])
  {
    forall k | 0 <= k < |idx| + 1 ensures f(([i] + idx)[k]) == Some(([x] + rest)[k]) {
      if 0 < k {
        assert ([x] + rest)[k] == rest[k - 1];
        assert ([i] + idx)[k] == idx[k - 1];
      }
    }
  }

  /**
   * When `f` gives a value exactly at the indices whose elements satisfy
   * `p`, the selection holds one value per such index, in index order.
   */
  lemma {:induction false} SelectIndices<T, R>(xs: seq<T>, i: nat, p: T -> bool, f: nat -> Option<R>)
    requires i <= |xs|
    requires forall j :: i <= j < |xs| ==> (f(j).Some? <==> p(xs[j]))
    ensures |Select(|xs|, i, f)| == |Indices(xs, i, p)|
    ensures forall k :: 0 <= k < |Indices(xs, i, p)| ==> Select(|xs|, i, f)[k] == f(Indices(xs, i, p)[k]).value
    decreases |xs| - i
  {
    if i < |xs| {
      SelectIndices(xs, i + 1, p, f);
      var rest, idx := Select(|xs|, i + 1, f), Indices(xs, i + 1, p);
      if p(xs[i]) {
        var x := f(i).value;
        assert Select(|xs|, i, f) == [x] + rest;
        assert Indices(xs, i, p) == [i] + idx;
        ConsPointwise(x, rest, i, idx, f);
      } else {
        assert Select(|xs|, i, f) == rest;
        assert Indices(xs, i, p) == idx;
      }
    }
  }
}

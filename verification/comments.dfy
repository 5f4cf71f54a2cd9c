/**
 * What the comment lines above a target contribute: the description
 * (`extractDescription`) and the usage hint (`extractUsageHint`).
 */
module Comments {
  import opened Wrappers
  import opened Text

  /** A line whose trimmed text starts with `#`. */
  predicate IsCommentLine(raw: string) {
    StartsWith(Trim(raw), "#")
  }

  /** A comment's text: the trimmed line without its `#`, trimmed again. */
  function CommentText(raw: string): (r: string)
    requires IsCommentLine(raw)
    ensures IsTrimmed(r)
  {
    var r := Trim(Trim(raw)[1..]);
    TrimmedIff(Trim(raw)[1..]);
    TrimIdempotent(Trim(raw)[1..]);
    r
  }

  /** Writing `#` and a trimmed text between whitespace and reading the comment back gives the text. */
  lemma CommentTextOf(lead: string, sp: string, text: string, trail: string)
    requires AllSpace(lead) && AllSpace(sp) && AllSpace(trail) && IsTrimmed(text)
    ensures IsCommentLine(lead + "#" + sp + text + trail)
    ensures CommentText(lead + "#" + sp + text + trail) == text
  {
    var l := lead + "#" + sp + text + trail;
    var core := TrimCommentLine(lead, sp, text, trail);
    assert core[..1] == "#";
    if text == [] {
      assert core[1..] == [];
    } else {
      TrimCommentBody(sp, text);
    }
  }

  /** `# text` is a comment whose text is `text`. */
  lemma PlainComment(text: string)
    requires IsTrimmed(text)
    ensures IsCommentLine("# " + text) && CommentText("# " + text) == text
  {
    assert "# " + text == [] + "#" + " " + text + [];
    CommentTextOf([], " ", text, []);
  }

  /** The trimmed comment line: `#` alone for an empty text, else `#`, the spacing and the text. */
  lemma TrimCommentLine(lead: string, sp: string, text: string, trail: string) returns (core: string)
    requires AllSpace(lead) && AllSpace(sp) && AllSpace(trail) && IsTrimmed(text)
    ensures core == if text == [] then "#" else "#" + sp + text
    ensures Trim(lead + "#" + sp + text + trail) == core
  {
    var l := lead + "#" + sp + text + trail;
    if text == [] {
      core := "#";
      assert l == lead + core + (sp + trail);
      TrimPadded(lead, core, sp + trail);
    } else {
      core := "#" + sp + text;
      assert core[|core| - 1] == text[|text| - 1];
      assert l == lead + core + trail;
      TrimPadded(lead, core, trail);
    }
  }

  lemma TrimCommentBody(sp: string, text: string)
    requires AllSpace(sp) && IsTrimmed(text)
    ensures Trim(("#" + sp + text)[1..]) == text
  {
    assert ("#" + sp + text)[1..] == sp + text + [];
    TrimPadded(sp, text, []);
  }

  /** The comment right above line `i`, if line `i - 1` exists and is a comment. */
  function CommentAbove(lines: seq<string>, i: nat): (r: Option<string>)
    requires i < |lines|
    ensures r.Some? <==> i > 0 && IsCommentLine(lines[i - 1])
    ensures r.Some? ==> IsTrimmed(r.value)
  {
    if i > 0 && IsCommentLine(lines[i - 1]) then Some(CommentText(lines[i - 1])) else None
  }

  const FallbackPrefix := "Execute make target: "

  /**
   * The description of the target declared on line `i`: the comment right
   * above it, or else the fallback prefix followed by the raw line's text
   * before its first colon.
   */
  function ExtractDescription(lines: seq<string>, i: nat): (r: string)
    requires i < |lines|
    ensures CommentAbove(lines, i).Some? ==> r == CommentAbove(lines, i).value
    ensures CommentAbove(lines, i).None? ==>
      exists p :: r == FallbackPrefix + p && StartsWith(lines[i], p) && ':' !in p
        && (|p| == |lines[i]| || lines[i][|p|] == ':')
  {
    match CommentAbove(lines, i)
    case Some(c) => c
    case None =>
      var p := Split(lines[i], ':')[0];
      SplitHead(lines[i], ':');
      FallbackPrefix + p
  }

  /** ASCII lower-casing: the only case folding the `i` flag applies to these labels. */
  function LowerAscii(c: char): char {
    if 'A' <= c <= 'Z' then (c as int + 32) as char else c
  }

  /** The lower-case `word` sits at position `i` of `s`, compared without regard to case. */
  predicate HasAtIgnoreCase(s: string, i: nat, word: string) {
    i + |word| <= |s| && forall k :: 0 <= k < |word| ==> LowerAscii(s[i + k]) == word[k]
  }

  /** The position just past `Usage:`, `Args:`, `Arguments:` or `Example:` at `q`, alternatives tried in that order. */
  function LabelEnd(t: string, q: nat): (r: Option<nat>)
    requires q <= |t|
    ensures r.Some? ==> q < r.value <= |t| && t[r.value - 1] == ':'
  {
    if HasAtIgnoreCase(t, q, "usage") && q + 5 < |t| && t[q + 5] == ':' then Some(q + 6)
    else if HasAtIgnoreCase(t, q, "args") && q + 4 < |t| && t[q + 4] == ':' then Some(q + 5)
    else if HasAtIgnoreCase(t, q, "arguments") && q + 9 < |t| && t[q + 9] == ':' then Some(q + 10)
    else if HasAtIgnoreCase(t, q, "example") && q + 7 < |t| && t[q + 7] == ':' then Some(q + 8)
    else None
  }

  /**
   * The trimmed capture of `#\s*(?:Usage|Args|Arguments|Example):\s*(.+)` (flag
   * `i`) for a match starting at `p`. When only whitespace follows the colon,
   * `\s*` gives back one character so that `(.+)` still matches it: the hint
   * is then empty, not absent.
   */
  function UsageAt(t: string, p: nat): Option<string>
  {
    if p >= |t| || t[p] != '#' then None
    else
      match LabelEnd(t, SpanEnd(t, p + 1, IsSpace))
      case None => None
      case Some(c) => CaptureAfter(t, c)
  }

  /** The trimmed capture of `\s*(.+)` from position `c`, if that tail matches. */
  function CaptureAfter(t: string, c: nat): Option<string>
    requires c <= |t|
  {
    var k := SpanEnd(t, c, IsSpace);
    if k < |t| then Some(Trim(t[k..SpanEnd(t, k, NotLineTerminator)]))
    else if SpanEnd(t, c, IsLineTerminator) < |t| then Some("")
    else None
  }

  /** The leftmost match at or after `p`, as the unanchored regular expression finds it. */
  function FindUsage(t: string, p: nat): Option<string>
    requires p <= |t|
  {
    FirstHit(|t|, p, k => UsageAt(t, k))
  }

  /** The usage hint one line offers, matched on its trimmed text. */
  function LineHint(raw: string): Option<string>
  {
    FindUsage(Trim(raw), 0)
  }

  /** The four labels the usage pattern accepts, in lower case. */
  predicate IsUsageLabel(w: string) {
    w == "usage" || w == "args" || w == "arguments" || w == "example"
  }

  /** `word` spells the lower-case `w` in any mix of cases. */
  predicate SpellsIgnoreCase(word: string, w: string) {
    |word| == |w| && forall k :: 0 <= k < |w| ==> LowerAscii(word[k]) == w[k]
  }

  /** The labels are tried in order, and at any position at most the intended one applies. */
  lemma LabelEndOf(t: string, q: nat, word: string, w: string)
    requires IsUsageLabel(w) && SpellsIgnoreCase(word, w)
    requires q + |w| < |t| && t[q..q + |w|] == word && t[q + |w|] == ':'
    ensures LabelEnd(t, q) == Some(q + |w| + 1)
  {
    assert forall k :: 0 <= k < |w| ==> t[q + k] == word[k];
    assert HasAtIgnoreCase(t, q, w);
    if w != "usage" {
      assert LowerAscii(t[q]) == w[0] && w[0] != 'u';
      assert !HasAtIgnoreCase(t, q, "usage") by { assert "usage"[0] == 'u'; }
    }
    if w == "arguments" {
      assert LowerAscii(t[q + 3]) == 'u';
      assert !HasAtIgnoreCase(t, q, "args") by { assert "args"[3] == 's'; }
    }
    if w == "example" {
      assert LowerAscii(t[q]) == 'e';
      assert !HasAtIgnoreCase(t, q, "args") by { assert "args"[0] == 'a'; }
      assert !HasAtIgnoreCase(t, q, "arguments") by { assert "arguments"[0] == 'a'; }
    }
  }

  /** Past the colon: whitespace, then a trimmed one-line text, which is the capture. */
  lemma CaptureAfterOf(t: string, c: nat, k: nat)
    requires c <= k < |t|
    requires AllSpace(t[c..k]) && !IsSpace(t[k])
    requires NoLineTerminator(t[k..]) && IsTrimmed(t[k..])
    ensures CaptureAfter(t, c) == Some(t[k..])
  {
    SpanEndSpaces(t, c, k);
    SpanEndToLineEnd(t, k);
    assert t[k..|t|] == t[k..];
    TrimmedIff(t[k..]);
    assert CaptureAfter(t, c) == Some(Trim(t[k..|t|]));
  }

  /** The pieces of a match at `p`, located by position: the capture is the text from `k` on. */
  lemma UsageAtOf(t: string, p: nat, q: nat, word: string, w: string, k: nat)
    requires IsUsageLabel(w) && SpellsIgnoreCase(word, w)
    requires p < q && q + |w| < k < |t|
    requires t[p] == '#' && AllSpace(t[p + 1..q]) && !IsSpace(t[q])
    requires t[q..q + |w|] == word && t[q + |w|] == ':'
    requires AllSpace(t[q + |w| + 1..k]) && !IsSpace(t[k])
    requires NoLineTerminator(t[k..]) && IsTrimmed(t[k..])
    ensures UsageAt(t, p) == Some(t[k..])
  {
    var c := q + |w| + 1;
    assert SpanEnd(t, p + 1, IsSpace) == q by { SpanEndSpaces(t, p + 1, q); }
    assert LabelEnd(t, q) == Some(c) by { LabelEndOf(t, q, word, w); }
    assert CaptureAfter(t, c) == Some(t[k..]) by { CaptureAfterOf(t, c, k); }
    UsageAtLabel(t, p, q, c, t[k..]);
  }

  /** Once the label is found, the match is the capture after it. */
  lemma UsageAtLabel(t: string, p: nat, q: nat, c: nat, h: string)
    requires p < |t| && t[p] == '#' && c <= |t|
    requires p + 1 <= q <= |t| && SpanEnd(t, p + 1, IsSpace) == q && LabelEnd(t, q) == Some(c)
    requires CaptureAfter(t, c) == Some(h)
    ensures UsageAt(t, p) == Some(h)
  {
  }

  /**
   * A comment written `#`, spacing, a label in any case, `:`, spacing and a
   * trimmed one-line text offers that text as its usage hint.
   */
  lemma LabelledCommentHint(sp: string, word: string, w: string, sp2: string, text: string)
    requires AllSpace(sp) && AllSpace(sp2) && IsUsageLabel(w) && SpellsIgnoreCase(word, w)
    requires text != [] && IsTrimmed(text) && NoLineTerminator(text)
    ensures LineHint("#" + sp + word + ":" + sp2 + text) == Some(text)
  {
    var t := "#" + sp + word + ":" + sp2 + text;
    var q := 1 + |sp|;
    var k := q + |w| + 1 + |sp2|;
    assert t[|t| - 1] == text[|text| - 1];
    TrimmedIff(t);
    assert t[1..q] == sp;
    assert t[q..q + |w|] == word;
    assert t[q + |w|] == ':';
    assert t[q + |w| + 1..k] == sp2;
    assert t[k..] == text;
    assert !IsSpace(t[q]) by {
      assert t[q] == word[0] && LowerAscii(word[0]) == w[0];
    }
    UsageAtOf(t, 0, q, word, w, k);
  }

  /** A label of the usage pattern, in any case, and its `:` occupy `t[q..c]`. */
  ghost predicate LabelSpan(t: string, q: nat, c: nat) {
    exists w :: IsUsageLabel(w) && c == q + |w| + 1 && c <= |t| && HasAtIgnoreCase(t, q, w) && t[q + |w|] == ':'
  }

  /** `(.+)` can begin at `m` once `\s*` has consumed `t[c..m]`. */
  predicate CaptureFrom(t: string, c: nat, m: nat) {
    c <= m < |t| && AllSpace(t[c..m]) && !IsLineTerminator(t[m])
  }

  /**
   * `\s*(.+)` matches from `c` with trimmed capture `h`: the capture begins
   * at the furthest position `\s*` can reach from which `(.+)` still
   * matches, and runs to the end of its line.
   */
  ghost predicate CaptureShape(t: string, c: nat, h: string) {
    exists m: nat, e: nat ::
      && CaptureFrom(t, c, m) && (forall m': nat :: CaptureFrom(t, c, m') ==> m' <= m)
      && m < e <= |t| && NoLineTerminator(t[m..e]) && (e == |t| || IsLineTerminator(t[e]))
      && h == Trim(t[m..e])
  }

  /** `#\s*(?:Usage|Args|Arguments|Example):\s*(.+)` (flag `i`) matches at `p` with trimmed capture `h`. */
  ghost predicate UsageMatch(t: string, p: nat, h: string) {
    exists q: nat, c: nat ::
      && p < q <= |t| && t[p] == '#' && AllSpace(t[p + 1..q])
      && LabelSpan(t, q, c) && CaptureShape(t, c, h)
  }

  /** The label the matcher finds has the label shape. */
  lemma LabelEndSpan(t: string, q: nat)
    requires q <= |t| && LabelEnd(t, q).Some?
    ensures LabelSpan(t, q, LabelEnd(t, q).value)
  {
    var c := LabelEnd(t, q).value;
    if c == q + 6 && HasAtIgnoreCase(t, q, "usage") {
      assert IsUsageLabel("usage");
    } else if c == q + 5 && HasAtIgnoreCase(t, q, "args") {
      assert IsUsageLabel("args");
    } else if c == q + 10 && HasAtIgnoreCase(t, q, "arguments") {
      assert IsUsageLabel("arguments");
    } else {
      assert IsUsageLabel("example");
    }
  }

  /** A label starts with a letter, so the whitespace before it ends where it starts. */
  lemma LabelSpanHead(t: string, q: nat, c: nat)
    requires LabelSpan(t, q, c)
    ensures q < |t| && !IsSpace(t[q])
  {
    var w :| IsUsageLabel(w) && c == q + |w| + 1 && c <= |t| && HasAtIgnoreCase(t, q, w) && t[q + |w|] == ':';
    assert LowerAscii(t[q]) == w[0];
    assert w[0] == 'u' || w[0] == 'a' || w[0] == 'e';
  }

  /** The matcher finds the label the shape has. */
  lemma LabelSpanStart(t: string, q: nat, c: nat)
    requires LabelSpan(t, q, c)
    ensures LabelEnd(t, q) == Some(c)
  {
    var w :| IsUsageLabel(w) && c == q + |w| + 1 && c <= |t| && HasAtIgnoreCase(t, q, w) && t[q + |w|] == ':';
    var word := t[q..q + |w|];
    assert SpellsIgnoreCase(word, w) by {
      forall k | 0 <= k < |w| ensures LowerAscii(word[k]) == w[k] {
        assert word[k] == t[q + k];
      }
    }
    LabelEndOf(t, q, word, w);
  }

  /** Where the capture after the colon can begin when non-space text follows it. */
  lemma CaptureAtText(t: string, c: nat, k: nat)
    requires c <= k < |t| && SpanEnd(t, c, IsSpace) == k
    ensures CaptureFrom(t, c, k)
    ensures forall m': nat :: CaptureFrom(t, c, m') ==> m' <= k
  {
    SpaceRun(t, c);
    forall m': nat | CaptureFrom(t, c, m') ensures m' <= k {
    }
  }

  /** A line-terminator-free run from `m` to `e` that stops at a terminator is what `.+` consumes. */
  lemma LineRun(t: string, m: nat, e: nat)
    requires m < e <= |t| && NoLineTerminator(t[m..e]) && (e == |t| || IsLineTerminator(t[e]))
    ensures SpanEnd(t, m, NotLineTerminator) == e
  {
    assert forall x :: m <= x < e ==> t[x] == t[m..e][x - m];
    SpanEndUnique(t, m, e, NotLineTerminator);
  }

  /** The run `.+` consumes from `m`, as a slice. */
  lemma LineRunOf(t: string, m: nat)
    requires m < |t| && !IsLineTerminator(t[m])
    ensures var e := SpanEnd(t, m, NotLineTerminator);
      m < e <= |t| && NoLineTerminator(t[m..e]) && (e == |t| || IsLineTerminator(t[e]))
  {
    var e := SpanEnd(t, m, NotLineTerminator);
    assert forall x :: 0 <= x < e - m ==> t[m..e][x] == t[m + x];
  }

  /** Inside an all-whitespace tail, every slice trims to nothing. */
  lemma BlankTail(t: string, c: nat, m: nat, e: nat)
    requires c <= m <= e <= |t| && SpanEnd(t, c, IsSpace) == |t|
    ensures Trim(t[m..e]) == []
  {
    assert AllSpace(t[m..e]) by {
      forall x | 0 <= x < e - m ensures IsSpace(t[m..e][x]) {
        assert t[m..e][x] == t[m + x];
      }
    }
    TrimEmptyIff(t[m..e]);
  }

  /** What `CaptureAfter` gives is a capture of `\s*(.+)`. */
  lemma CaptureAfterSound(t: string, c: nat)
    requires c <= |t| && CaptureAfter(t, c).Some?
    ensures CaptureShape(t, c, CaptureAfter(t, c).value)
  {
    var h := CaptureAfter(t, c).value;
    var k := SpanEnd(t, c, IsSpace);
    if k < |t| {
      CaptureAtText(t, c, k);
      LineRunOf(t, k);
      var e := SpanEnd(t, k, NotLineTerminator);
      assert h == Trim(t[k..e]);
    } else {
      var m := FindLast(t, |t|, NotLineTerminator).value;
      var m0 := SpanEnd(t, c, IsLineTerminator);
      assert c <= m0 < |t| && !IsLineTerminator(t[m0]);
      assert c <= m;
      assert AllSpace(t[c..m]) by {
        forall x | 0 <= x < m - c ensures IsSpace(t[c..m][x]) {
          assert t[c..m][x] == t[c + x];
        }
      }
      LineRunOf(t, m);
      var e := SpanEnd(t, m, NotLineTerminator);
      BlankTail(t, c, m, e);
      assert CaptureFrom(t, c, m);
    }
  }

  /** A capture of `\s*(.+)` is what `CaptureAfter` gives. */
  lemma CaptureAfterComplete(t: string, c: nat, h: string)
    requires c <= |t| && CaptureShape(t, c, h)
    ensures CaptureAfter(t, c) == Some(h)
  {
    var m: nat, e: nat :|
      && CaptureFrom(t, c, m) && (forall m': nat :: CaptureFrom(t, c, m') ==> m' <= m)
      && m < e <= |t| && NoLineTerminator(t[m..e]) && (e == |t| || IsLineTerminator(t[e]))
      && h == Trim(t[m..e]);
    var k := SpanEnd(t, c, IsSpace);
    if k < |t| {
      CaptureAtText(t, c, k);
      assert m == k;
      LineRun(t, k, e);
      assert CaptureAfter(t, c) == Some(Trim(t[k..e]));
    } else {
      BlankTail(t, c, m, e);
      assert SpanEnd(t, c, IsLineTerminator) <= m;
      assert CaptureAfter(t, c) == Some("");
    }
  }

  /** A match the matcher reports at `p` has the shape of the pattern. */
  lemma UsageAtSound(t: string, p: nat)
    requires p < |t| && UsageAt(t, p).Some?
    ensures UsageMatch(t, p, UsageAt(t, p).value)
  {
    var q := SpanEnd(t, p + 1, IsSpace);
    var c := LabelEnd(t, q).value;
    LabelEndSpan(t, q);
    CaptureAfterSound(t, c);
    SpaceRun(t, p + 1);
  }

  /** Every match of the pattern at `p` is the one the matcher reports there. */
  lemma UsageAtComplete(t: string, p: nat, h: string)
    requires UsageMatch(t, p, h)
    ensures p < |t| && UsageAt(t, p) == Some(h)
  {
    var q: nat, c: nat :| p < q <= |t| && t[p] == '#' && AllSpace(t[p + 1..q])
      && LabelSpan(t, q, c) && CaptureShape(t, c, h);
    UsageAtFrom(t, p, q, c, h);
  }

  /** The same, with the positions of the label and of the colon's end given. */
  lemma UsageAtFrom(t: string, p: nat, q: nat, c: nat, h: string)
    requires p < q <= |t| && t[p] == '#' && AllSpace(t[p + 1..q])
    requires LabelSpan(t, q, c) && CaptureShape(t, c, h)
    ensures UsageAt(t, p) == Some(h)
  {
    LabelSpanHead(t, q, c);
    SpanEndSpaces(t, p + 1, q);
    LabelSpanStart(t, q, c);
    CaptureAfterComplete(t, c, h);
    UsageAtLabel(t, p, q, c, h);
  }

  /** The matcher at `p` and the pattern agree: a match exactly when the pattern matches, with the same hint. */
  lemma UsageAtIff(t: string, p: nat, h: string)
    requires p < |t|
    ensures UsageAt(t, p) == Some(h) <==> UsageMatch(t, p, h)
  {
    if UsageAt(t, p) == Some(h) {
      UsageAtSound(t, p);
    }
    if UsageMatch(t, p, h) {
      UsageAtComplete(t, p, h);
    }
  }

  /**
   * A line's hint is `h` exactly when the pattern matches its trimmed text
   * with capture `h` at some `#`, and at no earlier position.
   */
  lemma LineHintIff(raw: string, h: string)
    ensures LineHint(raw) == Some(h) <==>
      exists p: nat :: UsageMatch(Trim(raw), p, h) && forall k: nat, h' :: k < p ==> !UsageMatch(Trim(raw), k, h')
  {
    if LineHint(raw) == Some(h) {
      LineHintSound(raw, h);
    }
    if exists p: nat :: UsageMatch(Trim(raw), p, h) && forall k: nat, h' :: k < p ==> !UsageMatch(Trim(raw), k, h') {
      var p: nat :| UsageMatch(Trim(raw), p, h) && forall k: nat, h' :: k < p ==> !UsageMatch(Trim(raw), k, h');
      LineHintComplete(raw, h, p);
    }
  }

  lemma LineHintSound(raw: string, h: string)
    requires LineHint(raw) == Some(h)
    ensures exists p: nat :: UsageMatch(Trim(raw), p, h) && forall k: nat, h' :: k < p ==> !UsageMatch(Trim(raw), k, h')
  {
    var t := Trim(raw);
    var p := FindUsageLeftmost(t);
    UsageAtSound(t, p);
    forall k: nat, h' | k < p ensures !UsageMatch(t, k, h') {
      NoMatchWhereNone(t, k, h');
    }
  }

  lemma LineHintComplete(raw: string, h: string, p: nat)
    requires UsageMatch(Trim(raw), p, h) && forall k: nat, h' :: k < p ==> !UsageMatch(Trim(raw), k, h')
    ensures LineHint(raw) == Some(h)
  {
    FirstMatchFound(Trim(raw), p, h);
  }

  /** The leftmost match is the one `FindUsage` reports. */
  lemma FirstMatchFound(t: string, p: nat, h: string)
    requires UsageMatch(t, p, h) && forall k: nat, h' :: k < p ==> !UsageMatch(t, k, h')
    ensures FindUsage(t, 0) == Some(h)
  {
    UsageAtComplete(t, p, h);
    forall k | 0 <= k < p ensures UsageAt(t, k).None? {
      if UsageAt(t, k).Some? {
        UsageAtSound(t, k);
      }
    }
    FindUsageAt(t, p);
  }

  /** `FindUsage` from the start reports the match at the first position where the matcher succeeds. */
  lemma FindUsageAt(t: string, at: nat)
    requires at < |t| && UsageAt(t, at).Some?
    requires forall k :: 0 <= k < at ==> UsageAt(t, k).None?
    ensures FindUsage(t, 0) == UsageAt(t, at)
  {
    var f: nat -> Option<string> := (k: nat) => UsageAt(t, k);
    forall k | 0 <= k < at ensures f(k).None? {
      assert f(k) == UsageAt(t, k);
    }
    FirstHitAt(|t|, 0, f, at);
  }

  /** Where the matcher fails, the pattern does not match. */
  lemma NoMatchWhereNone(t: string, p: nat, h: string)
    requires UsageAt(t, p).None?
    ensures !UsageMatch(t, p, h)
  {
    if UsageMatch(t, p, h) {
      UsageAtComplete(t, p, h);
    }
  }

  /** `FindUsage` from the start reports the leftmost position where the matcher succeeds. */
  lemma FindUsageLeftmost(t: string) returns (at: nat)
    requires FindUsage(t, 0).Some?
    ensures at < |t| && UsageAt(t, at) == FindUsage(t, 0)
    ensures forall k :: 0 <= k < at ==> UsageAt(t, k).None?
  {
    var f: nat -> Option<string> := (k: nat) => UsageAt(t, k);
    at := FirstHitLeftmost(|t|, 0, f);
    forall k | 0 <= k < at ensures UsageAt(t, k).None? {
      assert f(k).None?;
    }
  }

  /** `FindUsage` from the start reports nothing only when the matcher fails everywhere. */
  lemma FindUsageNone(t: string)
    requires FindUsage(t, 0).None?
    ensures forall k :: 0 <= k < |t| ==> UsageAt(t, k).None?
  {
    var f: nat -> Option<string> := (k: nat) => UsageAt(t, k);
    FirstHitNone(|t|, 0, f);
    forall k | 0 <= k < |t| ensures UsageAt(t, k).None? {
      assert f(k).None?;
    }
  }

  /** A line offers no hint exactly when the pattern matches nowhere in its trimmed text. */
  lemma LineHintNone(raw: string)
    ensures LineHint(raw).None? <==> forall p: nat, h :: !UsageMatch(Trim(raw), p, h)
  {
    var t := Trim(raw);
    if LineHint(raw).None? {
      FindUsageNone(t);
      forall p: nat, h ensures !UsageMatch(t, p, h) {
        if p < |t| {
          NoMatchWhereNone(t, p, h);
        } else if UsageMatch(t, p, h) {
          UsageAtComplete(t, p, h);
        }
      }
    } else {
      var p := FindUsageLeftmost(t);
      UsageAtSound(t, p);
    }
  }


  /** How many lines above a target the usage-hint scan may look at. */
  const UsageWindow: nat := 4

  /** Every line of `lines[m..j]` satisfies `inBlock`. */
  ghost predicate RunOf(lines: seq<string>, m: nat, j: nat, inBlock: string -> bool)
    requires m <= j <= |lines|
  {
    forall k :: m <= k < j ==> inBlock(lines[k])
  }

  /** A run ending at `j` is a run ending at `j - 1` plus line `j - 1`. */
  lemma RunSplit(lines: seq<string>, m: nat, j: nat, inBlock: string -> bool)
    requires m < j <= |lines|
    ensures RunOf(lines, m, j, inBlock) <==> RunOf(lines, m, j - 1, inBlock) && inBlock(lines[j - 1])
  {
  }

  /**
   * Scanning upward from line `j - 1` down to line `lo`, stopping at the first
   * line outside the block: the first value `found` gives.
   */
  function ScanUp<R>(lines: seq<string>, lo: nat, j: nat, inBlock: string -> bool, found: string -> Option<R>)
    : Option<R>
    requires j <= |lines|
    decreases j
  {
    if j <= lo || !inBlock(lines[j - 1]) then None
    else
      match found(lines[j - 1])
      case Some(h) => Some(h)
      case None => ScanUp(lines, lo, j - 1, inBlock, found)
  }

  /**
   * The scan gives the value of the nearest line, in the unbroken block
   * right above `j` and not above `lo`, that has one; absent when none has.
   */
  lemma {:induction false} ScanUpSpec<R>(lines: seq<string>, lo: nat, j: nat, inBlock: string -> bool, found: string -> Option<R>)
    requires j <= |lines|
    ensures var r := ScanUp(lines, lo, j, inBlock, found);
      r.Some? ==> exists m: nat :: (lo <= m < j && RunOf(lines, m, j, inBlock) && found(lines[m]) == r
        && forall k :: m < k < j ==> found(lines[k]).None?)
    ensures var r := ScanUp(lines, lo, j, inBlock, found);
      r.None? ==> forall m: nat :: (lo <= m < j && RunOf(lines, m, j, inBlock) ==> found(lines[m]).None?)
    decreases j
  {
    if j <= lo {
    } else if !inBlock(lines[j - 1]) {
      forall m: nat | lo <= m < j ensures !RunOf(lines, m, j, inBlock) {
        assert !inBlock(lines[j - 1]);
      }
    } else if found(lines[j - 1]).Some? {
      assert RunOf(lines, j - 1, j, inBlock);
    } else {
      ScanUpSpec(lines, lo, j - 1, inBlock, found);
      ScanUpStep(lines, lo, j, inBlock, found, ScanUp(lines, lo, j - 1, inBlock, found));
    }
  }

  /** Past a line in the block with no value, what holds of the scan below it holds from it. */
  lemma ScanUpStep<R>(lines: seq<string>, lo: nat, j: nat, inBlock: string -> bool, found: string -> Option<R>, r: Option<R>)
    requires lo < j <= |lines| && inBlock(lines[j - 1]) && found(lines[j - 1]).None?
    requires r.Some? ==> exists m: nat :: (lo <= m < j - 1 && RunOf(lines, m, j - 1, inBlock) && found(lines[m]) == r
      && forall k :: m < k < j - 1 ==> found(lines[k]).None?)
    requires r.None? ==> forall m: nat :: (lo <= m < j - 1 && RunOf(lines, m, j - 1, inBlock) ==> found(lines[m]).None?)
    ensures r.Some? ==> exists m: nat :: (lo <= m < j && RunOf(lines, m, j, inBlock) && found(lines[m]) == r
      && forall k :: m < k < j ==> found(lines[k]).None?)
    ensures r.None? ==> forall m: nat :: (lo <= m < j && RunOf(lines, m, j, inBlock) ==> found(lines[m]).None?)
  {
    if r.Some? {
      var m: nat :| lo <= m < j - 1 && RunOf(lines, m, j - 1, inBlock) && found(lines[m]) == r
        && forall k :: m < k < j - 1 ==> found(lines[k]).None?;
      RunSplit(lines, m, j, inBlock);
      assert lo <= m < j && RunOf(lines, m, j, inBlock) && found(lines[m]) == r;
    } else {
      ScanUpStepNone(lines, lo, j, inBlock, found);
    }
  }

  lemma ScanUpStepNone<R>(lines: seq<string>, lo: nat, j: nat, inBlock: string -> bool, found: string -> Option<R>)
    requires lo < j <= |lines| && found(lines[j - 1]).None?
    requires forall m: nat :: (lo <= m < j - 1 && RunOf(lines, m, j - 1, inBlock) ==> found(lines[m]).None?)
    ensures forall m: nat :: (lo <= m < j && RunOf(lines, m, j, inBlock) ==> found(lines[m]).None?)
  {
    forall m: nat | lo <= m < j - 1 && RunOf(lines, m, j, inBlock) ensures found(lines[m]).None? {
      RunSplit(lines, m, j, inBlock);
    }
  }

  /** When the line right above `j` is in the block and has a value, the scan gives that value. */
  lemma ScanUpNearest<R>(lines: seq<string>, lo: nat, j: nat, inBlock: string -> bool, found: string -> Option<R>)
    requires lo < j <= |lines| && inBlock(lines[j - 1]) && found(lines[j - 1]).Some?
    ensures ScanUp(lines, lo, j, inBlock, found) == found(lines[j - 1])
  {
  }

  /**
   * The usage hint of the target on line `i`: among the comment lines right
   * above it, at most `UsageWindow` of them, the hint of the nearest one
   * that has one; absent when none has.
   */
  function UsageHint(lines: seq<string>, i: nat): (r: Option<string>)
    requires i < |lines|
    ensures r.Some? ==> exists m: nat :: (i - UsageWindow <= m < i && RunOf(lines, m, i, IsCommentLine)
      && LineHint(lines[m]) == r && forall k :: m < k < i ==> LineHint(lines[k]).None?)
    ensures r.None? ==> forall m: nat :: (i - UsageWindow <= m < i && RunOf(lines, m, i, IsCommentLine)
      ==> LineHint(lines[m]).None?)
  {
    var lo := if i >= UsageWindow then i - UsageWindow else 0;
    ScanUpSpec(lines, lo, i, IsCommentLine, LineHint);
    ScanUp(lines, lo, i, IsCommentLine, LineHint)
  }
}

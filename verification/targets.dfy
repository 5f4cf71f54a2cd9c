/**
 * `parseTargets`: which lines declare targets, and the record built for
 * each one from the lines around it.
 */
module Targets {
  import opened Wrappers
  import opened Text
  import opened Model
  import opened GlobalVars
  import opened Comments
  import opened Recipe

  /** The two captures of the target pattern: the name and the text after the colon. */
  datatype Declared = Declared(name: string, deps: string)

  /** `[a-zA-Z_][a-zA-Z0-9_-]*`. */
  predicate IsTargetName(name: string) {
    |name| > 0 && IsNameStart(name[0]) && forall k :: 0 <= k < |name| ==> IsNameChar(name[k])
  }

  /** `^([a-zA-Z_][a-zA-Z0-9_-]*)\s*:\s*(.*)$` on a (trimmed) line. */
  function TargetMatch(t: string): Option<Declared>
  {
    if t == [] || !IsNameStart(t[0]) then None
    else
      var n := SpanEnd(t, 1, IsNameChar);
      var c := SpanEnd(t, n, IsSpace);
      if c < |t| && t[c] == ':' then CapturesAt(t, n, c) else None
  }

  /** The captures once the name ends at `n` and the colon sits at `c`: `.*` must reach the end. */
  function CapturesAt(t: string, n: nat, c: nat): Option<Declared>
    requires n <= c < |t|
  {
    var deps := TrimStart(t[c + 1..]);
    if NoLineTerminator(deps) then Some(Declared(t[..n], deps)) else None
  }

  /**
   * `t` reads as a target declaration with captures `d`: the name, optional
   * whitespace, a colon, optional whitespace, and the dependency text, which
   * `.` must be able to cover up to the end.
   */
  ghost predicate IsTargetShape(t: string, d: Declared) {
    exists c :: TargetParts(t, d, c)
  }

  /** The declaration shape with its colon at `c`. */
  predicate TargetParts(t: string, d: Declared, c: nat) {
    && IsTargetName(d.name) && StartsWith(t, d.name)
    && |d.name| <= c < |t| && AllSpace(t[|d.name|..c]) && t[c] == ':'
    && d.deps == TrimStart(t[c + 1..]) && NoLineTerminator(d.deps)
  }

  /** The greedy runs of the matcher stop where the declaration shape says they do. */
  lemma TargetPositions(t: string, n: nat, c: nat)
    requires 0 < n <= c < |t| && IsNameStart(t[0])
    requires forall k :: 0 <= k < n ==> IsNameChar(t[k])
    requires AllSpace(t[n..c]) && t[c] == ':'
    ensures SpanEnd(t, 1, IsNameChar) == n && SpanEnd(t, n, IsSpace) == c
  {
    SpanEndSpaces(t, n, c);
    assert !IsNameChar(t[n]) by {
      if n < c { assert t[n] == t[n..c][0]; }
    }
    SpanEndUnique(t, 1, n, IsNameChar);
  }

  /** What the matcher yields has the declaration shape. */
  lemma TargetMatchSound(t: string)
    requires TargetMatch(t).Some?
    ensures IsTargetShape(t, TargetMatch(t).value)
  {
    var d := TargetMatch(t).value;
    var n := SpanEnd(t, 1, IsNameChar);
    var c := SpanEnd(t, n, IsSpace);
    assert t[..n] == d.name;
    assert forall k :: 0 <= k < n ==> d.name[k] == t[k];
    assert AllSpace(t[n..c]);
    assert TargetParts(t, d, c);
  }

  /** A line with the declaration shape, colon at `c`, yields exactly its captures. */
  lemma TargetMatchOf(t: string, d: Declared, c: nat)
    requires TargetParts(t, d, c)
    ensures TargetMatch(t) == Some(d)
  {
    var n := |d.name|;
    assert t[..n] == d.name && SpanEnd(t, 1, IsNameChar) == n && SpanEnd(t, n, IsSpace) == c && IsNameStart(t[0]) by {
      assert t[..n] == d.name;
      assert forall k :: 0 <= k < n ==> t[k] == d.name[k];
      TargetPositions(t, n, c);
    }
    TargetMatchAt(t, n, c, d);
  }

  /** With the runs known to end at `n` and `c`, the matcher yields the captures. */
  lemma TargetMatchAt(t: string, n: nat, c: nat, d: Declared)
    requires 0 < n <= c < |t| && IsNameStart(t[0]) && t[c] == ':'
    requires SpanEnd(t, 1, IsNameChar) == n && SpanEnd(t, n, IsSpace) == c
    requires t[..n] == d.name && d.deps == TrimStart(t[c + 1..]) && NoLineTerminator(d.deps)
    ensures TargetMatch(t) == Some(d)
  {
    assert CapturesAt(t, n, c) == Some(d);
  }

  /** A line with the declaration shape yields exactly its captures. */
  lemma TargetMatchComplete(t: string, d: Declared)
    requires IsTargetShape(t, d)
    ensures TargetMatch(t) == Some(d)
  {
    var c :| TargetParts(t, d, c);
    TargetMatchOf(t, d, c);
  }

  /** The matcher yields `d` exactly when the line has the declaration shape with captures `d`. */
  lemma TargetMatchIff(t: string, d: Declared)
    ensures TargetMatch(t) == Some(d) <==> IsTargetShape(t, d)
  {
    if TargetMatch(t) == Some(d) {
      TargetMatchSound(t);
    }
    if IsTargetShape(t, d) {
      TargetMatchComplete(t, d);
    }
  }

  /**
   * The declaration a raw line makes, if any: its trimmed text is neither
   * empty nor a comment, matches the target pattern, and passes the filter
   * against pattern rules (`%` in the name) and assignments (`:=` or `=`
   * anywhere in the line).
   */
  function Declaration(raw: string): Option<Declared>
  {
    var t := Trim(raw);
    if StartsWith(t, "#") || t == [] then None
    else
      match TargetMatch(t)
      case None => None
      case Some(d) =>
        if '%' in d.name || Contains(t, ":=") || Contains(t, "=") then None
        else Some(d)
  }

  /** `s.includes(c)` for one character is membership. */
  lemma ContainsChar(s: string, c: char)
    ensures Contains(s, [c]) <==> c in s
  {
    if c in s {
      var i :| 0 <= i < |s| && s[i] == c;
      assert s[i..i + 1] == [c];
      assert HasAt(s, i, [c]);
    }
    if Contains(s, [c]) {
      var i :| 0 <= i <= |s| && HasAt(s, i, [c]);
      assert s[i] == s[i..i + 1][0];
    }
  }

  /** A line containing `:=` contains `=`, so the `:=` test adds nothing. */
  lemma ColonEqualsHasEquals(s: string)
    requires Contains(s, ":=")
    ensures '=' in s
  {
    var i :| 0 <= i <= |s| && HasAt(s, i, ":=");
    assert s[i + 1] == s[i..i + 2][1];
  }

  /** A target name never contains `%`, so the pattern-rule test never fires. */
  lemma NoPercentInName(name: string)
    requires IsTargetName(name)
    ensures '%' !in name
  {
  }

  /**
   * Which lines declare targets: a raw line declares `d` exactly when its
   * trimmed text has the declaration shape with captures `d` and contains
   * no `=`. (Emptiness and a leading `#` are ruled out by the shape.)
   */
  lemma DeclarationIff(raw: string, d: Declared)
    ensures Declaration(raw) == Some(d) <==> IsTargetShape(Trim(raw), d) && '=' !in Trim(raw)
  {
    var t := Trim(raw);
    TargetMatchIff(t, d);
    ContainsChar(t, '=');
    if Contains(t, ":=") {
      ColonEqualsHasEquals(t);
    }
    if IsTargetShape(t, d) {
      ShapeIsNoComment(t, d);
    }
  }

  /** A line with the declaration shape is neither blank nor a comment, and its name has no `%`. */
  lemma ShapeIsNoComment(t: string, d: Declared)
    requires IsTargetShape(t, d)
    ensures t != [] && !StartsWith(t, "#") && '%' !in d.name
  {
    var c :| TargetParts(t, d, c);
    NameIsNoComment(t, d.name);
  }

  /** A line that starts with a target name is neither blank nor a comment. */
  lemma NameIsNoComment(t: string, name: string)
    requires IsTargetName(name) && StartsWith(t, name)
    ensures t != [] && !StartsWith(t, "#") && '%' !in name
  {
    NoPercentInName(name);
    assert t[0] == name[0];
    HeadMismatch(t, "#");
  }

  /**
   * A line starting with a character that is neither whitespace nor a
   * possible first character of a target name (`.PHONY:`, `%.o:`, `$(X):`)
   * declares nothing.
   */
  lemma OddStartDeclaresNothing(raw: string)
    requires raw != [] && !IsSpace(raw[0]) && !IsNameStart(raw[0])
    ensures Declaration(raw) == None
  {
    TrimKeepsHead(raw);
  }

  /** The dependency text of a match on a trimmed line is trimmed. */
  lemma DepsTrimmed(t: string, d: Declared)
    requires IsTrimmed(t) && TargetMatch(t) == Some(d)
    ensures IsTrimmed(d.deps)
  {
    var n := SpanEnd(t, 1, IsNameChar);
    var c := SpanEnd(t, n, IsSpace);
    var rest := t[c + 1..];
    if d.deps != [] {
      assert d.deps[|d.deps| - 1] == rest[|rest| - 1] == t[|t| - 1];
    }
  }

  /**
   * `deps.trim() ? deps.split(/\s+/) : []`: no dependencies for blank text,
   * else the whitespace-separated words. Either way the words are
   * whitespace-free and hold, in order, every non-whitespace character of
   * the text; for trimmed text none is empty.
   */
  function Dependencies(deps: string): (r: seq<string>)
    ensures r == [] <==> AllSpace(deps)
    ensures forall k :: 0 <= k < |r| ==> NoSpace(r[k])
    ensures Concat(r) == NonSpaceChars(deps)
    ensures IsTrimmed(deps) ==> forall k :: 0 <= k < |r| ==> r[k] != []
  {
    TrimEmptyIff(deps);
    if Trim(deps) != [] then
      WordsOfTrimmed(deps);
      SplitWs(deps)
    else
      NonSpaceCharsOfBlank(deps);
      []
  }

  lemma WordsOfTrimmed(deps: string)
    ensures deps != [] && IsTrimmed(deps) ==> forall k :: 0 <= k < |SplitWs(deps)| ==> SplitWs(deps)[k] != []
  {
    if deps != [] && IsTrimmed(deps) {
      SplitWsTrimmed(deps);
    }
  }

  /**
   * Non-empty whitespace-free words separated by any whitespace runs come
   * back as the dependency list: the list is cut exactly at those runs.
   */
  lemma DependenciesOfWords(words: seq<string>, gaps: seq<string>)
    requires SpacedParts(words, gaps)
    requires forall k :: 0 <= k < |words| ==> words[k] != []
    ensures Dependencies(Spaced(words, gaps)) == words
  {
    SplitWsGaps(words, gaps);
    SpacedHead(words, gaps);
    var s := Spaced(words, gaps);
    assert s[0] == words[0][0];
    assert Trim(s) != [] by { TrimEmptyIff(s); }
  }

  /** Conversely, the dependencies of non-blank trimmed text lay it out, separated by whitespace runs. */
  lemma DependenciesLayout(deps: string) returns (gaps: seq<string>)
    requires IsTrimmed(deps) && deps != []
    ensures SpacedParts(Dependencies(deps), gaps) && Spaced(Dependencies(deps), gaps) == deps
  {
    TrimEmptyIff(deps);
    gaps := SplitWsSpaced(deps);
  }

  /** The record for the declaration `d` on line `i`. */
  function TargetAt(lines: seq<string>, table: map<string, string>, i: nat, d: Declared): MakeTarget
    requires i < |lines|
  {
    MakeTarget(
      d.name,
      ExtractDescription(lines, i),
      Dependencies(d.deps),
      TargetVariables(lines, table, d.name),
      UsageHint(lines, i))
  }

  /** One turn of the `parseTargets` loop: the record line `i` contributes, if it declares a target. */
  function RecordAt(lines: seq<string>, table: map<string, string>, i: nat): Option<MakeTarget>
  {
    if i < |lines| then
      match Declaration(lines[i])
      case Some(d) => Some(TargetAt(lines, table, i, d))
      case None => None
    else None
  }

  /** `parseTargets` on the lines of a document: the loop over all lines, against the document's global table. */
  function ParseTargets(lines: seq<string>): seq<MakeTarget>
  {
    var table := GlobalTable(lines);
    Select(|lines|, 0, i => RecordAt(lines, table, i))
  }

  /** `new MakefileParser(content).parseTargets()`: the document cut at line feeds. */
  function Parse(content: string): seq<MakeTarget>
  {
    ParseTargets(Split(content, '\n'))
  }

  /** A line declares a target. */
  predicate Declares(raw: string) {
    Declaration(raw).Some?
  }

  /** The declaring lines, in order. */
  function DeclarationIndices(lines: seq<string>): (r: seq<nat>)
    ensures forall k :: 0 <= k < |r| ==> r[k] < |lines| && Declares(lines[r[k]])
    ensures forall j :: 0 <= j < |lines| && Declares(lines[j]) ==> j in r
    ensures forall a, b :: 0 <= a < b < |r| ==> r[a] < r[b]
  {
    Indices(lines, 0, Declares)
  }

  /**
   * Exactly one record per declaring line, in document order: the `k`-th
   * record is the one built for the `k`-th declaring line.
   */
  lemma ParseTargetsIndices(lines: seq<string>)
    ensures |ParseTargets(lines)| == |DeclarationIndices(lines)|
    ensures forall k :: 0 <= k < |DeclarationIndices(lines)| ==>
      var i := DeclarationIndices(lines)[k];
      ParseTargets(lines)[k] == TargetAt(lines, GlobalTable(lines), i, Declaration(lines[i]).value)
  {
    var table := GlobalTable(lines);
    var f := (i: nat) => RecordAt(lines, table, i);
    forall j | 0 <= j < |lines| ensures f(j).Some? <==> Declares(lines[j]) {
      RecordAtOf(lines, table, j);
    }
    SelectIndices(lines, 0, Declares, f);
    var idx := DeclarationIndices(lines);
    forall k | 0 <= k < |idx|
      ensures ParseTargets(lines)[k] == TargetAt(lines, table, idx[k], Declaration(lines[idx[k]]).value)
    {
      RecordAtOf(lines, table, idx[k]);
    }
  }

  /** A turn of the loop yields a record exactly for a declaring line, and it is that line's record. */
  lemma RecordAtOf(lines: seq<string>, table: map<string, string>, i: nat)
    requires i < |lines|
    ensures RecordAt(lines, table, i).Some? <==> Declares(lines[i])
    ensures Declares(lines[i]) ==> RecordAt(lines, table, i).value == TargetAt(lines, table, i, Declaration(lines[i]).value)
  {
  }

  /**
   * A turn of the loop over line `i` yields record `t` exactly when the
   * trimmed line has the declaration shape with some captures `d`, holds no
   * `=`, and `t` is the record built from `d`.
   */
  lemma RecordAtShape(lines: seq<string>, table: map<string, string>, i: nat, t: MakeTarget)
    ensures RecordAt(lines, table, i) == Some(t) <==>
      i < |lines| && exists d :: IsTargetShape(Trim(lines[i]), d) && '=' !in Trim(lines[i]) && t == TargetAt(lines, table, i, d)
  {
    if RecordAt(lines, table, i) == Some(t) {
      var d := Declaration(lines[i]).value;
      DeclarationIff(lines[i], d);
      assert IsTargetShape(Trim(lines[i]), d) && '=' !in Trim(lines[i]) && t == TargetAt(lines, table, i, d);
    }
    if i < |lines| && exists d :: IsTargetShape(Trim(lines[i]), d) && '=' !in Trim(lines[i]) && t == TargetAt(lines, table, i, d) {
      var d :| IsTargetShape(Trim(lines[i]), d) && '=' !in Trim(lines[i]) && t == TargetAt(lines, table, i, d);
      DeclarationIff(lines[i], d);
    }
  }

  /** A record with a target name, non-empty whitespace-free dependencies and distinct variable names. */
  predicate WellFormed(t: MakeTarget) {
    && IsTargetName(t.name) && '%' !in t.name
    && (forall k :: 0 <= k < |t.dependencies| ==> t.dependencies[k] != [] && NoSpace(t.dependencies[k]))
    && Distinct(Names(t.variables))
  }

  /** The record of a declaring line is well formed. */
  lemma TargetAtWellFormed(lines: seq<string>, table: map<string, string>, i: nat, d: Declared)
    requires i < |lines| && Declaration(lines[i]) == Some(d)
    ensures WellFormed(TargetAt(lines, table, i, d))
  {
    DeclaredParts(lines[i], d);
    NoPercentInName(d.name);
    var deps := Dependencies(d.deps);
    var vars := TargetVariables(lines, table, d.name);
    assert TargetAt(lines, table, i, d) == MakeTarget(d.name, ExtractDescription(lines, i), deps, vars, UsageHint(lines, i));
  }

  /** The captures of a declaring line: a target name and trimmed dependency text. */
  lemma DeclaredParts(raw: string, d: Declared)
    requires Declaration(raw) == Some(d)
    ensures IsTargetName(d.name) && IsTrimmed(d.deps)
  {
    var t := Trim(raw);
    DeclarationIff(raw, d);
    TargetMatchIff(t, d);
    DepsTrimmed(t, d);
    var c :| TargetParts(t, d, c);
  }

  /**
   * Every record of a parse: its name is a target name, its dependencies
   * are non-empty whitespace-free words, and its variables have distinct
   * names.
   */
  lemma ParsedRecordsWellFormed(lines: seq<string>)
    ensures forall k :: 0 <= k < |ParseTargets(lines)| ==> WellFormed(ParseTargets(lines)[k])
  {
    ParseTargetsIndices(lines);
    var idx := DeclarationIndices(lines);
    forall k | 0 <= k < |idx| ensures WellFormed(ParseTargets(lines)[k]) {
      TargetAtWellFormed(lines, GlobalTable(lines), idx[k], Declaration(lines[idx[k]]).value);
    }
  }

  /** A document without a declaring line, such as one of comments and blank lines only, yields no targets. */
  lemma NoDeclarationsNoTargets(lines: seq<string>)
    requires forall j :: 0 <= j < |lines| ==> IsCommentLine(lines[j]) || Trim(lines[j]) == []
    ensures ParseTargets(lines) == []
  {
    ParseTargetsIndices(lines);
    var idx := DeclarationIndices(lines);
    if |idx| > 0 {
      var t := Trim(lines[idx[0]]);
      DeclarationIff(lines[idx[0]], Declaration(lines[idx[0]]).value);
      ShapeIsNoComment(t, Declaration(lines[idx[0]]).value);
    }
  }

  /** The empty document has no targets. */
  lemma EmptyDocument()
    ensures Parse("") == []
  {
    EmptySplit();
    BlankLinesNoTargets(Split("", '\n'));
  }

  /** Lines that are all empty declare nothing. */
  lemma BlankLinesNoTargets(lines: seq<string>)
    requires forall j :: 0 <= j < |lines| ==> lines[j] == ""
    ensures ParseTargets(lines) == []
  {
    TrimEmptyIff("");
    NoDeclarationsNoTargets(lines);
  }

  lemma EmptySplit()
    ensures Split("", '\n') == [""]
  {
  }

  /**
   * Without a comment above, a line written `name:` and the rest gets the
   * fallback description naming it, from the raw line.
   */
  lemma FallbackDescription(lines: seq<string>, i: nat, name: string, rest: string)
    requires i < |lines| && lines[i] == name + ":" + rest && ':' !in name
    requires i == 0 || !IsCommentLine(lines[i - 1])
    ensures ExtractDescription(lines, i) == FallbackPrefix + name
  {
    var raw := lines[i];
    assert raw[|name|] == ':' && raw[..|name|] == name;
    IndexOfUnique(raw, ':', |name|);
    SplitHead(raw, ':');
  }

  /**
   * An unindented declaration is found by the variable scan's search for
   * its name, on its own line or on an earlier line that also starts with
   * the name and a colon.
   */
  lemma UnindentedDeclarationFound(lines: seq<string>, i: nat, d: Declared)
    requires i < |lines| && Declaration(lines[i]) == Some(d)
    requires lines[i] != [] && !IsSpace(lines[i][0])
    ensures DeclLine(lines, d.name).Some? && DeclLine(lines, d.name).value <= i
  {
    var raw := lines[i];
    var t := Trim(raw);
    DeclarationIff(raw, d);
    var c :| TargetParts(t, d, c);
    TrimUnindented(raw);
    PrefixStartsDecl(raw, t, d.name, c);
  }

  /** Trimming a line that starts with a non-space only cuts its end. */
  lemma TrimUnindented(raw: string)
    requires raw != [] && !IsSpace(raw[0])
    ensures Trim(raw) == raw[..|Trim(raw)|]
  {
    TrimIsInfix(raw);
    assert LeadingSpaces(raw) == 0;
  }

  /** A raw line that begins with a trimmed declaration of `name` matches `^name\s*:`. */
  lemma PrefixStartsDecl(raw: string, t: string, name: string, c: nat)
    requires |t| <= |raw| && t == raw[..|t|]
    requires StartsWith(t, name) && |name| <= c < |t| && AllSpace(t[|name|..c]) && t[c] == ':'
    ensures StartsDecl(raw, name)
  {
    assert forall k :: 0 <= k < |t| ==> t[k] == raw[k];
    assert raw[..|name|] == name;
    assert raw[|name|..c] == t[|name|..c];
    StartsDeclIff(raw, name);
  }

  /**
   * The same comment line can give both the description and the usage
   * hint: right above a declaration, `# Usage: text` is the description
   * `Usage: text` and the hint `text`.
   */
  lemma SameLineFeedsBoth(lines: seq<string>, i: nat, word: string, w: string, text: string)
    requires 0 < i < |lines|
    requires IsUsageLabel(w) && SpellsIgnoreCase(word, w)
    requires text != [] && IsTrimmed(text) && NoLineTerminator(text)
    requires lines[i - 1] == "# " + word + ": " + text
    ensures ExtractDescription(lines, i) == word + ": " + text
    ensures UsageHint(lines, i) == Some(text)
  {
    UsageLineText(lines[i - 1], word, w, text);
    UsageLineHint(lines[i - 1], word, w, text);
    NearestHint(lines, i, text);
  }

  /** The comment text of `# Usage: text` is `Usage: text`. */
  lemma UsageLineText(raw: string, word: string, w: string, text: string)
    requires IsUsageLabel(w) && SpellsIgnoreCase(word, w)
    requires text != [] && IsTrimmed(text)
    requires raw == "# " + word + ": " + text
    ensures IsCommentLine(raw) && CommentText(raw) == word + ": " + text
  {
    var body := word + ": " + text;
    assert body[0] == word[0] && LowerAscii(word[0]) == w[0];
    assert body[|body| - 1] == text[|text| - 1];
    assert raw == [] + "#" + " " + body + [];
    CommentTextOf([], " ", body, []);
  }

  /** The usage hint of `# Usage: text` is `text`. */
  lemma UsageLineHint(raw: string, word: string, w: string, text: string)
    requires IsUsageLabel(w) && SpellsIgnoreCase(word, w)
    requires text != [] && IsTrimmed(text) && NoLineTerminator(text)
    requires raw == "# " + word + ": " + text
    ensures LineHint(raw) == Some(text)
  {
    assert raw == "#" + " " + word + ":" + " " + text;
    LabelledCommentHint(" ", word, w, " ", text);
  }

  /** A comment line right above line `i` that offers a hint gives line `i` that hint. */
  lemma NearestHint(lines: seq<string>, i: nat, text: string)
    requires 0 < i < |lines| && IsCommentLine(lines[i - 1]) && LineHint(lines[i - 1]) == Some(text)
    ensures UsageHint(lines, i) == Some(text)
  {
    ScanUpNearest(lines, if i >= UsageWindow then i - UsageWindow else 0, i, IsCommentLine, LineHint);
  }

  /**
   * Matching runs on the trimmed line, so a tab-indented recipe line
   * written like a declaration, `\tname: deps`, is itself reported as one.
   */
  lemma IndentedLineDeclares(name: string, deps: string)
    requires IsTargetName(name) && deps != [] && IsTrimmed(deps) && NoLineTerminator(deps) && '=' !in deps
    ensures Declaration("\t" + name + ": " + deps) == Some(Declared(name, deps))
  {
    IndentedLineTrim(name, deps);
    WrittenDeclarationParts(name, deps);
    DeclarationIff("\t" + name + ": " + deps, Declared(name, deps));
  }

  lemma IndentedLineTrim(name: string, deps: string)
    requires IsTargetName(name) && deps != [] && IsTrimmed(deps)
    ensures Trim("\t" + name + ": " + deps) == name + ": " + deps
  {
    var t := name + ": " + deps;
    assert t[0] == name[0];
    assert t[|t| - 1] == deps[|deps| - 1];
    assert "\t" + name + ": " + deps == "\t" + t + [];
    TrimPadded("\t", t, []);
  }

  /** `name: deps` has the declaration shape with those captures, and no `=`. */
  lemma WrittenDeclarationParts(name: string, deps: string)
    requires IsTargetName(name) && deps != [] && IsTrimmed(deps) && NoLineTerminator(deps) && '=' !in deps
    ensures IsTargetShape(name + ": " + deps, Declared(name, deps))
    ensures '=' !in name + ": " + deps
  {
    var t := name + ": " + deps;
    var n := |name|;
    assert t[n + 1..] == " " + deps;
    SpanEndSpaces(" " + deps, 0, 1);
    assert t[..n] == name && t[n..n] == [] && t[n] == ':';
    assert TargetParts(t, Declared(name, deps), n);
    forall k | 0 <= k < |t| ensures t[k] != '=' {
      if k < n {
        assert t[k] == name[k] && IsNameChar(name[k]);
      } else if n + 2 <= k {
        assert t[k] == deps[k - n - 2];
      }
    }
  }
}

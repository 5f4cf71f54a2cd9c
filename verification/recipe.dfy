/**
 * The variables a target's recipe uses (`extractTargetVariables` and
 * `findVariableDescription`): the recipe block after the target's first
 * declaration line, the `$(NAME)`/`${NAME}` references and the
 * `ifdef NAME`/`ifndef NAME` tests in it, and what the document says about
 * each name.
 */
module Recipe {
  import opened Wrappers
  import opened Text
  import opened Model
  import opened Comments
  import GlobalVars
  import Bindings

  /** `^name\s*:` on a raw line: the name at column 0, optional whitespace, a colon. */
  predicate StartsDecl(line: string, name: string) {
    StartsWith(line, name)
    && (var j := SpanEnd(line, |name|, IsSpace); j < |line| && line[j] == ':')
  }

  /** The greedy `\s*` loses nothing: a colon after any whitespace run is found. */
  lemma StartsDeclIff(line: string, name: string)
    ensures StartsDecl(line, name) <==>
      StartsWith(line, name)
      && exists j :: |name| <= j < |line| && AllSpace(line[|name|..j]) && line[j] == ':'
  {
    if StartsWith(line, name) && exists j :: |name| <= j < |line| && AllSpace(line[|name|..j]) && line[j] == ':' {
      var j :| |name| <= j < |line| && AllSpace(line[|name|..j]) && line[j] == ':';
      SpanEndSpaces(line, |name|, j);
    }
  }

  /**
   * The declaration line the variable scan starts from: the first raw line
   * matching `^name\s*:`, which may also be a `name := v` assignment.
   */
  function DeclLine(lines: seq<string>, name: string): (r: Option<nat>)
    ensures r.Some? ==> r.value < |lines| && StartsDecl(lines[r.value], name)
    ensures r.Some? ==> forall k :: 0 <= k < r.value ==> !StartsDecl(lines[k], name)
    ensures r.None? ==> forall k :: 0 <= k < |lines| ==> !StartsDecl(lines[k], name)
  {
    FindFirst(lines, 0, l => StartsDecl(l, name))
  }

  /** A tab-indented line. */
  predicate IsRecipeLine(line: string) {
    StartsWith(line, "\t")
  }

  /** `^(ifdef|ifndef|ifeq|ifneq|else|endif)` on a trimmed line: a bare prefix, no word boundary. */
  predicate IsConditional(t: string) {
    StartsWith(t, "ifdef") || StartsWith(t, "ifndef") || StartsWith(t, "ifeq")
    || StartsWith(t, "ifneq") || StartsWith(t, "else") || StartsWith(t, "endif")
  }

  /** A line the block takes: a recipe line or a conditional. */
  predicate Kept(line: string) {
    IsRecipeLine(line) || IsConditional(Trim(line))
  }

  /** A line that, unless kept, ends the block: non-blank and not starting with `#` in its raw form. */
  predicate IsBlockBreak(line: string) {
    Trim(line) != [] && !StartsWith(line, "#")
  }

  /**
   * A comment indented by spaces is neither a recipe line nor a
   * conditional, and since its raw text does not start with `#` it ends the
   * block instead of being skipped.
   */
  lemma IndentedCommentEndsBlock(lead: string, body: string)
    requires lead != [] && AllSpace(lead) && lead[0] != '\t'
    ensures !Kept(lead + "#" + body) && IsBlockBreak(lead + "#" + body)
  {
    var line := lead + ("#" + body);
    assert lead + "#" + body == line;
    TrimDropsLead(lead, "#" + body);
    TrimKeepsHead("#" + body);
    HashIsNoConditional(Trim(line));
    assert line[0] == lead[0] && !IsSpace('#') && IsSpace(lead[0]);
    HeadMismatch(line, "\t");
    HeadMismatch(line, "#");
  }

  /** A line starting with `#` is no conditional. */
  lemma HashIsNoConditional(t: string)
    requires t != [] && t[0] == '#'
    ensures !IsConditional(t)
  {
    HeadMismatch(t, "ifdef");
    HeadMismatch(t, "ifndef");
    HeadMismatch(t, "ifeq");
    HeadMismatch(t, "ifneq");
    HeadMismatch(t, "else");
    HeadMismatch(t, "endif");
  }

  /** The elements of `xs` that satisfy `p`, in order. */
  function Filter<T(!new)>(xs: seq<T>, p: T -> bool): (r: seq<T>)
    ensures |r| <= |xs|
    ensures forall x :: x in r <==> x in xs && p(x)
  {
    if xs == [] then []
    else (if p(xs[0]) then [xs[0]] else []) + Filter(xs[1..], p)
  }

  /** Where the collection from `from` stops: the first line neither kept nor skipped, or the end. */
  function StopAt(lines: seq<string>, from: nat, keep: string -> bool, stop: string -> bool): (e: nat)
    requires from <= |lines|
    ensures from <= e <= |lines|
    ensures forall k :: from <= k < e ==> keep(lines[k]) || !stop(lines[k])
    ensures e < |lines| ==> !keep(lines[e]) && stop(lines[e])
  {
    match FindFirst(lines, from, l => !keep(l) && stop(l))
    case Some(e) => e
    case None => |lines|
  }

  /** The collection loop: take kept lines, skip the others until one that stops it. */
  function Collect(lines: seq<string>, from: nat, keep: string -> bool, stop: string -> bool): seq<string>
    requires from <= |lines|
    decreases |lines| - from
  {
    if from == |lines| then []
    else if keep(lines[from]) then [lines[from]] + Collect(lines, from + 1, keep, stop)
    else if stop(lines[from]) then []
    else Collect(lines, from + 1, keep, stop)
  }

  /** The loop keeps exactly the kept lines before the stop point, in order. */
  lemma {:induction false} CollectIsFilter(lines: seq<string>, from: nat, keep: string -> bool, stop: string -> bool)
    requires from <= |lines|
    ensures Collect(lines, from, keep, stop) == Filter(lines[from..StopAt(lines, from, keep, stop)], keep)
    decreases |lines| - from
  {
    var e := StopAt(lines, from, keep, stop);
    if from < |lines| && (keep(lines[from]) || !stop(lines[from])) {
      assert StopAt(lines, from + 1, keep, stop) == e by {
        FindFirstFrom(lines, from, l => !keep(l) && stop(l));
      }
      CollectIsFilter(lines, from + 1, keep, stop);
      assert lines[from..e][1..] == lines[from + 1..e];
    }
  }

  /** Skipping an element that fails `p` does not change the search. */
  lemma FindFirstFrom<T>(xs: seq<T>, from: nat, p: T -> bool)
    requires from < |xs| && !p(xs[from])
    ensures FindFirst(xs, from, p) == FindFirst(xs, from + 1, p)
  {
  }

  /**
   * The recipe block of the declaration on line `k`: the kept lines after
   * it up to the first line that is neither kept, blank, nor a raw `#`
   * line. Nothing from that line on is part of the block.
   */
  function RecipeBlock(lines: seq<string>, k: nat): (r: seq<string>)
    requires k < |lines|
    ensures r == Filter(lines[k + 1..StopAt(lines, k + 1, Kept, IsBlockBreak)], Kept)
  {
    CollectIsFilter(lines, k + 1, Kept, IsBlockBreak);
    Collect(lines, k + 1, Kept, IsBlockBreak)
  }

  /** One match of a global regular expression: the captured name and where the match ends. */
  datatype Hit = Hit(name: string, end: nat)

  /**
   * The captures of repeated `exec` calls with a global regular expression:
   * try each position in turn, and after a match continue at its end.
   * `at(s, i)` is the match starting at `i`, if any. Every name found is
   * the capture of a match at some position.
   */
  function Matches(s: string, i: nat, at: (string, nat) -> Option<Hit>): (r: seq<string>)
    requires i <= |s|
    requires forall j :: i <= j < |s| ==> at(s, j).Some? ==> j < at(s, j).value.end <= |s|
    decreases |s| - i
  {
    if i == |s| then []
    else
      match at(s, i)
      case Some(h) => [h.name] + Matches(s, h.end, at)
      case None => Matches(s, i + 1, at)
  }

  /** Every name the scan reports is the capture of a match at some position. */
  lemma {:induction false} MatchesSound(s: string, i: nat, at: (string, nat) -> Option<Hit>, x: string)
    requires i <= |s|
    requires forall j :: i <= j < |s| ==> at(s, j).Some? ==> j < at(s, j).value.end <= |s|
    requires x in Matches(s, i, at)
    ensures exists j :: i <= j < |s| && at(s, j).Some? && at(s, j).value.name == x
    decreases |s| - i
  {
    match at(s, i)
    case Some(h) =>
      if x != h.name {
        MatchesSound(s, h.end, at, x);
      }
    case None =>
      MatchesSound(s, i + 1, at, x);
  }

  predicate IsOpen(c: char) { c == '(' || c == '{' }

  predicate IsClose(c: char) { c == ')' || c == '}' }

  /** `\$[({](\w+)[)}]` at position `i`; the brackets need not agree. */
  function RefAt(s: string, i: nat): (r: Option<Hit>)
    ensures r.Some? ==> i < r.value.end <= |s|
  {
    if i + 1 < |s| && s[i] == '$' && IsOpen(s[i + 1]) then
      var n := SpanEnd(s, i + 2, IsWordChar);
      if i + 2 < n < |s| && IsClose(s[n]) then Some(Hit(s[i + 2..n], n + 1)) else None
    else None
  }

  /** `$(name)`, `${name}`, `$(name}` or `${name)` sits at position `i`. */
  predicate IsRefAt(s: string, i: nat, name: string) {
    && |name| > 0 && AllWord(name)
    && i + |name| + 3 <= |s|
    && s[i] == '$' && IsOpen(s[i + 1])
    && s[i + 2..i + 2 + |name|] == name
    && IsClose(s[i + 2 + |name|])
  }

  /** The matcher finds a reference exactly where one is written, and the match ends just past it. */
  lemma RefAtIff(s: string, i: nat, name: string)
    ensures RefAt(s, i).Some? && RefAt(s, i).value.name == name <==> IsRefAt(s, i, name)
    ensures IsRefAt(s, i, name) ==> RefAt(s, i).value.end == i + |name| + 3
  {
    if IsRefAt(s, i, name) {
      var n := i + 2 + |name|;
      assert forall x :: i + 2 <= x < n ==> s[x] == name[x - (i + 2)];
      SpanEndUnique(s, i + 2, n, IsWordChar);
    }
  }

  /** The names of all references in `s`, in order of occurrence. */
  function RefNames(s: string): seq<string>
  {
    Matches(s, 0, RefAt)
  }

  /**
   * A match at `j` is reported by the scan from `i` when no match starting
   * between `i` and `j` runs past `j`.
   */
  lemma {:induction false} MatchesComplete(s: string, i: nat, j: nat, at: (string, nat) -> Option<Hit>, x: string)
    requires i <= j < |s|
    requires forall k :: i <= k < |s| ==> at(s, k).Some? ==> k < at(s, k).value.end <= |s|
    requires at(s, j).Some? && at(s, j).value.name == x
    requires forall k :: i <= k < j && at(s, k).Some? ==> at(s, k).value.end <= j
    ensures x in Matches(s, i, at)
    decreases |s| - i
  {
    if i == j {
      assert Matches(s, i, at) == [x] + Matches(s, at(s, i).value.end, at);
    } else {
      match at(s, i)
      case None =>
        MatchesComplete(s, i + 1, j, at, x);
      case Some(h) =>
        MatchesComplete(s, h.end, j, at, x);
    }
  }

  /** Every reference written in `s` is found by the scan: a match never swallows a `$`. */
  lemma RefsComplete(s: string, j: nat, name: string)
    requires IsRefAt(s, j, name)
    ensures name in RefNames(s)
  {
    RefAtIff(s, j, name);
    forall k | 0 <= k < j && RefAt(s, k).Some? ensures RefAt(s, k).value.end <= j {
      MatchEndsBeforeRef(s, k, j, name);
    }
    MatchesComplete(s, 0, j, RefAt, name);
  }

  /** A match that starts before a reference ends at or before it: no part of a match is a `$`. */
  lemma MatchEndsBeforeRef(s: string, i: nat, j: nat, name: string)
    requires i < j && IsRefAt(s, j, name) && RefAt(s, i).Some?
    ensures RefAt(s, i).value.end <= j
  {
    var n := SpanEnd(s, i + 2, IsWordChar);
    assert RefAt(s, i).value.end == n + 1;
    assert s[j] == '$' && !IsWordChar('$') && !IsClose('$') && !IsOpen('$');
  }

  /** The names the reference scan reports are exactly the references written in `s`. */
  lemma RefNamesIff(s: string, name: string)
    ensures name in RefNames(s) <==> exists j :: 0 <= j < |s| && IsRefAt(s, j, name)
  {
    if name in RefNames(s) {
      MatchesSound(s, 0, RefAt, name);
      var j :| 0 <= j < |s| && RefAt(s, j).Some? && RefAt(s, j).value.name == name;
      RefAtIff(s, j, name);
    }
    if exists j :: 0 <= j < |s| && IsRefAt(s, j, name) {
      var j :| 0 <= j < |s| && IsRefAt(s, j, name);
      RefsComplete(s, j, name);
    }
  }

  /** Line starts under the `m` flag: the start of the text or just after a line terminator. */
  predicate IsLineStart(s: string, p: nat) {
    p == 0 || (p <= |s| && IsLineTerminator(s[p - 1]))
  }

  /** The end of `ifndef` or `ifdef` at `a`, the optional `n` tried first. */
  function KeywordEnd(s: string, a: nat): (r: Option<nat>)
  {
    if HasAt(s, a, "ifndef") then Some(a + 6)
    else if HasAt(s, a, "ifdef") then Some(a + 5)
    else None
  }

  /** `^\s*ifn?def\s+(\w+)` with the `m` flag, for a match starting at `p`. */
  function IfdefAt(s: string, p: nat): (r: Option<Hit>)
    ensures r.Some? ==> p < r.value.end <= |s|
  {
    if p < |s| && IsLineStart(s, p) then
      var a := SpanEnd(s, p, IsSpace);
      match KeywordEnd(s, a)
      case None => None
      case Some(b) =>
        var c := SpanEnd(s, b, IsSpace);
        var d := SpanEnd(s, c, IsWordChar);
        if b < c < d then Some(Hit(s[c..d], d)) else None
    else None
  }

  /** `ifdef` ends at `b`, or `ifndef` does, the keyword starting at `a`. */
  predicate KeywordSpan(s: string, a: nat, b: nat) {
    (b == a + 5 && HasAt(s, a, "ifdef")) || (b == a + 6 && HasAt(s, a, "ifndef"))
  }

  /**
   * `ifdef name` or `ifndef name` written at line start `p`: whitespace
   * (which may include line breaks), the keyword, whitespace, then the
   * whole word `name`.
   */
  ghost predicate IsIfdefAt(s: string, p: nat, name: string) {
    exists a: nat, b: nat, c: nat :: IfdefParts(s, p, a, b, c, name)
  }

  /** The test at line start `p` has its keyword at `a`, spacing from `b` and the name at `c`. */
  predicate IfdefParts(s: string, p: nat, a: nat, b: nat, c: nat, name: string) {
    && p < |s| && IsLineStart(s, p)
    && |name| > 0 && AllWord(name)
    && p <= a < b < c && c + |name| <= |s|
    && AllSpace(s[p..a]) && KeywordSpan(s, a, b) && AllSpace(s[b..c])
    && s[c..c + |name|] == name
    && (c + |name| == |s| || !IsWordChar(s[c + |name|]))
  }

  /** The positions the greedy runs of the `ifdef` matcher stop at. */
  lemma IfdefPositions(s: string, p: nat, a: nat, b: nat, c: nat, d: nat)
    requires p <= a < b < c < d <= |s|
    requires AllSpace(s[p..a]) && KeywordSpan(s, a, b)
    requires AllSpace(s[b..c]) && AllWord(s[c..d]) && (d == |s| || !IsWordChar(s[d]))
    ensures SpanEnd(s, p, IsSpace) == a && KeywordEnd(s, a) == Some(b)
    ensures SpanEnd(s, b, IsSpace) == c && SpanEnd(s, c, IsWordChar) == d
  {
    KeywordEndOf(s, a, b);
    SpanEndSpaces(s, p, a);
    assert s[c] == s[c..d][0];
    SpanEndSpaces(s, b, c);
    SpanEndWords(s, c, d);
  }

  /** The keyword matcher takes exactly the keyword written at `a`. */
  lemma KeywordEndOf(s: string, a: nat, b: nat)
    requires KeywordSpan(s, a, b)
    ensures !IsSpace(s[a]) && KeywordEnd(s, a) == Some(b)
  {
    assert s[a] == 'i' by { assert s[a] == s[a..b][0]; }
    if b == a + 5 {
      assert s[a + 2] == 'd' by { assert s[a + 2] == s[a..b][2]; }
      assert !HasAt(s, a, "ifndef") by { assert "ifndef"[2] == 'n'; }
    }
  }

  /** The `ifdef` matcher is sound: every name it captures is a written `ifdef`/`ifndef` test at `p`. */
  lemma IfdefAtSound(s: string, p: nat)
    requires IfdefAt(s, p).Some?
    ensures IsIfdefAt(s, p, IfdefAt(s, p).value.name)
  {
    var a := SpanEnd(s, p, IsSpace);
    var b := KeywordEnd(s, a).value;
    var c := SpanEnd(s, b, IsSpace);
    var d := SpanEnd(s, c, IsWordChar);
    assert AllSpace(s[p..a]) && AllSpace(s[b..c]);
    assert AllWord(s[c..d]);
    assert s[c..c + (d - c)] == s[c..d];
    assert IfdefParts(s, p, a, b, c, s[c..d]);
  }

  /** A written test with its parts at `a`, `b`, `c` is the match at `p`. */
  lemma IfdefAtOf(s: string, p: nat, a: nat, b: nat, c: nat, name: string)
    requires IfdefParts(s, p, a, b, c, name)
    ensures IfdefAt(s, p) == Some(Hit(name, c + |name|))
  {
    IfdefPositions(s, p, a, b, c, c + |name|);
  }

  /** A written `ifdef`/`ifndef` test at a line start is the match there. */
  lemma IfdefAtComplete(s: string, p: nat, name: string)
    requires IsIfdefAt(s, p, name)
    ensures IfdefAt(s, p).Some? && IfdefAt(s, p).value.name == name
  {
    var a: nat, b: nat, c: nat :| IfdefParts(s, p, a, b, c, name);
    IfdefAtOf(s, p, a, b, c, name);
  }

  /** The names of the `ifdef`/`ifndef` tests the scan finds in `s`. */
  function IfdefNames(s: string): seq<string>
  {
    Matches(s, 0, IfdefAt)
  }

  /**
   * Every name the `ifdef` scan reports is tested by an `ifdef` or `ifndef`
   * written at some line start of `s`. (Not every written test is found:
   * the `\s+` of a match may run across a line break and swallow the next
   * line's test.)
   */
  lemma IfdefNamesSound(s: string, name: string)
    requires name in IfdefNames(s)
    ensures exists p :: 0 <= p < |s| && IsIfdefAt(s, p, name)
  {
    MatchesSound(s, 0, IfdefAt, name);
    var p :| 0 <= p < |s| && IfdefAt(s, p).Some? && IfdefAt(s, p).value.name == name;
    IfdefAtSound(s, p);
  }

  /** No two entries of `xs` are equal. */
  predicate Distinct<T(==)>(xs: seq<T>) {
    forall a, b :: 0 <= a < b < |xs| ==> xs[a] != xs[b]
  }

  /**
   * The `seenVars` filter: each entry of `xs` not in `seen` and not met
   * before, in order. The result holds exactly those names, once each.
   */
  function Dedup(xs: seq<string>, seen: set<string>): (r: seq<string>)
    ensures forall x :: x in r <==> x in xs && x !in seen
    ensures Distinct(r)
  {
    if xs == [] then []
    else if xs[0] in seen then Dedup(xs[1..], seen)
    else [xs[0]] + Dedup(xs[1..], seen + {xs[0]})
  }

  /** Each entry of `r` occurs in `xs`, and the entries' first occurrences in `xs` are in increasing order. */
  ghost predicate InFirstOccurrenceOrder(xs: seq<string>, r: seq<string>) {
    && (forall k :: 0 <= k < |r| ==> r[k] in xs)
    && forall a, b :: 0 <= a < b < |r| ==> IndexOf(xs, r[a]) < IndexOf(xs, r[b])
  }

  /** Past a head that differs from `x`, the first occurrence of `x` is one further on. */
  lemma IndexOfTail(xs: seq<string>, x: string)
    requires xs != [] && x in xs && x != xs[0]
    ensures x in xs[1..] && IndexOf(xs, x) == 1 + IndexOf(xs[1..], x)
  {
  }

  /** `Dedup` keeps first-occurrence order. */
  lemma {:induction false} DedupOrder(xs: seq<string>, seen: set<string>)
    ensures InFirstOccurrenceOrder(xs, Dedup(xs, seen))
  {
    if xs != [] {
      var seen' := if xs[0] in seen then seen else seen + {xs[0]};
      var tail := xs[1..];
      var rest := Dedup(tail, seen');
      DedupOrder(tail, seen');
      assert forall k :: 0 <= k < |rest| ==> rest[k] != xs[0] && rest[k] in tail;
      forall k | 0 <= k < |rest|
        ensures IndexOf(xs, rest[k]) == 1 + IndexOf(tail, rest[k])
      {
        IndexOfTail(xs, rest[k]);
      }
      if xs[0] !in seen {
        assert Dedup(xs, seen) == [xs[0]] + rest;
      } else {
        assert Dedup(xs, seen) == rest;
      }
    }
  }

  /** The record of one variable: default from the table, description from the document. */
  function MkVar(lines: seq<string>, table: map<string, string>, name: string, required: bool): MakeVariable
  {
    MakeVariable(name, Lookup(table, name), required, VariableDescription(lines, name))
  }

  /** A record whose default and description are those the document gives its name. */
  predicate Describes(v: MakeVariable, lines: seq<string>, table: map<string, string>) {
    v.default == Lookup(table, v.name) && v.description == VariableDescription(lines, v.name)
  }

  /** Records for `names`, in order; `required` only where `fromRefs` and the name is unbound. */
  function MkVars(lines: seq<string>, table: map<string, string>, names: seq<string>, fromRefs: bool)
    : (r: seq<MakeVariable>)
    ensures Names(r) == names
    ensures forall k :: 0 <= k < |r| ==> Describes(r[k], lines, table)
    ensures forall k :: 0 <= k < |r| ==> (r[k].required <==> fromRefs && r[k].name !in table)
  {
    var r := seq(|names|, k requires 0 <= k < |names| => MkVar(lines, table, names[k], fromRefs && names[k] !in table));
    assert forall k :: 0 <= k < |r| ==> r[k].name == names[k];
    r
  }

  /** Two duplicate-free sequences with no common entry concatenate to a duplicate-free one. */
  lemma DistinctConcat<T>(a: seq<T>, b: seq<T>)
    requires Distinct(a) && Distinct(b) && forall x :: x in a ==> x !in b
    ensures Distinct(a + b)
  {
    forall i, j | 0 <= i < j < |a + b| ensures (a + b)[i] != (a + b)[j] {
      if j < |a| {
      } else if i >= |a| {
        assert (a + b)[i] == b[i - |a|] && (a + b)[j] == b[j - |a|];
      } else {
        assert (a + b)[i] in a && (a + b)[j] in b;
      }
    }
  }

  /**
   * The variable list built from the two scans of a recipe block, `refs`
   * (the referenced names in order of occurrence) and `flags` (the
   * `ifdef`-tested names): the referenced names first, each once, then the
   * tested names not referenced. A name is required exactly when it is
   * referenced and has no table entry; every entry carries the table's
   * value and the document's description of its name.
   */
  function VariablesOf(refs: seq<string>, flags: seq<string>, lines: seq<string>, table: map<string, string>)
    : (r: seq<MakeVariable>)
    ensures Distinct(Names(r))
    ensures forall x :: x in Names(r) <==> x in refs || x in flags
    ensures forall k :: 0 <= k < |r| ==> Describes(r[k], lines, table)
    ensures forall k :: 0 <= k < |r| ==> (r[k].required <==> r[k].name in refs && r[k].name !in table)
    ensures forall a, b :: 0 <= a < b < |r| && r[b].name in refs ==> r[a].name in refs
    ensures Names(r) == Dedup(refs, {}) + Dedup(flags, set x | x in Dedup(refs, {}))
  {
    var seen := Dedup(refs, {});
    var unseen := Dedup(flags, set x | x in seen);
    DedupParts(refs, flags);
    var front := MkVars(lines, table, seen, true);
    var back := MkVars(lines, table, unseen, false);
    NamesAppend(front, back);
    JoinedNames(Names(front), Names(back), refs, flags);
    JoinedDescribes(front, back, lines, table);
    PartNames(front, refs, true);
    PartNames(back, refs, false);
    JoinedFlags(front, back, refs, table);
    front + back
  }

  /**
   * The order of the entries: the referenced names by first reference,
   * then the remaining tested names by first test.
   */
  lemma VariablesOrder(refs: seq<string>, flags: seq<string>, lines: seq<string>, table: map<string, string>)
    ensures
      var names := Names(VariablesOf(refs, flags, lines, table));
      var n := |Dedup(refs, {})|;
      && n <= |names|
      && (forall k :: 0 <= k < |names| ==> (k < n <==> names[k] in refs))
      && InFirstOccurrenceOrder(refs, names[..n])
      && InFirstOccurrenceOrder(flags, names[n..])
  {
    var front := Dedup(refs, {});
    var back := Dedup(flags, set x | x in front);
    DedupParts(refs, flags);
    DedupOrder(refs, {});
    DedupOrder(flags, set x | x in front);
    OrderOfParts(Names(VariablesOf(refs, flags, lines, table)), front, back, refs, flags);
  }

  /** Two ordered parts glued: the cut falls where membership in `refs` changes. */
  lemma OrderOfParts(names: seq<string>, front: seq<string>, back: seq<string>, refs: seq<string>, flags: seq<string>)
    requires names == front + back
    requires (forall x :: x in front <==> x in refs) && forall x :: x in back ==> x !in refs
    requires InFirstOccurrenceOrder(refs, front) && InFirstOccurrenceOrder(flags, back)
    ensures |front| <= |names| && forall k :: 0 <= k < |names| ==> (k < |front| <==> names[k] in refs)
    ensures InFirstOccurrenceOrder(refs, names[..|front|]) && InFirstOccurrenceOrder(flags, names[|front|..])
  {
    assert names[..|front|] == front && names[|front|..] == back;
    forall k | 0 <= k < |names| ensures k < |front| <==> names[k] in refs {
      if k < |front| {
        assert names[k] in front;
      } else {
        assert names[k] == back[k - |front|] && names[k] in back;
      }
    }
  }

  /** The two deduplications: the referenced names, then the tested names not referenced. */
  lemma DedupParts(refs: seq<string>, flags: seq<string>)
    ensures forall x :: x in Dedup(refs, {}) <==> x in refs
    ensures forall x :: x in Dedup(flags, set y | y in Dedup(refs, {})) <==> x in flags && x !in refs
  {
  }

  /** Every entry of the glued list describes its name, as every entry of each part does. */
  lemma JoinedDescribes(front: seq<MakeVariable>, back: seq<MakeVariable>, lines: seq<string>, table: map<string, string>)
    requires forall k :: 0 <= k < |front| ==> Describes(front[k], lines, table)
    requires forall k :: 0 <= k < |back| ==> Describes(back[k], lines, table)
    ensures forall k :: 0 <= k < |front + back| ==> Describes((front + back)[k], lines, table)
  {
    forall k | 0 <= k < |front + back| ensures Describes((front + back)[k], lines, table) {
      if k >= |front| {
        assert (front + back)[k] == back[k - |front|];
      }
    }
  }

  /** The entries of a part whose names are, or are not, references. */
  lemma PartNames(vs: seq<MakeVariable>, refs: seq<string>, inRefs: bool)
    requires forall x :: x in Names(vs) ==> (x in refs <==> inRefs)
    ensures forall k :: 0 <= k < |vs| ==> (vs[k].name in refs <==> inRefs)
  {
    forall k | 0 <= k < |vs| ensures vs[k].name in refs <==> inRefs {
      assert Names(vs)[k] == vs[k].name;
    }
  }

  /** The names of the two parts of the list, deduplicated against the scans and each other. */
  lemma JoinedNames<T>(a: seq<T>, b: seq<T>, refs: seq<T>, flags: seq<T>)
    requires Distinct(a) && Distinct(b)
    requires forall x :: x in a <==> x in refs
    requires forall x :: x in b <==> x in flags && x !in refs
    ensures Distinct(a + b)
    ensures forall x :: x in a + b <==> x in refs || x in flags
  {
    DistinctConcat(a, b);
  }

  /** Required flags and the references-first order of the two parts. */
  lemma JoinedFlags(front: seq<MakeVariable>, back: seq<MakeVariable>, refs: seq<string>, table: map<string, string>)
    requires forall k :: 0 <= k < |front| ==> front[k].name in refs && (front[k].required <==> front[k].name !in table)
    requires forall k :: 0 <= k < |back| ==> back[k].name !in refs && !back[k].required
    ensures forall k :: 0 <= k < |front + back| ==>
      ((front + back)[k].required <==> (front + back)[k].name in refs && (front + back)[k].name !in table)
    ensures forall a, b :: 0 <= a < b < |front + back| && (front + back)[b].name in refs ==> (front + back)[a].name in refs
  {
  }

  /**
   * `extractTargetVariables`: nothing when no raw line declares the name;
   * otherwise the variables of the recipe block after the first such line,
   * its lines joined with line feeds.
   */
  function TargetVariables(lines: seq<string>, table: map<string, string>, name: string): (r: seq<MakeVariable>)
    ensures DeclLine(lines, name).None? ==> r == []
    ensures Distinct(Names(r))
    ensures forall k :: 0 <= k < |r| ==> Describes(r[k], lines, table)
    ensures DeclLine(lines, name).Some? ==>
      var block := Join(RecipeBlock(lines, DeclLine(lines, name).value), '\n');
      && (forall x :: x in Names(r) <==> x in RefNames(block) || x in IfdefNames(block))
      && (forall k :: 0 <= k < |r| ==> (r[k].required <==> r[k].name in RefNames(block) && r[k].name !in table))
      && (forall a, b :: 0 <= a < b < |r| && r[b].name in RefNames(block) ==> r[a].name in RefNames(block))
  {
    match DeclLine(lines, name)
    case None => []
    case Some(k) =>
      var block := Join(RecipeBlock(lines, k), '\n');
      VariablesOf(RefNames(block), IfdefNames(block), lines, table)
  }

  /** The variables of a declared target: referenced names by first reference, then the other tested names by first test. */
  lemma TargetVariablesOrder(lines: seq<string>, table: map<string, string>, name: string)
    requires DeclLine(lines, name).Some?
    ensures
      var block := Join(RecipeBlock(lines, DeclLine(lines, name).value), '\n');
      var names := Names(TargetVariables(lines, table, name));
      var n := |Dedup(RefNames(block), {})|;
      && n <= |names|
      && InFirstOccurrenceOrder(RefNames(block), names[..n])
      && InFirstOccurrenceOrder(IfdefNames(block), names[n..])
  {
    var block := Join(RecipeBlock(lines, DeclLine(lines, name).value), '\n');
    VariablesOrder(RefNames(block), IfdefNames(block), lines, table);
  }

  /** `^name\s*(?:\?=|:=|=)` with the `m` flag, matched at position `p` of one line. */
  predicate DefinesAt(line: string, name: string, p: nat) {
    && p <= |line| && IsLineStart(line, p) && HasAt(line, p, name)
    && GlobalVars.OpEnd(line, SpanEnd(line, p + |name|, IsSpace)).Some?
  }

  /** The definition pattern matches somewhere in the line. */
  predicate DefinesVar(line: string, name: string) {
    exists p :: 0 <= p <= |line| && DefinesAt(line, name, p)
  }

  /** The index of the first line defining `name`: `findIndex` with the definition pattern. */
  function DefLine(lines: seq<string>, name: string): (r: Option<nat>)
    ensures r.Some? ==> r.value < |lines| && DefinesVar(lines[r.value], name)
    ensures r.Some? ==> forall k :: 0 <= k < r.value ==> !DefinesVar(lines[k], name)
    ensures r.None? ==> forall k :: 0 <= k < |lines| ==> !DefinesVar(lines[k], name)
  {
    FindFirst(lines, 0, l => DefinesVar(l, name))
  }

  /**
   * `findVariableDescription`: the text of the comment right above the first
   * line that defines `name`. Absent when there is no such line, when it is
   * line 0, or when the line above is not a comment.
   */
  function VariableDescription(lines: seq<string>, name: string): (r: Option<string>)
    ensures r.Some? ==> IsTrimmed(r.value)
  {
    match DefLine(lines, name)
    case None => None
    case Some(d) => CommentAbove(lines, d)
  }

  /**
   * With `d` the first line that defines `name`, the description is the
   * text of the comment on line `d - 1`, and absent when `d` is line 0 or
   * line `d - 1` is no comment.
   */
  lemma VariableDescriptionOf(lines: seq<string>, name: string, d: nat)
    requires d < |lines| && DefinesVar(lines[d], name)
    requires forall k :: 0 <= k < d ==> !DefinesVar(lines[k], name)
    ensures VariableDescription(lines, name)
      == if 0 < d && IsCommentLine(lines[d - 1]) then Some(CommentText(lines[d - 1])) else None
  {
    DefLineOf(lines, name, d);
  }

  /** The first defining line is the one the search finds. */
  lemma DefLineOf(lines: seq<string>, name: string, d: nat)
    requires d < |lines| && DefinesVar(lines[d], name)
    requires forall k :: 0 <= k < d ==> !DefinesVar(lines[k], name)
    ensures DefLine(lines, name) == Some(d)
  {
  }

  /** A single line whose first character differs from the name's does not define it. */
  lemma DefinesOnlyAtStart(line: string, name: string)
    requires NoLineTerminator(line) && name != [] && (line == [] || line[0] != name[0])
    ensures !DefinesVar(line, name)
  {
    forall p | 0 <= p <= |line| ensures !DefinesAt(line, name, p) {
      if 0 < p {
        assert !IsLineTerminator(line[p - 1]);
      }
    }
  }

  /** A name no line defines has no description. */
  lemma UndefinedHasNoDescription(lines: seq<string>, name: string)
    requires forall k :: 0 <= k < |lines| ==> !DefinesVar(lines[k], name)
    ensures VariableDescription(lines, name) == None
  {
    assert DefLine(lines, name) == None;
  }

  /** Every line that binds a name in the global table also defines it for the description search. */
  lemma BindingDefines(line: string)
    requires GlobalVars.AssignMatch(line).Some?
    ensures DefinesVar(line, GlobalVars.AssignMatch(line).value.name)
  {
    var n := SpanEnd(line, 0, IsWordChar);
    assert DefinesAt(line, line[..n], 0);
  }

  /** A name with a default has a definition line, so the description search has a line to look above. */
  lemma DefaultHasDefinition(lines: seq<string>, name: string)
    requires name in GlobalVars.GlobalTable(lines)
    ensures DefLine(lines, name).Some?
  {
    GlobalVars.GlobalTableIsLastBinding(lines, name);
    var m := Bindings.LastBinding(lines, GlobalVars.AssignMatch, name).value;
    BindingDefines(lines[m]);
  }
}

/**
 * The global variable table of `parseGlobalVariables`: every line shaped
 * `NAME ?= v`, `NAME := v` or `NAME = v` (NAME a `\w+` run at column 0)
 * binds NAME to `v` trimmed, a later binding overwriting an earlier one.
 */
module GlobalVars {
  import opened Wrappers
  import opened Text
  import opened Bindings

  /** `?=`, `:=` or `=` occupies `line[i..j]`. */
  predicate AssignOpAt(line: string, i: nat, j: nat) {
    i <= j <= |line|
    && ((j == i + 2 && (line[i..j] == "?=" || line[i..j] == ":="))
        || (j == i + 1 && line[i] == '='))
  }

  /**
   * `b` is what `^(\w+)\s*(?:\?=|:=|=)\s*(.*)$` captures on `line`: a word
   * run, optional whitespace, an operator, then a remainder whose text past
   * its leading whitespace has no line terminator (`.` cannot cross one).
   */
  ghost predicate IsAssignment(line: string, b: Binding) {
    && |b.name| > 0 && AllWord(b.name) && StartsWith(line, b.name)
    && exists i: nat, j: nat ::
      && |b.name| <= i
      && AssignOpAt(line, i, j)
      && AllSpace(line[|b.name|..i])
      && NoLineTerminator(TrimStart(line[j..]))
      && b.value == Trim(line[j..])
  }

  /** The end of the operator at `i`, trying `?=`, `:=`, `=` in that order. */
  function OpEnd(line: string, i: nat): (r: Option<nat>)
    requires i <= |line|
    ensures r.Some? ==> AssignOpAt(line, i, r.value)
    ensures r.None? ==> forall j :: !AssignOpAt(line, i, j)
  {
    if HasAt(line, i, "?=") || HasAt(line, i, ":=") then Some(i + 2)
    else if HasAt(line, i, "=") then Some(i + 1)
    else None
  }

  /** The binding one line contributes, if it has the assignment shape. */
  function AssignMatch(line: string): Option<Binding>
  {
    var n := SpanEnd(line, 0, IsWordChar);
    if n == 0 then None
    else
      var i := SpanEnd(line, n, IsSpace);
      match OpEnd(line, i)
      case None => None
      case Some(j) =>
        if NoLineTerminator(TrimStart(line[j..])) then
          Some(Binding(line[..n], Trim(line[j..])))
        else None
  }

  /** The greedy runs of the matcher stop where the assignment shape says they do. */
  lemma AssignPositions(line: string, n: nat, i: nat, j: nat)
    requires AssignOpAt(line, i, j) && 0 < n <= i && AllWord(line[..n]) && AllSpace(line[n..i])
    ensures SpanEnd(line, 0, IsWordChar) == n
    ensures SpanEnd(line, n, IsSpace) == i
    ensures OpEnd(line, i) == Some(j)
  {
    assert line[..n] == line[0..n];
    assert !IsWordChar(line[n]) by {
      if n < i { assert line[n] == line[n..i][0]; }
    }
    SpanEndWords(line, 0, n);
    assert !IsSpace(line[i]);
    SpanEndSpaces(line, n, i);
  }

  /** A line yields binding `b` exactly when it has the assignment shape with `b`'s name and value. */
  lemma AssignMatchIff(line: string, b: Binding)
    ensures AssignMatch(line) == Some(b) <==> IsAssignment(line, b)
  {
    if AssignMatch(line) == Some(b) {
      AssignMatchSound(line, b);
    }
    if IsAssignment(line, b) {
      AssignMatchComplete(line, b);
    }
  }

  lemma AssignMatchSound(line: string, b: Binding)
    requires AssignMatch(line) == Some(b)
    ensures IsAssignment(line, b)
  {
    var n := SpanEnd(line, 0, IsWordChar);
    var i := SpanEnd(line, n, IsSpace);
    var j := OpEnd(line, i).value;
    assert line[..n] == b.name;
    assert AllWord(b.name);
    assert AllSpace(line[n..i]);
    assert AssignOpAt(line, i, j);
  }

  lemma AssignMatchComplete(line: string, b: Binding)
    requires IsAssignment(line, b)
    ensures AssignMatch(line) == Some(b)
  {
    var n := |b.name|;
    var i: nat, j: nat :| n <= i && AssignOpAt(line, i, j) && AllSpace(line[n..i])
      && NoLineTerminator(TrimStart(line[j..])) && b.value == Trim(line[j..]);
    assert line[..n] == b.name;
    AssignPositions(line, n, i, j);
  }

  /** The table built from the whole document. */
  function GlobalTable(lines: seq<string>): map<string, string>
  {
    Table(lines, AssignMatch)
  }

  /**
   * Last write wins: `name` is in the table exactly when some line binds it,
   * and then it maps to the value of the last such line.
   */
  lemma GlobalTableIsLastBinding(lines: seq<string>, name: string)
    ensures name in GlobalTable(lines) <==> LastBinding(lines, AssignMatch, name).Some?
    ensures name in GlobalTable(lines) ==>
      GlobalTable(lines)[name] == AssignMatch(lines[LastBinding(lines, AssignMatch, name).value]).value.value
  {
    TableIsLastBinding(lines, AssignMatch, name);
  }

  /** A line whose first character is not a word character (a tab-indented recipe line, say) never binds. */
  lemma IndentedLineNeverBinds(line: string)
    requires |line| > 0 && !IsWordChar(line[0])
    ensures AssignMatch(line) == None
  {
  }

  /** A line of a word, whitespace, and a character that starts no assignment operator, never binds. */
  lemma NoOperatorNeverBinds(name: string, sp: string, c: char, rest: string)
    requires |name| > 0 && AllWord(name) && AllSpace(sp)
    requires c != '?' && c != ':' && c != '=' && !IsWordChar(c) && !IsSpace(c)
    ensures AssignMatch(name + sp + [c] + rest) == None
  {
    var n := |name|;
    var i := n + |sp|;
    var a := name + sp + [c] + rest;
    assert a[..n] == name;
    assert forall k :: n <= k < i ==> a[k] == sp[k - n];
    assert a[i] == c;
    assert !IsWordChar(a[n]) by {
      if |sp| > 0 { assert a[n] == sp[0]; } else { assert a[n] == c; }
    }
    SpanEndUnique(a, 0, n, IsWordChar);
    SpanEndUnique(a, n, i, IsSpace);
    assert OpEnd(a, i) == None;
  }

  /** `NAME += v` and `NAME != v` are not assignments for the table. */
  lemma OtherOperatorsNeverBind(name: string, sp: string, rest: string)
    requires |name| > 0 && AllWord(name) && AllSpace(sp)
    ensures AssignMatch(name + sp + "+=" + rest) == None
    ensures AssignMatch(name + sp + "!=" + rest) == None
  {
    assert name + sp + "+=" + rest == name + sp + ['+'] + ("=" + rest);
    assert name + sp + "!=" + rest == name + sp + ['!'] + ("=" + rest);
    NoOperatorNeverBinds(name, sp, '+', "=" + rest);
    NoOperatorNeverBinds(name, sp, '!', "=" + rest);
  }

  /** After a word, whitespace and an operator, the matcher decides on the remainder alone. */
  lemma AssignLineSplit(name: string, sp: string, op: string, tail: string)
    requires |name| > 0 && AllWord(name) && AllSpace(sp)
    requires op == "=" || op == ":=" || op == "?="
    ensures AssignMatch(name + sp + op + tail)
      == if NoLineTerminator(TrimStart(tail)) then Some(Binding(name, Trim(tail))) else None
  {
    var line := name + sp + op + tail;
    var n := |name|;
    var i := n + |sp|;
    var j := i + |op|;
    assert line[..n] == name;
    assert line[n..i] == sp;
    assert line[i..j] == op;
    assert AssignOpAt(line, i, j);
    AssignPositions(line, n, i, j);
    assert line[j..] == tail;
  }

  /** A trimmed one-line value after whitespace is what the matcher captures from the remainder. */
  lemma PaddedValue(sp2: string, value: string)
    requires AllSpace(sp2) && IsTrimmed(value) && NoLineTerminator(value)
    ensures NoLineTerminator(TrimStart(sp2 + value)) && Trim(sp2 + value) == value
  {
    TrimmedIff(value);
    TrimStartPadded(sp2, value);
    TrimPadded(sp2, value, []);
    assert sp2 + value + [] == sp2 + value;
  }

  /**
   * A line written as a word, whitespace, an operator, whitespace and a
   * trimmed one-line value binds the word to the value.
   */
  lemma AssignmentLineBinds(name: string, sp: string, op: string, sp2: string, value: string)
    requires |name| > 0 && AllWord(name) && AllSpace(sp) && AllSpace(sp2)
    requires op == "=" || op == ":=" || op == "?="
    requires IsTrimmed(value) && NoLineTerminator(value)
    ensures AssignMatch(name + sp + op + sp2 + value) == Some(Binding(name, value))
  {
    PaddedValue(sp2, value);
    AssignLineSplit(name, sp, op, sp2 + value);
    AppendAssoc(name + sp + op, sp2, value);
  }
}

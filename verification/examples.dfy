/**
 * Single lines and small documents worked through the model: the cases the
 * extractor's behaviour is pinned down by, and its quirks.
 */
module Examples {
  import opened Wrappers
  import opened Text
  import opened Model
  import opened GlobalVars
  import opened Comments
  import opened Recipe
  import opened Targets
  import opened Bindings

  /** A variable assignment with `:=` declares no target. */
  lemma AssignmentIsNoTarget()
    ensures Declaration("CC := gcc") == None
  {
    var t := "CC := gcc";
    TrimmedIff(t);
    assert t[3..5] == ":=";
    assert HasAt(t, 3, ":=");
  }

  /** A pattern rule fails the name pattern before the `%` test is reached. */
  lemma PatternRuleIsNoTarget()
    ensures Declaration("%.o: %.c") == None
  {
    OddStartDeclaresNothing("%.o: %.c");
  }

  /** `.PHONY` fails the name pattern. */
  lemma PhonyIsNoTarget()
    ensures Declaration(".PHONY: help") == None
  {
    OddStartDeclaresNothing(".PHONY: help");
  }

  /** A declaration without dependencies has none; `all: build test` has two, in order. */
  lemma DependencyLists()
    ensures Dependencies("") == []
    ensures Dependencies("build test") == ["build", "test"]
  {
    assert Spaced(["build", "test"], [" "]) == "build test";
    DependenciesOfWords(["build", "test"], [" "]);
  }

  /** `elsewhere` passes the conditional-keyword test and is kept in a block. */
  lemma LooseKeyword()
    ensures Kept("elsewhere")
  {
    TrimmedIff("elsewhere");
    assert "elsewhere"[..4] == "else";
  }

  /** An indented comment is not kept, and since it does not start with `#` it ends the block. */
  lemma IndentedNoteEndsBlock()
    ensures !Kept("  # note") && IsBlockBreak("  # note")
  {
    assert "  # note" == "  " + "#" + " note";
    IndentedCommentEndsBlock("  ", " note");
  }

  /** Mismatched brackets still make a reference. */
  lemma LooseBrackets()
    ensures RefAt("$(X}", 0) == Some(Hit("X", 4))
  {
    assert "$(X}"[2..3] == "X";
    RefAtIff("$(X}", 0, "X");
  }

  /** A `# Usage: ` line gives its text as the hint, e.g. `make deploy ENV=prod VERSION=1.0.0`. */
  lemma UsageLineGivesHint(text: string)
    requires text != [] && IsTrimmed(text) && NoLineTerminator(text)
    ensures LineHint("# Usage: " + text) == Some(text)
  {
    assert "# Usage: " + text == "#" + " " + "Usage" + ":" + " " + text;
    UsageSpelling();
    LabelledCommentHint(" ", "Usage", "usage", " ", text);
  }

  lemma UsageSpelling()
    ensures SpellsIgnoreCase("Usage", "usage")
  {
    assert LowerAscii('U') == 'u';
  }

  /** A comment above a declaration is its description: `# Build the project` above `build:`, say. */
  lemma CommentDescription(text: string, decl: string)
    requires IsTrimmed(text)
    ensures ExtractDescription(["# " + text, decl], 1) == text
  {
    PlainComment(text);
  }

  /** Without a comment above, the description names the target. */
  lemma FallbackForFirstLine()
    ensures ExtractDescription(["build:"], 0) == FallbackPrefix + "build"
  {
    var lines := ["build:"];
    assert lines[0] == "build" + ":" + "";
    assert ':' !in "build";
    FallbackDescription(lines, 0, "build", "");
  }

  /** `+=` binds nothing, so a name only appended to keeps no default. */
  lemma AppendBindsNothing()
    ensures AssignMatch("FLAGS += -O2") == None
  {
    assert "FLAGS += -O2" == "FLAGS" + " " + "+=" + " -O2";
    OtherOperatorsNeverBind("FLAGS", " ", " -O2");
  }

  /** `\tfoo: bar` declares `foo` with dependency text `bar`. */
  lemma IndentedRecipeLineIsTarget()
    ensures Declaration("\t" + "foo" + ": " + "bar") == Some(Declared("foo", "bar"))
  {
    assert IsTargetName("foo");
    IndentedLineDeclares("foo", "bar");
  }

  /** `V = 1` binds `V` to `1`. */
  lemma SimpleBinding(v: char)
    requires IsDigit(v)
    ensures AssignMatch("V = " + [v]) == Some(Binding("V", [v]))
  {
    assert "V = " + [v] == "V" + " " + "=" + " " + [v];
    AssignmentLineBinds("V", " ", "=", " ", [v]);
  }

  /** The description of a variable defined twice comes from the comment above the first definition. */
  lemma FirstDescription(text: string)
    requires IsTrimmed(text) && NoLineTerminator(text)
    ensures VariableDescription(["# " + text, "V = 1", "# other", "V = 2"], "V") == Some(text)
  {
    var lines := ["# " + text, "V = 1", "# other", "V = 2"];
    assert DefinesAt(lines[1], "V", 0);
    assert NoLineTerminator(lines[0]) by {
      assert forall k :: 2 <= k < |lines[0]| ==> lines[0][k] == text[k - 2];
    }
    DefinesOnlyAtStart(lines[0], "V");
    VariableDescriptionOf(lines, "V", 1);
    PlainComment(text);
  }
}

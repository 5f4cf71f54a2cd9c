/**
 * A name-to-value table folded from a document's lines, left to right, where
 * each line may contribute one binding and a later binding of a name
 * overwrites an earlier one. The per-line matcher is a parameter.
 */
module Bindings {
  import opened Wrappers
  import opened Text

  datatype Binding = Binding(name: string, value: string)

  /** `line` binds `name` under `matcher`. */
  predicate Binds(matcher: string -> Option<Binding>, line: string, name: string) {
    matcher(line).Some? && matcher(line).value.name == name
  }

  /** The fold: start from the empty map and apply each line's binding in order. */
  function Table(lines: seq<string>, matcher: string -> Option<Binding>): map<string, string>
    decreases |lines|
  {
    if lines == [] then map[]
    else
      var t := Table(lines[..|lines| - 1], matcher);
      match matcher(lines[|lines| - 1])
      case Some(b) => t[b.name := b.value]
      case None => t
  }

  /** The index of the last line that binds `name`, if any. */
  function LastBinding(lines: seq<string>, matcher: string -> Option<Binding>, name: string): (r: Option<nat>)
    ensures r.Some? ==> r.value < |lines| && Binds(matcher, lines[r.value], name)
    ensures r.Some? ==> forall j :: r.value < j < |lines| ==> !Binds(matcher, lines[j], name)
    ensures r.None? ==> forall j :: 0 <= j < |lines| ==> !Binds(matcher, lines[j], name)
  {
    FindLast(lines, |lines|, l => Binds(matcher, l, name))
  }

  /**
   * Last write wins: `name` is in the table exactly when some line binds it,
   * and then it maps to the value of the last such line.
   */
  lemma {:induction false} TableIsLastBinding(lines: seq<string>, matcher: string -> Option<Binding>, name: string)
    ensures name in Table(lines, matcher) <==> LastBinding(lines, matcher, name).Some?
    ensures name in Table(lines, matcher) ==>
      Table(lines, matcher)[name] == matcher(lines[LastBinding(lines, matcher, name).value]).value.value
    decreases |lines|
  {
    if lines != [] {
      var init := lines[..|lines| - 1];
      TableIsLastBinding(init, matcher, name);
      if !Binds(matcher, lines[|lines| - 1], name) {
        assert forall j :: 0 <= j < |init| ==> init[j] == lines[j];
        FindLastUnique(lines, |lines|, l => Binds(matcher, l, name), LastBinding(init, matcher, name));
      }
    }
  }

  /** One more line adds its binding on top of the table so far, or leaves it as it was. */
  lemma TableSnoc(lines: seq<string>, line: string, matcher: string -> Option<Binding>)
    ensures matcher(line).Some? ==>
      Table(lines + [line], matcher) == Table(lines, matcher)[matcher(line).value.name := matcher(line).value.value]
    ensures matcher(line).None? ==> Table(lines + [line], matcher) == Table(lines, matcher)
  {
    assert (lines + [line])[..|lines|] == lines;
  }

  /** Of two consecutive lines binding the same name, only the second leaves a trace. */
  lemma LaterLineWins(lines: seq<string>, a: string, b: string, matcher: string -> Option<Binding>)
    requires matcher(a).Some? && matcher(b).Some? && matcher(a).value.name == matcher(b).value.name
    ensures Table(lines + [a, b], matcher) == Table(lines, matcher)[matcher(b).value.name := matcher(b).value.value]
  {
    TableSnoc(lines, a, matcher);
    TableSnoc(lines + [a], b, matcher);
    assert lines + [a] + [b] == lines + [a, b];
  }

  /** Lines that bind nothing leave the table empty. */
  lemma {:induction false} NoBindingsEmptyTable(lines: seq<string>, matcher: string -> Option<Binding>)
    requires forall k :: 0 <= k < |lines| ==> matcher(lines[k]).None?
    ensures Table(lines, matcher) == map[]
    decreases |lines|
  {
    if lines != [] {
      NoBindingsEmptyTable(lines[..|lines| - 1], matcher);
    }
  }
}

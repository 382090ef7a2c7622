/** The line-by-line fallback of the server: when the whole output is not one JSON
    document, every line is parsed on its own and the lines that parse are kept. */
module LineFallback {
  import opened Options
  import opened Json

  /** The values of the lines that parse, in the order of the lines; the lines that
      do not parse are dropped. */
  function ParseLines(loads: string -> Option<Json>, lines: seq<string>): (parsed: seq<Json>)
    ensures |parsed| <= |lines|
    ensures parsed == [] <==> forall i :: 0 <= i < |lines| ==> loads(lines[i]).None?
  {
    if lines == [] then []
    else
      var kept := ParseLines(loads, lines[..|lines| - 1]);
      match loads(lines[|lines| - 1])
      case Some(v) => kept + [v]
      case None => kept
  }

  /** The positions of the lines that parse, in increasing order. */
  function ParsedIndices(loads: string -> Option<Json>, lines: seq<string>): seq<nat> {
    if lines == [] then []
    else
      var kept := ParsedIndices(loads, lines[..|lines| - 1]);
      if loads(lines[|lines| - 1]).Some? then kept + [|lines| - 1] else kept
  }

  /** `parsed` holds the values of the lines at the positions `idx`, those positions
      increase strictly, and every line that parses is at one of them: `parsed` is
      the parsable lines' values, each once, in the lines' order. */
  ghost predicate IsParsedSelection(loads: string -> Option<Json>, lines: seq<string>,
                                    parsed: seq<Json>, idx: seq<nat>)
  {
    && |idx| == |parsed|
    && (forall k :: 0 <= k < |idx| ==> idx[k] < |lines| && loads(lines[idx[k]]) == Some(parsed[k]))
    && (forall k, m :: 0 <= k < m < |idx| ==> idx[k] < idx[m])
    && (forall i :: 0 <= i < |lines| && loads(lines[i]).Some? ==> i in idx)
  }

  /** The fallback keeps exactly the lines that parse, in their original order. */
  lemma {:induction false} ParseLinesSelects(loads: string -> Option<Json>, lines: seq<string>)
    ensures IsParsedSelection(loads, lines, ParseLines(loads, lines), ParsedIndices(loads, lines))
    ensures forall k :: 0 <= k < |ParsedIndices(loads, lines)| ==> ParsedIndices(loads, lines)[k] < |lines|
  {
    if lines != [] {
      var init := lines[..|lines| - 1];
      ParseLinesSelects(loads, init);
      var idx := ParsedIndices(loads, init);
      var parsed := ParseLines(loads, init);
      forall k | 0 <= k < |idx|
        ensures lines[idx[k]] == init[idx[k]]
      {
      }
    }
  }

  /** Removing a last line that parses removes the last selected position. */
  lemma SelectionWithoutParsedLast(loads: string -> Option<Json>, lines: seq<string>,
                                   parsed: seq<Json>, idx: seq<nat>)
    requires lines != [] && loads(lines[|lines| - 1]).Some?
    requires IsParsedSelection(loads, lines, parsed, idx)
    ensures idx != [] && idx[|idx| - 1] == |lines| - 1
    ensures IsParsedSelection(loads, lines[..|lines| - 1], parsed[..|parsed| - 1], idx[..|idx| - 1])
  {
    var n := |lines| - 1;
    var init := lines[..n];
    assert n in idx;
    var j :| 0 <= j < |idx| && idx[j] == n;
    var last := |idx| - 1;
    var idx' := idx[..last];
    var parsed' := parsed[..last];
    forall k | 0 <= k < |idx'|
      ensures idx'[k] < n && loads(init[idx'[k]]) == Some(parsed'[k])
    {
      assert idx[k] < idx[last];
    }
    forall i | 0 <= i < |init| && loads(init[i]).Some?
      ensures i in idx'
    {
      assert lines[i] == init[i];
      assert i in idx;
      var m :| 0 <= m < |idx| && idx[m] == i;
      assert m != last;
      assert idx'[m] == i;
    }
  }

  /** Removing a last line that does not parse leaves the selection as it is. */
  lemma SelectionWithoutUnparsedLast(loads: string -> Option<Json>, lines: seq<string>,
                                     parsed: seq<Json>, idx: seq<nat>)
    requires lines != [] && loads(lines[|lines| - 1]).None?
    requires IsParsedSelection(loads, lines, parsed, idx)
    ensures IsParsedSelection(loads, lines[..|lines| - 1], parsed, idx)
  {
    var n := |lines| - 1;
    var init := lines[..n];
    forall k | 0 <= k < |idx|
      ensures idx[k] < n && loads(init[idx[k]]) == Some(parsed[k])
    {
      assert idx[k] != n;
    }
    forall i | 0 <= i < |init| && loads(init[i]).Some?
      ensures i in idx
    {
      assert lines[i] == init[i];
    }
  }

  /** Positions all below `n` have a first one below `n`. With `n` zero this is how
      the empty case of `SelectionIsParseLines` learns there are no positions,
      without indexing into a sequence the facts in scope already rule out. */
  lemma FirstPositionBelow(idx: seq<nat>, n: nat)
    requires forall k :: 0 <= k < |idx| ==> idx[k] < n
    ensures |idx| > 0 ==> idx[0] < n
  {
  }

  /** Only one sequence is such a selection: whatever keeps exactly the parsable
      lines in order is what the fallback computes. */
  lemma {:induction false} SelectionIsParseLines(loads: string -> Option<Json>, lines: seq<string>,
                                                 parsed: seq<Json>, idx: seq<nat>)
    requires IsParsedSelection(loads, lines, parsed, idx)
    ensures parsed == ParseLines(loads, lines)
    decreases |lines|, 1
  {
    if lines == [] {
      FirstPositionBelow(idx, |lines|);
    } else if loads(lines[|lines| - 1]).Some? {
      SelectionEndingParsed(loads, lines, parsed, idx);
    } else {
      SelectionWithoutUnparsedLast(loads, lines, parsed, idx);
      SelectionIsParseLines(loads, lines[..|lines| - 1], parsed, idx);
    }
  }

  lemma {:induction false} SelectionEndingParsed(loads: string -> Option<Json>, lines: seq<string>,
                                                 parsed: seq<Json>, idx: seq<nat>)
    requires lines != [] && loads(lines[|lines| - 1]).Some?
    requires IsParsedSelection(loads, lines, parsed, idx)
    ensures parsed == ParseLines(loads, lines)
    decreases |lines|, 0
  {
    var n := |lines| - 1;
    SelectionWithoutParsedLast(loads, lines, parsed, idx);
    var last := |idx| - 1;
    SelectionIsParseLines(loads, lines[..n], parsed[..last], idx[..last]);
    assert loads(lines[n]) == Some(parsed[last]);
    assert parsed == parsed[..last] + [parsed[last]];
  }

  /** When every line parses, the fallback returns every line's value, in order. */
  lemma {:induction false} AllLinesParse(loads: string -> Option<Json>, lines: seq<string>)
    requires forall i :: 0 <= i < |lines| ==> loads(lines[i]).Some?
    ensures |ParseLines(loads, lines)| == |lines|
    ensures forall i :: 0 <= i < |lines| ==> loads(lines[i]) == Some(ParseLines(loads, lines)[i])
  {
    if lines != [] {
      var init := lines[..|lines| - 1];
      AllLinesParse(loads, init);
      forall i | 0 <= i < |init|
        ensures lines[i] == init[i]
      {
      }
    }
  }

  /** The server's loop: parse each line in turn, append its value when it parses
      and skip it when it does not. */
  method CollectParsed(loads: string -> Option<Json>, lines: seq<string>) returns (parsed: seq<Json>)
    ensures parsed == ParseLines(loads, lines)
  {
    parsed := [];
    for i := 0 to |lines|
      invariant parsed == ParseLines(loads, lines[..i])
    {
      assert lines[..i + 1][..i] == lines[..i];
      match loads(lines[i]) {
        case Some(v) => parsed := parsed + [v];
        case None =>
      }
    }
    assert lines[..|lines|] == lines;
  }
}

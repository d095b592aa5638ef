/** The two-stage noise filter of the detailed exception traceback: whole
    trace blocks are dropped when they contain a trace exclusion, the
    survivors are flattened to lines, and single lines are dropped when they
    contain a locals exclusion. The blocks themselves are what
    `traceback.TracebackException(..., capture_locals=True).format()` yields;
    they are an input here. */
module Traceback {
  import opened Text

  /** Default trace exclusions: installed third-party packages and the
      call-logging wrapper's own frames. */
  const ExcludedTracesDefault: seq<string> := ["site-packages", "log_function_call"]

  /** Default locals exclusions: object addresses, class reprs, dunder names
      and an unresolved-symbol marker. */
  const ExcludedLocalsDefault: seq<string> := [" at 0x", "<class ", "__", "(No symbol)"]

  // ---------------------------------------------------------------------
  // _is_any_in_str

  /** Whether some item of `items` occurs in `s`. */
  function AnyIn(s: string, items: seq<string>): (found: bool)
    ensures found <==> exists k :: 0 <= k < |items| && IsSubstring(items[k], s)
    decreases |items|
  {
    if items == [] then false
    else SomeItemHeadOrTail(s, items); Contains(s, items[0]) || AnyIn(s, items[1..])
  }

  /** Some item occurs in `s` exactly when the first one does or one of the rest does. */
  lemma SomeItemHeadOrTail(s: string, items: seq<string>)
    requires items != []
    ensures (exists k :: 0 <= k < |items| && IsSubstring(items[k], s))
        <==> IsSubstring(items[0], s) || exists k :: 0 <= k < |items[1..]| && IsSubstring(items[1..][k], s)
  {
    if exists k :: 0 <= k < |items| && IsSubstring(items[k], s) {
      var k :| 0 <= k < |items| && IsSubstring(items[k], s);
      if k > 0 {
        assert items[1..][k - 1] == items[k];
      }
    }
    if exists k :: 0 <= k < |items[1..]| && IsSubstring(items[1..][k], s) {
      var k :| 0 <= k < |items[1..]| && IsSubstring(items[1..][k], s);
      assert items[k + 1] == items[1..][k];
    }
  }

  /** The default trace exclusions drop exactly the blocks that mention an
      installed package or the call-logging wrapper. */
  lemma DefaultTraceExclusions(block: string)
    ensures AnyIn(block, ExcludedTracesDefault)
        <==> IsSubstring("site-packages", block) || IsSubstring("log_function_call", block)
  {
    assert ExcludedTracesDefault[0] == "site-packages";
    assert ExcludedTracesDefault[1] == "log_function_call";
  }

  /** The default locals exclusions drop exactly the lines that show an object
      address, a class repr, a dunder name or an unresolved symbol. */
  lemma DefaultLocalsExclusions(line: string)
    ensures AnyIn(line, ExcludedLocalsDefault)
        <==> || IsSubstring(" at 0x", line) || IsSubstring("<class ", line)
             || IsSubstring("__", line) || IsSubstring("(No symbol)", line)
  {
    assert ExcludedLocalsDefault[0] == " at 0x";
    assert ExcludedLocalsDefault[1] == "<class ";
    assert ExcludedLocalsDefault[2] == "__";
    assert ExcludedLocalsDefault[3] == "(No symbol)";
  }

  /** The loop of `_is_any_in_str`: scan the items, stop at the first one
      occurring in `s`. */
  method IsAnyInStr(s: string, items: seq<string>) returns (found: bool)
    ensures found == AnyIn(s, items)
    ensures found <==> exists k :: 0 <= k < |items| && IsSubstring(items[k], s)
  {
    for i := 0 to |items|
      invariant forall k :: 0 <= k < i ==> !Contains(s, items[k])
    {
      if Contains(s, items[i]) {
        return true;
      }
    }
    return false;
  }

  // ---------------------------------------------------------------------
  // _filter_out_str

  /** The strings of `ss` that contain no item of `items`, in their order:
      a string is kept exactly when it is in `ss` and contains no item. */
  function FilterOut(ss: seq<string>, items: seq<string>): (kept: seq<string>)
    ensures forall x :: x in kept <==> x in ss && !AnyIn(x, items)
    ensures |kept| <= |ss|
    decreases |ss|
  {
    if ss == [] then []
    else
      var init, last := ss[..|ss| - 1], ss[|ss| - 1];
      assert ss == init + [last];
      FilterOut(init, items) + (if AnyIn(last, items) then [] else [last])
  }

  /** The indices of `ss` whose string contains no item of `items`, ascending. */
  ghost function KeptIndices(ss: seq<string>, items: seq<string>): seq<nat>
    decreases |ss|
  {
    if ss == [] then []
    else
      KeptIndices(ss[..|ss| - 1], items) + (if AnyIn(ss[|ss| - 1], items) then [] else [|ss| - 1])
  }

  /** The kept indices are ascending, below `|ss|`, and are exactly the
      indices of the strings with no excluded item. */
  lemma {:induction false} KeptIndicesShape(ss: seq<string>, items: seq<string>)
    ensures var ix := KeptIndices(ss, items);
      && (forall k :: 0 <= k < |ix| ==> ix[k] < |ss|)
      && (forall k, l :: 0 <= k < l < |ix| ==> ix[k] < ix[l])
      && (forall j :: 0 <= j < |ss| ==> (j in ix <==> !AnyIn(ss[j], items)))
    decreases |ss|
  {
    if ss != [] {
      var init := ss[..|ss| - 1];
      KeptIndicesShape(init, items);
      forall j | 0 <= j < |init| ensures init[j] == ss[j] { }
    }
  }

  /** The output of the filter is the input read at the kept indices. */
  lemma {:induction false} FilterOutAtKept(ss: seq<string>, items: seq<string>)
    ensures var r, ix := FilterOut(ss, items), KeptIndices(ss, items);
      && |ix| == |r|
      && forall k :: 0 <= k < |ix| ==> ix[k] < |ss| && r[k] == ss[ix[k]]
    decreases |ss|
  {
    if ss != [] {
      var init, last := ss[..|ss| - 1], ss[|ss| - 1];
      FilterOutAtKept(init, items);
      var r0, ix0 := FilterOut(init, items), KeptIndices(init, items);
      var r, ix := FilterOut(ss, items), KeptIndices(ss, items);
      if AnyIn(last, items) {
        assert r == r0 && ix == ix0;
      } else {
        assert r == r0 + [last] && ix == ix0 + [|ss| - 1];
      }
      forall k | 0 <= k < |ix| ensures ix[k] < |ss| && r[k] == ss[ix[k]] {
        if k < |ix0| {
          assert r[k] == r0[k] == init[ix0[k]] == ss[ix0[k]];
        }
      }
    }
  }

  /** The output of the filter is the input restricted to the indices of the
      strings with no excluded item: it only deletes, keeps the order, and
      keeps every string with no excluded item. */
  lemma FilterOutIndices(ss: seq<string>, items: seq<string>)
    ensures var r, ix := FilterOut(ss, items), KeptIndices(ss, items);
      && |ix| == |r|
      && (forall k :: 0 <= k < |ix| ==> ix[k] < |ss| && r[k] == ss[ix[k]])
      && (forall k, l :: 0 <= k < l < |ix| ==> ix[k] < ix[l])
      && (forall j :: 0 <= j < |ss| ==> (j in ix <==> !AnyIn(ss[j], items)))
  {
    KeptIndicesShape(ss, items);
    FilterOutAtKept(ss, items);
  }

  /** Filtering twice with the same exclusions is filtering once. */
  lemma {:induction false} FilterOutIdempotent(ss: seq<string>, items: seq<string>)
    ensures FilterOut(FilterOut(ss, items), items) == FilterOut(ss, items)
    decreases |ss|
  {
    if ss != [] {
      var init, last := ss[..|ss| - 1], ss[|ss| - 1];
      FilterOutIdempotent(init, items);
      var r := FilterOut(init, items);
      if AnyIn(last, items) {
        assert FilterOut(ss, items) == r + [] == r;
      } else {
        var r' := r + [last];
        assert r'[..|r'| - 1] == r && r'[|r'| - 1] == last;
      }
    }
  }

  /** With no exclusions the filter keeps everything. */
  lemma {:induction false} FilterOutNothingExcluded(ss: seq<string>)
    ensures FilterOut(ss, []) == ss
    decreases |ss|
  {
    if ss != [] {
      FilterOutNothingExcluded(ss[..|ss| - 1]);
    }
  }

  /** The generator loop of `_filter_out_str`, collecting what it yields. */
  method FilterOutStr(ss: seq<string>, items: seq<string>) returns (kept: seq<string>)
    ensures kept == FilterOut(ss, items)
  {
    kept := [];
    for i := 0 to |ss|
      invariant kept == FilterOut(ss[..i], items)
    {
      assert ss[..i + 1][..i] == ss[..i];
      var excluded := IsAnyInStr(ss[i], items);
      if !excluded {
        kept := kept + [ss[i]];
      }
    }
    assert ss[..|ss|] == ss;
  }

  // ---------------------------------------------------------------------
  // get_custom_exception_traceback

  /** The blocks that survive stage 1: those that contain no trace exclusion. */
  function SurvivingBlocks(blocks: seq<string>, excludedTraces: seq<string>): (survivors: seq<string>)
    ensures forall b :: b in survivors <==> b in blocks && !AnyIn(b, excludedTraces)
  {
    FilterOut(blocks, excludedTraces)
  }

  /** The lines fed to stage 2: the lines of the surviving blocks, concatenated.
      Rejoined with '\n' they give that concatenation back, less a final newline. */
  function StageTwoInput(blocks: seq<string>, excludedTraces: seq<string>): (lines: seq<string>)
    ensures forall k :: 0 <= k < |lines| ==> '\n' !in lines[k]
    ensures var whole := Join(SurvivingBlocks(blocks, excludedTraces), "");
      Join(lines, "\n") == if whole != [] && EndsLine(whole) then whole[..|whole| - 1] else whole
  {
    var whole := Join(SurvivingBlocks(blocks, excludedTraces), "");
    JoinSplitLines(whole);
    SplitLines(whole)
  }

  /** The lines that survive stage 2: the stage-2 input lines that contain no
      locals exclusion. */
  function SurvivingLines(blocks: seq<string>, excludedTraces: seq<string>, excludedLocals: seq<string>)
    : (kept: seq<string>)
    ensures forall line :: line in kept <==>
      line in StageTwoInput(blocks, excludedTraces) && !AnyIn(line, excludedLocals)
    ensures forall k :: 0 <= k < |kept| ==> '\n' !in kept[k]
  {
    var input := StageTwoInput(blocks, excludedTraces);
    FilteredLinesAreLines(input, excludedLocals);
    FilterOut(input, excludedLocals)
  }

  /** Filtering newline-free strings leaves newline-free strings. */
  lemma FilteredLinesAreLines(ss: seq<string>, items: seq<string>)
    requires forall k :: 0 <= k < |ss| ==> '\n' !in ss[k]
    ensures forall k :: 0 <= k < |FilterOut(ss, items)| ==> '\n' !in FilterOut(ss, items)[k]
  {
    var kept := FilterOut(ss, items);
    forall k | 0 <= k < |kept| ensures '\n' !in kept[k] {
      assert kept[k] in ss;
      var j :| 0 <= j < |ss| && ss[j] == kept[k];
    }
  }

  /** The formatted traceback: the surviving lines joined with '\n'. Splitting it
      on '\n' gives back exactly those lines whenever there is at least one. */
  function TracebackText(blocks: seq<string>, excludedTraces: seq<string>, excludedLocals: seq<string>)
    : (text: string)
    ensures SurvivingLines(blocks, excludedTraces, excludedLocals) == [] ==> text == []
    ensures SurvivingLines(blocks, excludedTraces, excludedLocals) != [] ==>
      Split(text) == SurvivingLines(blocks, excludedTraces, excludedLocals)
  {
    var kept := SurvivingLines(blocks, excludedTraces, excludedLocals);
    if kept == [] then [] else SplitJoin(kept); Join(kept, "\n")
  }

  /** Every line of the formatted traceback is a stage-2 input line free of
      every locals exclusion; and the lines are the stage-2 survivors in
      order, except that a trailing empty survivor is not a line of its own. */
  lemma TracebackLinesClean(blocks: seq<string>, excludedTraces: seq<string>, excludedLocals: seq<string>)
    ensures var lines, kept := SplitLines(TracebackText(blocks, excludedTraces, excludedLocals)),
                               SurvivingLines(blocks, excludedTraces, excludedLocals);
      && lines == (if kept != [] && kept[|kept| - 1] == [] then kept[..|kept| - 1] else kept)
      && forall line :: line in lines ==>
           line in StageTwoInput(blocks, excludedTraces) && !AnyIn(line, excludedLocals)
  {
    var kept := SurvivingLines(blocks, excludedTraces, excludedLocals);
    SplitLinesJoin(kept);
    var lines := SplitLines(TracebackText(blocks, excludedTraces, excludedLocals));
    assert forall line :: line in lines ==> line in kept;
  }

  /** Every stage-2 input line without a locals exclusion reaches the output. */
  lemma TracebackComplete(blocks: seq<string>, excludedTraces: seq<string>, excludedLocals: seq<string>)
    ensures forall line :: line in StageTwoInput(blocks, excludedTraces) && !AnyIn(line, excludedLocals) ==>
      line in Split(TracebackText(blocks, excludedTraces, excludedLocals))
  {
  }

  /** Every non-empty stage-2 input line without a locals exclusion is a line
      of the output in the `splitlines` sense; an empty one may be the
      trailing empty survivor, which is not a line of its own. */
  lemma TracebackCompleteLines(blocks: seq<string>, excludedTraces: seq<string>, excludedLocals: seq<string>,
                               line: string)
    requires line in StageTwoInput(blocks, excludedTraces) && !AnyIn(line, excludedLocals)
    requires line != []
    ensures line in SplitLines(TracebackText(blocks, excludedTraces, excludedLocals))
  {
    var kept := SurvivingLines(blocks, excludedTraces, excludedLocals);
    assert line in kept;
    TracebackLinesClean(blocks, excludedTraces, excludedLocals);
    InTrimmed(kept, line);
  }

  /** A non-empty member survives dropping a trailing empty element. */
  lemma InTrimmed(ss: seq<string>, x: string)
    requires x in ss && x != []
    ensures x in (if ss != [] && ss[|ss| - 1] == [] then ss[..|ss| - 1] else ss)
  {
    var k :| 0 <= k < |ss| && ss[k] == x;
    if ss[|ss| - 1] == [] {
      assert ss[..|ss| - 1][k] == x;
    }
  }

  /** Applying the locals filter again to the output lines changes nothing. */
  lemma TracebackRefilterStable(blocks: seq<string>, excludedTraces: seq<string>, excludedLocals: seq<string>)
    ensures var lines := SplitLines(TracebackText(blocks, excludedTraces, excludedLocals));
      FilterOut(lines, excludedLocals) == lines
  {
    TracebackLinesClean(blocks, excludedTraces, excludedLocals);
    var lines := SplitLines(TracebackText(blocks, excludedTraces, excludedLocals));
    FilterOutAllClean(lines, excludedLocals);
  }

  /** A filter over strings that all avoid the exclusions keeps them all. */
  lemma {:induction false} FilterOutAllClean(ss: seq<string>, items: seq<string>)
    requires forall x :: x in ss ==> !AnyIn(x, items)
    ensures FilterOut(ss, items) == ss
    decreases |ss|
  {
    if ss != [] {
      var init, last := ss[..|ss| - 1], ss[|ss| - 1];
      assert ss == init + [last];
      assert !AnyIn(last, items);
      FilterOutAllClean(init, items);
    }
  }

  /** With both exclusion lists empty the output is the concatenated trace,
      less one final newline. */
  lemma TracebackNoExclusions(blocks: seq<string>)
    ensures var whole := Join(blocks, "");
      TracebackText(blocks, [], []) == if whole != [] && EndsLine(whole) then whole[..|whole| - 1] else whole
  {
    FilterOutNothingExcluded(blocks);
    FilterOutNothingExcluded(StageTwoInput(blocks, []));
    JoinSplitLines(Join(blocks, ""));
  }

  /** The lines of blocks that each end a line, block by block. */
  function LinesOfBlocks(blocks: seq<string>): seq<string>
    decreases |blocks|
  {
    if blocks == [] then [] else SplitLines(blocks[0]) + LinesOfBlocks(blocks[1..])
  }

  /** When every block ends a line, the lines of the concatenation are the
      lines of the blocks, taken block by block. */
  lemma {:induction false} LinesOfConcatenation(blocks: seq<string>)
    requires forall k :: 0 <= k < |blocks| ==> EndsLine(blocks[k])
    ensures SplitLines(Join(blocks, "")) == LinesOfBlocks(blocks)
    decreases |blocks|
  {
    if blocks == [] {
      assert Split([]) == [[]];
    } else if |blocks| == 1 {
      assert LinesOfBlocks(blocks[1..]) == [];
      assert SplitLines(blocks[0]) + [] == SplitLines(blocks[0]);
    } else {
      LinesOfConcatenation(blocks[1..]);
      ConcatenationCons(blocks);
      SplitLinesAppend(blocks[0], Join(blocks[1..], ""));
    }
  }

  /** The `''`-concatenation of two or more blocks is the first followed by
      the concatenation of the rest. */
  lemma ConcatenationCons(blocks: seq<string>)
    requires |blocks| >= 2
    ensures Join(blocks, "") == blocks[0] + Join(blocks[1..], "")
  {
    assert blocks[0] + "" == blocks[0];
  }

  /** Each line of the blocks occurs inside one of the blocks. */
  lemma {:induction false} LineOfSomeBlock(blocks: seq<string>, line: string)
    requires line in LinesOfBlocks(blocks)
    ensures exists k :: 0 <= k < |blocks| && IsSubstring(line, blocks[k])
    decreases |blocks|
  {
    if line in SplitLines(blocks[0]) {
      var i :| 0 <= i < |SplitLines(blocks[0])| && SplitLines(blocks[0])[i] == line;
      LineInText(blocks[0], i);
    } else {
      LineOfSomeBlock(blocks[1..], line);
      var k :| 0 <= k < |blocks[1..]| && IsSubstring(line, blocks[1..][k]);
      assert blocks[k + 1] == blocks[1..][k];
    }
  }

  /** A line inside a string free of every exclusion is itself free of them. */
  lemma FreeWithin(line: string, block: string, items: seq<string>)
    requires IsSubstring(line, block) && !AnyIn(block, items)
    ensures !AnyIn(line, items)
  {
    if AnyIn(line, items) {
      var k :| 0 <= k < |items| && IsSubstring(items[k], line);
      SubstringTransitive(items[k], line, block);
    }
  }

  /** When every trace block ends a line (as the blocks of a formatted
      traceback do), no line of the output contains a trace exclusion: a line
      lies inside one surviving block, and that block contains none. */
  lemma TracebackAvoidsTraceExclusions(blocks: seq<string>, excludedTraces: seq<string>, excludedLocals: seq<string>)
    requires forall k :: 0 <= k < |blocks| ==> EndsLine(blocks[k])
    ensures forall line :: line in SplitLines(TracebackText(blocks, excludedTraces, excludedLocals)) ==>
      !AnyIn(line, excludedTraces)
  {
    var survivors := SurvivingBlocks(blocks, excludedTraces);
    assert forall k :: 0 <= k < |survivors| ==> EndsLine(survivors[k]) by {
      forall k | 0 <= k < |survivors| ensures EndsLine(survivors[k]) {
        assert survivors[k] in blocks;
      }
    }
    LinesOfConcatenation(survivors);
    TracebackLinesClean(blocks, excludedTraces, excludedLocals);
    forall line | line in SplitLines(TracebackText(blocks, excludedTraces, excludedLocals))
      ensures !AnyIn(line, excludedTraces)
    {
      LineOfSomeBlock(survivors, line);
      var k :| 0 <= k < |survivors| && IsSubstring(line, survivors[k]);
      assert survivors[k] in survivors;
      FreeWithin(line, survivors[k], excludedTraces);
    }
  }

  /** A string free of every item of `items` holds none of them. */
  lemma ExcludedItemAbsent(s: string, items: seq<string>, x: string)
    requires x in items && !AnyIn(s, items)
    ensures !IsSubstring(x, s)
  {
  }

  /** When `lines` is `parts`, or `parts` without a trailing empty part, and
      no line holds an item, no part holds the non-empty item `x`. */
  lemma AbsentFromParts(parts: seq<string>, lines: seq<string>, items: seq<string>, x: string)
    requires lines == parts || (parts != [] && parts[|parts| - 1] == [] && lines == parts[..|parts| - 1])
    requires forall line :: line in lines ==> !AnyIn(line, items)
    requires x in items && x != []
    ensures forall k :: 0 <= k < |parts| ==> !IsSubstring(x, parts[k])
  {
    forall k | 0 <= k < |parts| ensures !IsSubstring(x, parts[k]) {
      if k < |lines| {
        assert parts[k] == lines[k] && lines[k] in lines;
        ExcludedItemAbsent(lines[k], items, x);
      } else {
        assert parts[k] == [];
      }
    }
  }

  /** A non-empty, newline-free string found in no surviving line is found
      nowhere in the formatted traceback. */
  lemma AbsentFromTracebackText(blocks: seq<string>, excludedTraces: seq<string>, excludedLocals: seq<string>,
                                x: string)
    requires x != [] && '\n' !in x
    requires forall k :: 0 <= k < |SurvivingLines(blocks, excludedTraces, excludedLocals)| ==>
      !IsSubstring(x, SurvivingLines(blocks, excludedTraces, excludedLocals)[k])
    ensures !IsSubstring(x, TracebackText(blocks, excludedTraces, excludedLocals))
  {
    var kept := SurvivingLines(blocks, excludedTraces, excludedLocals);
    if kept != [] {
      var text := TracebackText(blocks, excludedTraces, excludedLocals);
      assert text == Join(kept, "\n");
      if IsSubstring(x, text) {
        NewlineFreeInJoin(kept, x);
        assert false;
      }
    }
  }

  /** The whole formatted traceback contains no locals exclusion that is
      non-empty and newline-free. */
  lemma TracebackTextAvoidsLocals(blocks: seq<string>, excludedTraces: seq<string>, excludedLocals: seq<string>,
                                  x: string)
    requires x in excludedLocals && x != [] && '\n' !in x
    ensures !IsSubstring(x, TracebackText(blocks, excludedTraces, excludedLocals))
  {
    var kept := SurvivingLines(blocks, excludedTraces, excludedLocals);
    forall k | 0 <= k < |kept| ensures !IsSubstring(x, kept[k]) {
      assert kept[k] in kept;
    }
    AbsentFromTracebackText(blocks, excludedTraces, excludedLocals, x);
  }

  /** When every trace block ends a line, the whole formatted traceback
      contains no trace exclusion that is non-empty and newline-free. */
  lemma TracebackTextAvoidsTraces(blocks: seq<string>, excludedTraces: seq<string>, excludedLocals: seq<string>,
                                  x: string)
    requires forall k :: 0 <= k < |blocks| ==> EndsLine(blocks[k])
    requires x in excludedTraces && x != [] && '\n' !in x
    ensures !IsSubstring(x, TracebackText(blocks, excludedTraces, excludedLocals))
  {
    var kept := SurvivingLines(blocks, excludedTraces, excludedLocals);
    var lines := SplitLines(TracebackText(blocks, excludedTraces, excludedLocals));
    assert lines == kept || (kept != [] && kept[|kept| - 1] == [] && lines == kept[..|kept| - 1]) by {
      TracebackLinesClean(blocks, excludedTraces, excludedLocals);
    }
    assert forall line :: line in lines ==> !AnyIn(line, excludedTraces) by {
      TracebackAvoidsTraceExclusions(blocks, excludedTraces, excludedLocals);
    }
    AbsentFromParts(kept, lines, excludedTraces, x);
    AbsentFromTracebackText(blocks, excludedTraces, excludedLocals, x);
  }

  /** A block of two lines, each shorter than the only locals exclusion `x`,
      passes both stages unchanged but for its final newline. */
  lemma TwoLinesOneBlock(a: string, b: string, x: string)
    requires '\n' !in a && '\n' !in b && |a| < |x| && |b| < |x|
    ensures TracebackText([a + "\n" + b + "\n"], [], [x]) == a + "\n" + b
  {
    var block := a + "\n" + b + "\n";
    FilterOutNothingExcluded([block]);
    assert Join([block], "") == block == (a + "\n" + b) + "\n";
    SplitLinesFinalNewline(a + "\n" + b);
    SplitAround(a, b);
    SplitSingle(a);
    SplitSingle(b);
    assert StageTwoInput([block], []) == [a, b];
    ShorterThanAll(a, [x]);
    ShorterThanAll(b, [x]);
    FilterOutAllClean([a, b], [x]);
  }

  /** A locals exclusion holding a newline can span two clean lines and so
      appear in the output: `"a\nb"` survives as the lines `"a"` and `"b"`. */
  lemma LocalsExclusionAcrossLines()
    ensures var text := TracebackText(["a\n" + "b\n"], [], ["a\nb"]);
      text == "a\nb" && IsSubstring("a\nb", text)
  {
    assert "a\n" + "b\n" == "a" + "\n" + "b" + "\n";
    assert "a" + "\n" + "b" == "a\nb";
    assert OccursAt("a\nb", "a\nb", 0);
    TwoLinesOneBlock("a", "b", "a\nb");
  }

  /** An empty locals exclusion occurs in every line, so every line is
      dropped and the output is empty. */
  lemma EmptyLocalsExclusionDropsAll(blocks: seq<string>, excludedTraces: seq<string>)
    ensures TracebackText(blocks, excludedTraces, [""]) == []
  {
    FilterOutEmptyItem(StageTwoInput(blocks, excludedTraces), [""]);
  }

  /** The empty string occurs in every string, so an empty item drops everything. */
  lemma {:induction false} FilterOutEmptyItem(ss: seq<string>, items: seq<string>)
    requires "" in items
    ensures FilterOut(ss, items) == []
    decreases |ss|
  {
    if ss != [] {
      var last := ss[|ss| - 1];
      assert OccursAt(last, "", 0);
      FilterOutEmptyItem(ss[..|ss| - 1], items);
    }
  }

  /** A string shorter than every item contains none of them. */
  lemma ShorterThanAll(s: string, items: seq<string>)
    requires forall k :: 0 <= k < |items| ==> |s| < |items[k]|
    ensures !AnyIn(s, items)
  {
  }

  /** A line without ' ', '<', '_' and '(' holds none of the default locals
      exclusions: each of them has one of those characters. */
  lemma NoDefaultLocalsMarker(line: string)
    requires ' ' !in line && '<' !in line && '_' !in line && '(' !in line
    ensures !AnyIn(line, ExcludedLocalsDefault)
  {
    DefaultLocalsExclusions(line);
    MissingChar(" at 0x", line, ' ');
    MissingChar("<class ", line, '<');
    MissingChar("__", line, '_');
    MissingChar("(No symbol)", line, '(');
  }

  /** With the default lists, two short blocks `p` and `q + "\n"` both survive
      stage 1, and the output is their concatenation as one line. */
  lemma TwoShortBlocks(p: string, q: string)
    requires |p| < 13 && |q| < 12 && '\n' !in p + q
    requires ' ' !in p + q && '<' !in p + q && '_' !in p + q && '(' !in p + q
    ensures TracebackText([p, q + "\n"], ExcludedTracesDefault, ExcludedLocalsDefault) == p + q
  {
    var blocks := [p, q + "\n"];
    ShorterThanAll(p, ExcludedTracesDefault);
    ShorterThanAll(q + "\n", ExcludedTracesDefault);
    FilterOutAllClean(blocks, ExcludedTracesDefault);
    assert Join(blocks, "") == p + "" + (q + "\n") == (p + q) + "\n";
    SplitLinesFinalNewline(p + q);
    SplitSingle(p + q);
    assert StageTwoInput(blocks, ExcludedTracesDefault) == [p + q];
    NoDefaultLocalsMarker(p + q);
    FilterOutAllClean([p + q], ExcludedLocalsDefault);
  }

  /** The two halves of `site-packages` meet the conditions of `TwoShortBlocks`. */
  lemma SitePackagesPlain()
    ensures "site-" + "packages" == "site-packages"
    ensures |"site-"| < 13 && |"packages"| < 12
    ensures '\n' !in "site-packages" && ' ' !in "site-packages" && '<' !in "site-packages"
    ensures '_' !in "site-packages" && '(' !in "site-packages"
  {
  }

  /** Two blocks may each avoid a trace exclusion while their concatenation
      holds it: with the default lists, `"site-"` and `"packages\n"` both
      survive stage 1 and the output is `site-packages`. */
  lemma TraceExclusionAcrossBlocks()
    ensures var text := TracebackText(["site-", "packages" + "\n"], ExcludedTracesDefault, ExcludedLocalsDefault);
      text == "site-packages" && IsSubstring("site-packages", text)
  {
    SitePackagesPlain();
    assert OccursAt("site-packages", "site-packages", 0);
    TwoShortBlocks("site-", "packages");
  }

  /** `get_custom_exception_traceback`: stage 1 on the blocks, flatten, stage 2
      on the lines, rejoin. */
  method GetCustomExceptionTraceback(blocks: seq<string>,
                                     nameonly excludedTraces: seq<string> := ExcludedTracesDefault,
                                     nameonly excludedLocals: seq<string> := ExcludedLocalsDefault)
    returns (debugStr: string)
    ensures debugStr == TracebackText(blocks, excludedTraces, excludedLocals)
    ensures forall line :: line in SplitLines(debugStr) ==>
      line in StageTwoInput(blocks, excludedTraces) && !AnyIn(line, excludedLocals)
  {
    var stackTraces := FilterOutStr(blocks, excludedTraces);
    var fullDebugStr := Join(stackTraces, "");
    var filteredLines := FilterOutStr(SplitLines(fullDebugStr), excludedLocals);
    debugStr := Join(filteredLines, "\n");
    TracebackLinesClean(blocks, excludedTraces, excludedLocals);
  }

  /** `get_custom_exc_str` for a given exception: its repr and its trace
      blocks, filtered with the default exclusion lists. */
  method GetCustomExcStr(excRepr: string, blocks: seq<string>) returns (s: string)
    ensures s == "\nCustom Exception Message for " + excRepr + ": \n"
              + TracebackText(blocks, ExcludedTracesDefault, ExcludedLocalsDefault) + "\n"
  {
    var excMsg := GetCustomExceptionTraceback(blocks);
    s := "\nCustom Exception Message for " + excRepr + ": \n" + excMsg + "\n";
  }
}

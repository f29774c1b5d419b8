/** The line loop of `convert_r2egym_to_swebench`: every line of the input
    file in turn is skipped, converted or counted as an error, with the
    records written in input order and both counters kept. */
module Batch {
  import opened Wrappers
  import opened Text
  import opened ModelName
  import opened Converter

  /** The outcome of every line of a batch, in order */
  function Outcomes(modelName: string, parse: string -> Option<Trajectory>, lines: seq<string>): (os: seq<LineOutcome>)
    ensures |os| == |lines|
    ensures forall i :: 0 <= i < |lines| ==> os[i] == ConvertLine(modelName, parse, lines[i])
  {
    seq(|lines|, i requires 0 <= i < |lines| => ConvertLine(modelName, parse, lines[i]))
  }

  /** The state of the loop: the records written so far, the two counters,
      and the 1-based numbers of the lines whose error was reported */
  datatype Tally = Tally(outputs: seq<Prediction>, converted: nat, errors: nat, errorLines: seq<nat>)

  const Start := Tally([], 0, 0, [])

  /** One pass of the loop body for line number `lineNum` */
  function Step(t: Tally, lineNum: nat, o: LineOutcome): Tally
  {
    match o
    case Blank => t
    case Converted(p) => t.(outputs := t.outputs + [p], converted := t.converted + 1)
    case Failed => t.(errors := t.errors + 1, errorLines := t.errorLines + [lineNum])
  }

  /** The rest of the loop from tally `t`, the next line being number `lineNum` */
  function Run(t: Tally, lineNum: nat, os: seq<LineOutcome>): Tally
    decreases |os|
  {
    if |os| == 0 then t else Run(Step(t, lineNum, os[0]), lineNum + 1, os[1..])
  }

  /** The whole loop over the lines of an input file, numbered from 1 */
  function ConvertLines(modelName: string, parse: string -> Option<Trajectory>, lines: seq<string>): Tally
  {
    Run(Start, 1, Outcomes(modelName, parse, lines))
  }

  /** The records a batch should produce: the prediction of every converted
      line, in input order */
  function Records(os: seq<LineOutcome>): seq<Prediction>
    decreases |os|
  {
    if |os| == 0 then []
    else (if os[0].Converted? then [os[0].prediction] else []) + Records(os[1..])
  }

  /** The line numbers of the failed lines of a batch whose first line is
      number `lineNum`, in order */
  function FailedLines(lineNum: nat, os: seq<LineOutcome>): seq<nat>
    decreases |os|
  {
    if |os| == 0 then []
    else (if os[0].Failed? then [lineNum] else []) + FailedLines(lineNum + 1, os[1..])
  }

  /** Number of outcomes that are not `Blank` */
  function Counted(os: seq<LineOutcome>): nat
    decreases |os|
  {
    if |os| == 0 then 0 else (if os[0].Blank? then 0 else 1) + Counted(os[1..])
  }

  /** Number of lines that are not all whitespace */
  function NonBlankCount(lines: seq<string>): nat
    decreases |lines|
  {
    if |lines| == 0 then 0 else (if AllSpace(lines[0]) then 0 else 1) + NonBlankCount(lines[1..])
  }

  /** The loop appends the records of the remaining lines to those written,
      reports the remaining failed lines, and counts both */
  lemma {:induction false} RunAppends(t: Tally, lineNum: nat, os: seq<LineOutcome>)
    ensures Run(t, lineNum, os) ==
      Tally(t.outputs + Records(os), t.converted + |Records(os)|,
            t.errors + |FailedLines(lineNum, os)|, t.errorLines + FailedLines(lineNum, os))
    decreases |os|
  {
    if |os| > 0 {
      RunAppends(Step(t, lineNum, os[0]), lineNum + 1, os[1..]);
      StepThenAppend(t, lineNum, os[0], Records(os[1..]), FailedLines(lineNum + 1, os[1..]));
    }
  }

  /** One step followed by appending the rest is appending the step's own
      record or failed line number followed by the rest */
  lemma StepThenAppend(t: Tally, lineNum: nat, o: LineOutcome, rs: seq<Prediction>, fs: seq<nat>)
    ensures var u := Step(t, lineNum, o);
      var r := (if o.Converted? then [o.prediction] else []) + rs;
      var f := (if o.Failed? then [lineNum] else []) + fs;
      Tally(u.outputs + rs, u.converted + |rs|, u.errors + |fs|, u.errorLines + fs)
        == Tally(t.outputs + r, t.converted + |r|, t.errors + |f|, t.errorLines + f)
  {
  }

  /** Every non-blank outcome is either a record or a failed line */
  lemma {:induction false} CountedSplits(lineNum: nat, os: seq<LineOutcome>)
    ensures |Records(os)| + |FailedLines(lineNum, os)| == Counted(os)
    decreases |os|
  {
    if |os| > 0 {
      CountedSplits(lineNum + 1, os[1..]);
    }
  }

  /** A line number is reported exactly when it names a failed line */
  lemma {:induction false} FailedLinesExact(lineNum: nat, os: seq<LineOutcome>, n: int)
    ensures n in FailedLines(lineNum, os) <==> lineNum <= n < lineNum + |os| && os[n - lineNum].Failed?
    decreases |os|
  {
    if |os| > 0 {
      FailedLinesExact(lineNum + 1, os[1..], n);
      if lineNum < n < lineNum + |os| {
        assert os[1..][n - (lineNum + 1)] == os[n - lineNum];
      }
    }
  }

  /** The reported line numbers increase */
  lemma {:induction false} FailedLinesIncrease(lineNum: nat, os: seq<LineOutcome>)
    ensures forall i, j :: 0 <= i < j < |FailedLines(lineNum, os)| ==>
      FailedLines(lineNum, os)[i] < FailedLines(lineNum, os)[j]
    decreases |os|
  {
    if |os| > 0 {
      FailedLinesIncrease(lineNum + 1, os[1..]);
      var fs := FailedLines(lineNum + 1, os[1..]);
      forall k | 0 <= k < |fs|
        ensures fs[k] > lineNum
      {
        FailedLinesExact(lineNum + 1, os[1..], fs[k]);
      }
    }
  }

  /** Records of a concatenation are the records of each part */
  lemma {:induction false} RecordsAppend(a: seq<LineOutcome>, b: seq<LineOutcome>)
    ensures Records(a + b) == Records(a) + Records(b)
    decreases |a|
  {
    if |a| == 0 {
      assert a + b == b;
    } else {
      assert (a + b)[1..] == a[1..] + b;
      RecordsAppend(a[1..], b);
      var first := if a[0].Converted? then [a[0].prediction] else [];
      assert first + (Records(a[1..]) + Records(b)) == (first + Records(a[1..])) + Records(b);
    }
  }

  /** Failed lines of a concatenation: those of the first part, then those
      of the second part numbered after it */
  lemma {:induction false} FailedLinesAppend(lineNum: nat, a: seq<LineOutcome>, b: seq<LineOutcome>)
    ensures FailedLines(lineNum, a + b) == FailedLines(lineNum, a) + FailedLines(lineNum + |a|, b)
    decreases |a|
  {
    if |a| == 0 {
      assert a + b == b;
    } else {
      assert (a + b)[1..] == a[1..] + b;
      FailedLinesAppend(lineNum + 1, a[1..], b);
    }
  }

  /** How many lines fail does not depend on where the batch starts */
  lemma {:induction false} FailedCountAnywhere(k: nat, m: nat, os: seq<LineOutcome>)
    ensures |FailedLines(k, os)| == |FailedLines(m, os)|
    decreases |os|
  {
    if |os| > 0 {
      FailedCountAnywhere(k + 1, m + 1, os[1..]);
    }
  }

  /** A blank outcome, inserted anywhere, changes neither the records written
      nor the two counters */
  lemma BlankOutcomeIgnored(os: seq<LineOutcome>, k: nat)
    requires k <= |os|
    ensures var t := Run(Start, 1, os[..k] + [Blank] + os[k..]);
            var u := Run(Start, 1, os);
            t.outputs == u.outputs && t.converted == u.converted && t.errors == u.errors
  {
    var a, b := os[..k], os[k..];
    assert a + b == os;
    RecordsSkipBlank(a, b);
    FailedCountSkipBlank(a, b);
    RunAppends(Start, 1, a + [Blank] + b);
    RunAppends(Start, 1, os);
  }

  lemma RecordsSkipBlank(a: seq<LineOutcome>, b: seq<LineOutcome>)
    ensures Records(a + [Blank] + b) == Records(a + b)
  {
    RecordsAppend(a + [Blank], b);
    RecordsAppend(a, [Blank]);
    RecordsAppend(a, b);
    assert Records([Blank]) == [];
  }

  lemma FailedCountSkipBlank(a: seq<LineOutcome>, b: seq<LineOutcome>)
    ensures |FailedLines(1, a + [Blank] + b)| == |FailedLines(1, a + b)|
  {
    FailedLinesAppend(1, a + [Blank], b);
    FailedLinesAppend(1, a, [Blank]);
    FailedLinesAppend(1, a, b);
    FailedCountAnywhere(1 + |a| + 1, 1 + |a|, b);
    assert FailedLines(1 + |a|, [Blank]) == [];
  }

  /** A line that is all whitespace, inserted anywhere into a batch, changes
      neither the records written nor the two counters */
  lemma BlankLineIgnored(modelName: string, parse: string -> Option<Trajectory>,
                         lines: seq<string>, k: nat, blank: string)
    requires k <= |lines| && AllSpace(blank)
    ensures var t := ConvertLines(modelName, parse, lines[..k] + [blank] + lines[k..]);
            var u := ConvertLines(modelName, parse, lines);
            t.outputs == u.outputs && t.converted == u.converted && t.errors == u.errors
  {
    var os := Outcomes(modelName, parse, lines);
    assert Outcomes(modelName, parse, lines[..k] + [blank] + lines[k..]) == os[..k] + [Blank] + os[k..];
    BlankOutcomeIgnored(os, k);
  }

  /** Every record of a batch carries the model name it was converted with */
  lemma {:induction false} RecordsCarryModelName(modelName: string, parse: string -> Option<Trajectory>, lines: seq<string>)
    ensures forall i :: 0 <= i < |Records(Outcomes(modelName, parse, lines))| ==>
      Records(Outcomes(modelName, parse, lines))[i].modelNameOrPath == modelName
    decreases |lines|
  {
    if |lines| > 0 {
      RecordsCarryModelName(modelName, parse, lines[1..]);
      assert Outcomes(modelName, parse, lines)[1..] == Outcomes(modelName, parse, lines[1..]);
    }
  }

  /** Non-blank outcomes are exactly the lines that are not all whitespace */
  lemma {:induction false} CountedIsNonBlank(modelName: string, parse: string -> Option<Trajectory>, lines: seq<string>)
    ensures Counted(Outcomes(modelName, parse, lines)) == NonBlankCount(lines)
    decreases |lines|
  {
    if |lines| > 0 {
      CountedIsNonBlank(modelName, parse, lines[1..]);
      assert Outcomes(modelName, parse, lines)[1..] == Outcomes(modelName, parse, lines[1..]);
    }
  }

  /** The loop writes the records of the converted lines, in input order,
      all carrying the model name, and counts them */
  lemma ConvertLinesOutputs(modelName: string, parse: string -> Option<Trajectory>, lines: seq<string>)
    ensures var t := ConvertLines(modelName, parse, lines);
      && t.outputs == Records(Outcomes(modelName, parse, lines))
      && t.converted == |t.outputs|
      && (forall i :: 0 <= i < |t.outputs| ==> t.outputs[i].modelNameOrPath == modelName)
  {
    RunAppends(Start, 1, Outcomes(modelName, parse, lines));
    RecordsCarryModelName(modelName, parse, lines);
  }

  /** The two counters add up to the number of non-blank lines */
  lemma ConvertLinesCounts(modelName: string, parse: string -> Option<Trajectory>, lines: seq<string>)
    ensures var t := ConvertLines(modelName, parse, lines);
      t.errors == |t.errorLines| && t.converted + t.errors == NonBlankCount(lines)
  {
    var os := Outcomes(modelName, parse, lines);
    RunAppends(Start, 1, os);
    CountedSplits(1, os);
    CountedIsNonBlank(modelName, parse, lines);
  }

  /** Line number `n` (counting from 1) of the batch is a non-blank line that
      fails to parse or to convert */
  predicate LineFails(modelName: string, parse: string -> Option<Trajectory>, lines: seq<string>, n: int)
  {
    1 <= n <= |lines| && ConvertLine(modelName, parse, lines[n - 1]).Failed?
  }

  /** An error is reported, in increasing order, for exactly the non-blank
      lines that fail to parse or to convert */
  lemma ConvertLinesErrors(modelName: string, parse: string -> Option<Trajectory>, lines: seq<string>)
    ensures var t := ConvertLines(modelName, parse, lines);
      && (forall n :: n in t.errorLines <==> LineFails(modelName, parse, lines, n))
      && (forall i, j :: 0 <= i < j < |t.errorLines| ==> t.errorLines[i] < t.errorLines[j])
  {
    var t := ConvertLines(modelName, parse, lines);
    ErrorLinesAreFailedLines(modelName, parse, lines);
    FailedLinesOfBatch(modelName, parse, lines);
  }

  /** The failed line numbers of a batch, read back as a property of its lines */
  lemma FailedLinesOfBatch(modelName: string, parse: string -> Option<Trajectory>, lines: seq<string>)
    ensures var errs := FailedLines(1, Outcomes(modelName, parse, lines));
      && (forall n :: n in errs <==> LineFails(modelName, parse, lines, n))
      && (forall i, j :: 0 <= i < j < |errs| ==> errs[i] < errs[j])
  {
    var os := Outcomes(modelName, parse, lines);
    forall n
      ensures n in FailedLines(1, os) <==> LineFails(modelName, parse, lines, n)
    {
      FailedLinesExact(1, os, n);
    }
    FailedLinesIncrease(1, os);
  }

  /** The loop reports the failed lines of the batch, and only those */
  lemma ErrorLinesAreFailedLines(modelName: string, parse: string -> Option<Trajectory>, lines: seq<string>)
    ensures ConvertLines(modelName, parse, lines).errorLines == FailedLines(1, Outcomes(modelName, parse, lines))
  {
    RunAppends(Start, 1, Outcomes(modelName, parse, lines));
  }

  /** The model name: the one given, or else the one found in the file stem */
  function ChooseModelName(stem: string, given: Option<string>): (name: string)
    ensures given.Some? ==> name == given.value
    ensures given.None? ==> IsNameBefore(stem, name, HasIndicator)
  {
    ModelNameCharacterised(stem, ExtractModelName(stem));
    given.GetOr(ExtractModelName(stem))
  }

  /** The conversion of one input file as a loop over its lines: the model
      name used, the records written in input order, and the two counters
      reported */
  method ConvertFile(stem: string, given: Option<string>, parse: string -> Option<Trajectory>, lines: seq<string>)
    returns (modelName: string, outputs: seq<Prediction>, converted: nat, errors: nat)
    ensures given.Some? ==> modelName == given.value
    ensures given.None? ==> modelName == ExtractModelName(stem)
    ensures outputs == Records(Outcomes(modelName, parse, lines))
    ensures forall i :: 0 <= i < |outputs| ==> outputs[i].modelNameOrPath == modelName
    ensures converted == |outputs| && converted + errors == NonBlankCount(lines)
  {
    modelName := ChooseModelName(stem, given);
    var os := Outcomes(modelName, parse, lines);
    var t := Start;
    var i := 0;
    while i < |lines|
      invariant 0 <= i <= |lines|
      invariant Run(t, i + 1, os[i..]) == ConvertLines(modelName, parse, lines)
    {
      assert os[i..][1..] == os[i + 1..];
      t := Step(t, i + 1, ConvertLine(modelName, parse, lines[i]));
      i := i + 1;
    }
    ConvertLinesOutputs(modelName, parse, lines);
    ConvertLinesCounts(modelName, parse, lines);
    outputs, converted, errors := t.outputs, t.converted, t.errors;
  }

  /** Five non-blank lines of which the third does not parse and the others
      parse to trajectories with a readable patch: four records, one error,
      reported for line 3 */
  lemma FiveLinesThirdMalformed(modelName: string, parse: string -> Option<Trajectory>, lines: seq<string>)
    requires |lines| == 5
    requires forall i :: 0 <= i < 5 ==> !AllSpace(lines[i])
    requires parse(Strip(lines[2])).None?
    requires forall i :: 0 <= i < 5 && i != 2 ==>
      parse(Strip(lines[i])).Some? && parse(Strip(lines[i])).value.outputPatch.Some?
    ensures var t := ConvertLines(modelName, parse, lines);
      |t.outputs| == 4 && t.converted == 4 && t.errors == 1 && t.errorLines == [3]
  {
    var os := Outcomes(modelName, parse, lines);
    FiveLinesOutcomes(modelName, parse, lines, os);
    OneFailureAtThree(os);
    ConvertLinesTally(modelName, parse, lines);
  }

  lemma FiveLinesOutcomes(modelName: string, parse: string -> Option<Trajectory>, lines: seq<string>, os: seq<LineOutcome>)
    requires |lines| == 5 && os == Outcomes(modelName, parse, lines)
    requires forall i :: 0 <= i < 5 ==> !AllSpace(lines[i])
    requires parse(Strip(lines[2])).None?
    requires forall i :: 0 <= i < 5 && i != 2 ==>
      parse(Strip(lines[i])).Some? && parse(Strip(lines[i])).value.outputPatch.Some?
    ensures |os| == 5 && os[2] == Failed
    ensures forall i :: 0 <= i < 5 && i != 2 ==> os[i].Converted?
  {
  }

  /** The whole tally of a batch in terms of the reference definitions */
  lemma ConvertLinesTally(modelName: string, parse: string -> Option<Trajectory>, lines: seq<string>)
    ensures var os := Outcomes(modelName, parse, lines);
      ConvertLines(modelName, parse, lines)
        == Tally(Records(os), |Records(os)|, |FailedLines(1, os)|, FailedLines(1, os))
  {
    RunAppends(Start, 1, Outcomes(modelName, parse, lines));
  }

  lemma OneFailureAtThree(os: seq<LineOutcome>)
    requires |os| == 5 && os[2] == Failed
    requires forall i :: 0 <= i < 5 && i != 2 ==> os[i].Converted?
    ensures |Records(os)| == 4 && FailedLines(1, os) == [3]
  {
    assert os[4..][1..] == [];
    assert os[3..][1..] == os[4..];
    assert os[2..][1..] == os[3..];
    assert os[1..][1..] == os[2..];
    assert |Records(os[4..])| == 1 && FailedLines(5, os[4..]) == [];
    assert |Records(os[3..])| == 2 && FailedLines(4, os[3..]) == [];
    assert |Records(os[2..])| == 2 && FailedLines(3, os[2..]) == [3];
    assert |Records(os[1..])| == 3 && FailedLines(2, os[1..]) == [3];
  }
}

/** Deriving the `model_name_or_path` field from the stem of the input file
    name (`extract_model_name_from_filename`): the stem is split on `-`, the
    leading parts that name no task are kept and joined again, and when there
    are none the first part is used.

    The scan is written once for any test `stop` on parts (`LeadingName`), so
    that its proofs do not depend on how the task test is computed;
    `ExtractModelName` instantiates it with `HasIndicator`. */
module ModelName {
  import opened Text

  /** Substrings marking the part of a file name where the task or run
      description begins, after the model name */
  const TaskIndicators: seq<string> := ["swebench", "eval", "test", "train"]

  /** The value the source falls back to when splitting yields no part at all */
  const DefaultModelName: string := "R2E-Gym-Agent"

  const Hyphen: char := '-'

  /** A file-name part names a task when, lower-cased, it holds an indicator */
  predicate HasIndicator(part: string)
  {
    ContainsAny(Lower(part), TaskIndicators)
  }

  /** The test on a part is plain substring search: some indicator occurs at
      some index of the lower-cased part */
  lemma HasIndicatorMeaning(part: string)
    ensures HasIndicator(part) <==>
      exists k, i :: 0 <= k < |TaskIndicators| && OccursAt(Lower(part), TaskIndicators[k], i)
  {
    ContainsAnyExists(Lower(part), TaskIndicators);
    forall k | 0 <= k < |TaskIndicators|
      ensures Contains(Lower(part), TaskIndicators[k]) <==> exists i :: OccursAt(Lower(part), TaskIndicators[k], i)
    {
      ContainsAt(Lower(part), TaskIndicators[k]);
    }
  }

  /** The model name for a file whose stem is `stem`: when the first part
      names a task, that part; otherwise the longest prefix of the stem made
      of whole parts none of which names a task */
  function ExtractModelName(stem: string): (name: string)
    ensures StartsWith(stem, name)
    ensures HasIndicator(FirstPart(stem, Hyphen)) ==> name == FirstPart(stem, Hyphen)
    ensures !HasIndicator(FirstPart(stem, Hyphen)) ==>
              NoPartStops(name, HasIndicator) && EndsBeforeStop(stem, name, HasIndicator)
  {
    LeadingName(stem, HasIndicator)
  }

  /** The longest prefix of `parts` none of which satisfies `stop`: the
      `for ... break` loop collecting `model_parts` */
  function LeadingParts(parts: seq<string>, stop: string -> bool): (kept: seq<string>)
    ensures |kept| <= |parts| && kept == parts[..|kept|]
    ensures forall i :: 0 <= i < |kept| ==> !stop(kept[i])
    ensures |kept| == |parts| || stop(parts[|kept|])
  {
    if |parts| == 0 || stop(parts[0]) then []
    else [parts[0]] + LeadingParts(parts[1..], stop)
  }

  /** The body of `extract_model_name_from_filename` with the task test
      abstracted as `stop` */
  function LeadingName(stem: string, stop: string -> bool): (name: string)
    ensures IsNameBefore(stem, name, stop)
  {
    var parts := Split(stem, Hyphen);
    var kept := LeadingParts(parts, stop);
    if |kept| > 0 then
      LeadingNameKept(stem, parts, kept, stop);
      Join(kept, Hyphen)
    else if |parts| > 0 then
      assert StartsWith(stem, parts[0]) by {
        SplitParts(stem, Hyphen);
        if |parts| > 1 {
          JoinSplitAt(parts, 1, Hyphen);
        }
      }
      parts[0]
    else
      DefaultModelName
  }

  /** No `-`-separated part of `name` satisfies `stop` */
  ghost predicate NoPartStops(name: string, stop: string -> bool)
  {
    forall p :: p in Split(name, Hyphen) ==> !stop(p)
  }

  /** `name` is `stem` whole, or is followed in `stem` by a hyphen and a part
      that satisfies `stop` */
  ghost predicate EndsBeforeStop(stem: string, name: string, stop: string -> bool)
    requires StartsWith(stem, name)
  {
    name == stem ||
    (stem[|name|] == Hyphen && stop(FirstPart(stem[|name| + 1..], Hyphen)))
  }

  /** What the name must be, stated without the scan: a prefix of the stem;
      the first part when that satisfies `stop`; otherwise one none of whose
      parts satisfies `stop`, ending where the stem ends or a stopping part
      begins */
  ghost predicate IsNameBefore(stem: string, name: string, stop: string -> bool)
  {
    && StartsWith(stem, name)
    && if stop(FirstPart(stem, Hyphen)) then name == FirstPart(stem, Hyphen)
       else NoPartStops(name, stop) && EndsBeforeStop(stem, name, stop)
  }

  /** The case where some leading parts are kept: their join */
  lemma LeadingNameKept(stem: string, parts: seq<string>, kept: seq<string>, stop: string -> bool)
    requires parts == Split(stem, Hyphen) && kept == LeadingParts(parts, stop) && |kept| > 0
    ensures !stop(FirstPart(stem, Hyphen))
    ensures StartsWith(stem, Join(kept, Hyphen))
    ensures NoPartStops(Join(kept, Hyphen), stop)
    ensures EndsBeforeStop(stem, Join(kept, Hyphen), stop)
  {
    assert kept[0] == parts[0];
    var name := Join(kept, Hyphen);
    assert StartsWith(stem, name) && NoPartStops(name, stop) && EndsBeforeStop(stem, name, stop) by {
      SplitParts(stem, Hyphen);
      KeptPartsName(parts, |kept|, stop);
    }
  }

  /** The join of the first `k` parts, when those do not stop and the next
      one (if any) does, is a name of the kind `IsNameBefore` describes */
  lemma KeptPartsName(parts: seq<string>, k: nat, stop: string -> bool)
    requires 1 <= k <= |parts|
    requires forall i :: 0 <= i < |parts| ==> Hyphen !in parts[i]
    requires forall i :: 0 <= i < k ==> !stop(parts[i])
    requires k == |parts| || stop(parts[k])
    ensures StartsWith(Join(parts, Hyphen), Join(parts[..k], Hyphen))
    ensures NoPartStops(Join(parts[..k], Hyphen), stop)
    ensures EndsBeforeStop(Join(parts, Hyphen), Join(parts[..k], Hyphen), stop)
  {
    SplitJoin(parts[..k], Hyphen);
    if k < |parts| {
      JoinPrefix(parts, k, Hyphen);
      FirstPartOfJoin(parts[k..], Hyphen);
    } else {
      assert parts[..k] == parts;
    }
  }

  /** Joining the first `k` of `parts` gives a prefix of their whole join,
      followed there by the separator and the join of the rest */
  lemma JoinPrefix(parts: seq<string>, k: nat, sep: char)
    requires 1 <= k <= |parts|
    ensures StartsWith(Join(parts, sep), Join(parts[..k], sep))
    ensures k < |parts| ==>
      var n := |Join(parts[..k], sep)|;
      n < |Join(parts, sep)| && Join(parts, sep)[n] == sep && Join(parts, sep)[n + 1..] == Join(parts[k..], sep)
  {
    if k == |parts| {
      assert parts[..k] == parts;
    } else {
      JoinSplitAt(parts, k, sep);
      var s := Join(parts, sep);
      var a := Join(parts[..k], sep);
      assert s == a + [sep] + Join(parts[k..], sep);
      assert s[..|a|] == a;
      assert s[|a| + 1..] == Join(parts[k..], sep);
    }
  }

  /** The scan and the declarative description agree: `LeadingName` returns
      the one and only name that `IsNameBefore` admits */
  lemma LeadingNameCharacterised(stem: string, name: string, stop: string -> bool)
    ensures IsNameBefore(stem, name, stop) <==> name == LeadingName(stem, stop)
  {
    if IsNameBefore(stem, name, stop) {
      NameBeforeUnique(stem, name, LeadingName(stem, stop), stop);
    }
  }

  lemma NameBeforeUnique(stem: string, a: string, b: string, stop: string -> bool)
    requires IsNameBefore(stem, a, stop) && IsNameBefore(stem, b, stop)
    ensures a == b
  {
    if !stop(FirstPart(stem, Hyphen)) {
      if |a| < |b| {
        NoLongerName(stem, a, b, stop);
        assert false;
      } else if |b| < |a| {
        NoLongerName(stem, b, a, stop);
        assert false;
      } else {
        assert a == stem[..|a|] == b;
      }
    }
  }

  /** A name that stops before a stopping part cannot be extended to a
      longer one none of whose parts stops */
  lemma NoLongerName(stem: string, a: string, b: string, stop: string -> bool)
    requires StartsWith(stem, a) && StartsWith(stem, b) && |a| < |b|
    requires EndsBeforeStop(stem, a, stop) && EndsBeforeStop(stem, b, stop)
    ensures !NoPartStops(b, stop)
  {
    var w := b[|a| + 1..];
    assert b[|a|] == Hyphen;
    assert stop(FirstPart(w, Hyphen)) by {
      var t := stem[|b|..];
      assert stem[|a| + 1..] == w + t by {
        assert stem == b + t;
      }
      FirstPartBeforeSep(w, t, Hyphen);
    }
    PartAfterSep(b, |a|, Hyphen);
  }

  /** `ExtractModelName` is exactly the name `IsNameBefore` describes for the
      task test */
  lemma ModelNameCharacterised(stem: string, name: string)
    ensures IsNameBefore(stem, name, HasIndicator) <==> name == ExtractModelName(stem)
  {
    LeadingNameCharacterised(stem, name, HasIndicator);
  }

  /** An empty model name comes out exactly for the empty stem and for a stem
      made of a hyphen followed by a task-naming part */
  lemma EmptyModelName(stem: string)
    ensures ExtractModelName(stem) == "" <==>
            stem == "" || (stem[0] == Hyphen && HasIndicator(FirstPart(stem[1..], Hyphen)))
  {
    NoIndicatorInEmpty();
    if stem != "" && stem[0] == Hyphen && HasIndicator(FirstPart(stem[1..], Hyphen)) {
      assert FirstPart(stem, Hyphen) == "";
      assert Split("", Hyphen) == [""];
      ModelNameCharacterised(stem, "");
    }
  }

  lemma NoIndicatorInEmpty()
    ensures !HasIndicator("")
  {
  }

  /** A part holding an indicator in lower case names a task */
  lemma IndicatorPresent(part: string, k: nat)
    requires k < |TaskIndicators| && Lower(part) == part && StartsWith(part, TaskIndicators[k])
    ensures HasIndicator(part)
  {
    MatchesPrefixIsStartsWith(part, TaskIndicators[k]);
    ContainsAnyExists(part, TaskIndicators);
  }

  /** The name of a stem given as a join of hyphen-free parts, the first
      stopping one at index `k` */
  lemma LeadingNameOfParts(stem: string, parts: seq<string>, k: nat, stop: string -> bool)
    requires Join(parts, Hyphen) == stem && 1 <= k <= |parts|
    requires forall i :: 0 <= i < |parts| ==> Hyphen !in parts[i]
    requires forall i :: 0 <= i < k ==> !stop(parts[i])
    requires k == |parts| || stop(parts[k])
    ensures LeadingName(stem, stop) == Join(parts[..k], Hyphen)
  {
    FirstPartOfJoin(parts, Hyphen);
    KeptPartsName(parts, k, stop);
    LeadingNameCharacterised(stem, Join(parts[..k], Hyphen), stop);
  }

  /** The name of a stem made of the join of hyphen-free parts, the first
      stopping one at index `k`, followed by a hyphen and anything at all */
  lemma LeadingNameBeforeRest(stem: string, parts: seq<string>, rest: string, k: nat, stop: string -> bool)
    requires stem == Join(parts, Hyphen) + rest && rest != "" && rest[0] == Hyphen
    requires 1 <= k < |parts|
    requires forall i :: 0 <= i < |parts| ==> Hyphen !in parts[i]
    requires forall i :: 0 <= i < k ==> !stop(parts[i])
    requires stop(parts[k])
    ensures LeadingName(stem, stop) == Join(parts[..k], Hyphen)
  {
    var all := AppendSplit(parts, rest, k, Hyphen);
    forall i | 0 <= i < k
      ensures !stop(all[i])
    {
      assert all[i] == parts[i];
    }
    assert stop(all[k]) by {
      assert all[k] == parts[k];
    }
    LeadingNameOfParts(stem, all, k, stop);
  }

  /** Appending the parts after the leading separator of `rest` to
      separator-free `parts` joins to the join of `parts` followed by `rest` */
  lemma AppendSplit(parts: seq<string>, rest: string, k: nat, sep: char) returns (all: seq<string>)
    requires k < |parts| && rest != "" && rest[0] == sep
    requires forall i :: 0 <= i < |parts| ==> sep !in parts[i]
    ensures |all| > |parts| && all[..k] == parts[..k]
    ensures forall i :: 0 <= i < |parts| ==> all[i] == parts[i]
    ensures Join(all, sep) == Join(parts, sep) + rest
    ensures forall i :: 0 <= i < |all| ==> sep !in all[i]
  {
    var tail := Split(rest[1..], sep);
    SplitParts(rest[1..], sep);
    all := parts + tail;
    JoinSplitAt(all, |parts|, sep);
    assert all[..|parts|] == parts && all[|parts|..] == tail;
    assert rest == [sep] + rest[1..];
  }

  /** The example in the docstring of `extract_model_name_from_filename` */
  lemma ModelNameDocExample(stem: string)
    requires stem == "r2egym-32b-agent-swebench-eval-20250602_124544"
    ensures ExtractModelName(stem) == "r2egym-32b-agent"
  {
    var parts, rest := DocExampleParts(stem);
    DocExampleStops(parts);
    LeadingNameBeforeRest(stem, parts, rest, 3, HasIndicator);
    DocExampleName(parts);
  }

  lemma DocExampleParts(stem: string) returns (parts: seq<string>, rest: string)
    requires stem == "r2egym-32b-agent-swebench-eval-20250602_124544"
    ensures parts == ["r2egym", "32b", "agent", "swebench"]
    ensures stem == Join(parts, Hyphen) + rest && rest != "" && rest[0] == Hyphen
    ensures forall i :: 0 <= i < |parts| ==> Hyphen !in parts[i]
  {
    parts, rest := ["r2egym", "32b", "agent", "swebench"], "-eval-20250602_124544";
    DocExampleJoin(parts);
    DocExampleSplit(stem);
  }

  lemma DocExampleJoin(parts: seq<string>)
    requires parts == ["r2egym", "32b", "agent", "swebench"]
    ensures Join(parts, Hyphen) == "r2egym-32b-agent-swebench"
  {
    assert Join(["r2egym", "32b", "agent", "swebench"], Hyphen) == "r2egym-32b-agent-swebench";
  }

  lemma DocExampleSplit(stem: string)
    requires stem == "r2egym-32b-agent-swebench-eval-20250602_124544"
    ensures stem == "r2egym-32b-agent-swebench" + "-eval-20250602_124544"
  {
  }

  lemma DocExampleStops(parts: seq<string>)
    requires parts == ["r2egym", "32b", "agent", "swebench"]
    ensures forall i :: 0 <= i < 3 ==> !HasIndicator(parts[i])
    ensures HasIndicator(parts[3])
  {
    forall i | 0 <= i < 3
      ensures !HasIndicator(parts[i])
    {
      NoIndicatorIn(parts[i]);
    }
    IndicatorPresent("swebench", 0);
  }

  /** Evaluates the indicator test on a concrete part: each indicator holds
      a letter (`w`, `v`, `s`, `i` in turn) that the part lacks */
  lemma NoIndicatorIn(part: string)
    requires part in ["r2egym", "32b", "agent", "myrun"]
    ensures !HasIndicator(part)
  {
    var lower := Lower(part);
    var missing := "wvsi";
    ExampleWordsLack(part, missing);
    ContainsAnyExists(lower, TaskIndicators);
    forall k | 0 <= k < |TaskIndicators|
      ensures !Contains(lower, TaskIndicators[k])
    {
      LowerKeepsMissing(part, missing[k]);
      if Contains(lower, TaskIndicators[k]) {
        ContainedCharsOccur(lower, TaskIndicators[k], missing[k]);
      }
    }
  }

  lemma ExampleWordsLack(part: string, missing: string)
    requires part in ["r2egym", "32b", "agent", "myrun"] && missing == "wvsi"
    ensures |missing| == |TaskIndicators|
    ensures forall k :: 0 <= k < |missing| ==> 'a' <= missing[k] <= 'z' && missing[k] in TaskIndicators[k]
    ensures forall k :: 0 <= k < |missing| ==>
      missing[k] !in part && (missing[k] as int - 32) as char !in part
  {
  }

  lemma DocExampleName(parts: seq<string>)
    requires parts == ["r2egym", "32b", "agent", "swebench"]
    ensures Join(parts[..3], Hyphen) == "r2egym-32b-agent"
  {
    assert parts[..3] == ["r2egym", "32b", "agent"];
    assert Join(["r2egym", "32b", "agent"], Hyphen) == "r2egym-32b-agent";
  }

  /** A stem whose second part names a task keeps only its first part */
  lemma ModelNameStopsAtTask(stem: string)
    requires stem == "myrun-eval-2024"
    ensures ExtractModelName(stem) == "myrun"
  {
    var parts, rest := StopsAtTaskParts(stem);
    NoIndicatorIn(parts[0]);
    IndicatorPresent(parts[1], 1);
    LeadingNameBeforeRest(stem, parts, rest, 1, HasIndicator);
    assert parts[..1] == ["myrun"];
  }

  lemma StopsAtTaskParts(stem: string) returns (parts: seq<string>, rest: string)
    requires stem == "myrun-eval-2024"
    ensures parts == ["myrun", "eval"]
    ensures stem == Join(parts, Hyphen) + rest && rest != "" && rest[0] == Hyphen
    ensures forall i :: 0 <= i < |parts| ==> Hyphen !in parts[i]
  {
    parts, rest := ["myrun", "eval"], "-2024";
    assert Join(parts, Hyphen) == "myrun-eval";
  }

  /** A stem whose first part names a task falls back to that part */
  lemma ModelNameFirstPartFallback(stem: string)
    requires stem == "swebench-run"
    ensures ExtractModelName(stem) == "swebench"
  {
    IndicatorPresent("swebench", 0);
    assert Join(["swebench", "run"], Hyphen) == stem;
    FirstPartOfJoin(["swebench", "run"], Hyphen);
  }

  /** The empty stem gives an empty name rather than the default */
  lemma ModelNameEmptyStem()
    ensures ExtractModelName("") == ""
  {
  }

  /** A stem opening with a hyphen before a task gives an empty name */
  lemma ModelNameLeadingHyphen(stem: string)
    requires stem == "-train"
    ensures ExtractModelName(stem) == ""
  {
    var t := LeadingHyphenTail(stem);
    IndicatorPresent(t, 3);
    EmptyModelName(stem);
  }

  lemma LeadingHyphenTail(stem: string) returns (t: string)
    requires stem == "-train"
    ensures stem != "" && stem[0] == Hyphen
    ensures t == "train" && FirstPart(stem[1..], Hyphen) == t
  {
    t := "train";
    assert stem[1..] == t;
    FirstPartOfJoin([t], Hyphen);
  }
}

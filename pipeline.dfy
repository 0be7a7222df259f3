/**
 * CleaningPipeline: a registry of the available steps keyed by their class
 * names, the configured list of step names resolved against it, and the
 * data folded through the resolved steps in order.
 */
module Pipeline {
  import opened Wrappers
  import opened Text
  import opened Dates
  import opened Values
  import MissingValues
  import SpecialCharacters
  import Categorical
  import Outliers
  import Duplicates
  import TypeInference
  import Validation
  import Sequences

  /** The cleaning steps, one per implementation of CleaningStep, with their configuration. */
  datatype Step =
    | HandleMissingValuesStep
    | RemoveSpecialCharactersStep
    | CategoricalStandardizationStep
    | OutlierDetectionStep
    | RemoveDuplicatesStep(dedup: Duplicates.RemoveDuplicatesStep)
    | TypeInferenceStep(inference: TypeInference.TypeInferenceStep)
    | DataValidationStep

  /** getClass().getSimpleName() */
  function SimpleName(step: Step): string {
    match step
    case HandleMissingValuesStep => "HandleMissingValuesStep"
    case RemoveSpecialCharactersStep => "RemoveSpecialCharactersStep"
    case CategoricalStandardizationStep => "CategoricalStandardizationStep"
    case OutlierDetectionStep => "OutlierDetectionStep"
    case RemoveDuplicatesStep(_) => "RemoveDuplicatesStep"
    case TypeInferenceStep(_) => "TypeInferenceStep"
    case DataValidationStep => "DataValidationStep"
  }

  /** The registry key: the simple name with every "Step" removed, lowercased. */
  function RegistryKey(step: Step): string {
    ToLower(ReplaceAll(SimpleName(step), "Step", ""))
  }

  /** A prefix without a capital S cannot hold the start of "Step". */
  lemma {:induction false} ReplaceSkip(a: string, b: string)
    requires 'S' !in a
    ensures ReplaceAll(a + b, "Step", "") == a + ReplaceAll(b, "Step", "")
  {
    if a != [] {
      assert (a + b)[1..] == a[1..] + b;
      if |a + b| >= 4 {
        assert (a + b)[..4][0] == a[0];
      }
      ReplaceSkip(a[1..], b);
      if |a + b| < 4 {
        ReplaceShort(b);
        assert a + b == [a[0]] + (a[1..] + b);
      }
    } else {
      assert a + b == b;
    }
  }

  lemma ReplaceShort(b: string)
    requires |b| < 4
    ensures ReplaceAll(b, "Step", "") == b
  {
  }

  lemma ReplaceStep()
    ensures ReplaceAll("Step", "Step", "") == ""
  {
    assert "Step"[4..] == [];
  }

  /** "S" followed by anything but "tep" is kept. */
  lemma ReplaceOtherS(b: string)
    requires |b| >= 3 && (b[0] != 't' || b[1] != 'e' || b[2] != 'p')
    ensures ReplaceAll("S" + b, "Step", "") == "S" + ReplaceAll(b, "Step", "")
  {
    assert ("S" + b)[1..] == b;
    assert ("S" + b)[..4] != "Step" by {
      assert ("S" + b)[..4][1] == b[0] && ("S" + b)[..4][2] == b[1] && ("S" + b)[..4][3] == b[2];
    }
  }

  /** A class name ending in its only "Step" is keyed by the rest, lowercased. */
  lemma KeyOfPlainName(step: Step, base: string)
    requires SimpleName(step) == base + "Step" && 'S' !in base
    ensures RegistryKey(step) == ToLower(base)
  {
    ReplaceSkip(base, "Step");
    ReplaceStep();
  }

  /** The same when the rest holds one capital S, not followed by "tep". */
  lemma KeyOfNameWithS(step: Step, a: string, b: string)
    requires SimpleName(step) == a + ("S" + (b + "Step"))
    requires 'S' !in a && 'S' !in b && |b| >= 3 && (b[0] != 't' || b[1] != 'e' || b[2] != 'p')
    ensures RegistryKey(step) == ToLower(a + "S" + b)
  {
    ReplaceStep();
    ReplaceSkip(b, "Step");
    assert (b + "Step")[0] == b[0] && (b + "Step")[1] == b[1] && (b + "Step")[2] == b[2];
    ReplaceOtherS(b + "Step");
    ReplaceSkip(a, "S" + (b + "Step"));
    assert a + ("S" + b) == a + "S" + b;
  }

  lemma LowerHandleMissingValues()
    ensures ToLower("HandleMissingValues") == "handlemissingvalues"
  {
  }

  lemma LowerRemoveSpecialCharacters()
    ensures ToLower("Remove" + "S" + "pecialCharacters") == "removespecialcharacters"
  {
  }

  lemma LowerCategoricalStandardization()
    ensures ToLower("Categorical" + "S" + "tandardization") == "categoricalstandardization"
  {
  }

  lemma LowerOutlierDetection()
    ensures ToLower("OutlierDetection") == "outlierdetection"
  {
  }

  lemma LowerRemoveDuplicates()
    ensures ToLower("RemoveDuplicates") == "removeduplicates"
  {
  }

  lemma LowerTypeInference()
    ensures ToLower("TypeInference") == "typeinference"
  {
  }

  lemma LowerDataValidation()
    ensures ToLower("DataValidation") == "datavalidation"
  {
  }

  lemma RemoveSpecialCharactersKey(step: Step)
    requires step.RemoveSpecialCharactersStep?
    ensures RegistryKey(step) == ToLower("Remove" + "S" + "pecialCharacters")
  {
    KeyOfNameWithS(step, "Remove", "pecialCharacters");
  }

  lemma CategoricalStandardizationKey(step: Step)
    requires step.CategoricalStandardizationStep?
    ensures RegistryKey(step) == ToLower("Categorical" + "S" + "tandardization")
  {
    KeyOfNameWithS(step, "Categorical", "tandardization");
  }

  /** The registry key of each step: "Step" dropped from the class name, lowercased. */
  lemma RegistryKeyOf(step: Step)
    ensures RegistryKey(step) ==
      match step
      case HandleMissingValuesStep => "handlemissingvalues"
      case RemoveSpecialCharactersStep => "removespecialcharacters"
      case CategoricalStandardizationStep => "categoricalstandardization"
      case OutlierDetectionStep => "outlierdetection"
      case RemoveDuplicatesStep(_) => "removeduplicates"
      case TypeInferenceStep(_) => "typeinference"
      case DataValidationStep => "datavalidation"
  {
    match step
    case HandleMissingValuesStep => HandleMissingValuesKey(step);
    case RemoveSpecialCharactersStep =>
      RemoveSpecialCharactersKey(step);
      LowerRemoveSpecialCharacters();
    case CategoricalStandardizationStep =>
      CategoricalStandardizationKey(step);
      LowerCategoricalStandardization();
    case OutlierDetectionStep => OutlierDetectionKey(step);
    case RemoveDuplicatesStep(_) => RemoveDuplicatesKey(step);
    case TypeInferenceStep(_) => TypeInferenceKey(step);
    case DataValidationStep => DataValidationKey(step);
  }

  lemma HandleMissingValuesKey(step: Step)
    requires step.HandleMissingValuesStep?
    ensures RegistryKey(step) == "handlemissingvalues"
  {
    KeyOfPlainName(step, "HandleMissingValues");
    LowerHandleMissingValues();
  }

  lemma OutlierDetectionKey(step: Step)
    requires step.OutlierDetectionStep?
    ensures RegistryKey(step) == "outlierdetection"
  {
    KeyOfPlainName(step, "OutlierDetection");
    LowerOutlierDetection();
  }

  lemma RemoveDuplicatesKey(step: Step)
    requires step.RemoveDuplicatesStep?
    ensures RegistryKey(step) == "removeduplicates"
  {
    KeyOfPlainName(step, "RemoveDuplicates");
    LowerRemoveDuplicates();
  }

  lemma TypeInferenceKey(step: Step)
    requires step.TypeInferenceStep?
    ensures RegistryKey(step) == "typeinference"
  {
    KeyOfPlainName(step, "TypeInference");
    LowerTypeInference();
  }

  lemma DataValidationKey(step: Step)
    requires step.DataValidationStep?
    ensures RegistryKey(step) == "datavalidation"
  {
    KeyOfPlainName(step, "DataValidation");
    LowerDataValidation();
  }

  /**
   * Collectors.toMap(key, identity) over `items`: the first key met a
   * second time makes it fail.
   */
  function ToMap<T>(items: seq<T>, key: T -> string): Result<map<string, T>, Error> {
    if items == [] then Ok(map[])
    else
      var last := items[|items| - 1];
      match ToMap(items[..|items| - 1], key)
      case Err(e) => Err(e)
      case Ok(m) =>
        if key(last) in m then Err(DuplicateStepKey(key(last)))
        else Ok(m[key(last) := last])
  }

  /** The registry: the steps keyed by RegistryKey. */
  function BuildRegistry(allSteps: seq<Step>): Result<map<string, Step>, Error> {
    ToMap(allSteps, RegistryKey)
  }

  predicate DistinctKeys<T>(items: seq<T>, key: T -> string) {
    forall i, j :: 0 <= i < j < |items| ==> key(items[i]) != key(items[j])
  }

  /** The map is built exactly when no two items share a key; a failure names a repeated key. */
  lemma {:induction false} ToMapSucceeds<T>(items: seq<T>, key: T -> string)
    ensures ToMap(items, key).Ok? <==> DistinctKeys(items, key)
    ensures ToMap(items, key).Ok? ==> ToMap(items, key).value.Keys == set i | 0 <= i < |items| :: key(items[i])
    ensures ToMap(items, key).Err? ==>
      exists i, j :: 0 <= i < j < |items| && key(items[i]) == key(items[j])
        && ToMap(items, key).error == DuplicateStepKey(key(items[j]))
  {
    if items != [] {
      var n := |items| - 1;
      var init := items[..n];
      ToMapSucceeds(init, key);
      var keys := set i | 0 <= i < n :: key(init[i]);
      match ToMap(init, key)
      case Err(e) =>
        var i, j :| 0 <= i < j < n && key(init[i]) == key(init[j]) && e == DuplicateStepKey(key(init[j]));
        assert key(items[i]) == key(items[j]);
      case Ok(m) =>
        if key(items[n]) in m {
          var i :| 0 <= i < n && key(init[i]) == key(items[n]);
          assert key(items[i]) == key(items[n]);
        } else {
          forall i | 0 <= i < n
            ensures key(items[i]) != key(items[n])
          {
            assert key(init[i]) in keys;
          }
          assert forall i, j :: 0 <= i < j < n ==> key(init[i]) == key(items[i]) && key(init[j]) == key(items[j]);
          var all := set i | 0 <= i < |items| :: key(items[i]);
          assert all == keys + {key(items[n])} by {
            forall x | x in all ensures x in keys + {key(items[n])} {
              var i :| 0 <= i < |items| && key(items[i]) == x;
              if i < n {
                assert key(init[i]) == x;
              }
            }
            forall x | x in keys ensures x in all {
              var i :| 0 <= i < n && key(init[i]) == x;
              assert key(items[i]) == x;
            }
          }
        }
    }
  }

  /** A built map sends each item's key to that item. */
  lemma {:induction false} ToMapLookup<T>(items: seq<T>, key: T -> string, i: int)
    requires ToMap(items, key).Ok? && 0 <= i < |items|
    ensures key(items[i]) in ToMap(items, key).value
    ensures ToMap(items, key).value[key(items[i])] == items[i]
  {
    var n := |items| - 1;
    var init := items[..n];
    if i < n {
      assert init[i] == items[i];
      ToMapLookup(init, key, i);
    }
  }

  /** One instance of each step, in the order the keys below list them. */
  function StandardSteps(dedup: Duplicates.RemoveDuplicatesStep, inference: TypeInference.TypeInferenceStep): seq<Step> {
    [HandleMissingValuesStep, RemoveSpecialCharactersStep, CategoricalStandardizationStep, OutlierDetectionStep,
     RemoveDuplicatesStep(dedup), TypeInferenceStep(inference), DataValidationStep]
  }

  const StandardKeys: seq<string> :=
    ["handlemissingvalues", "removespecialcharacters", "categoricalstandardization", "outlierdetection",
     "removeduplicates", "typeinference", "datavalidation"]

  /** With one instance of each step the registry is built, under the seven keys. */
  lemma StandardRegistry(dedup: Duplicates.RemoveDuplicatesStep, inference: TypeInference.TypeInferenceStep)
    ensures BuildRegistry(StandardSteps(dedup, inference)).Ok?
    ensures BuildRegistry(StandardSteps(dedup, inference)).value.Keys == set key | key in StandardKeys
  {
    var steps := StandardSteps(dedup, inference);
    StandardStepKeys(dedup, inference);
    StandardKeysDistinct();
    ToMapSucceeds(steps, RegistryKey);
    assert (set i | 0 <= i < |steps| :: RegistryKey(steps[i])) == set key | key in StandardKeys by {
      forall key | key in StandardKeys
        ensures exists i :: 0 <= i < |steps| && RegistryKey(steps[i]) == key
      {
        var i :| 0 <= i < |StandardKeys| && StandardKeys[i] == key;
        assert RegistryKey(steps[i]) == key;
      }
    }
  }

  /** Each standard step's registry key is the matching entry of StandardKeys. */
  lemma StandardStepKeys(dedup: Duplicates.RemoveDuplicatesStep, inference: TypeInference.TypeInferenceStep)
    ensures |StandardSteps(dedup, inference)| == |StandardKeys|
    ensures forall i :: 0 <= i < |StandardKeys| ==> RegistryKey(StandardSteps(dedup, inference)[i]) == StandardKeys[i]
  {
    var steps := StandardSteps(dedup, inference);
    forall i | 0 <= i < |steps|
      ensures RegistryKey(steps[i]) == StandardKeys[i]
    {
      StandardStepKeyAt(dedup, inference, i);
    }
  }

  lemma StandardStepKeyAt(dedup: Duplicates.RemoveDuplicatesStep, inference: TypeInference.TypeInferenceStep, i: nat)
    requires i < 7
    ensures RegistryKey(StandardSteps(dedup, inference)[i]) == StandardKeys[i]
  {
    var step := StandardSteps(dedup, inference)[i];
    RegistryKeyOf(step);
    if i == 0 {
      assert step.HandleMissingValuesStep? && StandardKeys[0] == "handlemissingvalues";
    } else if i == 1 {
      assert step.RemoveSpecialCharactersStep? && StandardKeys[1] == "removespecialcharacters";
    } else if i == 2 {
      assert step.CategoricalStandardizationStep? && StandardKeys[2] == "categoricalstandardization";
    } else if i == 3 {
      assert step.OutlierDetectionStep? && StandardKeys[3] == "outlierdetection";
    } else if i == 4 {
      assert step.RemoveDuplicatesStep? && StandardKeys[4] == "removeduplicates";
    } else if i == 5 {
      assert step.TypeInferenceStep? && StandardKeys[5] == "typeinference";
    } else {
      assert step.DataValidationStep? && StandardKeys[6] == "datavalidation";
    }
  }

  lemma StandardKeysDistinct()
    ensures forall i, j :: 0 <= i < j < |StandardKeys| ==> StandardKeys[i] != StandardKeys[j]
  {
    forall i, j | 0 <= i < j < |StandardKeys|
      ensures StandardKeys[i] != StandardKeys[j]
    {
      assert StandardKeys[i][0] != StandardKeys[j][0] || StandardKeys[i][|StandardKeys[i]| - 1] != StandardKeys[j][|StandardKeys[j]| - 1]
        || |StandardKeys[i]| != |StandardKeys[j]|;
    }
  }

  /** Two duplicate-removal steps, whatever their key columns, cannot both be registered. */
  lemma TwoDedupStepsCollide(a: Duplicates.RemoveDuplicatesStep, b: Duplicates.RemoveDuplicatesStep)
    ensures BuildRegistry([RemoveDuplicatesStep(a), RemoveDuplicatesStep(b)]) == Err(DuplicateStepKey("removeduplicates"))
  {
    RegistryKeyOf(RemoveDuplicatesStep(a));
    RegistryKeyOf(RemoveDuplicatesStep(b));
    var two := [RemoveDuplicatesStep(a), RemoveDuplicatesStep(b)];
    assert two[..1] == [RemoveDuplicatesStep(a)] && two[..1][..0] == [];
    assert ToMap(two[..1], RegistryKey) == Ok(map["removeduplicates" := RemoveDuplicatesStep(a)]);
  }

  /** The configured names, lowercased and looked up, unknown ones skipped. */
  function ResolveNames(names: seq<string>, registry: map<string, Step>): seq<Step> {
    if names == [] then []
    else
      var key := ToLower(names[|names| - 1]);
      ResolveNames(names[..|names| - 1], registry) + (if key in registry then [registry[key]] else [])
  }

  /** init: an absent or empty configured list resolves to no steps. */
  function Resolve(configured: Option<seq<string>>, registry: map<string, Step>): seq<Step> {
    if configured.None? || configured.value == [] then [] else ResolveNames(configured.value, registry)
  }

  /** Resolution works name by name: it maps concatenation to concatenation. */
  lemma {:induction false} ResolveAppend(a: seq<string>, b: seq<string>, registry: map<string, Step>)
    ensures ResolveNames(a + b, registry) == ResolveNames(a, registry) + ResolveNames(b, registry)
  {
    if b == [] {
      assert a + b == a;
    } else {
      var n := |b| - 1;
      assert (a + b)[..|a + b| - 1] == a + b[..n];
      assert (a + b)[|a + b| - 1] == b[n];
      ResolveAppend(a, b[..n], registry);
    }
  }

  /** One name: its step when its lowercase form is registered, nothing otherwise. */
  lemma ResolveOne(name: string, registry: map<string, Step>)
    ensures ResolveNames([name], registry) ==
      if ToLower(name) in registry then [registry[ToLower(name)]] else []
  {
    assert [name][..0] == [];
  }

  /** At most one step per configured name. */
  lemma {:induction false} ResolveLength(names: seq<string>, registry: map<string, Step>)
    ensures |ResolveNames(names, registry)| <= |names|
  {
    if names != [] {
      ResolveLength(names[..|names| - 1], registry);
    }
  }

  /** When every name is known, the steps are the lookups, one for one, in order, repeats kept. */
  lemma {:induction false} ResolveAllKnown(names: seq<string>, registry: map<string, Step>)
    requires forall i :: 0 <= i < |names| ==> ToLower(names[i]) in registry
    ensures |ResolveNames(names, registry)| == |names|
    ensures forall i :: 0 <= i < |names| ==> ResolveNames(names, registry)[i] == registry[ToLower(names[i])]
  {
    if names != [] {
      ResolveAllKnown(names[..|names| - 1], registry);
    }
  }

  /** Every resolved step is the lookup of some configured name. */
  lemma {:induction false} ResolveSound(names: seq<string>, registry: map<string, Step>)
    ensures forall s :: s in ResolveNames(names, registry) ==>
      exists i :: 0 <= i < |names| && ToLower(names[i]) in registry && registry[ToLower(names[i])] == s
  {
    if names != [] {
      var n := |names| - 1;
      ResolveSound(names[..n], registry);
      forall s | s in ResolveNames(names, registry)
        ensures exists i :: 0 <= i < |names| && ToLower(names[i]) in registry && registry[ToLower(names[i])] == s
      {
        if s in ResolveNames(names[..n], registry) {
          var i :| 0 <= i < n && ToLower(names[..n][i]) in registry && registry[ToLower(names[..n][i])] == s;
          assert names[..n][i] == names[i];
        } else {
          assert ToLower(names[n]) in registry && registry[ToLower(names[n])] == s;
        }
      }
    }
  }

  /**
   * Stage names that are not registry keys are skipped: of the list
   * missingvalues, specialcharacters, typeinference, outlierdetection,
   * deduplication, validation only two steps resolve.
   */
  lemma ShortStageNames(registry: map<string, Step>)
    requires registry.Keys == set key | key in StandardKeys
    ensures
      Resolve(Some(["missingvalues", "specialcharacters", "typeinference", "outlierdetection", "deduplication", "validation"]), registry)
        == [registry["typeinference"], registry["outlierdetection"]]
  {
    ResolveSix("missingvalues", "specialcharacters", "typeinference", "outlierdetection", "deduplication", "validation", registry);
    StageNamesKnown(registry);
    ResolveTwo("missingvalues", "specialcharacters", registry);
    ResolveTwo("typeinference", "outlierdetection", registry);
    ResolveTwo("deduplication", "validation", registry);
  }

  lemma ResolveSix(a: string, b: string, c: string, d: string, e: string, f: string, registry: map<string, Step>)
    ensures Resolve(Some([a, b, c, d, e, f]), registry)
      == ResolveNames([a, b], registry) + ResolveNames([c, d], registry) + ResolveNames([e, f], registry)
  {
    var names := [a, b, c, d, e, f];
    ResolveAppend(names[..2], names[2..4], registry);
    ResolveAppend(names[..4], names[4..], registry);
    assert names[..4] + names[4..] == names;
    assert names[..2] + names[2..4] == names[..4];
    assert names[..2] == [a, b] && names[2..4] == [c, d] && names[4..] == [e, f];
  }

  lemma StageNamesKnown(registry: map<string, Step>)
    requires registry.Keys == set key | key in StandardKeys
    ensures ToLower("missingvalues") !in registry && ToLower("specialcharacters") !in registry
    ensures ToLower("deduplication") !in registry && ToLower("validation") !in registry
    ensures ToLower("typeinference") == "typeinference" && "typeinference" in registry
    ensures ToLower("outlierdetection") == "outlierdetection" && "outlierdetection" in registry
  {
    LowerStageNames();
    assert StandardKeys[5] == "typeinference" && StandardKeys[3] == "outlierdetection";
    forall key | key in StandardKeys
      ensures key != "missingvalues" && key != "specialcharacters" && key != "deduplication" && key != "validation"
    {
      var i :| 0 <= i < |StandardKeys| && StandardKeys[i] == key;
      assert key[0] != 'm' || |key| != 13;
      assert key[0] != 's' || |key| != 17;
      assert key[0] != 'd' || |key| != 13;
      assert key[0] != 'v' || |key| != 10;
    }
  }

  lemma ResolveTwo(a: string, b: string, registry: map<string, Step>)
    ensures ResolveNames([a, b], registry) ==
      (if ToLower(a) in registry then [registry[ToLower(a)]] else [])
      + (if ToLower(b) in registry then [registry[ToLower(b)]] else [])
  {
    assert [a, b][..1] == [a];
    ResolveOne(a, registry);
  }

  lemma LowerStageNames()
    ensures ToLower("missingvalues") == "missingvalues"
    ensures ToLower("specialcharacters") == "specialcharacters"
    ensures ToLower("typeinference") == "typeinference"
    ensures ToLower("outlierdetection") == "outlierdetection"
    ensures ToLower("deduplication") == "deduplication"
    ensures ToLower("validation") == "validation"
  {
  }

  /** CleaningStep.process for one step, a failure standing for the exception it throws. */
  function Apply(step: Step, data: Dataset, parse: DateParser): Result<Dataset, Error> {
    match step
    case HandleMissingValuesStep => Ok(MissingValues.HandleMissingValues(data))
    case RemoveSpecialCharactersStep => SpecialCharacters.RemoveSpecialCharacters(data)
    case CategoricalStandardizationStep => Categorical.CategoricalStandardization(data)
    case OutlierDetectionStep => Outliers.OutlierDetection(data)
    case RemoveDuplicatesStep(dedup) => Ok(Duplicates.Dedup(data, dedup.keyColumns))
    case TypeInferenceStep(inference) => TypeInference.TypeInferenceOf(data, inference, parse)
    case DataValidationStep => Ok(data)
  }

  /** execute: the steps applied left to right, each to the previous one's output. */
  function Run(steps: seq<Step>, data: Dataset, parse: DateParser): Result<Dataset, Error> {
    if steps == [] then Ok(data)
    else
      match Apply(steps[0], data, parse)
      case Err(e) => Err(e)
      case Ok(next) => Run(steps[1..], next, parse)
  }

  /** Running s ++ t is running t on what running s gives; a failure stops the run. */
  lemma {:induction false} RunCompose(s: seq<Step>, t: seq<Step>, data: Dataset, parse: DateParser)
    ensures Run(s + t, data, parse) ==
      match Run(s, data, parse)
      case Err(e) => Err(e)
      case Ok(middle) => Run(t, middle, parse)
  {
    if s == [] {
      assert s + t == t;
    } else {
      assert (s + t)[0] == s[0] && (s + t)[1..] == s[1..] + t;
      match Apply(s[0], data, parse)
      case Err(e) =>
      case Ok(next) => RunCompose(s[1..], t, next, parse);
    }
  }

  /** A run of validation steps only hands the data back as it came. */
  lemma {:induction false} ValidationOnlyRunIsIdentity(steps: seq<Step>, data: Dataset, parse: DateParser)
    requires forall i :: 0 <= i < |steps| ==> steps[i] == DataValidationStep
    ensures Run(steps, data, parse) == Ok(data)
  {
    if steps != [] {
      ValidationOnlyRunIsIdentity(steps[1..], data, parse);
    }
  }

  /** Every step except duplicate removal keeps the rows, their order and their keys. */
  lemma ApplyKeepsShape(step: Step, data: Dataset, parse: DateParser)
    requires !step.RemoveDuplicatesStep? && Apply(step, data, parse).Ok?
    ensures SameShape(data, Apply(step, data, parse).value)
  {
    match step
    case RemoveSpecialCharactersStep => SpecialCharacters.RemoveSpecialCharactersOutcome(data);
    case CategoricalStandardizationStep => Categorical.CategoricalOutcome(data);
    case OutlierDetectionStep => Outliers.OutlierOutcome(data);
    case TypeInferenceStep(inference) =>
      if data != [] {
        TypeInference.TypeInferenceOutcome(data, inference, parse);
      }
    case _ =>
  }

  /** Without duplicate removal a successful run keeps the rows, their order and their keys. */
  lemma {:induction false} RunKeepsShape(steps: seq<Step>, data: Dataset, parse: DateParser)
    requires forall i :: 0 <= i < |steps| ==> !steps[i].RemoveDuplicatesStep?
    requires Run(steps, data, parse).Ok?
    ensures SameShape(data, Run(steps, data, parse).value)
  {
    if steps != [] {
      ApplyKeepsShape(steps[0], data, parse);
      var next := Apply(steps[0], data, parse).value;
      RunKeepsShape(steps[1..], next, parse);
    }
  }

  /** No step adds rows, and no step empties a dataset that has rows. */
  lemma ApplySize(step: Step, data: Dataset, parse: DateParser)
    requires Apply(step, data, parse).Ok?
    ensures |Apply(step, data, parse).value| <= |data|
    ensures data != [] ==> Apply(step, data, parse).value != []
  {
    match step
    case RemoveDuplicatesStep(dedup) =>
      Duplicates.DedupProperties(data, dedup.keyColumns);
      Sequences.SubsequenceShorter(Duplicates.Dedup(data, dedup.keyColumns), data);
      Duplicates.DedupEmpty(data, dedup.keyColumns);
    case _ =>
      ApplyKeepsShape(step, data, parse);
  }

  /**
   * processedRecords never exceeds totalRecords, and a non-empty input
   * gives a non-empty output (the service reads the columns off row 0).
   */
  lemma {:induction false} RunSize(steps: seq<Step>, data: Dataset, parse: DateParser)
    requires Run(steps, data, parse).Ok?
    ensures |Run(steps, data, parse).value| <= |data|
    ensures data != [] ==> Run(steps, data, parse).value != []
  {
    if steps != [] {
      ApplySize(steps[0], data, parse);
      var next := Apply(steps[0], data, parse).value;
      RunSize(steps[1..], next, parse);
    }
  }

  /** Filling missing values first means stripping special characters next cannot fail. */
  lemma MissingThenSpecialSucceeds(data: Dataset, parse: DateParser)
    ensures Run([HandleMissingValuesStep, RemoveSpecialCharactersStep], data, parse).Ok?
  {
    var filled := MissingValues.HandleMissingValues(data);
    SpecialCharacters.RemoveSpecialCharactersOutcome(filled);
    assert Apply(HandleMissingValuesStep, data, parse) == Ok(filled);
    assert Apply(RemoveSpecialCharactersStep, filled, parse).Ok?;
    assert Run([RemoveSpecialCharactersStep], filled, parse).Ok?;
    assert [HandleMissingValuesStep, RemoveSpecialCharactersStep][1..] == [RemoveSpecialCharactersStep];
    assert [RemoveSpecialCharactersStep][1..] == [];
  }

  /**
   * The data the last validation step of a run receives, when the run gets
   * that far: the shared validator holds that step's messages afterwards,
   * even when a later step fails. None when no validation step runs.
   */
  function LastValidated(steps: seq<Step>, data: Dataset, parse: DateParser): Option<Dataset> {
    if steps == [] then None
    else
      var here := if steps[0] == DataValidationStep then Some(data) else None;
      match Apply(steps[0], data, parse)
      case Err(_) => here
      case Ok(next) =>
        var later := LastValidated(steps[1..], next, parse);
        if later.Some? then later else here
  }

  /** Without a validation step, no run validates anything. */
  lemma {:induction false} NoValidationStepValidatesNothing(steps: seq<Step>, data: Dataset, parse: DateParser)
    requires DataValidationStep !in steps
    ensures LastValidated(steps, data, parse) == None
  {
    if steps != [] {
      assert steps[0] in steps;
      match Apply(steps[0], data, parse)
      case Err(_) =>
      case Ok(next) =>
        assert forall s :: s in steps[1..] ==> s in steps;
        NoValidationStepValidatesNothing(steps[1..], next, parse);
    }
  }

  /** A successful run with a validation step validates something. */
  lemma {:induction false} SuccessfulRunValidates(steps: seq<Step>, data: Dataset, parse: DateParser)
    requires DataValidationStep in steps && Run(steps, data, parse).Ok?
    ensures LastValidated(steps, data, parse).Some?
  {
    if steps[0] != DataValidationStep {
      var next := Apply(steps[0], data, parse).value;
      assert steps == [steps[0]] + steps[1..];
      SuccessfulRunValidates(steps[1..], next, parse);
    }
  }

  /**
   * With validation configured last, a successful run validates exactly the
   * cleaned data it returns.
   */
  lemma {:induction false} ValidationLastSeesOutput(steps: seq<Step>, data: Dataset, parse: DateParser)
    requires Run(steps, data, parse).Ok?
    ensures LastValidated(steps + [DataValidationStep], data, parse) == Some(Run(steps, data, parse).value)
    ensures Run(steps + [DataValidationStep], data, parse) == Run(steps, data, parse)
  {
    var all := steps + [DataValidationStep];
    if steps == [] {
      assert all == [DataValidationStep] && all[1..] == [];
    } else {
      assert all[0] == steps[0] && all[1..] == steps[1..] + [DataValidationStep];
      var next := Apply(steps[0], data, parse).value;
      ValidationLastSeesOutput(steps[1..], next, parse);
    }
  }

  /**
   * The pipeline service: the registry, the configured names, the resolved
   * steps, and the shared validation step whose result the service reads.
   */
  class CleaningPipeline {
    const configured: Option<seq<string>>
    const availableSteps: map<string, Step>
    const validator: Validation.DataValidationStep
    var steps: seq<Step>

    constructor(configured: Option<seq<string>>, availableSteps: map<string, Step>, validator: Validation.DataValidationStep)
      ensures this.configured == configured && this.availableSteps == availableSteps
      ensures this.validator == validator && steps == []
    {
      this.configured := configured;
      this.availableSteps := availableSteps;
      this.validator := validator;
      steps := [];
    }

    /** The autowired constructor: building the registry fails on a repeated key. */
    static method Create(configured: Option<seq<string>>, allSteps: seq<Step>, validator: Validation.DataValidationStep)
      returns (r: Result<CleaningPipeline, Error>)
      ensures r.Err? <==> BuildRegistry(allSteps).Err?
      ensures r.Err? ==> r.error == BuildRegistry(allSteps).error
      ensures r.Ok? ==>
        fresh(r.value) && r.value.configured == configured
        && r.value.availableSteps == BuildRegistry(allSteps).value
        && r.value.validator == validator && r.value.steps == []
    {
      var registry := BuildRegistry(allSteps);
      if registry.Err? {
        return Err(registry.error);
      }
      var pipeline := new CleaningPipeline(configured, registry.value, validator);
      return Ok(pipeline);
    }

    /** init: the configured names resolved, in order, unknown ones skipped. */
    method Init()
      modifies this
      ensures steps == Resolve(configured, availableSteps)
    {
      if configured.None? || configured.value == [] {
        steps := [];
        return;
      }
      steps := [];
      var names := configured.value;
      for j := 0 to |names|
        invariant steps == ResolveNames(names[..j], availableSteps)
      {
        var key := ToLower(names[j]);
        if key in availableSteps {
          steps := steps + [availableSteps[key]];
        }
        assert names[..j + 1][..j] == names[..j];
      }
      assert names[..|names|] == names;
    }

    /** One step's process; the validation step records its messages in the shared validator. */
    method ApplyStep(step: Step, data: Dataset, parse: DateParser) returns (r: Result<Dataset, Error>)
      modifies validator
      ensures r == Apply(step, data, parse)
      ensures step != DataValidationStep ==> unchanged(validator)
      ensures step == DataValidationStep ==>
        fresh(validator.validationResult) && validator.validationResult.Valid()
        && Validation.MessagesOf(validator.validationResult.errors, data, parse)
    {
      match step
      case HandleMissingValuesStep =>
        r := Ok(MissingValues.HandleMissingValues(data));
      case RemoveSpecialCharactersStep =>
        r := SpecialCharacters.RemoveSpecialCharacters(data);
      case CategoricalStandardizationStep =>
        r := Categorical.Process(data);
      case OutlierDetectionStep =>
        r := Outliers.Process(data);
      case RemoveDuplicatesStep(dedup) =>
        var rows := Duplicates.Process(dedup, data);
        r := Ok(rows);
      case TypeInferenceStep(inference) =>
        r := TypeInference.Process(data, inference, parse);
      case DataValidationStep =>
        var rows, orders := validator.Process(data, parse);
        r := Ok(rows);
    }

    /** execute: the data passed through each resolved step in turn; a failing step ends the run. */
    method Execute(data: Dataset, parse: DateParser) returns (r: Result<Dataset, Error>)
      modifies validator
      ensures r == Run(steps, data, parse)
      ensures LastValidated(steps, data, parse).None? ==> unchanged(validator)
      ensures DataValidationStep !in steps ==> unchanged(validator)
      ensures LastValidated(steps, data, parse).Some? ==>
        fresh(validator.validationResult) && validator.validationResult.Valid()
        && Validation.MessagesOf(validator.validationResult.errors, LastValidated(steps, data, parse).value, parse)
    {
      if DataValidationStep !in steps {
        NoValidationStepValidatesNothing(steps, data, parse);
      }
      var result := data;
      ghost var seen: Option<Dataset> := None;
      for i := 0 to |steps|
        invariant Run(steps, data, parse) == Run(steps[i..], result, parse)
        invariant LastValidated(steps, data, parse) ==
          (var later := LastValidated(steps[i..], result, parse); if later.Some? then later else seen)
        invariant seen.None? ==> unchanged(validator)
        invariant seen.Some? ==>
          fresh(validator.validationResult) && validator.validationResult.Valid()
          && Validation.MessagesOf(validator.validationResult.errors, seen.value, parse)
      {
        var next := ApplyStep(steps[i], result, parse);
        assert steps[i..][0] == steps[i] && steps[i..][1..] == steps[i + 1..];
        if steps[i] == DataValidationStep {
          seen := Some(result);
        }
        if next.Err? {
          return next;
        }
        result := next.value;
      }
      r := Ok(result);
    }
  }
}

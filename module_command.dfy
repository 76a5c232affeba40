/**
 * The `-m <module-name> [<formal name>]` command of ng-stone.js `main`: the
 * choice of module name and formal name, the kebab-case guard, the derived
 * path and class names, and the form-logic section printed for the fields of
 * the module's model (audit fields removed).
 */
module ModuleCommand {
  import opened Wrappers
  import opened Text
  import opened CaseNames
  import opened Validators

  /** The regular expression `^(id|createdAt|updatedAt)$`: exact names only. */
  predicate IsAuditName(name: string)
  {
    name == "id" || name == "createdAt" || name == "updatedAt"
  }

  /**
   * The `filter` over the model's properties: a property is kept exactly when
   * its name is not an audit name.
   */
  function EditableFields(props: seq<Field>): (r: seq<Field>)
    ensures forall p :: p in r <==> p in props && !IsAuditName(p.name)
    ensures |r| <= |props|
  {
    if props == [] then []
    else (if IsAuditName(props[0].name) then [] else [props[0]]) + EditableFields(props[1..])
  }

  /** Filtering commutes with concatenation, so kept fields stay in their order. */
  lemma {:induction false} EditableFieldsAppend(a: seq<Field>, b: seq<Field>)
    ensures EditableFields(a + b) == EditableFields(a) + EditableFields(b)
  {
    if a == [] {
      assert a + b == b;
    } else {
      assert (a + b)[1..] == a[1..] + b;
      EditableFieldsAppend(a[1..], b);
    }
  }

  /** A list without audit names passes through unchanged. */
  lemma {:induction false} EditableFieldsKeepsAll(props: seq<Field>)
    requires forall k :: 0 <= k < |props| ==> !IsAuditName(props[k].name)
    ensures EditableFields(props) == props
  {
    if props != [] {
      EditableFieldsKeepsAll(props[1..]);
    }
  }

  /** A list made only of audit names is dropped entirely. */
  lemma {:induction false} EditableFieldsDropsAll(props: seq<Field>)
    requires forall k :: 0 <= k < |props| ==> IsAuditName(props[k].name)
    ensures EditableFields(props) == []
  {
    if props != [] {
      EditableFieldsDropsAll(props[1..]);
    }
  }

  /**
   * What the form-logic section prints: one `generateValidators` result per
   * kept property, in declaration order.
   */
  function ValidatorSection(props: seq<Field>): (r: seq<string>)
    ensures |r| == |EditableFields(props)|
    ensures forall k :: 0 <= k < |r| ==> StartsWith(r[k], EditableFields(props)[k].name + ": ")
  {
    var fields := EditableFields(props);
    seq(|fields|, k requires 0 <= k < |fields| => Render(fields[k]))
  }

  /** The printed section of a concatenation is the two sections one after the other. */
  lemma ValidatorSectionAppend(a: seq<Field>, b: seq<Field>)
    ensures ValidatorSection(a + b) == ValidatorSection(a) + ValidatorSection(b)
  {
    EditableFieldsAppend(a, b);
  }

  /** How a run of `main` for the `-m` key ends. */
  datatype Outcome =
    | Idle                 // no `-m` key, or no (non-empty) module name after it
    | Crash                // a TypeError thrown by `toFormalCase` or `toPascalCase`
    | NotKebab             // "Name of module need to be kebab-case!" and exit
    | Generate(name: string, formal: string, pathName: string, className: string)

  /** The formal name: the second value when it is non-empty, otherwise `toFormalCase(val)`. */
  function FormalName(args: seq<string>, val: string): (r: Option<string>)
    ensures r.Some? <==> (|args| > 1 && args[1] != "") || WellHyphenated(val)
    ensures |args| > 1 && args[1] != "" ==> r == Some(args[1])
  {
    FormalCaseSpec(val);
    if |args| > 1 && args[1] != "" then Some(args[1]) else ToFormalCase(val)
  }

  /**
   * `main` for the `-m` key, in the source's order: the formal name is
   * computed first, then the kebab guard runs, then the path and class names.
   */
  function PlanModule(vals: map<string, seq<string>>): Outcome
  {
    if "-m" !in vals || |vals["-m"]| == 0 || vals["-m"][0] == "" then Idle
    else
      var val := vals["-m"][0];
      match FormalName(vals["-m"], val)
      case None => Crash
      case Some(formal) =>
        if !CaseFlags(val).kebab then NotKebab
        else match ToPascalCase(val)
          case None => Crash
          case Some(className) => Generate(val, formal, PathName(val), className)
  }

  /**
   * A generated module has a kebab name without empty segments, starting with
   * a lower-case letter and free of underscores; its path name and class name
   * are hyphen-free, equally long, and the class name is the path name of the
   * capitalised module name.
   */
  lemma PlanGenerates(vals: map<string, seq<string>>)
    requires PlanModule(vals).Generate?
    ensures var o := PlanModule(vals);
      && o.name == vals["-m"][0]
      && CaseFlags(o.name).kebab && WellHyphenated(o.name)
      && 'a' <= o.name[0] <= 'z' && '_' !in o.name
      && '-' !in o.pathName && '-' !in o.className
      && |o.className| == |o.pathName| == |o.name| - Count(o.name, '-')
      && o.className == PathName(Capitalized(o.name))
  {
    var val := vals["-m"][0];
    PascalCaseSpec(val);
    PathNameSpec(val);
  }

  /** A non-empty kebab name without empty segments generates its module. */
  lemma PlanGeneratesValid(vals: map<string, seq<string>>)
    requires "-m" in vals && |vals["-m"]| > 0 && vals["-m"][0] != ""
    requires CaseFlags(vals["-m"][0]).kebab && WellHyphenated(vals["-m"][0])
    ensures var val := vals["-m"][0];
      && FormalName(vals["-m"], val).Some? && ToPascalCase(val).Some?
      && PlanModule(vals) == Generate(val, FormalName(vals["-m"], val).value, PathName(val), ToPascalCase(val).value)
  {
    PascalCaseSpec(vals["-m"][0]);
  }

  /**
   * The kebab message is given exactly when the formal name was found and the
   * name fails `detectCase(val).kebab`: a capital or non-letter start, or an
   * underscore, or capitals without a hyphen.
   */
  lemma PlanNotKebab(vals: map<string, seq<string>>)
    requires "-m" in vals && |vals["-m"]| > 0 && vals["-m"][0] != ""
    ensures PlanModule(vals) == NotKebab <==>
      FormalName(vals["-m"], vals["-m"][0]).Some? && !CaseFlags(vals["-m"][0]).kebab
  {
  }

  /** `-m CustomerOrder` gets the kebab message: the name starts with a capital. */
  lemma PlanRejectsPascal()
    ensures PlanModule(map["-m" := ["CustomerOrder"]]) == NotKebab
  {
    var val := "CustomerOrder";
    assert val[0] == 'C';
    assert WellHyphenated(val) by {
      assert forall i :: 0 <= i < |val| ==> val[i] != '-';
    }
    assert FormalName(["CustomerOrder"], val).Some?;
  }

  /**
   * Where `main` throws, as written: the name has an empty segment, and either
   * no formal name was given (so `toFormalCase` throws) or the name passes
   * the kebab guard (so `toPascalCase` throws).
   */
  lemma PlanCrash(vals: map<string, seq<string>>)
    requires "-m" in vals && |vals["-m"]| > 0 && vals["-m"][0] != ""
    ensures PlanModule(vals) == Crash <==>
      !WellHyphenated(vals["-m"][0])
      && (!(|vals["-m"]| > 1 && vals["-m"][1] != "") || CaseFlags(vals["-m"][0]).kebab)
  {
    PascalCaseSpec(vals["-m"][0]);
  }

  /**
   * As written, the kebab guard accepts names with an empty segment ("a-",
   * "a--b"), and `toPascalCase` then throws instead of the guard's message.
   */
  lemma PlanCrashesOnEmptySegment(vals: map<string, seq<string>>)
    requires "-m" in vals && |vals["-m"]| > 1 && vals["-m"][0] != "" && vals["-m"][1] != ""
    requires CaseFlags(vals["-m"][0]).kebab && !WellHyphenated(vals["-m"][0])
    ensures PlanModule(vals) == Crash
  {
    PascalCaseSpec(vals["-m"][0]);
  }

  /** Such names exist: "a-" passes the guard and is not well hyphenated. */
  lemma GuardAdmitsTrailingHyphen()
    ensures CaseFlags("a-").kebab && !WellHyphenated("a-")
    ensures PlanModule(map["-m" := ["a-", "A"]]) == Crash
  {
    var vals := map["-m" := ["a-", "A"]];
    assert "a-"[0] == 'a' && "a-"[1] == '-';
    assert '-' in "a-";
    PlanCrashesOnEmptySegment(vals);
  }

  /** The guard the command evidently intends: kebab and no empty segment. */
  predicate IsKebabName(val: string)
    requires |val| > 0
  {
    CaseFlags(val).kebab && WellHyphenated(val)
  }

  /** `main` for the `-m` key with the intended guard checked before any name is derived. */
  function PlanModuleStrict(vals: map<string, seq<string>>): Outcome
  {
    if "-m" !in vals || |vals["-m"]| == 0 || vals["-m"][0] == "" then Idle
    else
      var val := vals["-m"][0];
      if !IsKebabName(val) then NotKebab
      else match (FormalName(vals["-m"], val), ToPascalCase(val))
        case (Some(formal), Some(className)) => Generate(val, formal, PathName(val), className)
        case _ => Crash
  }

  /**
   * With the intended guard no run crashes, and every run that did not crash
   * as written ends the same way.
   */
  lemma StrictPlanNeverCrashes(vals: map<string, seq<string>>)
    ensures PlanModuleStrict(vals) != Crash
    ensures PlanModule(vals) != Crash ==> PlanModuleStrict(vals) == PlanModule(vals)
  {
    if "-m" in vals && |vals["-m"]| > 0 && vals["-m"][0] != "" {
      var val := vals["-m"][0];
      PascalCaseSpec(val);
      FormalCaseSpec(val);
    }
  }
}

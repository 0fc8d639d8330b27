/**
 * The synchronous form validators (packages/forms/src/validators.ts). A
 * validator maps a control to `null` (here `None`) when the value is valid
 * and to a map of errors otherwise; `equalsTo` may also throw. Validators
 * are closures in the source; here each is a `Validator` value and `Run`
 * applies it. Regular-expression matching is the `test` parameter.
 */
module FormValidators {
  import opened Wrappers
  import opened JsValues

  /** The payload stored under an error key. */
  datatype ErrorDetail =
    | Flag                                                 // `true`
    | LengthError(requiredLength: int, actualLength: int)  // minlength, maxlength
    | PatternError(requiredPattern: string, actualValue: JsValue)
    | UnequalField(unequalField: string)                   // equalsTo

  type ValidationErrors = map<string, ErrorDetail>

  /** A form control: its value and, when it sits in a group, the values of the group's controls by name. */
  datatype Control = Control(value: JsValue, parent: Option<map<string, JsValue>>)

  /** A compiled regular expression: the e-mail pattern or one built from its source text. */
  datatype Regex = EmailRegexp | Compiled(source: string)

  /** `RegExp.prototype.test`, which is not part of this model. */
  type RegexTest = (Regex, JsValue) -> bool

  datatype Validator =
    | NullValidator
    | Required
    | RequiredTrue
    | Email
    | MinLength(minLength: int)
    | MaxLength(maxLength: int)
    | Pattern(regexStr: string)
    | EqualsTo(fieldPaths: seq<string>)
    | Composed(validators: seq<Validator>)

  /** The argument of `Validators.pattern`. */
  datatype PatternArg = PatternString(s: string) | PatternRegex(text: string) | NoPattern

  /** `isEmptyInputValue`: `value == null || value.length === 0`. */
  predicate IsEmptyInputValue(v: JsValue)
  {
    IsNullish(v) || Length(v) == Some(0)
  }

  /** The empty inputs are exactly null, undefined, the empty string, empty arrays and objects whose length is 0. */
  lemma EmptyInputCases(v: JsValue)
    ensures IsEmptyInputValue(v) <==>
            v == Null || v == Undefined || v == Str("") || (v.Arr? && v.items == []) ||
            (v.Obj? && v.lengthProp == Some(0))
  {
    if v.Str? && |v.s| == 0 {
      assert v.s == "";
    }
  }

  /** `control.value ? control.value.length : 0`, with `None` for an undefined length. */
  function ActualLength(v: JsValue): (len: Option<int>)
    ensures !Truthy(v) ==> len == Some(0)
    ensures Truthy(v) && v.Str? ==> len == Some(|v.s|) && |v.s| > 0
    ensures v.Arr? ==> len == Some(|v.items|)
  {
    if Truthy(v) then Length(v) else Some(0)
  }

  /** `Validators.pattern(p)`: no pattern gives the null validator, a string is anchored, a RegExp keeps its text. */
  function PatternValidator(p: PatternArg): (v: Validator)
    ensures (p.NoPattern? || p == PatternString("")) <==> v == NullValidator
    ensures p.PatternString? && p.s != "" ==>
              v.Pattern? && |v.regexStr| == |p.s| + 2 && v.regexStr[0] == '^' &&
              v.regexStr[|v.regexStr| - 1] == '$' && v.regexStr[1..|v.regexStr| - 1] == p.s
    ensures p.PatternRegex? ==> v == Pattern(p.text)
  {
    match p
    case NoPattern => NullValidator
    case PatternString(s) =>
      if s == "" then NullValidator
      else
        var r := "^" + s + "$";
        assert r[1..|r| - 1] == s;
        Pattern(r)
    case PatternRegex(text) => Pattern(text)
  }

  /** The regular expression a `Pattern` validator tests against. */
  function PatternRegexOf(regexStr: string): Regex
  {
    Compiled(regexStr)
  }

  /** `Validators.compose`: `None` for a null list or one without present validators. */
  function Compose(validators: Option<seq<Option<Validator>>>): (r: Option<Validator>)
    ensures r.None? <==> validators.None? || forall k :: 0 <= k < |validators.value| ==> validators.value[k].None?
    ensures r.Some? ==> r.value.Composed? && r.value.validators == Present(validators.value)
  {
    if validators.None? then None
    else
      var present := Present(validators.value);
      PresentEmpty(validators.value);
      if |present| == 0 then None else Some(Composed(present))
  }

  /** `validators.filter(isPresent)`. */
  function Present(vs: seq<Option<Validator>>): seq<Validator>
  {
    if |vs| == 0 then []
    else if vs[0].Some? then [vs[0].value] + Present(vs[1..])
    else Present(vs[1..])
  }

  lemma {:induction false} PresentEmpty(vs: seq<Option<Validator>>)
    ensures |Present(vs)| == 0 <==> forall k :: 0 <= k < |vs| ==> vs[k].None?
  {
    if |vs| > 0 {
      PresentEmpty(vs[1..]);
      assert forall k :: 1 <= k < |vs| ==> vs[k] == vs[1..][k - 1];
    }
  }

  /** `_mergeErrors`' reduce: fold the non-null maps, a later map overriding an earlier one's keys. */
  function Merged(errors: seq<Option<ValidationErrors>>): ValidationErrors
  {
    if |errors| == 0 then map[]
    else
      var res := Merged(errors[..|errors| - 1]);
      var last := errors[|errors| - 1];
      if last.Some? then res + last.value else res
  }

  /** `_mergeErrors`: the merged map, or null when it has no key. */
  function MergeErrors(errors: seq<Option<ValidationErrors>>): Option<ValidationErrors>
  {
    var res := Merged(errors);
    if |res.Keys| == 0 then None else Some(res)
  }

  /** A key is in the merged map exactly when some non-null map has it. */
  lemma {:induction false} MergedKeys(errors: seq<Option<ValidationErrors>>, key: string)
    ensures key in Merged(errors) <==>
            exists k :: 0 <= k < |errors| && errors[k].Some? && key in errors[k].value
  {
    if |errors| > 0 {
      var init := errors[..|errors| - 1];
      MergedKeys(init, key);
      assert forall k :: 0 <= k < |init| ==> init[k] == errors[k];
    }
  }

  /** A key's merged value is the one of the last map holding it. */
  lemma {:induction false} MergedLastWins(errors: seq<Option<ValidationErrors>>, j: nat, key: string)
    requires j < |errors| && errors[j].Some? && key in errors[j].value
    requires forall k :: j < k < |errors| && errors[k].Some? ==> key !in errors[k].value
    ensures key in Merged(errors) && Merged(errors)[key] == errors[j].value[key]
  {
    if j < |errors| - 1 {
      var init := errors[..|errors| - 1];
      MergedLastWins(init, j, key);
    }
  }

  /** `_mergeErrors` gives null exactly when every validator passed or returned an empty map. */
  lemma MergeErrorsNull(errors: seq<Option<ValidationErrors>>)
    ensures MergeErrors(errors).None? <==>
            forall k :: 0 <= k < |errors| ==> errors[k].None? || errors[k].value == map[]
  {
    if MergeErrors(errors).None? {
      forall k | 0 <= k < |errors| && errors[k].Some?
        ensures errors[k].value == map[]
      {
        forall key | key in errors[k].value
          ensures false
        {
          MergedKeys(errors, key);
        }
      }
    } else {
      var key :| key in Merged(errors);
      MergedKeys(errors, key);
    }
  }

  /** Field paths[i] exists and is strictly equal to the value. */
  predicate FieldEquals(paths: seq<string>, fields: map<string, JsValue>, value: JsValue, i: nat)
    requires i < |paths|
  {
    paths[i] in fields && StrictEquals(fields[paths[i]], value)
  }

  /** The first position, from `k` on, whose field is missing or differs from the value. */
  function FirstMismatch(paths: seq<string>, fields: map<string, JsValue>, value: JsValue, k: nat): (m: Option<nat>)
    requires k <= |paths|
    ensures m.None? ==> forall i :: k <= i < |paths| ==> FieldEquals(paths, fields, value, i)
    ensures m.Some? ==> k <= m.value < |paths| && !FieldEquals(paths, fields, value, m.value) &&
                        forall i :: k <= i < m.value ==> FieldEquals(paths, fields, value, i)
    decreases |paths| - k
  {
    if k == |paths| then None
    else if !FieldEquals(paths, fields, value, k) then Some(k)
    else FirstMismatch(paths, fields, value, k + 1)
  }

  /**
   * The `equalsTo` loop from position `k` on: throws for a missing field,
   * reports the first field whose value differs, and passes otherwise;
   * which of these happens is decided by the first field that is missing
   * or differs.
   */
  function EqualsFrom(paths: seq<string>, fields: map<string, JsValue>, value: JsValue, k: nat): (r: Result<Option<ValidationErrors>, string>)
    requires k <= |paths|
    ensures match FirstMismatch(paths, fields, value, k)
      case None => r == Success(None)
      case Some(i) =>
        if paths[i] !in fields then r.Failure?
        else r == Success(Some(map["equalsTo" := UnequalField(paths[i])]))
    decreases |paths| - k
  {
    if k == |paths| then Success(None)
    else
      var fieldName := paths[k];
      if fieldName !in fields then
        Failure("Field: " + fieldName + " undefined, are you sure that " + fieldName + " exists in the group")
      else if !StrictEquals(fields[fieldName], value) then
        Success(Some(map["equalsTo" := UnequalField(fieldName)]))
      else
        EqualsFrom(paths, fields, value, k + 1)
  }

  /** Applies a validator to a control; `Failure` is a thrown error. */
  function Run(v: Validator, c: Control, test: RegexTest): Result<Option<ValidationErrors>, string>
    decreases v
  {
    match v
    case NullValidator => Success(None)
    case Required => Success(if IsEmptyInputValue(c.value) then Some(map["required" := Flag]) else None)
    case RequiredTrue => Success(if c.value == Bool(true) then None else Some(map["required" := Flag]))
    case Email => Success(if test(EmailRegexp, c.value) then None else Some(map["email" := Flag]))
    case MinLength(m) =>
      if IsEmptyInputValue(c.value) then Success(None)
      else
        var len := ActualLength(c.value);
        Success(if len.Some? && len.value < m then Some(map["minlength" := LengthError(m, len.value)]) else None)
    case MaxLength(m) =>
      var len := ActualLength(c.value);
      Success(if len.Some? && len.value > m then Some(map["maxlength" := LengthError(m, len.value)]) else None)
    case Pattern(regexStr) =>
      if IsEmptyInputValue(c.value) then Success(None)
      else if test(PatternRegexOf(regexStr), c.value) then Success(None)
      else Success(Some(map["pattern" := PatternError(regexStr, c.value)]))
    case EqualsTo(paths) =>
      if |paths| < 1 then Failure("You must compare to at least 1 other field")
      else if c.parent.None? then Failure("TypeError: control.parent is null")
      else EqualsFrom(paths, c.parent.value, c.value, 0)
    case Composed(vs) =>
      var results := RunAll(vs, c, test);
      if results.Failure? then Failure(results.error) else Success(MergeErrors(results.value))
  }

  /** `_executeValidators`: runs the validators in order; the first one that throws ends the run. */
  function RunAll(vs: seq<Validator>, c: Control, test: RegexTest): (r: Result<seq<Option<ValidationErrors>>, string>)
    ensures r.Success? ==> |r.value| == |vs|
    decreases vs
  {
    if |vs| == 0 then Success([])
    else
      var first := Run(vs[0], c, test);
      if first.Failure? then Failure(first.error)
      else
        var rest := RunAll(vs[1..], c, test);
        if rest.Failure? then rest else Success([first.value] + rest.value)
  }

  /** `required` reports `{required: true}` exactly for empty values. */
  lemma RequiredIff(c: Control, test: RegexTest)
    ensures Run(Required, c, test).Success?
    ensures Run(Required, c, test).value.Some? <==>
            c.value == Null || c.value == Undefined || c.value == Str("") ||
            (c.value.Arr? && c.value.items == []) || (c.value.Obj? && c.value.lengthProp == Some(0))
    ensures Run(Required, c, test).value.Some? ==> Run(Required, c, test).value.value == map["required" := Flag]
  {
    EmptyInputCases(c.value);
  }

  /** `minLength` passes empty values and reports the lengths exactly when a defined length is below the minimum. */
  lemma MinLengthIff(m: int, c: Control, test: RegexTest)
    ensures IsEmptyInputValue(c.value) ==> Run(MinLength(m), c, test) == Success(None)
    ensures Run(MinLength(m), c, test).Success?
    ensures Run(MinLength(m), c, test).value.Some? <==>
            !IsEmptyInputValue(c.value) && ActualLength(c.value).Some? && ActualLength(c.value).value < m
    ensures Run(MinLength(m), c, test).value.Some? ==>
            Run(MinLength(m), c, test).value.value == map["minlength" := LengthError(m, ActualLength(c.value).value)]
  {
  }

  /** `requiredTrue` passes exactly the value `true`. */
  lemma RequiredTrueIff(c: Control, test: RegexTest)
    ensures Run(RequiredTrue, c, test).Success?
    ensures Run(RequiredTrue, c, test).value.None? <==> StrictEquals(c.value, Bool(true))
  {
  }

  /** `maxLength` reports the lengths exactly when a defined length exceeds the maximum. */
  lemma MaxLengthIff(m: int, c: Control, test: RegexTest)
    ensures Run(MaxLength(m), c, test).Success?
    ensures Run(MaxLength(m), c, test).value.Some? <==>
            ActualLength(c.value).Some? && ActualLength(c.value).value > m
    ensures Run(MaxLength(m), c, test).value.Some? ==>
            Run(MaxLength(m), c, test).value.value == map["maxlength" := LengthError(m, ActualLength(c.value).value)]
  {
  }

  /** `maxLength` counts a falsy value as length 0 and errors exactly when the length exceeds the maximum. */
  lemma MaxLengthFalsy(m: int, c: Control, test: RegexTest)
    requires !Truthy(c.value)
    ensures Run(MaxLength(m), c, test) == (if 0 > m then Success(Some(map["maxlength" := LengthError(m, 0)])) else Success(None))
  {
  }

  /** `pattern` and `minLength` never report an empty value, whatever the pattern. */
  lemma EmptyValuesPass(p: PatternArg, m: int, c: Control, test: RegexTest)
    requires IsEmptyInputValue(c.value)
    ensures Run(PatternValidator(p), c, test) == Success(None)
    ensures Run(MinLength(m), c, test) == Success(None)
  {
  }

  /** A composed validator passes exactly when each of its validators passes or returns an empty map. */
  lemma ComposedNull(vs: seq<Validator>, c: Control, test: RegexTest)
    requires RunAll(vs, c, test).Success?
    ensures Run(Composed(vs), c, test).Success?
    ensures Run(Composed(vs), c, test).value.None? <==>
            forall k :: 0 <= k < |vs| ==>
              Run(vs[k], c, test).Success? &&
              (Run(vs[k], c, test).value.None? || Run(vs[k], c, test).value.value == map[])
  {
    RunAllItems(vs, c, test);
    MergeErrorsNull(RunAll(vs, c, test).value);
  }

  /** A successful run holds each validator's own result at its position. */
  lemma {:induction false} RunAllItems(vs: seq<Validator>, c: Control, test: RegexTest)
    requires RunAll(vs, c, test).Success?
    ensures forall k :: 0 <= k < |vs| ==>
              Run(vs[k], c, test).Success? && RunAll(vs, c, test).value[k] == Run(vs[k], c, test).value
  {
    if |vs| > 0 {
      RunAllItems(vs[1..], c, test);
      assert forall k :: 1 <= k < |vs| ==> vs[k] == vs[1..][k - 1];
    }
  }
}

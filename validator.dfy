/**
 * The component validators of packages/core/src/adapters/validator.ts. A
 * thrown Error becomes an Err carrying which check failed; the wording of
 * the messages is not modelled.
 */
module Validator {
  import opened Wrappers
  import opened Text

  datatype ValidationError =
    | MissingSstPrefix  // does not start with "sst:"
    | WrongPartCount    // splitting on ':' does not give exactly three parts
    | EmptyNamespace    // the namespace part is empty or only white space
    | EmptyType         // the type part is empty or only white space
    | NotLinkable       // validateLinkable rejected the component

  /** Whether trim() leaves something: `!x || x.trim() === ""` fails exactly when this holds. */
  predicate HasContent(x: string) {
    Trim(x) != ""
  }

  /** validatePulumiType: returns true or fails with the first check that does not hold. */
  function ValidatePulumiType(pulumiType: string): (r: Result<bool, ValidationError>)
    ensures r.Ok? ==> r.value
    ensures r.Ok? ==> StartsWith(pulumiType, "sst:")
  {
    if !StartsWith(pulumiType, "sst:") then Err(MissingSstPrefix)
    else
      var parts := Split(pulumiType, ':');
      if |parts| != 3 then Err(WrongPartCount)
      else if !HasContent(parts[1]) then Err(EmptyNamespace)
      else if !HasContent(parts[2]) then Err(EmptyType)
      else Ok(true)
  }

  /** Text that is not all white space: some character survives trim(). */
  ghost predicate Visible(x: string) {
    exists k :: 0 <= k < |x| && !IsTrimmable(x[k])
  }

  lemma HasContentIff(x: string)
    ensures HasContent(x) <==> Visible(x)
  {
    TrimEmptyIff(x);
  }

  /** A type string of three colon-free parts splits back into them. */
  lemma ThreeParts(namespace: string, typ: string)
    requires ':' !in namespace && ':' !in typ
    ensures StartsWith("sst:" + namespace + ":" + typ, "sst:")
    ensures Split("sst:" + namespace + ":" + typ, ':') == ["sst", namespace, typ]
  {
    var parts := ["sst", namespace, typ];
    assert Join(parts, ':') == "sst:" + namespace + ":" + typ by {
      assert parts[1..][1..] == [typ];
      assert Join(parts[1..], ':') == namespace + [':'] + typ;
    }
    SplitJoin(parts, ':');
  }

  /** On "sst:namespace:Type" with colon-free parts only the emptiness checks remain. */
  lemma ThreePartVerdict(namespace: string, typ: string)
    requires ':' !in namespace && ':' !in typ
    ensures ValidatePulumiType("sst:" + namespace + ":" + typ) ==
      if !Visible(namespace) then Err(EmptyNamespace)
      else if !Visible(typ) then Err(EmptyType)
      else Ok(true)
  {
    ThreeParts(namespace, typ);
    HasContentIff(namespace);
    HasContentIff(typ);
  }

  /** Every "sst:namespace:Type" with colon-free, visible parts is accepted. */
  lemma AcceptsWellFormed(namespace: string, typ: string)
    requires ':' !in namespace && ':' !in typ
    requires Visible(namespace) && Visible(typ)
    ensures ValidatePulumiType("sst:" + namespace + ":" + typ) == Ok(true)
  {
    ThreePartVerdict(namespace, typ);
  }

  /** Whatever is accepted is "sst:namespace:Type" with colon-free, visible parts. */
  lemma AcceptedIsWellFormed(s: string)
    requires ValidatePulumiType(s).Ok?
    ensures var parts := Split(s, ':');
      && |parts| == 3
      && s == "sst:" + parts[1] + ":" + parts[2]
      && ':' !in parts[1] && ':' !in parts[2]
      && Visible(parts[1]) && Visible(parts[2])
  {
    var parts := Split(s, ':');
    JoinSplit(s, ':');
    assert "sst" + [':'] <= s;
    PrefixBeforeSeparator(s, "sst", ':');
    assert parts[1..][1..] == [parts[2]];
    assert Join(parts[1..], ':') == parts[1] + [':'] + parts[2];
    assert s == parts[0] + [':'] + Join(parts[1..], ':');
    HasContentIff(parts[1]);
    HasContentIff(parts[2]);
  }

  /**
   * With the prefix in place, the part-count check fails exactly when the
   * string does not hold exactly two colons.
   */
  lemma PartCountCheck(s: string)
    requires StartsWith(s, "sst:")
    ensures ValidatePulumiType(s) == Err(WrongPartCount) <==> Occurrences(s, ':') != 2
  {
    SplitCount(s, ':');
  }

  // The cases of packages/core/src/adapters/validator.test.ts, each with the
  // check that rejects it.

  lemma AcceptsExample()
    ensures ValidatePulumiType("sst:example:MyComponent") == Ok(true)
  {
    assert "sst:example:MyComponent" == "sst:" + "example" + ":" + "MyComponent";
    assert !IsTrimmable("example"[0]) && !IsTrimmable("MyComponent"[0]);
    ThreePartVerdict("example", "MyComponent");
  }

  lemma RejectsForeignProvider()
    ensures ValidatePulumiType("aws:s3/bucket:Bucket") == Err(MissingSstPrefix)
  {
    assert "aws:s3/bucket:Bucket"[0] != "sst:"[0];
  }

  lemma RejectsTwoParts()
    ensures ValidatePulumiType("sst:example") == Err(WrongPartCount)
  {
    SplitJoin(["sst", "example"], ':');
    assert Join(["sst", "example"], ':') == "sst:example";
  }

  lemma RejectsEmptyNamespace()
    ensures ValidatePulumiType("sst::MyComponent") == Err(EmptyNamespace)
  {
    assert "sst::MyComponent" == "sst:" + "" + ":" + "MyComponent";
    ThreePartVerdict("", "MyComponent");
  }

  lemma RejectsEmptyType()
    ensures ValidatePulumiType("sst:example:") == Err(EmptyType)
  {
    assert "sst:example:" == "sst:" + "example" + ":" + "";
    assert !IsTrimmable("example"[0]);
    ThreePartVerdict("example", "");
  }

  // ---------------------------------------------------------------------------
  // validateComponent
  // ---------------------------------------------------------------------------

  /**
   * What validateComponent reads from a component: the static __pulumiType
   * of its class (absent when not recorded) and the verdict validateLinkable
   * would reach on it, which is not part of this model.
   */
  datatype Component = Component(pulumiType: Option<string>, linkable: bool)

  /** The options object; an absent field is undefined and takes its default. */
  datatype ValidateOptions = ValidateOptions(
    checkPulumiType: Option<bool>,
    checkParent: Option<bool>,
    checkOutputs: Option<bool>,
    checkLinkable: Option<bool>)

  const NoOptions := ValidateOptions(None, None, None, None)

  function OrDefault(o: Option<bool>, default: bool): (b: bool)
    ensures o.None? ==> b == default
    ensures o.Some? ==> b == o.value
  {
    match o
    case Some(v) => v
    case None => default
  }

  /** validateParent accepts every component and never throws. */
  function ValidateParent(component: Component): (r: Result<bool, ValidationError>)
    ensures r.Ok? && r.value
  {
    Ok(true)
  }

  /** validateOutputs accepts every component and never throws. */
  function ValidateOutputs(component: Component): (r: Result<bool, ValidationError>)
    ensures r.Ok? && r.value
  {
    Ok(true)
  }

  /** A recorded type is checked only when it is truthy, that is, not "". */
  predicate HasRecordedType(component: Component) {
    component.pulumiType.Some? && component.pulumiType.value != ""
  }

  /**
   * validateComponent: checkPulumiType defaults to true, the other checks to
   * false; the enabled checks run in the source's order.
   */
  function ValidateComponent(component: Component, options: ValidateOptions): (r: Result<bool, ValidationError>)
    ensures r.Ok? ==> r.value
  {
    var checkType := OrDefault(options.checkPulumiType, true);
    var checkLinkable := OrDefault(options.checkLinkable, false);
    var typed :=
      if checkType && HasRecordedType(component) then ValidatePulumiType(component.pulumiType.value)
      else Ok(true);
    // Each enabled check runs in turn; its boolean result is discarded and
    // only an error it throws ends validation.
    var parent := if OrDefault(options.checkParent, false) then ValidateParent(component) else Ok(true);
    var outputs := if OrDefault(options.checkOutputs, false) then ValidateOutputs(component) else Ok(true);
    if typed.Err? then typed
    else if parent.Err? then parent
    else if outputs.Err? then outputs
    else if checkLinkable && !component.linkable then Err(NotLinkable)
    else Ok(true)
  }

  /** With no options only the recorded type is checked, and nothing when none is recorded. */
  lemma DefaultChecksTypeOnly(component: Component)
    ensures HasRecordedType(component) ==>
      ValidateComponent(component, NoOptions) == ValidatePulumiType(component.pulumiType.value)
    ensures !HasRecordedType(component) ==> ValidateComponent(component, NoOptions) == Ok(true)
  {
  }

  /** The parent and outputs options never change the verdict: those checks cannot throw. */
  lemma ParentAndOutputsInert(component: Component, options: ValidateOptions, parent: Option<bool>, outputs: Option<bool>)
    ensures ValidateComponent(component, options) ==
      ValidateComponent(component, options.(checkParent := parent, checkOutputs := outputs))
  {
  }

  /** validateComponent fails exactly when an enabled check that can fail does. */
  lemma ComponentVerdict(component: Component, options: ValidateOptions)
    ensures ValidateComponent(component, options).Ok? <==>
      && (OrDefault(options.checkPulumiType, true) && HasRecordedType(component) ==>
            ValidatePulumiType(component.pulumiType.value).Ok?)
      && (OrDefault(options.checkLinkable, false) ==> component.linkable)
  {
  }
}

/**
 * The argument scanning of the `resources find` and `resources delete`
 * actions (apps/cli/src/index.ts). Commander does not parse repeated
 * `--tag KEY VALUE`, so each action walks process.argv by hand, from just
 * after the command word, collecting tags and, for delete, the
 * `--dry-run` and `--force`/`-f` flags.
 */
module CliArgs {
  import opened Wrappers
  import opened Text

  datatype Tag = Tag(key: string, value: string)

  /** The options that take a value; the scan skips that value. */
  predicate TakesValue(arg: string) {
    arg == "--tagMatch" || arg == "--region" || arg == "--profile"
  }

  // ---------------------------------------------------------------------------
  // How the scan groups the arguments
  // ---------------------------------------------------------------------------

  /**
   * One step of the scan: a tag with its key and value, a value-taking
   * option with the value it skips (none when it is the last argument), or
   * a single argument read on its own.
   */
  datatype Token =
    | TagPair(key: string, value: string)
    | OptionValue(option: string, skipped: Option<string>)
    | Single(arg: string)

  /**
   * The step the scan takes at index i, and the index of the first argument
   * it has not read. The source's index may run one past the end after an
   * option with no value; that reads nothing more, so it is capped here.
   */
  function Step(args: seq<string>, i: nat): (r: (Token, nat))
    requires i < |args|
    ensures i < r.1 <= |args|
  {
    if args[i] == "--tag" && i + 2 < |args| then (TagPair(args[i + 1], args[i + 2]), i + 3)
    else if TakesValue(args[i]) then
      if i + 1 < |args| then (OptionValue(args[i], Some(args[i + 1])), i + 2)
      else (OptionValue(args[i], None), i + 1)
    else (Single(args[i]), i + 1)
  }

  /** A step stands for exactly the arguments it passes over. */
  lemma StepArgs(args: seq<string>, i: nat)
    requires i < |args|
    ensures TokenArgs(Step(args, i).0) == args[i..Step(args, i).1]
  {
  }

  /** The steps the scan takes from index i on. */
  function Tokenize(args: seq<string>, i: nat): seq<Token>
    decreases |args| - i
  {
    if i >= |args| then [] else [Step(args, i).0] + Tokenize(args, Step(args, i).1)
  }

  /** The arguments a token stands for. */
  function TokenArgs(t: Token): seq<string> {
    match t
    case TagPair(k, v) => ["--tag", k, v]
    case OptionValue(o, v) => [o] + (if v.Some? then [v.value] else [])
    case Single(a) => [a]
  }

  function Flatten(ts: seq<Token>): seq<string> {
    if ts == [] then [] else TokenArgs(ts[0]) + Flatten(ts[1..])
  }

  /** The tags the tokens carry, in order. */
  function TagsOf(ts: seq<Token>): seq<Tag> {
    if ts == [] then []
    else (if ts[0].TagPair? then [Tag(ts[0].key, ts[0].value)] else []) + TagsOf(ts[1..])
  }

  /**
   * The scan reads every argument from i on exactly once and in order: its
   * steps spell out args[i..] again.
   */
  lemma {:induction false} TokenizeCovers(args: seq<string>, i: nat)
    requires i <= |args|
    ensures Flatten(Tokenize(args, i)) == args[i..]
    decreases |args| - i
  {
    if i < |args| {
      var t, j := Step(args, i).0, Step(args, i).1;
      TokenizeCovers(args, j);
      var ts := Tokenize(args, i);
      assert ts[0] == t && ts[1..] == Tokenize(args, j);
      assert Flatten(ts) == TokenArgs(t) + Flatten(ts[1..]);
      StepArgs(args, i);
      assert args[i..] == args[i..j] + args[j..];
    }
  }

  lemma {:induction false} TagsOfAppend(a: seq<Token>, b: seq<Token>)
    ensures TagsOf(a + b) == TagsOf(a) + TagsOf(b)
  {
    if a == [] {
      assert a + b == b;
    } else {
      TagsOfAppend(a[1..], b);
      var h := if a[0].TagPair? then [Tag(a[0].key, a[0].value)] else [];
      assert (a + b)[0] == a[0];
      assert (a + b)[1..] == a[1..] + b;
      assert TagsOf(a + b) == h + TagsOf(a[1..] + b);
      assert TagsOf(a) == h + TagsOf(a[1..]);
    }
  }

  /**
   * Every tag comes from a `--tag` at or after i that has two more
   * arguments behind it, and is made of exactly those two.
   */
  lemma {:induction false} TagsComeFromTagFlags(args: seq<string>, i: nat, t: Tag)
    requires t in TagsOf(Tokenize(args, i))
    ensures exists p :: i <= p && p + 2 < |args| && args[p] == "--tag" && t == Tag(args[p + 1], args[p + 2])
    decreases |args| - i
  {
    var ts := Tokenize(args, i);
    var (step, j) := Step(args, i);
    assert ts[1..] == Tokenize(args, j);
    if !(step.TagPair? && t == Tag(step.key, step.value)) {
      TagsComeFromTagFlags(args, j, t);
    }
  }

  /** Each tag consumes three arguments, so there are at most a third as many tags. */
  lemma {:induction false} TagCountBound(args: seq<string>, i: nat)
    requires i <= |args|
    ensures 3 * |TagsOf(Tokenize(args, i))| <= |args| - i
    decreases |args| - i
  {
    if i < |args| {
      var (step, j) := Step(args, i);
      assert Tokenize(args, i)[1..] == Tokenize(args, j);
      TagCountBound(args, j);
    }
  }

  /**
   * A value-taking option swallows the argument after it, even one that looks
   * like a flag, and a trailing `--tag` without a key and a value adds nothing:
   * `delete --tag sst:stage dev --region --dry-run -f --tag k` sets only force.
   */
  lemma DeleteScenario()
    ensures var args := ["delete", "--tag", "sst:stage", "dev", "--region", "--dry-run", "-f", "--tag", "k"];
      var ts := Tokenize(args, 1);
      && TagsOf(ts) == [Tag("sst:stage", "dev")]
      && !ReadAlone(ts, "--dry-run")
      && ReadAlone(ts, "-f")
  {
    var args := ["delete", "--tag", "sst:stage", "dev", "--region", "--dry-run", "-f", "--tag", "k"];
    var tail := [Single("-f"), Single("--tag"), Single("k")];
    assert Tokenize(args, 8) == [Single("k")];
    assert Tokenize(args, 7) == [Single("--tag")] + [Single("k")];
    assert Tokenize(args, 6) == [Single("-f")] + [Single("--tag"), Single("k")];
    assert Tokenize(args, 6) == tail;
    assert TagsOf(tail) == [] by {
      assert tail[1..][1..] == [Single("k")];
      assert tail[1..] == [Single("--tag"), Single("k")];
    }
    var ts := [TagPair("sst:stage", "dev"), OptionValue("--region", Some("--dry-run"))] + tail;
    assert Tokenize(args, 4) == [OptionValue("--region", Some("--dry-run"))] + tail;
    assert Tokenize(args, 1) == ts;
    assert ts[1..][1..] == tail && ts[1..] == [OptionValue("--region", Some("--dry-run"))] + tail;
    assert ts[2] == Single("-f");
    assert forall k :: 0 <= k < |ts| ==> ts[k] != Single("--dry-run");
  }

  // ---------------------------------------------------------------------------
  // Where the scan starts
  // ---------------------------------------------------------------------------

  /** Array.prototype.indexOf over the arguments: the first index of word, or -1. */
  function IndexOfArg(args: seq<string>, word: string): (r: int)
    ensures -1 <= r < |args|
    ensures r == -1 <==> word !in args
    ensures r >= 0 ==> args[r] == word && word !in args[..r]
  {
    if args == [] then -1
    else if args[0] == word then 0
    else
      var j := IndexOfArg(args[1..], word);
      assert args == [args[0]] + args[1..];
      if j == -1 then -1
      else
        assert args[..j + 1] == [args[0]] + args[1..][..j];
        j + 1
  }

  /** The scan starts after the command word, or at 0 when the word is absent. */
  function ScanStart(args: seq<string>, word: string): (start: nat)
    ensures word !in args ==> start == 0
    ensures word in args ==> 0 < start <= |args| && args[start - 1] == word && word !in args[..start - 1]
  {
    IndexOfArg(args, word) + 1
  }

  // ---------------------------------------------------------------------------
  // The two loops
  // ---------------------------------------------------------------------------

  /** One turn of either loop: the step taken at i extends the steps so far. */
  lemma ScanAdvance(args: seq<string>, start: nat, steps: seq<Token>, i: nat)
    requires i < |args|
    requires Tokenize(args, start) == steps + Tokenize(args, i)
    ensures Tokenize(args, start) == (steps + [Step(args, i).0]) + Tokenize(args, Step(args, i).1)
    ensures TagsOf(steps + [Step(args, i).0]) == TagsOf(steps) + TagsOf([Step(args, i).0])
  {
    var t := Step(args, i).0;
    var rest := Tokenize(args, Step(args, i).1);
    assert Tokenize(args, i) == [t] + rest;
    assert (steps + [t]) + rest == steps + ([t] + rest);
    TagsOfAppend(steps, [t]);
  }

  /** The tags a single step carries. */
  lemma TagsOfOne(t: Token)
    ensures TagsOf([t]) == if t.TagPair? then [Tag(t.key, t.value)] else []
  {
    assert [t][1..] == [];
  }

  /** Where the scan stops, no steps remain. */
  lemma TokenizeEnd(args: seq<string>, i: nat)
    requires i >= |args|
    ensures Tokenize(args, i) == []
  {
  }

  /**
   * One turn of the `resources find` loop at index i: the step the scan
   * takes there, what it adds to the tags, and where it goes on.
   */
  method FindScanTurn(args: seq<string>, i: nat, tags0: seq<Tag>) returns (next: nat, tags: seq<Tag>)
    requires i < |args|
    ensures i < next <= |args| + 1
    ensures Tokenize(args, next) == Tokenize(args, Step(args, i).1)
    ensures tags == tags0 + TagsOf([Step(args, i).0])
  {
    TagsOfOne(Step(args, i).0);
    tags := tags0;
    next := i;
    if args[i] == "--tag" && i + 2 < |args| {
      tags := tags + [Tag(args[i + 1], args[i + 2])];
      next := next + 2;
    } else if TakesValue(args[i]) {
      next := next + 1;
    } else if StartsWith(args[i], "--") {
      // any other option is passed over
    }
    next := next + 1;
    if next > |args| {
      TokenizeEnd(args, next);
      TokenizeEnd(args, Step(args, i).1);
    }
  }

  /** The scanning loop of `resources find`. */
  method ScanFindArgs(args: seq<string>) returns (tags: seq<Tag>)
    ensures tags == TagsOf(Tokenize(args, ScanStart(args, "find")))
  {
    var findIndex := IndexOfArg(args, "find");
    tags := [];
    ghost var steps: seq<Token> := [];
    var i := findIndex + 1;
    while i < |args|
      invariant 0 <= i <= |args| + 1
      invariant Tokenize(args, findIndex + 1) == steps + Tokenize(args, i)
      invariant tags == TagsOf(steps)
      decreases |args| - i
    {
      ghost var step := Step(args, i).0;
      ScanAdvance(args, findIndex + 1, steps, i);
      i, tags := FindScanTurn(args, i, tags);
      steps := steps + [step];
    }
    TokenizeEnd(args, i);
    assert steps + [] == steps;
  }

  /** The flags the delete scan sets: an argument the scan read on its own. */
  predicate ReadAlone(ts: seq<Token>, arg: string) {
    Single(arg) in ts
  }

  lemma ReadAloneSnoc(ts: seq<Token>, t: Token, arg: string)
    ensures ReadAlone(ts + [t], arg) <==> ReadAlone(ts, arg) || t == Single(arg)
  {
    assert (ts + [t])[|ts|] == t;
    assert forall k :: 0 <= k < |ts| ==> (ts + [t])[k] == ts[k];
  }

  /** The delete flags are read on their own wherever they stand. */
  lemma FlagsReadAlone(args: seq<string>, i: nat)
    requires i < |args|
    requires args[i] == "--dry-run" || args[i] == "--force" || args[i] == "-f"
    ensures Step(args, i) == (Single(args[i]), i + 1)
  {
    var a := args[i];
    assert a != "--tag" && !TakesValue(a) by {
      if a == "-f" {
      } else {
        assert a[2] == 'd' || a[2] == 'f';
      }
    }
  }

  /**
   * One turn of the `resources delete` loop at index i: the step the scan
   * takes there, what it adds to the tags and flags, and where it goes on.
   */
  method DeleteScanTurn(args: seq<string>, i: nat, tags0: seq<Tag>, dryRun0: bool, force0: bool)
    returns (next: nat, tags: seq<Tag>, dryRun: bool, force: bool)
    requires i < |args|
    ensures i < next <= |args| + 1
    ensures Tokenize(args, next) == Tokenize(args, Step(args, i).1)
    ensures tags == tags0 + TagsOf([Step(args, i).0])
    ensures dryRun == (dryRun0 || Step(args, i).0 == Single("--dry-run"))
    ensures force == (force0 || Step(args, i).0 == Single("--force") || Step(args, i).0 == Single("-f"))
  {
    ghost var step := Step(args, i).0;
    TagsOfOne(step);
    tags, dryRun, force := tags0, dryRun0, force0;
    next := i;
    if args[i] == "--tag" && i + 2 < |args| {
      tags := tags + [Tag(args[i + 1], args[i + 2])];
      next := next + 2;
    } else if args[i] == "--dry-run" {
      FlagsReadAlone(args, i);
      dryRun := true;
    } else if args[i] == "--force" || args[i] == "-f" {
      FlagsReadAlone(args, i);
      force := true;
    } else if TakesValue(args[i]) {
      next := next + 1;
    } else if StartsWith(args[i], "--") {
      // any other option is passed over
    }
    next := next + 1;
    if next > |args| {
      TokenizeEnd(args, next);
      TokenizeEnd(args, Step(args, i).1);
    }
  }

  /** The scanning loop of `resources delete`. */
  method ScanDeleteArgs(args: seq<string>) returns (tags: seq<Tag>, dryRun: bool, force: bool)
    ensures tags == TagsOf(Tokenize(args, ScanStart(args, "delete")))
    ensures dryRun == ReadAlone(Tokenize(args, ScanStart(args, "delete")), "--dry-run")
    ensures force == (ReadAlone(Tokenize(args, ScanStart(args, "delete")), "--force")
                      || ReadAlone(Tokenize(args, ScanStart(args, "delete")), "-f"))
  {
    var deleteIndex := IndexOfArg(args, "delete");
    tags := [];
    dryRun, force := false, false;
    ghost var steps: seq<Token> := [];
    var i := deleteIndex + 1;
    while i < |args|
      invariant 0 <= i <= |args| + 1
      invariant Tokenize(args, deleteIndex + 1) == steps + Tokenize(args, i)
      invariant tags == TagsOf(steps)
      invariant dryRun == ReadAlone(steps, "--dry-run")
      invariant force == (ReadAlone(steps, "--force") || ReadAlone(steps, "-f"))
      decreases |args| - i
    {
      ghost var step := Step(args, i).0;
      ScanAdvance(args, deleteIndex + 1, steps, i);
      ReadAloneSnoc(steps, step, "--dry-run");
      ReadAloneSnoc(steps, step, "--force");
      ReadAloneSnoc(steps, step, "-f");
      i, tags, dryRun, force := DeleteScanTurn(args, i, tags, dryRun, force);
      steps := steps + [step];
    }
    TokenizeEnd(args, i);
    assert steps + [] == steps;
  }

  // ---------------------------------------------------------------------------
  // The two actions, up to the call into the command
  // ---------------------------------------------------------------------------

  /**
   * `options.tagMatch?.toUpperCase() || "AND"`: the upper-cased option, or
   * "AND" when it is absent or empty.
   */
  function TagMatch(tagMatch: Option<string>): (m: string)
    ensures m != ""
    ensures tagMatch.None? || tagMatch.value == "" ==> m == "AND"
    ensures tagMatch.Some? && tagMatch.value != "" ==> m == ToUpper(tagMatch.value)
  {
    match tagMatch
    case None => "AND"
    case Some(s) => if ToUpper(s) == "" then "AND" else ToUpper(s)
  }

  lemma ToUpperIdempotent(s: string)
    ensures ToUpper(ToUpper(s)) == ToUpper(s)
  {
  }

  /** Upper-casing the chosen match again changes nothing. */
  lemma TagMatchIsUpper(tagMatch: Option<string>)
    ensures ToUpper(TagMatch(tagMatch)) == TagMatch(tagMatch)
  {
    if tagMatch.Some? && tagMatch.value != "" {
      ToUpperIdempotent(tagMatch.value);
    } else {
      assert TagMatch(tagMatch) == "AND";
    }
  }

  /** The options Commander hands the actions; an absent one is undefined. */
  datatype FindOptions = FindOptions(tagMatch: Option<string>, region: Option<string>, profile: Option<string>)

  datatype DeleteOptions = DeleteOptions(
    tagMatch: Option<string>,
    region: Option<string>,
    profile: Option<string>,
    dryRun: Option<bool>,
    force: Option<bool>)

  /** What the actions pass on to findResources and deleteResources. */
  datatype FindRequest = FindRequest(tags: seq<Tag>, tagMatch: string, region: Option<string>, awsProfile: Option<string>)

  datatype DeleteRequest = DeleteRequest(
    tags: seq<Tag>,
    tagMatch: string,
    region: Option<string>,
    awsProfile: Option<string>,
    dryRun: bool,
    force: bool)

  /** The action stops with exit code 1 when no tag was given. */
  datatype CliError = NoTags

  /** The `resources find` action up to its call of findResources. */
  method FindAction(argv: seq<string>, options: FindOptions) returns (r: Result<FindRequest, CliError>)
    ensures r.Err? <==> TagsOf(Tokenize(argv, ScanStart(argv, "find"))) == []
    ensures r.Ok? ==> r.value == FindRequest(TagsOf(Tokenize(argv, ScanStart(argv, "find"))),
                                             TagMatch(options.tagMatch), options.region, options.profile)
  {
    var tags := ScanFindArgs(argv);
    if |tags| == 0 {
      return Err(NoTags);
    }
    r := Ok(FindRequest(tags, TagMatch(options.tagMatch), options.region, options.profile));
  }

  /** The `resources delete` action up to its call of deleteResources. */
  method DeleteAction(argv: seq<string>, options: DeleteOptions) returns (r: Result<DeleteRequest, CliError>)
    ensures r.Err? <==> TagsOf(Tokenize(argv, ScanStart(argv, "delete"))) == []
    ensures r.Ok? ==>
      var ts := Tokenize(argv, ScanStart(argv, "delete"));
      && r.value.tags == TagsOf(ts)
      && r.value.tagMatch == TagMatch(options.tagMatch)
      && r.value.region == options.region && r.value.awsProfile == options.profile
      && (r.value.dryRun <==> ReadAlone(ts, "--dry-run") || options.dryRun == Some(true))
      && (r.value.force <==> ReadAlone(ts, "--force") || ReadAlone(ts, "-f") || options.force == Some(true))
  {
    var tags, dryRun, force := ScanDeleteArgs(argv);
    if |tags| == 0 {
      return Err(NoTags);
    }
    r := Ok(DeleteRequest(tags, TagMatch(options.tagMatch), options.region, options.profile,
                          dryRun || options.dryRun == Some(true), force || options.force == Some(true)));
  }
}

/**
 * The regular expressions of the dependency rules, written out as string
 * functions with the JavaScript matching semantics they have in the source:
 *
 *   /([A-Z][a-zA-Z0-9]+)(?:Schedule|Handler|Rule)/   and   /([A-Z][a-zA-Z0-9]+)(?:Role|role)/
 *     unanchored: the leftmost start that admits a match wins, and from there the
 *     greedy `+` backtracks from the end of the alphanumeric run to the longest
 *     group that is still followed by one of the alternatives;
 *
 *   /^(.+?)(?:-\d+)?$/
 *     the lazy group grows one character at a time (never across a line
 *     terminator, which `.` does not match) until the rest of the string is
 *     either empty or a dash followed by digits.
 */
module Patterns {
  import opened Wrappers
  import opened Text

  /** One of the alternatives begins at index j of s. */
  predicate SuffixAt(s: string, j: nat, alternatives: seq<string>)
    requires j <= |s|
  {
    exists k :: 0 <= k < |alternatives| && alternatives[k] <= s[j..]
  }

  /**
   * /([A-Z][a-zA-Z0-9]+)(?:alternatives)/ can match with its capture group
   * spanning s[i..j].
   */
  predicate CaptureAt(s: string, alternatives: seq<string>, i: int, j: int) {
    0 <= i && i + 2 <= j <= |s| && IsUpper(s[i])
    && (forall k :: i < k < j ==> IsAlnum(s[k]))
    && SuffixAt(s, j, alternatives)
  }

  /** The end of the run of [a-zA-Z0-9] characters that starts at p. */
  function RunEnd(s: string, p: nat): (q: nat)
    requires p <= |s|
    ensures p <= q <= |s|
    ensures forall k :: p <= k < q ==> IsAlnum(s[k])
    ensures q < |s| ==> !IsAlnum(s[q])
    decreases |s| - p
  {
    if p < |s| && IsAlnum(s[p]) then RunEnd(s, p + 1) else p
  }

  /** Backtracking of the greedy `+`: the largest end in [lo, hi] that an alternative follows. */
  function LastEnd(s: string, alternatives: seq<string>, lo: nat, hi: nat): (r: Option<nat>)
    requires hi <= |s|
    ensures r.Some? ==> lo <= r.value <= hi && SuffixAt(s, r.value, alternatives)
    ensures forall j: nat :: lo <= j <= hi && (r.None? || r.value < j) ==> !SuffixAt(s, j, alternatives)
    decreases hi
  {
    if hi < lo then None
    else if SuffixAt(s, hi, alternatives) then Some(hi)
    else if hi == 0 then None
    else LastEnd(s, alternatives, lo, hi - 1)
  }

  /** The span of the capture group of the leftmost match that starts at or after i. */
  function CaptureFrom(s: string, alternatives: seq<string>, i: nat): (r: Option<(nat, nat)>)
    requires i <= |s|
    ensures r.Some? ==> i <= r.value.0 && CaptureAt(s, alternatives, r.value.0, r.value.1)
    ensures r.Some? ==> forall a, b :: i <= a && CaptureAt(s, alternatives, a, b) ==>
      r.value.0 < a || (r.value.0 == a && b <= r.value.1)
    ensures r.None? ==> forall a, b :: i <= a ==> !CaptureAt(s, alternatives, a, b)
    decreases |s| - i
  {
    if i == |s| then None
    else if IsUpper(s[i]) then
      var q := RunEnd(s, i + 1);
      match LastEnd(s, alternatives, i + 2, q)
      case Some(j) => Some((i, j))
      case None => CaptureFrom(s, alternatives, i + 1)
    else CaptureFrom(s, alternatives, i + 1)
  }

  /** String.prototype.match(...)[1] for /([A-Z][a-zA-Z0-9]+)(?:alternatives)/, or None. */
  function CapitalizedCapture(s: string, alternatives: seq<string>): (r: Option<string>)
  {
    match CaptureFrom(s, alternatives, 0)
    case None => None
    case Some((a, b)) => Some(s[a..b])
  }

  const RuleAlternatives: seq<string> := ["Schedule", "Handler", "Rule"]
  const RoleAlternatives: seq<string> := ["Role", "role"]

  /**
   * The capture is the group of the leftmost match, and among the matches
   * starting there the longest one: exactly what the backtracking engine returns.
   */
  lemma CapitalizedCaptureSpec(s: string, alternatives: seq<string>)
    ensures CapitalizedCapture(s, alternatives).Some? <==> exists a, b :: CaptureAt(s, alternatives, a, b)
    ensures CapitalizedCapture(s, alternatives).Some? ==>
      exists a, b :: CaptureAt(s, alternatives, a, b) && CapitalizedCapture(s, alternatives).value == s[a..b]
        && forall a', b' :: CaptureAt(s, alternatives, a', b') ==> a < a' || (a == a' && b' <= b)
  {
  }

  /** A capture that is leftmost (it starts at 0) and that no longer end extends is the result. */
  lemma CaptureFromStart(s: string, alternatives: seq<string>, b: nat)
    requires CaptureAt(s, alternatives, 0, b)
    requires forall b' :: b < b' <= |s| ==> !SuffixAt(s, b', alternatives)
    ensures CapitalizedCapture(s, alternatives) == Some(s[..b])
  {
    var r := CaptureFrom(s, alternatives, 0);
    assert r.Some?;
    assert r.value.0 == 0 && b <= r.value.1;
  }

  /**
   * A capitalised alphanumeric name followed by a shortest alternative: the
   * group captures the whole name, since no alternative fits in what is left
   * after any longer group.
   */
  lemma NameBeforeAlternative(name: string, alternatives: seq<string>, k: nat)
    requires k < |alternatives|
    requires forall m :: 0 <= m < |alternatives| ==> |alternatives[k]| <= |alternatives[m]|
    requires |name| >= 2 && IsUpper(name[0])
    requires forall i :: 1 <= i < |name| ==> IsAlnum(name[i])
    ensures CapitalizedCapture(name + alternatives[k], alternatives) == Some(name)
  {
    var s := name + alternatives[k];
    assert s[|name|..] == alternatives[k];
    assert SuffixAt(s, |name|, alternatives);
    forall i | 0 < i < |name|
      ensures IsAlnum(s[i])
    {
      assert s[i] == name[i];
    }
    forall b' | |name| < b' <= |s|
      ensures !SuffixAt(s, b', alternatives)
    {
      assert |s[b'..]| < |alternatives[k]|;
    }
    CaptureFromStart(s, alternatives, |name|);
    assert s[..|name|] == name;
  }

  /** A role named after its function: "ProcessOrdersRole" yields "ProcessOrders". */
  lemma RoleNameCapture()
    ensures CapitalizedCapture("ProcessOrdersRole", RoleAlternatives) == Some("ProcessOrders")
  {
    NameBeforeAlternative("ProcessOrders", RoleAlternatives, 0);
    assert "ProcessOrders" + RoleAlternatives[0] == "ProcessOrdersRole";
  }

  /** The greedy group runs on as far as an alternative still follows it. */
  lemma GreedyRuleCapture()
    ensures CapitalizedCapture("ProcessOrdersScheduleRule", RuleAlternatives) == Some("ProcessOrdersSchedule")
  {
    NameBeforeAlternative("ProcessOrdersSchedule", RuleAlternatives, 2);
    assert "ProcessOrdersSchedule" + RuleAlternatives[2] == "ProcessOrdersScheduleRule";
  }

  predicate DashDigits(t: string) {
    |t| >= 2 && t[0] == '-' && forall k :: 1 <= k < |t| ==> IsDigit(t[k])
  }

  /** Lazy search for the end of the group of /^(.+?)(?:-\d+)?$/, trying ends n, n + 1, ... */
  function LazyGroupEnd(s: string, n: nat): (r: Option<nat>)
    requires 1 <= n
    ensures r.Some? ==> n <= r.value <= |s| && (r.value == |s| || DashDigits(s[r.value..]))
    ensures r.Some? ==> forall k :: n - 1 <= k < r.value ==> !IsLineTerminator(s[k])
    ensures r.Some? ==> forall m :: n <= m < r.value ==> !DashDigits(s[m..])
    ensures r.None? <==> n > |s| || exists k :: n - 1 <= k < |s| && IsLineTerminator(s[k])
    decreases |s| - n
  {
    if n > |s| then None
    else if IsLineTerminator(s[n - 1]) then None
    else if n == |s| || DashDigits(s[n..]) then Some(n)
    else LazyGroupEnd(s, n + 1)
  }

  /** String.prototype.match(...)[1] for /^(.+?)(?:-\d+)?$/, or None when it does not match. */
  function StripNumericSuffix(s: string): (r: Option<string>)
  {
    match LazyGroupEnd(s, 1)
    case None => None
    case Some(n) => Some(s[..n])
  }

  /**
   * The expression matches every non-empty string without line terminators; the
   * group is the shortest non-empty prefix after which only a dash and digits remain.
   */
  lemma StripNumericSuffixSpec(s: string)
    ensures StripNumericSuffix(s).Some? <==> |s| >= 1 && forall k :: 0 <= k < |s| ==> !IsLineTerminator(s[k])
    ensures StripNumericSuffix(s).Some? ==>
      var g := StripNumericSuffix(s).value;
      1 <= |g| && g <= s && (g == s || DashDigits(s[|g|..]))
      && forall m :: 1 <= m < |g| ==> !DashDigits(s[m..])
  {
    var r := LazyGroupEnd(s, 1);
    if r.Some? {
      var n := r.value;
      forall k | 0 <= k < |s|
        ensures !IsLineTerminator(s[k])
      {
        if k >= n {
          assert s[n..][k - n] == s[k];
        }
      }
    }
  }

  /** Stripping undoes appending one "-<digits>" suffix to a non-empty single-line name. */
  lemma {:induction false} StripAppendedSuffix(name: string, digits: string)
    requires |name| >= 1 && forall k :: 0 <= k < |name| ==> !IsLineTerminator(name[k])
    requires |digits| >= 1 && forall k :: 0 <= k < |digits| ==> IsDigit(digits[k])
    ensures StripNumericSuffix(name + "-" + digits) == Some(name)
  {
    var s := name + "-" + digits;
    assert s[|name|..] == "-" + digits;
    assert DashDigits(s[|name|..]);
    forall m | 1 <= m < |name|
      ensures !DashDigits(s[m..])
    {
      assert s[m..][|name| - m] == '-';
    }
    StripNumericSuffixSpec(s);
    assert forall k :: 0 <= k < |s| ==> !IsLineTerminator(s[k]) by {
      forall k | 0 <= k < |s| ensures !IsLineTerminator(s[k]) {
        if k > |name| {
          assert s[k] == digits[k - |name| - 1];
        }
      }
    }
    assert s[..|name|] == name;
  }
}

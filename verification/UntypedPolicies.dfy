/**
 Policies from before operations were typed: which operation their key stands for, and when a
 step between two versions of a method can be followed by any other harmless step.
 */
module UntypedPolicies {
  import opened Options
  import opened Text
  import opened Compatibility
  import JoinedKeys

  // ----- what a key gives away -----

  function Flag(b: bool): string {
    if b then "true" else "false"
  }

  /** A key written out. */
  lemma PolicyKeyText(p: LegacyPolicy)
    ensures
      var names, methods := NamesKey(p.permissions), NamesKey(p.authentication);
      LegacyKey(Some(p)) == p.operationId + ['|'] + (p.permissionMode + ['|'] + (Flag(p.tenantRequired) + ['|'] + (names + ['|'] + methods)))
  {
    var a, b, c, d, e := p.operationId, p.permissionMode, Flag(p.tenantRequired), NamesKey(p.permissions), NamesKey(p.authentication);
    assert [a, b, c, d, e][1..] == [b, c, d, e] && [b, c, d, e][1..] == [c, d, e] && [c, d, e][1..] == [d, e] && [d, e][1..] == [e];
    assert Join('|', [e]) == e;
    assert Join('|', [d, e]) == d + ['|'] + Join('|', [e]);
    assert Join('|', [c, d, e]) == c + ['|'] + Join('|', [d, e]);
    assert Join('|', [b, c, d, e]) == b + ['|'] + Join('|', [c, d, e]);
    assert Join('|', [a, b, c, d, e]) == a + ['|'] + Join('|', [b, c, d, e]);
  }

  /** What stands between the bars of a key. */
  function Segments(p: LegacyPolicy): seq<string> {
    Split('|', LegacyKey(Some(p)))
  }

  predicate IsFlag(s: string) {
    s == "true" || s == "false"
  }

  lemma SplitFive(a: string, b: string, c: string, d: string, e: string)
    ensures Split('|', a + ['|'] + (b + ['|'] + (c + ['|'] + (d + ['|'] + e))))
            == Split('|', a) + (Split('|', b) + (Split('|', c) + (Split('|', d) + Split('|', e))))
  {
    SplitApart('|', d, e);
    SplitApart('|', c, d + ['|'] + e);
    SplitApart('|', b, c + ['|'] + (d + ['|'] + e));
    SplitApart('|', a, b + ['|'] + (c + ['|'] + (d + ['|'] + e)));
  }

  lemma SegmentsInOrder(p: LegacyPolicy)
    ensures Segments(p) == Split('|', p.operationId) + (Split('|', p.permissionMode) + ([Flag(p.tenantRequired)]
              + (Split('|', NamesKey(p.permissions)) + Split('|', NamesKey(p.authentication)))))
  {
    PolicyKeyText(p);
    SplitFive(p.operationId, p.permissionMode, Flag(p.tenantRequired), NamesKey(p.permissions), NamesKey(p.authentication));
    SplitPlain('|', Flag(p.tenantRequired));
  }

  lemma PlaceOfThird<T>(a: seq<T>, b: seq<T>, c: T, d: seq<T>, e: seq<T>)
    ensures
      var s, j := a + (b + ([c] + (d + e))), |a| + |b|;
      j + 1 + |d| + |e| == |s| && s[..|a|] == a && s[j] == c && s[j + 1..j + 1 + |d|] == d && s[j + 1 + |d|..] == e
  {
  }

  /** The operation comes first, a flag stands at `j`, and the names behind it fall in two at `m`. */
  ghost predicate Stands(s: seq<string>, operation: seq<string>, j: nat, m: nat) {
    && 1 <= |operation| < j && j + 2 <= m < |s|
    && s[..|operation|] == operation && IsFlag(s[j]) && NamesBehind(s, j, m)
  }

  lemma FlagAmong(s: seq<string>, a: seq<string>, b: seq<string>, c: string, d: seq<string>, e: seq<string>)
    requires s == a + (b + ([c] + (d + e)))
    requires a != [] && b != [] && d != [] && e != [] && IsFlag(c) && Trimmed(Join('|', d)) && Trimmed(Join('|', e))
    ensures Stands(s, a, |a| + |b|, |a| + |b| + 1 + |d|)
  {
    PlaceOfThird(a, b, c, d, e);
  }

  lemma NamesKeyTrimmed(names: seq<string>)
    ensures Trimmed(NamesKey(names))
  {
    JoinedKeys.NormalCarries(names);
    JoinedKeys.JoinTrimmed(NormalNames(names));
  }

  lemma NamesSegments(names: seq<string>)
    ensures Trimmed(Join('|', Split('|', NamesKey(names))))
  {
    JoinOfSplit('|', NamesKey(names));
    NamesKeyTrimmed(names);
  }

  /** The segments of a policy, part by part. */
  lemma Parts(p: LegacyPolicy) returns (a: seq<string>, b: seq<string>, c: string, d: seq<string>, e: seq<string>)
    ensures Segments(p) == a + (b + ([c] + (d + e))) && a == Split('|', p.operationId)
    ensures a != [] && b != [] && d != [] && e != [] && IsFlag(c) && Trimmed(Join('|', d)) && Trimmed(Join('|', e))
  {
    a, b, c := Split('|', p.operationId), Split('|', p.permissionMode), Flag(p.tenantRequired);
    d, e := Split('|', NamesKey(p.permissions)), Split('|', NamesKey(p.authentication));
    SegmentsInOrder(p);
    NamesSegments(p.permissions);
    NamesSegments(p.authentication);
  }

  /** Behind a flag, the names of a key fall into two texts that a normalized policy can have made. */
  predicate NamesBehind(s: seq<string>, j: nat, m: nat)
    requires j + 2 <= m < |s|
  {
    Trimmed(Join('|', s[j + 1..m])) && Trimmed(Join('|', s[m..]))
  }

  /** A flag among the segments that leaves room for two operation ids before it. */
  predicate LaterFlag(s: seq<string>) {
    exists j, m | 3 <= j && j + 2 <= m < |s| :: IsFlag(s[j]) && NamesBehind(s, j, m)
  }

  /** Another policy has the same key and another operation. */
  ghost predicate Ambiguous(p: LegacyPolicy) {
    exists q: LegacyPolicy :: LegacyKey(Some(q)) == LegacyKey(Some(p)) && q.operationId != p.operationId
  }

  function OneName(text: string): seq<string> {
    if text == "" then [] else [text]
  }

  lemma OneNameKey(text: string)
    requires Trimmed(text)
    ensures NamesKey(OneName(text)) == text
  {
    if text == "" {
      assert NormalNames([]) == [];
    } else {
      JoinedKeys.NormalOne(text);
    }
  }

  /** A policy read off segments, with `i` of them for the operation, the flag at `j`, and the authentication from `m` on. */
  function ReadOff(s: seq<string>, i: nat, j: nat, m: nat): LegacyPolicy
    requires 1 <= i < j && j + 2 <= m < |s|
  {
    LegacyPolicy(Join('|', s[..i]), Join('|', s[i..j]), s[j] == "true", OneName(Join('|', s[j + 1..m])), OneName(Join('|', s[m..])))
  }

  lemma JoinPieces(a: seq<string>, b: seq<string>, c: string, d: seq<string>, e: seq<string>)
    requires a != [] && b != [] && d != [] && e != []
    ensures Join('|', a + (b + ([c] + (d + e))))
            == Join('|', a) + ['|'] + (Join('|', b) + ['|'] + (c + ['|'] + (Join('|', d) + ['|'] + Join('|', e))))
  {
    JoinApart('|', d, e);
    JoinApart('|', [c], d + e);
    JoinApart('|', b, [c] + (d + e));
    JoinApart('|', a, b + ([c] + (d + e)));
  }

  lemma CutFive<T>(s: seq<T>, i: nat, j: nat, m: nat)
    requires i <= j < m <= |s|
    ensures s == s[..i] + (s[i..j] + ([s[j]] + (s[j + 1..m] + s[m..])))
  {
  }

  lemma ReadOffKey(s: seq<string>, i: nat, j: nat, m: nat)
    requires 1 <= i < j && j + 2 <= m < |s| && IsFlag(s[j]) && NamesBehind(s, j, m)
    ensures LegacyKey(Some(ReadOff(s, i, j, m))) == Join('|', s)
  {
    PolicyKeyText(ReadOff(s, i, j, m));
    OneNameKey(Join('|', s[j + 1..m]));
    OneNameKey(Join('|', s[m..]));
    CutFive(s, i, j, m);
    JoinPieces(s[..i], s[i..j], s[j], s[j + 1..m], s[m..]);
  }

  lemma TwoReadings(s: seq<string>, j: nat, m: nat)
    requires 3 <= j && j + 2 <= m < |s|
    ensures ReadOff(s, 1, j, m).operationId != ReadOff(s, 2, j, m).operationId
  {
    assert s[..1] == [s[0]] && s[..2] == [s[0]] + [s[1]];
    JoinApart('|', [s[0]], [s[1]]);
    assert |Join('|', s[..2])| > |s[0]| == |Join('|', s[..1])|;
  }

  lemma SingleSegment(x: string)
    ensures |Split('|', x)| == 1 ==> Split('|', x) == [x]
  {
    JoinOfSplit('|', x);
  }

  /** A key is shared with a policy for another operation exactly when it holds such a flag. */
  lemma AmbiguousExactly(p: LegacyPolicy)
    ensures Ambiguous(p) <==> LaterFlag(Segments(p))
  {
    var s := Segments(p);
    JoinOfSplit('|', LegacyKey(Some(p)));
    if LaterFlag(s) {
      var j, m :| 3 <= j && j + 2 <= m < |s| && IsFlag(s[j]) && NamesBehind(s, j, m);
      ReadOffKey(s, 1, j, m);
      ReadOffKey(s, 2, j, m);
      TwoReadings(s, j, m);
    }
    if Ambiguous(p) {
      var q: LegacyPolicy :| LegacyKey(Some(q)) == LegacyKey(Some(p)) && q.operationId != p.operationId;
      var a, b, c, d, e := Parts(p);
      var v, w, x, y, z := Parts(q);
      FlagAmong(s, a, b, c, d, e);
      FlagAmong(s, v, w, x, y, z);
      SingleSegment(p.operationId);
      SingleSegment(q.operationId);
    }
  }

  /** A bar moved from the mode into the operation: two operations, one key. */
  lemma BarSharesKey(p: LegacyPolicy, x: string, y: string)
    ensures
      var q, r := p.(operationId := x, permissionMode := y + ['|'] + p.permissionMode), p.(operationId := x + ['|'] + y);
      LegacyKey(Some(q)) == LegacyKey(Some(r)) && q.operationId != r.operationId
  {
    var q, r := p.(operationId := x, permissionMode := y + ['|'] + p.permissionMode), p.(operationId := x + ['|'] + y);
    PolicyKeyText(q);
    PolicyKeyText(r);
    var rest := Flag(p.tenantRequired) + ['|'] + (NamesKey(p.permissions) + ['|'] + NamesKey(p.authentication));
    RegroupParts('|', y, p.permissionMode, rest);
    RegroupParts('|', x, y, p.permissionMode + ['|'] + rest);
    assert |r.operationId| > |x|;
  }

  // ----- steps -----

  /**
   What makes a step between two versions of a method safe for whatever comes after it: an
   untyped policy is not dropped, keeps its operation, and keeps its key if another operation
   could be read from the new one.
   */
  predicate StepsSafely(a: Method, b: Method) {
    a.operation.None? && b.operation.None? && a.authorization.Some? ==>
      && b.authorization.Some? && a.authorization.value.operationId == b.authorization.value.operationId
      && (LegacyKey(a.authorization) == LegacyKey(b.authorization) || !LaterFlag(Segments(b.authorization.value)))
  }

  lemma KeyGrows(p: LegacyPolicy)
    ensures |LegacyKey(Some(p.(operationId := p.operationId + "x")))| == |LegacyKey(Some(p))| + 1
    ensures |LegacyKey(Some(p.(permissionMode := p.permissionMode + "x")))| == |LegacyKey(Some(p))| + 1
  {
    PolicyKeyText(p);
    PolicyKeyText(p.(operationId := p.operationId + "x"));
    PolicyKeyText(p.(permissionMode := p.permissionMode + "x"));
  }

  lemma PolicyChanged(b: Method, policy: Option<LegacyPolicy>)
    ensures MethodOk(b, b.(authorization := policy)) <==> LegacyOk(b, b.(authorization := policy))
  {
    assert forall x | x in b.http :: BindingKept(b.http, x);
  }

  lemma SafeStepComposes(a: Method, b: Method, c: Method)
    requires MethodOk(a, b) && MethodOk(b, c) && StepsSafely(a, b)
    ensures MethodOk(a, c)
  {
    forall x | x in a.http ensures BindingKept(c.http, x) {
      assert BindingKept(b.http, x);
      var y :| y in b.http && BindingKey(y) == BindingKey(x);
      assert BindingKept(c.http, y);
    }
    if b.authorization.Some? {
      AmbiguousExactly(b.authorization.value);
    }
  }

  /** A policy that has changed by its key and still agrees with the next one, but not with the one before. */
  lemma BreakingPolicy(a: Method, b: Method) returns (policy: LegacyPolicy)
    requires LegacyOk(a, b) && !StepsSafely(a, b)
    ensures b.authorization.Some? ==>
      LegacyKey(Some(policy)) == LegacyKey(b.authorization) || policy.operationId == b.authorization.value.operationId
    ensures LegacyKey(Some(policy)) != LegacyKey(a.authorization) && policy.operationId != a.authorization.value.operationId
  {
    var p := a.authorization.value;
    if b.authorization.None? {
      KeyGrows(p);
      policy := p.(operationId := p.operationId + "x");
    } else {
      var q := b.authorization.value;
      if p.operationId != q.operationId {
        KeyGrows(q);
        policy := q.(permissionMode := q.permissionMode + "x");
      } else {
        AmbiguousExactly(q);
        policy :| LegacyKey(Some(policy)) == LegacyKey(Some(q)) && policy.operationId != q.operationId;
      }
    }
  }

  /** After an unsafe step, changing nothing but the policy again can break the first version. */
  lemma UnsafeStepBreaks(a: Method, b: Method) returns (policy: LegacyPolicy)
    requires MethodOk(a, b) && !StepsSafely(a, b)
    ensures MethodOk(b, b.(authorization := Some(policy))) && !MethodOk(a, b.(authorization := Some(policy)))
  {
    policy := BreakingPolicy(a, b);
    PolicyChanged(b, Some(policy));
  }

  /** A step can be followed by every harmless step exactly when it is safe. */
  lemma StepExactly(a: Method, b: Method)
    requires MethodOk(a, b)
    ensures StepsSafely(a, b) <==> forall c | MethodOk(b, c) :: MethodOk(a, c)
  {
    if StepsSafely(a, b) {
      forall c | MethodOk(b, c) ensures MethodOk(a, c) {
        SafeStepComposes(a, b, c);
      }
    } else {
      var policy := UnsafeStepBreaks(a, b);
    }
  }

  // ----- ids and modes without bars -----

  /** No bar in any part of the key. */
  predicate PlainPolicy(p: LegacyPolicy) {
    && NoneOf(p.operationId, "|") && NoneOf(p.permissionMode, "|")
    && NoneOf(NamesKey(p.permissions), "|") && NoneOf(NamesKey(p.authentication), "|")
  }

  /** An untyped policy is not dropped. */
  predicate KeepsPolicy(a: Method, b: Method) {
    a.operation.None? && b.operation.None? && a.authorization.Some? ==> b.authorization.Some?
  }

  /** Between policies without bars a step is safe exactly when no policy is dropped. */
  lemma PlainStep(a: Method, b: Method)
    requires MethodOk(a, b) && (a.authorization.Some? ==> PlainPolicy(a.authorization.value))
    requires b.authorization.Some? ==> PlainPolicy(b.authorization.value)
    ensures StepsSafely(a, b) <==> KeepsPolicy(a, b)
  {
    if a.operation.None? && b.operation.None? && a.authorization.Some? && b.authorization.Some? {
      PlainSegments(a.authorization.value);
      PlainSegments(b.authorization.value);
    }
  }

  lemma PlainSegments(p: LegacyPolicy)
    requires PlainPolicy(p)
    ensures |Segments(p)| == 5 && Segments(p)[0] == p.operationId && !LaterFlag(Segments(p))
  {
    var parts := [p.operationId, p.permissionMode, Flag(p.tenantRequired), NamesKey(p.permissions), NamesKey(p.authentication)];
    assert LegacyKey(Some(p)) == Join('|', parts);
    assert "|" == ['|'];
    SplitOfJoin('|', parts);
  }
}

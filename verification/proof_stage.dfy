/** The proof-stage classifier (`detect_proof`): an ordered keyword cascade
    over the upper-cased page name and the normalised file path, where the
    first rule that fires decides the stage. `DetectProof` follows the
    cascade branch for branch; `StageRules` writes the same cascade down as
    data, and `DetectProofIsTableDriven` proves the two agree. */
module ProofStage {
  import opened Strings

  const Proof1 := "PROOF1"
  const PrintReady := "PRINT READY"
  const AfterPress := "AFTER PRESS"
  const Cpr := "CPR"
  const Press := "PRESS"
  const NoStage := ""

  /** Every value the classifier can return; "PRE PRESS" is not among them. */
  const StageResults: set<string> := {Proof1, PrintReady, AfterPress, Cpr, Press, NoStage}

  predicate IsSeparator(c: char) {
    c == '_' || c == '-' || c == '.'
  }

  /** The path as the classifier reads it: upper-cased, with `_`, `-` and
      `.` each replaced by a space. */
  function NormalizePath(path: string): (r: string)
    ensures |r| == |path|
    ensures forall k :: 0 <= k < |r| ==> !IsSeparator(r[k])
    ensures forall k :: 0 <= k < |r| ==> r[k] == (if IsSeparator(path[k]) then ' ' else UpperChar(path[k]))
  {
    ReplaceChar(ReplaceChar(ReplaceChar(Upper(path), '_', ' '), '-', ' '), '.', ' ')
  }

  // ---------------------------------------------------------------------------
  // The cascade, rule by rule
  // ---------------------------------------------------------------------------

  predicate MarksProofOne(p: string) {
    Contains(p, "PROOF1") || Contains(p, "PROOF 1") || Contains(p, "1 PROOF")
  }

  predicate NameMarksPrePress(n: string) {
    Contains(n, "-PR") || Contains(n, "PR-")
  }

  predicate NameMarksAfterPress(n: string) {
    Contains(n, "-AP") || Contains(n, "AP-")
  }

  /** `detect_proof(name, path)`. */
  function DetectProof(name: string, path: string): (r: string)
    ensures r in StageResults
    ensures r != "PRE PRESS"
  {
    var n := Upper(name);
    var p := NormalizePath(path);
    if MarksProofOne(p) then Proof1
    else if Contains(p, "PRE PRESS") || NameMarksPrePress(n) then PrintReady
    else if Contains(p, "AFTER PRESS") || NameMarksAfterPress(n) then AfterPress
    else if Contains(p, "CPR") then Cpr
    else if Contains(p, "PRINT READY") || Contains(p, "PRESS PRINT READY CHANGES") || NameMarksPrePress(n) then PrintReady
    else if Contains(p, "PRESS") then Press
    else NoStage
  }

  /** An occurrence inside an occurrence is an occurrence. */
  lemma ContainsTransitive(s: string, mid: string, sub: string)
    requires Contains(s, mid) && Contains(mid, sub)
    ensures Contains(s, sub)
  {
    var i :| 0 <= i <= |s| && OccursAt(s, mid, i);
    var j :| 0 <= j <= |mid| && OccursAt(mid, sub, j);
    forall t | 0 <= t < |sub|
      ensures s[i + j + t] == sub[t]
    {
      assert sub[t] == mid[j + t] == s[i..i + |mid|][j + t];
    }
    assert s[i + j..i + j + |sub|] == sub;
    assert OccursAt(s, sub, i + j);
  }

  /** What each result means, with the fifth rule reduced to the one marker
      that can still fire there: its "PRESS PRINT READY CHANGES" marker
      already contains "PRINT READY", and its name markers were already
      consumed by the second rule. */
  lemma DetectProofDecisionTable(name: string, path: string)
    ensures var n := Upper(name);
            var p := NormalizePath(path);
            var r := DetectProof(name, path);
            var r1 := MarksProofOne(p);
            var r2 := Contains(p, "PRE PRESS") || NameMarksPrePress(n);
            var r3 := Contains(p, "AFTER PRESS") || NameMarksAfterPress(n);
            var r4 := Contains(p, "CPR");
            var r5 := Contains(p, "PRINT READY");
            var r6 := Contains(p, "PRESS");
            && (r == Proof1 <==> r1)
            && (r == PrintReady <==> !r1 && (r2 || (!r3 && !r4 && r5)))
            && (r == AfterPress <==> !r1 && !r2 && r3)
            && (r == Cpr <==> !r1 && !r2 && !r3 && r4)
            && (r == Press <==> !r1 && !r2 && !r3 && !r4 && !r5 && r6)
            && (r == NoStage <==> !r1 && !r2 && !r3 && !r4 && !r5 && !r6)
  {
    var p := NormalizePath(path);
    ChangesMarkerIsPrintReady(p);
    StageNamesDistinct();
  }

  /** The fifth rule's longer marker holds its shorter one. */
  lemma ChangesMarkerIsPrintReady(p: string)
    ensures Contains(p, "PRESS PRINT READY CHANGES") ==> Contains(p, "PRINT READY")
  {
    if Contains(p, "PRESS PRINT READY CHANGES") {
      assert OccursAt("PRESS PRINT READY CHANGES", "PRINT READY", 6);
      ContainsTransitive(p, "PRESS PRINT READY CHANGES", "PRINT READY");
    }
  }

  /** The six results are pairwise different. */
  lemma StageNamesDistinct()
    ensures |NoStage| == 0 && |Cpr| == 3 && |Press| == 5 && |Proof1| == 6
    ensures |PrintReady| == 11 && |AfterPress| == 11 && PrintReady[0] != AfterPress[0]
  {
  }

  /** A PROOF1 marker in the path wins over every other marker, CPR included,
      whatever the page name says. */
  lemma ProofOnePrecedence(name: string, path: string)
    requires MarksProofOne(NormalizePath(path))
    ensures DetectProof(name, path) == Proof1
  {
  }

  // ---------------------------------------------------------------------------
  // The cascade as data
  // ---------------------------------------------------------------------------

  /** One rule: it fires when the path holds one of `pathMarkers` or the
      name holds one of `nameMarkers`. */
  datatype StageRule = StageRule(pathMarkers: seq<string>, nameMarkers: seq<string>, stage: string)

  const StageRules: seq<StageRule> := [
    StageRule(["PROOF1", "PROOF 1", "1 PROOF"], [], Proof1),
    StageRule(["PRE PRESS"], ["-PR", "PR-"], PrintReady),
    StageRule(["AFTER PRESS"], ["-AP", "AP-"], AfterPress),
    StageRule(["CPR"], [], Cpr),
    StageRule(["PRINT READY", "PRESS PRINT READY CHANGES"], ["-PR", "PR-"], PrintReady),
    StageRule(["PRESS"], [], Press)
  ]

  predicate ContainsAny(s: string, markers: seq<string>) {
    exists k :: 0 <= k < |markers| && Contains(s, markers[k])
  }

  predicate Fires(rule: StageRule, name: string, path: string) {
    ContainsAny(path, rule.pathMarkers) || ContainsAny(name, rule.nameMarkers)
  }

  /** First-match-wins classification over an ordered rule list; "" when no
      rule fires. */
  function Classify(rules: seq<StageRule>, name: string, path: string): (r: string)
    ensures (forall k :: 0 <= k < |rules| ==> !Fires(rules[k], name, path)) ==> r == NoStage
    ensures r != NoStage ==> exists k :: 0 <= k < |rules| && rules[k].stage == r && Fires(rules[k], name, path)
  {
    if |rules| == 0 then NoStage
    else if Fires(rules[0], name, path) then rules[0].stage
    else
      var r := Classify(rules[1..], name, path);
      assert forall k :: 1 <= k < |rules| ==> rules[k] == rules[1..][k - 1];
      r
  }

  /** The rule that fires first decides, whatever the later rules say. */
  lemma {:induction false} ClassifyFirstFiring(rules: seq<StageRule>, name: string, path: string, k: nat)
    requires k < |rules| && Fires(rules[k], name, path)
    requires forall j :: 0 <= j < k ==> !Fires(rules[j], name, path)
    ensures Classify(rules, name, path) == rules[k].stage
  {
    if k > 0 {
      assert !Fires(rules[0], name, path);
      ClassifyFirstFiring(rules[1..], name, path, k - 1);
    }
  }

  lemma ContainsAnyOf1(s: string, a: string)
    ensures ContainsAny(s, [a]) <==> Contains(s, a)
  {
    assert [a][0] == a;
  }

  lemma ContainsAnyOf2(s: string, a: string, b: string)
    ensures ContainsAny(s, [a, b]) <==> Contains(s, a) || Contains(s, b)
  {
    assert [a, b][0] == a && [a, b][1] == b;
  }

  lemma ContainsAnyOf3(s: string, a: string, b: string, c: string)
    ensures ContainsAny(s, [a, b, c]) <==> Contains(s, a) || Contains(s, b) || Contains(s, c)
  {
    assert [a, b, c][0] == a && [a, b, c][1] == b && [a, b, c][2] == c;
  }

  /** Each entry of `StageRules` fires exactly when the matching branch of
      `DetectProof` is taken (before precedence is applied). */
  lemma StageRulesFire(n: string, p: string)
    ensures Fires(StageRules[0], n, p) <==> MarksProofOne(p)
    ensures Fires(StageRules[1], n, p) <==> Contains(p, "PRE PRESS") || NameMarksPrePress(n)
    ensures Fires(StageRules[2], n, p) <==> Contains(p, "AFTER PRESS") || NameMarksAfterPress(n)
    ensures Fires(StageRules[3], n, p) <==> Contains(p, "CPR")
    ensures Fires(StageRules[4], n, p) <==>
      Contains(p, "PRINT READY") || Contains(p, "PRESS PRINT READY CHANGES") || NameMarksPrePress(n)
    ensures Fires(StageRules[5], n, p) <==> Contains(p, "PRESS")
  {
    ContainsAnyOf3(p, "PROOF1", "PROOF 1", "1 PROOF");
    ContainsAnyOf1(p, "PRE PRESS");
    ContainsAnyOf2(n, "-PR", "PR-");
    ContainsAnyOf1(p, "AFTER PRESS");
    ContainsAnyOf2(n, "-AP", "AP-");
    ContainsAnyOf1(p, "CPR");
    ContainsAnyOf2(p, "PRINT READY", "PRESS PRINT READY CHANGES");
    ContainsAnyOf1(p, "PRESS");
    assert !ContainsAny(n, []);
  }

  /** `detect_proof` is exactly first-match classification over `StageRules`. */
  lemma DetectProofIsTableDriven(name: string, path: string)
    ensures DetectProof(name, path) == Classify(StageRules, Upper(name), NormalizePath(path))
  {
    var n := Upper(name);
    var p := NormalizePath(path);
    var rs := StageRules;
    StageRulesFire(n, p);
    var k :| 0 <= k <= 6 && (k == 6 || Fires(rs[k], n, p)) && forall j :: 0 <= j < k ==> !Fires(rs[j], n, p);
    if k < 6 {
      ClassifyFirstFiring(rs, n, p, k);
    } else {
      assert forall j :: 0 <= j < |rs| ==> !Fires(rs[j], n, p);
    }
  }
}

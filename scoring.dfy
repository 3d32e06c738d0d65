/** The post-match helpers of the bot's result announcer: the man of the
    match, team totals, the rotation score, the side-by-side bolding of the
    larger value, the collective team analysis, and the id carried by the
    player-detail menu.

    A player is the JSON object posted by the game plugin; its numeric stats
    are a map from field name to number, a missing field reading as 0 as
    `p[field] || 0` does. Message rendering is left out. */
module Scoring {
  import opened Common

  datatype Player = Player(name: string, team: int, stats: map<string, real>)

  /** `p[field] || 0`. */
  function Field(p: Player, field: string): real
  {
    if field in p.stats then p.stats[field] else 0.0
  }

  /** The rotation quality when it is a positive number, else 0. */
  function Rotation(p: Player): (r: real)
    ensures r >= 0.0
    ensures r > 0.0 <==> "rotationQuality" in p.stats && p.stats["rotationQuality"] > 0.0
  {
    if "rotationQuality" in p.stats && p.stats["rotationQuality"] > 0.0 then p.stats["rotationQuality"] else 0.0
  }

  /** The weighted value the man of the match is chosen by. */
  function MotmValue(p: Player): real
  {
    Field(p, "score") + Field(p, "goals") * 100.0 + Field(p, "assists") * 50.0
      + Field(p, "saves") * 50.0 + Field(p, "shots") * 10.0 + Rotation(p) * 100.0
  }

  /** A running best value: JavaScript's `-Infinity`, or a number. */
  datatype Extended = NegInf | Fin(value: real)

  predicate Exceeds(v: real, e: Extended)
  {
    e.NegInf? || v > e.value
  }

  /** `calculateMotm`: the position of the player with the largest value,
      the earliest one when several tie, and that value; no player and
      `-Infinity` for an empty list. */
  method CalculateMotm(players: seq<Player>) returns (best: Option<nat>, bestVal: Extended)
    ensures best.None? <==> players == []
    ensures best.None? ==> bestVal == NegInf
    ensures best.Some? ==> best.value < |players| && bestVal == Fin(MotmValue(players[best.value]))
    ensures best.Some? ==> forall j :: 0 <= j < |players| ==> MotmValue(players[j]) <= MotmValue(players[best.value])
    ensures best.Some? ==> forall j :: 0 <= j < best.value ==> MotmValue(players[j]) < MotmValue(players[best.value])
  {
    best, bestVal := None, NegInf;
    for i := 0 to |players|
      invariant best.None? <==> i == 0
      invariant best.None? ==> bestVal == NegInf
      invariant best.Some? ==> best.value < i && bestVal == Fin(MotmValue(players[best.value]))
      invariant best.Some? ==> forall j :: 0 <= j < i ==> MotmValue(players[j]) <= MotmValue(players[best.value])
      invariant best.Some? ==> forall j :: 0 <= j < best.value ==> MotmValue(players[j]) < MotmValue(players[best.value])
    {
      var v := MotmValue(players[i]);
      if Exceeds(v, bestVal) {
        best, bestVal := Some(i), Fin(v);
      }
    }
  }

  /** `sum(arr, field)`: the left fold of `acc + (p[field] || 0)` from 0. */
  function Sum(arr: seq<Player>, field: string): real
  {
    if arr == [] then 0.0 else Sum(arr[..|arr| - 1], field) + Field(arr[|arr| - 1], field)
  }

  /** Totals over two groups of players add up. */
  lemma {:induction false} SumAppend(a: seq<Player>, b: seq<Player>, field: string)
    ensures Sum(a + b, field) == Sum(a, field) + Sum(b, field)
    decreases |b|
  {
    if b == [] {
      assert a + b == a;
    } else {
      assert (a + b)[..|a + b| - 1] == a + b[..|b| - 1];
      SumAppend(a, b[..|b| - 1], field);
    }
  }

  /** A field nobody has sums to 0, as does an empty list. */
  lemma {:induction false} SumMissing(arr: seq<Player>, field: string)
    requires forall p :: p in arr ==> field !in p.stats
    ensures Sum(arr, field) == 0.0
  {
    if arr != [] {
      assert forall p :: p in arr[..|arr| - 1] ==> p in arr;
      SumMissing(arr[..|arr| - 1], field);
    }
  }

  /** The positive rotation qualities, in order (the `valid` filter). */
  function Qualities(arr: seq<Player>): (q: seq<real>)
    ensures |q| <= |arr|
  {
    if arr == [] then []
    else
      var rest := Qualities(arr[1..]);
      if Rotation(arr[0]) > 0.0 then [Rotation(arr[0])] + rest else rest
  }

  /** The filter keeps every positive quality and nothing else. */
  lemma {:induction false} QualitiesMembers(arr: seq<Player>)
    ensures forall x :: x in Qualities(arr) ==> x > 0.0
    ensures forall p :: p in arr && Rotation(p) > 0.0 ==> Rotation(p) in Qualities(arr)
    ensures forall x :: x in Qualities(arr) ==> exists p :: p in arr && Rotation(p) == x
    ensures Qualities(arr) == [] <==> forall p :: p in arr ==> Rotation(p) == 0.0
  {
    if arr != [] {
      QualitiesMembers(arr[1..]);
      assert forall p :: p in arr[1..] ==> p in arr;
      assert forall p :: p in arr ==> p == arr[0] || p in arr[1..];
    }
  }

  function SumReals(xs: seq<real>): real
  {
    if xs == [] then 0.0 else xs[0] + SumReals(xs[1..])
  }

  /** `Math.round`: the nearest integer, halves rounded up. */
  function Round(x: real): (r: int)
    ensures r as real - 0.5 <= x < r as real + 0.5
  {
    (x + 0.5).Floor
  }

  /** `rotationScore`: 0 when nobody has a positive rotation quality,
      otherwise the rounded average of those qualities, times 100. */
  function RotationScore(arr: seq<Player>): (r: int)
    ensures (forall p :: p in arr ==> Rotation(p) == 0.0) ==> r == 0
  {
    QualitiesMembers(arr);
    var q := Qualities(arr);
    if |q| == 0 then 0 else Round(SumReals(q) / (|q| as real) * 100.0)
  }

  /** Numbers in (0, 1] sum to at most their count, and to more than 0
      when there is one. */
  lemma {:induction false} SumRealsBounds(xs: seq<real>)
    requires forall x :: x in xs ==> 0.0 < x <= 1.0
    ensures 0.0 <= SumReals(xs) <= |xs| as real
    ensures |xs| > 0 ==> SumReals(xs) > 0.0
  {
    if xs != [] {
      assert xs[0] in xs;
      assert forall x :: x in xs[1..] ==> x in xs;
      SumRealsBounds(xs[1..]);
    }
  }

  /** With qualities in (0, 1], as the plugin reports them, the score is a
      percentage. */
  lemma RotationScoreIsPercentage(arr: seq<Player>)
    requires forall p :: p in arr ==> Rotation(p) <= 1.0
    ensures 0 <= RotationScore(arr) <= 100
  {
    var q := Qualities(arr);
    if |q| > 0 {
      QualitiesAtMostOne(arr, q);
      SumRealsBounds(q);
      AverageAtMostOne(SumReals(q), |q| as real);
      PercentOfFraction(SumReals(q) / (|q| as real));
    }
  }

  lemma QualitiesAtMostOne(arr: seq<Player>, q: seq<real>)
    requires forall p :: p in arr ==> Rotation(p) <= 1.0
    requires q == Qualities(arr)
    ensures forall x :: x in q ==> 0.0 < x <= 1.0
  {
    QualitiesMembers(arr);
    forall x | x in q ensures 0.0 < x <= 1.0 {
      var p :| p in arr && Rotation(p) == x;
    }
  }

  lemma AverageAtMostOne(total: real, n: real)
    requires 0.0 < total <= n
    ensures 0.0 < total / n <= 1.0
  {
  }

  lemma PercentOfFraction(avg: real)
    requires 0.0 < avg <= 1.0
    ensures 0 <= Round(avg * 100.0) <= 100
  {
  }

  /** A table cell, bolded or not. */
  datatype Cell = Plain(v: real) | Bold(v: real)

  /** `boldIfGreater`: both values in input order, with exactly the strictly
      larger one bolded and neither on a tie. */
  function BoldIfGreater(v1: real, v2: real): (r: (Cell, Cell))
    ensures r.0.v == v1 && r.1.v == v2
    ensures r.0.Bold? <==> v1 > v2
    ensures r.1.Bold? <==> v2 > v1
    ensures !(r.0.Bold? && r.1.Bold?)
  {
    if v1 > v2 then (Bold(v1), Plain(v2))
    else if v2 > v1 then (Plain(v1), Bold(v2))
    else (Plain(v1), Plain(v2))
  }

  /** Swapping the arguments swaps the cells. */
  lemma BoldIfGreaterSymmetric(v1: real, v2: real)
    ensures BoldIfGreater(v2, v1) == (BoldIfGreater(v1, v2).1, BoldIfGreater(v1, v2).0)
  {
  }

  /** `Math.max(0, Math.min(100, x))`. */
  function Clamp(x: real): (r: real)
    ensures 0.0 <= r <= 100.0
    ensures 0.0 <= x <= 100.0 ==> r == x
    ensures x < 0.0 ==> r == 0.0
    ensures x > 100.0 ==> r == 100.0
  {
    if x > 100.0 then 100.0 else if x < 0.0 then 0.0 else x
  }

  const Excellent: string := "Excellente cohésion et rotations fluides"
  const Good: string := "Bonne cohésion mais trop de double commits"
  const Average: string := "Cohésion moyenne et défense perfectible"
  const Disorganised: string := "Équipe désorganisée"

  /** The comment for a note: one band per threshold 80, 60 and 40. */
  function Comment(note: real): (r: string)
    ensures r == Excellent <==> note >= 80.0
    ensures r == Good <==> 60.0 <= note < 80.0
    ensures r == Average <==> 40.0 <= note < 60.0
    ensures r == Disorganised <==> note < 40.0
  {
    assert Excellent[0] == 'E' && Good[0] == 'B' && Average[0] == 'C' && Disorganised[0] == 'É';
    if note >= 80.0 then Excellent
    else if note >= 60.0 then Good
    else if note >= 40.0 then Average
    else Disorganised
  }

  /** The labels whose condition holds, in order: what a run of
      `if (cond) list.push(label)` leaves in the list. */
  function Selected(conds: seq<bool>, labels: seq<string>): (r: seq<string>)
    requires |conds| == |labels|
    ensures |r| <= |labels|
  {
    if conds == [] then []
    else
      var rest := Selected(conds[1..], labels[1..]);
      if conds[0] then [labels[0]] + rest else rest
  }

  /** A label is listed exactly when some position holding it has its
      condition true. */
  lemma {:induction false} SelectedMembers(conds: seq<bool>, labels: seq<string>)
    requires |conds| == |labels|
    ensures forall x :: x in Selected(conds, labels) <==> exists i :: 0 <= i < |labels| && conds[i] && labels[i] == x
  {
    if conds != [] {
      SelectedMembers(conds[1..], labels[1..]);
      assert forall i :: 1 <= i < |labels| ==> conds[1..][i - 1] == conds[i] && labels[1..][i - 1] == labels[i];
    }
  }

  /** One `if (cond) list.push(label)` ahead of the rest. */
  lemma SelectedStep(conds: seq<bool>, labels: seq<string>)
    requires |conds| == |labels| > 0
    ensures Selected(conds, labels) == (if conds[0] then [labels[0]] else []) + Selected(conds[1..], labels[1..])
  {
    if !conds[0] {
      assert [] + Selected(conds[1..], labels[1..]) == Selected(conds[1..], labels[1..]);
    }
  }

  /** Four pushes in a row, one per condition. */
  lemma SelectedFour(conds: seq<bool>, labels: seq<string>)
    requires |conds| == |labels| == 4
    ensures Selected(conds, labels) == (if conds[0] then [labels[0]] else []) + ((if conds[1] then [labels[1]] else [])
                                       + ((if conds[2] then [labels[2]] else []) + (if conds[3] then [labels[3]] else [])))
  {
    var c1, l1 := conds[1..], labels[1..];
    var c2, l2 := c1[1..], l1[1..];
    var c3, l3 := c2[1..], l2[1..];
    SelectedStep(conds, labels);
    SelectedStep(c1, l1);
    SelectedStep(c2, l2);
    SelectedStep(c3, l3);
    assert Selected(c3[1..], l3[1..]) == [];
    assert Selected(c3, l3) == if conds[3] then [labels[3]] else [];
  }

  /** With distinct labels, a label is in the list exactly when its own
      condition holds. */
  lemma SelectedMember(conds: seq<bool>, labels: seq<string>, i: nat)
    requires |conds| == |labels| && i < |labels|
    requires forall j, k :: 0 <= j < k < |labels| ==> labels[j] != labels[k]
    ensures labels[i] in Selected(conds, labels) <==> conds[i]
  {
    SelectedMembers(conds, labels);
    if labels[i] in Selected(conds, labels) {
      var j :| 0 <= j < |labels| && conds[j] && labels[j] == labels[i];
      assert j == i;
    }
  }

  datatype Analysis = Analysis(note: real, comment: string, forces: seq<string>,
                               weaknesses: seq<string>, recommendations: seq<string>)

  const ForceLabels: seq<string> := ["bonne rotation", "relances propres", "engagement constant",
                                     "bonne couverture défensive"]
  const WeaknessLabels: seq<string> := ["trop de double commits", "boost mal géré",
                                        "open nets manqués", "mauvaise couverture défensive"]
  const RecommendationLabels: seq<string> := ["Travaillez vos rotations en scrim",
                                              "Communiquez plus pour éviter les double commits",
                                              "Optimisez la prise de boost", "Renforcez la défense ensemble"]

  lemma LabelsDistinct()
    ensures forall j, k :: 0 <= j < k < 4 ==> ForceLabels[j] != ForceLabels[k]
    ensures forall j, k :: 0 <= j < k < 4 ==> WeaknessLabels[j] != WeaknessLabels[k]
    ensures forall j, k :: 0 <= j < k < 4 ==> RecommendationLabels[j] != RecommendationLabels[k]
  {
    assert ForceLabels[0][6] == 'r' && ForceLabels[1][0] == 'r' && ForceLabels[2][0] == 'e' && ForceLabels[3][6] == 'c';
    assert ForceLabels[0][0] == 'b' && ForceLabels[3][0] == 'b';
    assert WeaknessLabels[0][0] == 't' && WeaknessLabels[1][0] == 'b' && WeaknessLabels[2][0] == 'o' && WeaknessLabels[3][0] == 'm';
    assert RecommendationLabels[0][0] == 'T' && RecommendationLabels[2][0] == 'O' && RecommendationLabels[3][0] == 'R';
    assert RecommendationLabels[1] != RecommendationLabels[0] && RecommendationLabels[1] != RecommendationLabels[2];
    assert RecommendationLabels[1] != RecommendationLabels[3];
  }

  /** `(s('boostPickups') || 1) / 2`: a zero total counts as 1. */
  function BoostThreshold(arr: seq<Player>): real
  {
    (if Sum(arr, "boostPickups") == 0.0 then 1.0 else Sum(arr, "boostPickups")) / 2.0
  }

  /** When each strength, weakness and recommendation is pushed. */
  function ForceConditions(arr: seq<Player>): seq<bool>
  {
    [RotationScore(arr) > 70, Sum(arr, "cleanClears") > |arr| as real,
     Sum(arr, "highPressings") >= |arr| as real, Sum(arr, "saves") >= |arr| as real]
  }

  function WeaknessConditions(arr: seq<Player>): seq<bool>
  {
    [Sum(arr, "doubleCommits") > |arr| as real / 2.0, Sum(arr, "wastedBoostPickups") > BoostThreshold(arr),
     Sum(arr, "missedOpenGoals") > 0.0, Sum(arr, "defensiveChallenges") < |arr| as real]
  }

  function RecommendationConditions(arr: seq<Player>): seq<bool>
  {
    [RotationScore(arr) < 70, Sum(arr, "doubleCommits") > |arr| as real / 2.0,
     Sum(arr, "wastedBoostPickups") > BoostThreshold(arr), Sum(arr, "defensiveChallenges") < |arr| as real]
  }

  /** Four `if (cond) list.push(label)` statements on a fresh list. */
  method PushWhen(conds: seq<bool>, labels: seq<string>) returns (list: seq<string>)
    requires |conds| == |labels| == 4
    ensures list == Selected(conds, labels)
  {
    list := [];
    if conds[0] { list := list + [labels[0]]; }
    if conds[1] { list := list + [labels[1]]; }
    if conds[2] { list := list + [labels[2]]; }
    if conds[3] { list := list + [labels[3]]; }
    SelectedFour(conds, labels);
  }

  /** `analyzeTeam`: the clamped collective note and its comment, and the
      strengths, weaknesses and recommendations each pushed when its
      condition on the team's totals holds. */
  method AnalyzeTeam(arr: seq<Player>) returns (a: Analysis)
    ensures a.note == Clamp(RotationScore(arr) as real - Sum(arr, "doubleCommits") * 5.0 + Sum(arr, "goals") * 2.0)
    ensures 0.0 <= a.note <= 100.0
    ensures a.comment == Comment(a.note)
    ensures a.forces == Selected(ForceConditions(arr), ForceLabels)
    ensures a.weaknesses == Selected(WeaknessConditions(arr), WeaknessLabels)
    ensures a.recommendations == Selected(RecommendationConditions(arr), RecommendationLabels)
  {
    var note := Clamp(RotationScore(arr) as real - Sum(arr, "doubleCommits") * 5.0 + Sum(arr, "goals") * 2.0);
    var comment := Disorganised;
    if note >= 80.0 {
      comment := Excellent;
    } else if note >= 60.0 {
      comment := Good;
    } else if note >= 40.0 {
      comment := Average;
    }

    var forces := PushWhen(ForceConditions(arr), ForceLabels);
    var weaknesses := PushWhen(WeaknessConditions(arr), WeaknessLabels);
    var reco := PushWhen(RecommendationConditions(arr), RecommendationLabels);
    a := Analysis(note, comment, forces, weaknesses, reco);
  }

  /** Each label is listed exactly when its condition holds; a team with many
      double commits, or too few defensive challenges, is told so and told
      what to do about it; and a rotation score of exactly 70 earns neither
      the rotation strength nor the rotation advice. */
  lemma AnalysisListsAgree(arr: seq<Player>, i: nat)
    requires i < 4
    ensures ForceLabels[i] in Selected(ForceConditions(arr), ForceLabels) <==> ForceConditions(arr)[i]
    ensures WeaknessLabels[i] in Selected(WeaknessConditions(arr), WeaknessLabels) <==> WeaknessConditions(arr)[i]
    ensures RecommendationLabels[i] in Selected(RecommendationConditions(arr), RecommendationLabels) <==>
              RecommendationConditions(arr)[i]
    ensures WeaknessLabels[0] in Selected(WeaknessConditions(arr), WeaknessLabels) <==>
              RecommendationLabels[1] in Selected(RecommendationConditions(arr), RecommendationLabels)
    ensures WeaknessLabels[3] in Selected(WeaknessConditions(arr), WeaknessLabels) <==>
              RecommendationLabels[3] in Selected(RecommendationConditions(arr), RecommendationLabels)
    ensures RotationScore(arr) == 70 ==>
              ForceLabels[0] !in Selected(ForceConditions(arr), ForceLabels) &&
              RecommendationLabels[0] !in Selected(RecommendationConditions(arr), RecommendationLabels)
  {
    LabelsDistinct();
    SelectedMember(ForceConditions(arr), ForceLabels, i);
    SelectedMember(WeaknessConditions(arr), WeaknessLabels, i);
    SelectedMember(RecommendationConditions(arr), RecommendationLabels, i);
    SelectedMember(ForceConditions(arr), ForceLabels, 0);
    SelectedMember(WeaknessConditions(arr), WeaknessLabels, 0);
    SelectedMember(WeaknessConditions(arr), WeaknessLabels, 3);
    SelectedMember(RecommendationConditions(arr), RecommendationLabels, 0);
    SelectedMember(RecommendationConditions(arr), RecommendationLabels, 1);
    SelectedMember(RecommendationConditions(arr), RecommendationLabels, 3);
  }

  /** The player-detail menu's id: a fixed prefix and the id of the result
      message it belongs to. */
  const DetailPrefix: string := "select_joueur_detail_"

  function DetailMenuId(messageId: string): string
  {
    DetailPrefix + messageId
  }

  /** The select-menu handler: only ids that start with the prefix are
      handled, and the match id is the id with the prefix `replace`d by the
      empty string. */
  function DetailMatchId(customId: string): (r: Option<string>)
    ensures r.Some? <==> StartsWith(customId, DetailPrefix)
  {
    if StartsWith(customId, DetailPrefix) then Some(ReplaceFirst(customId, DetailPrefix, "")) else None
  }

  /** Stripping the prefix from a menu id gives back the message id. */
  lemma DetailMenuIdRoundTrip(messageId: string)
    ensures DetailMatchId(DetailMenuId(messageId)) == Some(messageId)
  {
    var c := DetailMenuId(messageId);
    assert c[..|DetailPrefix|] == DetailPrefix;
    ReplaceFirstAtFront(c, DetailPrefix, "");
    assert c[|DetailPrefix|..] == messageId;
    assert "" + messageId == messageId;
    assert StartsWith(c, DetailPrefix);
  }

  /** Every id the handler accepts is the menu id of the match id it
      extracts. */
  lemma DetailMatchIdRoundTrip(customId: string)
    requires DetailMatchId(customId).Some?
    ensures DetailMenuId(DetailMatchId(customId).value) == customId
  {
    ReplaceFirstAtFront(customId, DetailPrefix, "");
    var rest := customId[|DetailPrefix|..];
    assert "" + rest == rest;
    assert customId == customId[..|DetailPrefix|] + rest;
  }
}

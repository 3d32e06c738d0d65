/** The rank table of the bot: an MMR value is matched against seven
    contiguous integer ranges, scanned in order, and a player is looked up by
    name in a JSON object of MMR values. JavaScript numbers are modelled as
    `real`; the file read and JSON parse become the `data` parameter. */
module RankVerifier {
  import opened Common

  /** A range's upper end: a number, or JavaScript's `Infinity`. */
  datatype Bound = Finite(value: real) | Infinity

  datatype Threshold = Threshold(rank: string, min: real, max: Bound)

  const Thresholds: seq<Threshold> := [
    Threshold("Bronze", 0.0, Finite(999.0)),
    Threshold("Silver", 1000.0, Finite(1499.0)),
    Threshold("Gold", 1500.0, Finite(1999.0)),
    Threshold("Platinum", 2000.0, Finite(2499.0)),
    Threshold("Diamond", 2500.0, Finite(2999.0)),
    Threshold("Champion", 3000.0, Finite(3499.0)),
    Threshold("Grand Champion", 3500.0, Infinity)
  ]

  const Unranked: string := "Unranked"

  /** `mmr >= t.min && mmr <= t.max`, where every number is `<= Infinity`. */
  predicate InRange(t: Threshold, mmr: real)
  {
    mmr >= t.min && (t.max.Infinity? || mmr <= t.max.value)
  }

  /** The scan of `computeRank` from position `i`: the first range at or
      after `i` that holds `mmr`. */
  function RankIndexFrom(mmr: real, i: nat): (r: Option<nat>)
    ensures r.Some? ==> i <= r.value < |Thresholds| && InRange(Thresholds[r.value], mmr)
    ensures r.Some? ==> forall j :: i <= j < r.value ==> !InRange(Thresholds[j], mmr)
    ensures r.None? ==> forall j :: i <= j < |Thresholds| ==> !InRange(Thresholds[j], mmr)
    decreases |Thresholds| - i
  {
    if i >= |Thresholds| then None
    else if InRange(Thresholds[i], mmr) then Some(i)
    else RankIndexFrom(mmr, i + 1)
  }

  function RankIndex(mmr: real): Option<nat>
  {
    RankIndexFrom(mmr, 0)
  }

  /** `computeRank`: the name of the first range holding `mmr`, or
      `Unranked` when none does. */
  function ComputeRank(mmr: real): (r: string)
    ensures r == Unranked <==> forall j :: 0 <= j < |Thresholds| ==> !InRange(Thresholds[j], mmr)
    ensures r != Unranked ==> exists j :: 0 <= j < |Thresholds| && InRange(Thresholds[j], mmr) && r == Thresholds[j].rank
  {
    match RankIndex(mmr)
    case None => Unranked
    case Some(i) => assert Thresholds[i].rank != Unranked; Thresholds[i].rank
  }

  /** Each finite range ends one below where the next begins, and only the
      last is unbounded. */
  lemma TableIsContiguous()
    ensures Thresholds[0].min == 0.0
    ensures forall i :: 0 <= i < |Thresholds| - 1 ==>
              Thresholds[i].max == Finite(Thresholds[i + 1].min - 1.0)
    ensures Thresholds[|Thresholds| - 1].max == Infinity
    ensures forall i :: 0 <= i < |Thresholds| ==> Thresholds[i].min.Floor as real == Thresholds[i].min
    ensures forall i :: 0 <= i < |Thresholds| && Thresholds[i].max.Finite? ==> Thresholds[i].min <= Thresholds[i].max.value
  {
  }

  /** The ranges do not overlap: below the range at index `i` every later
      range starts above, and every earlier one ends below. */
  lemma {:induction false} RangesOrdered(i: nat, j: nat)
    requires i < j < |Thresholds|
    ensures Thresholds[i].max.Finite?
    ensures Thresholds[i].max.value < Thresholds[j].min
  {
    TableIsContiguous();
    if j > i + 1 {
      RangesOrdered(i, j - 1);
    }
  }

  /** A range holding `mmr` is the one the scan stops at. */
  lemma RankIndexOfRange(mmr: real, i: nat)
    requires i < |Thresholds| && InRange(Thresholds[i], mmr)
    ensures RankIndex(mmr) == Some(i)
  {
    forall j | 0 <= j < |Thresholds| && j != i
      ensures !InRange(Thresholds[j], mmr)
    {
      if j < i {
        RangesOrdered(j, i);
      } else {
        RangesOrdered(i, j);
      }
    }
  }

  /** The three values of the source's test. */
  lemma ComputeRankExamples()
    ensures ComputeRank(900.0) == "Bronze"
    ensures ComputeRank(1100.0) == "Silver"
    ensures ComputeRank(1600.0) == "Gold"
  {
    RankIndexOfRange(900.0, 0);
    RankIndexOfRange(1100.0, 1);
    RankIndexOfRange(1600.0, 2);
  }

  /** Every whole MMR of at least 0 lies in exactly one range, so it has a
      named rank. */
  lemma EveryWholeMmrRanked(n: int)
    requires n >= 0
    ensures RankIndex(n as real).Some?
    ensures forall j :: 0 <= j < |Thresholds| && InRange(Thresholds[j], n as real) ==> RankIndex(n as real) == Some(j)
    ensures ComputeRank(n as real) != Unranked
  {
    var x := n as real;
    var i := if n < 1000 then 0 else if n < 1500 then 1 else if n < 2000 then 2
             else if n < 2500 then 3 else if n < 3000 then 4 else if n < 3500 then 5 else 6;
    assert InRange(Thresholds[i], x);
    RankIndexOfRange(x, i);
    forall j | 0 <= j < |Thresholds| && InRange(Thresholds[j], x)
      ensures RankIndex(x) == Some(j)
    {
      RankIndexOfRange(x, j);
    }
  }

  /** Negative values, and fractions that fall between one range's end and
      the next one's start, have no rank. */
  lemma GapsAreUnranked(x: real)
    requires x < 0.0 || exists i :: 0 <= i < |Thresholds| - 1 && Thresholds[i].max.value < x < Thresholds[i + 1].min
    ensures ComputeRank(x) == Unranked
  {
    TableIsContiguous();
    if x >= 0.0 {
      var i :| 0 <= i < |Thresholds| - 1 && Thresholds[i].max.value < x < Thresholds[i + 1].min;
      forall j | 0 <= j < |Thresholds|
        ensures !InRange(Thresholds[j], x)
      {
        if j < i {
          RangesOrdered(j, i);
        } else if j > i + 1 {
          RangesOrdered(i + 1, j);
        }
      }
    }
  }

  lemma GapExampleUnranked()
    ensures ComputeRank(999.5) == Unranked
  {
    assert Thresholds[0].max.value < 999.5 < Thresholds[1].min;
    GapsAreUnranked(999.5);
  }

  lemma TopRank(x: real)
    requires x >= 3500.0
    ensures ComputeRank(x) == "Grand Champion"
  {
    RankIndexOfRange(x, 6);
  }

  /** A higher MMR never gets a lower rank. */
  lemma RankMonotone(a: real, b: real)
    requires a <= b && RankIndex(a).Some? && RankIndex(b).Some?
    ensures RankIndex(a).value <= RankIndex(b).value
  {
    var i := RankIndex(a).value;
    forall k | 0 <= k < i
      ensures !InRange(Thresholds[k], b)
    {
      RangesOrdered(k, i);
    }
  }

  /** A parsed JSON value. */
  datatype Json = JNull | JBool(b: bool) | JNumber(n: real) | JString(s: string)
                | JArray(items: seq<Json>) | JObject(fields: map<string, Json>)

  datatype Verified = Verified(name: string, mmr: real, rank: string)

  /** `verifyPlayer`: `Joueur inconnu` unless the file's entry for `name` is
      a number; otherwise the name, the MMR and its rank. */
  function VerifyPlayer(data: map<string, Json>, name: string): (r: Result<Verified>)
    ensures r.Err? <==> name !in data || !data[name].JNumber?
    ensures r.Err? ==> r.msg == "Joueur inconnu"
    ensures r.Ok? ==> r.value.name == name && r.value.mmr == data[name].n
    ensures r.Ok? ==> r.value.rank == ComputeRank(data[name].n)
  {
    if name !in data || !data[name].JNumber? then Err("Joueur inconnu")
    else Ok(Verified(name, data[name].n, ComputeRank(data[name].n)))
  }

  /** A listed player's rank is the range their MMR falls in. */
  lemma VerifyPlayerRank(data: map<string, Json>, name: string, i: nat)
    requires name in data && data[name].JNumber? && i < |Thresholds| && InRange(Thresholds[i], data[name].n)
    ensures VerifyPlayer(data, name) == Ok(Verified(name, data[name].n, Thresholds[i].rank))
  {
    RankIndexOfRange(data[name].n, i);
  }
}

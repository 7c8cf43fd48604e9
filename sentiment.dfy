/**
 * Scored records and what is computed from one day's records: the
 * low-confidence relabelling, the confidence-weighted ratio and the
 * strongest title that mentions the day's top word.
 */
module Sentiment {
  import opened Wrappers
  import opened Text
  import opened Calendar

  /** A wall-clock time: a calendar date and the minute of that day. */
  datatype Timestamp = Timestamp(date: Date, minute: int)

  predicate ValidTimestamp(t: Timestamp) {
    Valid(t.date) && 0 <= t.minute < 24 * 60
  }

  /** One input row: `date_time`, `confidence`, `sentiment` and a possibly missing `title`. */
  datatype Record = Record(time: Timestamp, confidence: real, sentiment: int, title: Option<string>)

  // ---------------------------------------------------------------------------
  // Relabelling: `df.loc[df['confidence'] <= threshold, 'sentiment'] = 0`
  // ---------------------------------------------------------------------------

  function RelabelRecord(r: Record, threshold: real): Record {
    if r.confidence <= threshold then r.(sentiment := 0) else r
  }

  function Relabeled(rs: seq<Record>, threshold: real): seq<Record> {
    seq(|rs|, i requires 0 <= i < |rs| => RelabelRecord(rs[i], threshold))
  }

  /**
   * After relabelling, a record at or below the threshold carries polarity 0,
   * every other record keeps its polarity, and nothing but the polarity changes.
   */
  lemma RelabeledSpec(rs: seq<Record>, threshold: real)
    ensures |Relabeled(rs, threshold)| == |rs|
    ensures forall i :: 0 <= i < |rs| ==>
              var r := Relabeled(rs, threshold)[i];
              && r.sentiment == (if rs[i].confidence <= threshold then 0 else rs[i].sentiment)
              && r.time == rs[i].time && r.confidence == rs[i].confidence && r.title == rs[i].title
  {
  }

  /** Relabelling twice with one threshold is relabelling once. */
  lemma RelabelIdempotent(rs: seq<Record>, threshold: real)
    ensures Relabeled(Relabeled(rs, threshold), threshold) == Relabeled(rs, threshold)
  {
  }

  /** The in-place column write, one row at a time. */
  method RelabelInPlace(a: array<Record>, threshold: real)
    modifies a
    ensures a[..] == Relabeled(old(a[..]), threshold)
  {
    for i := 0 to a.Length
      invariant forall k :: 0 <= k < i ==> a[k] == RelabelRecord(old(a[k]), threshold)
      invariant forall k :: i <= k < a.Length ==> a[k] == old(a[k])
    {
      if a[i].confidence <= threshold {
        a[i] := a[i].(sentiment := 0);
      }
    }
  }

  // ---------------------------------------------------------------------------
  // Confidence weights
  // ---------------------------------------------------------------------------

  /** `group['confidence'].sum()`. */
  function TotalWeight(rs: seq<Record>): real {
    if rs == [] then 0.0 else rs[0].confidence + TotalWeight(rs[1..])
  }

  /** `group[group['sentiment'] == polarity]['confidence'].sum()`. */
  function PolarityWeight(rs: seq<Record>, polarity: int): real {
    if rs == [] then 0.0
    else (if rs[0].sentiment == polarity then rs[0].confidence else 0.0) + PolarityWeight(rs[1..], polarity)
  }

  /** Confidence of the records above the threshold that carry `polarity` as loaded. */
  function ConfidentWeight(rs: seq<Record>, threshold: real, polarity: int): real {
    if rs == [] then 0.0
    else (if rs[0].confidence > threshold && rs[0].sentiment == polarity then rs[0].confidence else 0.0)
         + ConfidentWeight(rs[1..], threshold, polarity)
  }

  /** Confidence of the records at or below the threshold. */
  function LowWeight(rs: seq<Record>, threshold: real): real {
    if rs == [] then 0.0
    else (if rs[0].confidence <= threshold then rs[0].confidence else 0.0) + LowWeight(rs[1..], threshold)
  }

  predicate NonNegative(rs: seq<Record>) {
    forall i :: 0 <= i < |rs| ==> rs[i].confidence >= 0.0
  }

  predicate AllAtMost(rs: seq<Record>, threshold: real) {
    forall i :: 0 <= i < |rs| ==> rs[i].confidence <= threshold
  }

  /**
   * What a polarity's weight is after relabelling: the confident records that
   * carried the polarity, plus, for polarity 0, every low-confidence record.
   */
  lemma {:induction false} RelabeledPolarityWeight(rs: seq<Record>, threshold: real, polarity: int)
    ensures PolarityWeight(Relabeled(rs, threshold), polarity)
            == ConfidentWeight(rs, threshold, polarity) + (if polarity == 0 then LowWeight(rs, threshold) else 0.0)
  {
    if rs != [] {
      assert Relabeled(rs, threshold)[1..] == Relabeled(rs[1..], threshold);
      RelabeledPolarityWeight(rs[1..], threshold, polarity);
    }
  }

  lemma {:induction false} RelabeledTotalWeight(rs: seq<Record>, threshold: real)
    ensures TotalWeight(Relabeled(rs, threshold)) == TotalWeight(rs)
  {
    if rs != [] {
      assert Relabeled(rs, threshold)[1..] == Relabeled(rs[1..], threshold);
      RelabeledTotalWeight(rs[1..], threshold);
    }
  }

  /** With non-negative confidences a polarity's weight lies between 0 and the total. */
  lemma {:induction false} PolarityWeightBounds(rs: seq<Record>, polarity: int)
    ensures NonNegative(rs) ==> 0.0 <= PolarityWeight(rs, polarity) <= TotalWeight(rs)
  {
    if rs != [] {
      PolarityWeightBounds(rs[1..], polarity);
    }
  }

  /** When every record is at or below the threshold, all the weight is low weight. */
  lemma {:induction false} AllLowWeight(rs: seq<Record>, threshold: real)
    requires AllAtMost(rs, threshold)
    ensures LowWeight(rs, threshold) == TotalWeight(rs)
    ensures ConfidentWeight(rs, threshold, 0) == 0.0
  {
    if rs != [] {
      AllLowWeight(rs[1..], threshold);
    }
  }

  /**
   * `(part / total) * 100 if total > 0 else 0`: `part` as a percentage of
   * `total`, and 0 when there is no positive total to divide by.
   */
  function Percent(part: real, total: real): (r: real)
    ensures total <= 0.0 ==> r == 0.0
    ensures total > 0.0 ==> r * total == 100.0 * part
    ensures 0.0 <= part <= total ==> 0.0 <= r <= 100.0
    ensures total > 0.0 ==> (r == 0.0 <==> part == 0.0)
    ensures total > 0.0 ==> (r == 100.0 <==> part == total)
  {
    if total > 0.0 then
      FullShare(part, total);
      (part / total) * 100.0
    else 0.0
  }

  /**
   * `(weight / total_weight) * 100 if total_weight > 0 else 0`: the share of
   * the day's confidence that carries `polarity`, as a percentage.
   */
  function Ratio(rs: seq<Record>, polarity: int): (r: real)
    ensures TotalWeight(rs) <= 0.0 ==> r == 0.0
    ensures TotalWeight(rs) > 0.0 ==> r * TotalWeight(rs) == 100.0 * PolarityWeight(rs, polarity)
    ensures NonNegative(rs) ==> 0.0 <= r <= 100.0
    ensures NonNegative(rs) ==> (r == 0.0 <==> TotalWeight(rs) == 0.0 || PolarityWeight(rs, polarity) == 0.0)
    ensures NonNegative(rs) ==> (r == 100.0 <==> TotalWeight(rs) > 0.0 && PolarityWeight(rs, polarity) == TotalWeight(rs))
  {
    PolarityWeightBounds(rs, polarity);
    Percent(PolarityWeight(rs, polarity), TotalWeight(rs))
  }

  /**
   * The ratio computed on relabelled records is the percentage, of the total
   * confidence as loaded, held by the confident records of the polarity and,
   * for polarity 0, by every low-confidence record too.
   */
  lemma RelabeledRatio(rs: seq<Record>, threshold: real, polarity: int)
    ensures var share := ConfidentWeight(rs, threshold, polarity) + (if polarity == 0 then LowWeight(rs, threshold) else 0.0);
      Ratio(Relabeled(rs, threshold), polarity) == Percent(share, TotalWeight(rs))
    ensures NonNegative(rs) ==> 0.0 <= Ratio(Relabeled(rs, threshold), polarity) <= 100.0
  {
    var rel := Relabeled(rs, threshold);
    RelabeledPolarityWeight(rs, threshold, polarity);
    RelabeledTotalWeight(rs, threshold);
    if NonNegative(rs) {
      forall i | 0 <= i < |rel| ensures rel[i].confidence >= 0.0 {
        assert rel[i].confidence == rs[i].confidence;
      }
    }
  }

  lemma FullShare(part: real, total: real)
    requires total > 0.0
    ensures (part / total) * 100.0 == 100.0 <==> part == total
    ensures 0.0 <= part <= total ==> 0.0 <= (part / total) * 100.0 <= 100.0
  {
    var q := part / total;
    assert q * total == part;
    if 0.0 <= part <= total && q > 1.0 {
      assert false;
    }
  }

  // ---------------------------------------------------------------------------
  // The strongest title
  // ---------------------------------------------------------------------------

  /** `title.str.contains(word, na=False)`: a missing title never matches. */
  predicate Mentions(r: Record, word: string) {
    r.title.Some? && Contains(r.title.value, word)
  }

  /** Record `k` mentions `word` and has the highest confidence of all that do, and the first such. */
  ghost predicate IsStrongest(rs: seq<Record>, word: string, k: int) {
    && 0 <= k < |rs| && Mentions(rs[k], word)
    && (forall i :: 0 <= i < |rs| && Mentions(rs[i], word) ==> rs[i].confidence <= rs[k].confidence)
    && (forall i :: 0 <= i < k && Mentions(rs[i], word) ==> rs[i].confidence < rs[k].confidence)
  }

  /** `titles_with_top_word['confidence'].idxmax()` over the rows mentioning `word`. */
  function StrongestIndex(rs: seq<Record>, word: string): (k: Option<nat>)
    ensures k.None? <==> forall i :: 0 <= i < |rs| ==> !Mentions(rs[i], word)
    ensures k.Some? ==> IsStrongest(rs, word, k.value)
  {
    if rs == [] then None
    else
      var k0 := StrongestIndex(rs[..|rs| - 1], word);
      var last := |rs| - 1;
      if !Mentions(rs[last], word) then k0
      else if k0.None? || rs[last].confidence > rs[k0.value].confidence then Some(last)
      else k0
  }

  /**
   * `strongest_title_with_top_word`: empty when there is no top word or no
   * title mentions it; otherwise the title of the strongest mentioning record.
   */
  function StrongestTitle(rs: seq<Record>, word: string): (s: string)
    ensures s == "" <==> word == "" || forall i :: 0 <= i < |rs| ==> !Mentions(rs[i], word)
    ensures s != "" ==> exists k :: IsStrongest(rs, word, k) && rs[k].title == Some(s)
  {
    if word == "" then ""
    else
      match StrongestIndex(rs, word)
      case None => ""
      case Some(k) =>
        var t := rs[k].title.value;
        assert exists i :: OccursAt(t, word, i);
        t
  }
}

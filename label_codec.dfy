/**
 * The sentiment label codec shared by both annotation pages: the ordered
 * dictionary of label names and their integer codes, and the reverse lookup
 * that turns a code into a name for display.
 */
module LabelCodec {
  import opened Table

  /** The label dictionary in its declaration order: name, code. */
  const SentimentDict: seq<(string, int)> := [("Positive", 1), ("Negative", -1), ("Neutral", 0)]

  /** The dictionary's codes, in order (the manual page's label options). */
  function Codes(): (cs: seq<int>)
    ensures cs == [1, -1, 0]
  {
    seq(|SentimentDict|, i requires 0 <= i < |SentimentDict| => SentimentDict[i].1)
  }

  /**
   * The name of the first entry whose code is `value`, or None when no entry
   * has it (the generator's default, so an unknown code never raises).
   */
  function FirstKey(entries: seq<(string, int)>, value: int): (r: Option<string>)
    ensures r.None? <==> forall i :: 0 <= i < |entries| ==> entries[i].1 != value
    ensures r.Some? ==> exists i :: 0 <= i < |entries| && entries[i] == (r.value, value)
                                 && forall j :: 0 <= j < i ==> entries[j].1 != value
  {
    if entries == [] then None
    else if entries[0].1 == value then Some(entries[0].0)
    else
      var r := FirstKey(entries[1..], value);
      if r.None? then r
      else
        var i :| 0 <= i < |entries[1..]| && entries[1..][i] == (r.value, value)
                 && forall j :: 0 <= j < i ==> entries[1..][j].1 != value;
        assert entries[i + 1] == (r.value, value);
        assert forall j :: 0 <= j < i + 1 ==> entries[j].1 != value by {
          forall j | 0 <= j < i + 1 ensures entries[j].1 != value {
            if j > 0 { assert entries[j] == entries[1..][j - 1]; }
          }
        }
        r
  }

  /** `get_sentiment_label`: the display name of a code. */
  function LabelName(value: int): (r: Option<string>)
    ensures r.Some? <==> value in {1, -1, 0}
  {
    FirstKey(SentimentDict, value)
  }

  /** The three mappings and the fallback for any other code. */
  lemma LabelNames(value: int)
    ensures LabelName(1) == Some("Positive")
    ensures LabelName(-1) == Some("Negative")
    ensures LabelName(0) == Some("Neutral")
    ensures value !in {1, -1, 0} ==> LabelName(value) == None
  {
    RoundTrip(SentimentDict, 0);
    RoundTrip(SentimentDict, 1);
    RoundTrip(SentimentDict, 2);
  }

  /** In a dictionary whose codes are distinct, looking a code up gives back its own name. */
  lemma RoundTrip(entries: seq<(string, int)>, i: nat)
    requires i < |entries|
    requires forall a, b :: 0 <= a < b < |entries| ==> entries[a].1 != entries[b].1
    ensures FirstKey(entries, entries[i].1) == Some(entries[i].0)
  {
    var r := FirstKey(entries, entries[i].1);
    var j :| 0 <= j < |entries| && entries[j] == (r.value, entries[i].1);
    assert j == i;
  }

  /** For every name in the dictionary, mapping its code back returns that name. */
  lemma DictRoundTrip()
    ensures forall i :: 0 <= i < |SentimentDict| ==> LabelName(SentimentDict[i].1) == Some(SentimentDict[i].0)
  {
    forall i | 0 <= i < |SentimentDict|
      ensures LabelName(SentimentDict[i].1) == Some(SentimentDict[i].0)
    {
      RoundTrip(SentimentDict, i);
    }
  }

  /** Every label option the manual page offers has a display name. */
  lemma CodesHaveNames(c: int)
    requires c in Codes()
    ensures LabelName(c).Some?
    ensures c in {1, -1, 0}
  {
    var i :| 0 <= i < |Codes()| && Codes()[i] == c;
    RoundTrip(SentimentDict, i);
  }
}

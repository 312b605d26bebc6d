/** Worked examples of the keyword table's precedence rules. */
module CategorizationExamples {
  import opened Common
  import opened Text
  import opened Categorization

  lemma LowerGas()
    ensures Lower("gas") == "gas"
  {
    assert Lower("gas")[0] == 'g';
  }

  /** "gas" is both a transport and a utilities keyword; transport is declared first. */
  lemma GasIsTransport()
    ensures Categorize("gas") == "transport"
    ensures Table[3].name == "utilities" && Matches(Lower("gas"), Table[3])
  {
    LowerGas();
    GasIsUtilitiesKeyword();
    GasFirstMatch();
    assert Table[1].name == "transport";
  }

  /** The outer loop stops at transport, the second category. */
  lemma GasFirstMatch()
    ensures FirstMatch("gas", Table) == Some(1)
  {
    GasIsNotHousing();
    GasIsTransportKeyword();
    var rest := Table[1..];
    assert rest[0] == Table[1];
    assert FirstMatch("gas", rest) == Some(0);
  }

  lemma GasIsNotHousing()
    ensures !Matches("gas", Table[0])
  {
    var housing := Table[0].keywords;
    assert forall k :: 0 <= k < |housing| ==> |housing[k]| > 3;
    LongKeywordsMiss("gas", housing);
  }

  lemma GasIsTransportKeyword()
    ensures Matches("gas", Table[1])
  {
    var transport := Table[1].keywords;
    assert transport[6] == "gas";
    assert OccursAt("gas", "gas", 0);
  }

  lemma GasIsUtilitiesKeyword()
    ensures Matches("gas", Table[3])
  {
    var utilities := Table[3].keywords;
    assert utilities[2] == "gas";
    assert OccursAt("gas", "gas", 0);
  }

  /** A keyword longer than the text never occurs in it. */
  lemma LongKeywordsMiss(text: string, keywords: seq<string>)
    requires forall k :: 0 <= k < |keywords| ==> |keywords[k]| > |text|
    ensures !AnyKeyword(text, keywords)
  {
    forall k | 0 <= k < |keywords|
      ensures !Contains(text, keywords[k])
    {
    }
  }
}

/** Keyword expense categorisation (backend/src/ai-categorization.ts): a fixed,
    ordered table from category name to lower-case keywords; `Categorize`
    returns the first category with a keyword in the description, `Suggest`
    the category with the most keyword hits and a confidence. */
module Categorization {
  import opened Common
  import opened Text

  datatype Category = Category(name: string, keywords: seq<string>)

  /** The keyword table in declaration order; the order decides ties. */
  const Table: seq<Category> := [
    Category("housing", ["rent", "mortgage", "property", "apartment", "house", "lease", "landlord"]),
    Category("transport", ["uber", "lyft", "taxi", "bus", "train", "metro", "gas", "fuel", "parking", "car", "vehicle"]),
    Category("food", ["restaurant", "cafe", "coffee", "lunch", "dinner", "breakfast", "food", "grocery", "supermarket", "starbucks", "mcdonalds"]),
    Category("utilities", ["electric", "water", "gas", "internet", "phone", "cable", "utility"]),
    Category("healthcare", ["doctor", "hospital", "pharmacy", "medicine", "medical", "health", "dental", "insurance"]),
    Category("entertainment", ["movie", "cinema", "netflix", "spotify", "game", "concert", "show", "ticket", "entertainment"]),
    Category("shopping", ["amazon", "shop", "store", "retail", "clothing", "clothes", "shoes", "mall"]),
    Category("education", ["school", "university", "course", "book", "tuition", "education", "learning"]),
    Category("subscriptions", ["subscription", "monthly", "annual", "membership", "premium"])
  ]

  /** The fallback category when nothing matches. */
  const Other: string := "other"

  /** Some keyword of `c` occurs in `text`. */
  predicate Matches(text: string, c: Category)
  {
    exists k :: 0 <= k < |c.keywords| && Contains(text, c.keywords[k])
  }

  predicate IsTableName(s: string)
  {
    exists i :: 0 <= i < |Table| && Table[i].name == s
  }

  lemma TableNames()
    ensures |Table| == 9
    ensures forall i :: 0 <= i < |Table| ==> Table[i].name != Other
    ensures forall i :: 0 <= i < |Table| ==> 1 <= |Table[i].name| <= 13
  {
  }

  /** The inner loop: does any of `keywords` occur in `text`? */
  function AnyKeyword(text: string, keywords: seq<string>): (b: bool)
    ensures b <==> exists k :: 0 <= k < |keywords| && Contains(text, keywords[k])
  {
    if keywords == [] then false
    else if Contains(text, keywords[0]) then true
    else
      var rest := AnyKeyword(text, keywords[1..]);
      assert forall k :: 1 <= k < |keywords| ==> keywords[k] == keywords[1..][k - 1];
      rest
  }

  /** The outer loop: the index of the first category of `cats` that matches. */
  function FirstMatch(text: string, cats: seq<Category>): (r: Option<nat>)
    ensures r.Some? ==> r.value < |cats| && Matches(text, cats[r.value])
    ensures r.Some? ==> forall j :: 0 <= j < r.value ==> !Matches(text, cats[j])
    ensures r.None? <==> forall j :: 0 <= j < |cats| ==> !Matches(text, cats[j])
  {
    if cats == [] then None
    else if AnyKeyword(text, cats[0].keywords) then Some(0)
    else
      match FirstMatch(text, cats[1..])
      case None => None
      case Some(i) => Some(i + 1)
  }

  /** `categorizeExpense`: the first category, in table order, one of whose
      keywords occurs in the lower-cased description; "other" when none does. */
  function Categorize(description: string): (r: string)
    ensures r == Other || IsTableName(r)
    ensures r == Other <==> forall j :: 0 <= j < |Table| ==> !Matches(Lower(description), Table[j])
    ensures r != Other ==> exists i :: (0 <= i < |Table| && r == Table[i].name
      && Matches(Lower(description), Table[i])
      && forall j :: 0 <= j < i ==> !Matches(Lower(description), Table[j]))
  {
    TableNames();
    match FirstMatch(Lower(description), Table)
    case None => Other
    case Some(i) => Table[i].name
  }

  /** Matching looks only at the lower-cased description. */
  lemma CategorizeIgnoresCase(description: string)
    ensures Categorize(description) == Categorize(Lower(description))
  {
    LowerIdempotent(description);
  }

  // ----- suggestCategory -----

  /** Number of keywords of `keywords` that occur in `text`. */
  function Score(text: string, keywords: seq<string>): (n: nat)
    ensures n <= |keywords|
    ensures n == 0 <==> !AnyKeyword(text, keywords)
  {
    if keywords == [] then 0
    else (if Contains(text, keywords[0]) then 1 else 0) + Score(text, keywords[1..])
  }

  datatype Entry = Entry(name: string, score: nat)

  function EntryOf(text: string, c: Category): Entry
  {
    Entry(c.name, Score(text, c.keywords))
  }

  /** The `scores` object as `Object.entries` lists it: the categories with a
      positive score, in table order. */
  function Scored(text: string, cats: seq<Category>): (e: seq<Entry>)
    ensures e == [] <==> forall j :: 0 <= j < |cats| ==> Score(text, cats[j].keywords) == 0
    ensures forall k :: 0 <= k < |e| ==> e[k].score > 0
  {
    if cats == [] then []
    else
      var last := cats[|cats| - 1];
      var prefix := Scored(text, cats[..|cats| - 1]);
      assert forall j :: 0 <= j < |cats| - 1 ==> cats[..|cats| - 1][j] == cats[j];
      prefix + (if Score(text, last.keywords) > 0 then [EntryOf(text, last)] else [])
  }

  /** One step of the reduce: the current entry replaces the running maximum
      only when its score is strictly larger. */
  function Pick(max: Entry, curr: Entry): Entry
  {
    if curr.score > max.score then curr else max
  }

  /** `entries.reduce(Pick)` without an initial value. */
  function Leader(entries: seq<Entry>): Entry
    requires entries != []
  {
    if |entries| == 1 then entries[0]
    else Pick(Leader(entries[..|entries| - 1]), entries[|entries| - 1])
  }

  /** Category `i` has the highest score of `cats`, and every category declared
      before it scores strictly less. */
  ghost predicate IsBest(text: string, cats: seq<Category>, i: int)
  {
    && 0 <= i < |cats|
    && Score(text, cats[i].keywords) > 0
    && (forall j :: 0 <= j < |cats| ==> Score(text, cats[j].keywords) <= Score(text, cats[i].keywords))
    && (forall j :: 0 <= j < i ==> Score(text, cats[j].keywords) < Score(text, cats[i].keywords))
  }

  /** A last category that scores nothing changes neither the entries nor the best. */
  lemma BestIgnoresZero(text: string, cats: seq<Category>, i: int)
    requires cats != [] && Score(text, cats[|cats| - 1].keywords) == 0
    requires IsBest(text, cats[..|cats| - 1], i)
    ensures IsBest(text, cats, i)
  {
    assert forall j :: 0 <= j < |cats| - 1 ==> cats[..|cats| - 1][j] == cats[j];
  }

  /** A last category whose score beats the best of the others becomes the best. */
  lemma BestTakesLast(text: string, cats: seq<Category>, s: nat)
    requires cats != [] && Score(text, cats[|cats| - 1].keywords) > s
    requires forall j :: 0 <= j < |cats| - 1 ==> Score(text, cats[j].keywords) <= s
    ensures IsBest(text, cats, |cats| - 1)
  {
  }

  /** A last category that does not beat the best leaves the best in place. */
  lemma BestKeepsEarlier(text: string, cats: seq<Category>, i: int)
    requires cats != [] && IsBest(text, cats[..|cats| - 1], i)
    requires Score(text, cats[|cats| - 1].keywords) <= Score(text, cats[i].keywords)
    ensures IsBest(text, cats, i)
  {
    assert forall j :: 0 <= j < |cats| - 1 ==> cats[..|cats| - 1][j] == cats[j];
  }

  /** The entries of `cats` are those of all but its last category, then the
      last one's if it scores. */
  lemma ScoredSnoc(text: string, cats: seq<Category>)
    requires cats != []
    ensures var last := cats[|cats| - 1];
      Scored(text, cats) == Scored(text, cats[..|cats| - 1]) + (if Score(text, last.keywords) > 0 then [EntryOf(text, last)] else [])
  {
  }

  /** The reduce over the positive entries picks the best category: the
      index returned is that category. */
  lemma {:induction false} LeaderPicks(text: string, cats: seq<Category>) returns (i: int)
    requires Scored(text, cats) != []
    ensures IsBest(text, cats, i) && Leader(Scored(text, cats)) == EntryOf(text, cats[i])
  {
    var n := |cats|;
    var prefix := cats[..n - 1];
    ScoredSnoc(text, cats);
    if Score(text, cats[n - 1].keywords) == 0 {
      var k := LeaderPicks(text, prefix);
      LeaderSkipsZero(text, cats, k);
      i := k;
    } else if Scored(text, prefix) == [] {
      LeaderFirstEntry(text, cats);
      i := n - 1;
    } else {
      var k := LeaderPicks(text, prefix);
      i := LeaderNextEntry(text, cats, k);
    }
  }

  /** Step of the reduce when the last category scores nothing. */
  lemma LeaderSkipsZero(text: string, cats: seq<Category>, k: int)
    requires cats != [] && Score(text, cats[|cats| - 1].keywords) == 0
    requires var prefix := cats[..|cats| - 1];
      IsBest(text, prefix, k) && Leader(Scored(text, prefix)) == EntryOf(text, prefix[k])
    ensures IsBest(text, cats, k) && Leader(Scored(text, cats)) == EntryOf(text, cats[k])
  {
    var prefix := cats[..|cats| - 1];
    ScoredSnoc(text, cats);
    assert Scored(text, cats) == Scored(text, prefix);
    assert prefix[k] == cats[k];
    BestIgnoresZero(text, cats, k);
  }

  /** Step of the reduce when the last category is the first that scores. */
  lemma LeaderFirstEntry(text: string, cats: seq<Category>)
    requires cats != [] && Score(text, cats[|cats| - 1].keywords) > 0
    requires Scored(text, cats[..|cats| - 1]) == []
    ensures IsBest(text, cats, |cats| - 1) && Leader(Scored(text, cats)) == EntryOf(text, cats[|cats| - 1])
  {
    var prefix := cats[..|cats| - 1];
    ScoredSnoc(text, cats);
    assert Scored(text, cats) == [EntryOf(text, cats[|cats| - 1])];
    assert forall j :: 0 <= j < |cats| - 1 ==> prefix[j] == cats[j];
    BestTakesLast(text, cats, 0);
  }

  /** Step of the reduce when the last category scores and an earlier one did:
      it takes over only with a strictly larger score. */
  lemma LeaderNextEntry(text: string, cats: seq<Category>, k: int) returns (i: int)
    requires cats != [] && Score(text, cats[|cats| - 1].keywords) > 0
    requires var prefix := cats[..|cats| - 1];
      IsBest(text, prefix, k) && Leader(Scored(text, prefix)) == EntryOf(text, prefix[k])
    ensures IsBest(text, cats, i) && Leader(Scored(text, cats)) == EntryOf(text, cats[i])
  {
    var prefix := cats[..|cats| - 1];
    var last := cats[|cats| - 1];
    ScoredSnoc(text, cats);
    LeaderSnoc(Scored(text, prefix), EntryOf(text, last));
    BestOfPrefix(text, cats, k);
    if Score(text, last.keywords) > Score(text, cats[k].keywords) {
      BestTakesLast(text, cats, Score(text, cats[k].keywords));
      i := |cats| - 1;
    } else {
      BestKeepsEarlier(text, cats, k);
      i := k;
    }
  }

  /** The reduce over one more entry is one more `Pick`. */
  lemma LeaderSnoc(p: seq<Entry>, x: Entry)
    requires p != []
    ensures Leader(p + [x]) == Pick(Leader(p), x)
  {
    var e := p + [x];
    assert e[..|e| - 1] == p;
  }

  /** The best of all but the last category bounds each of them. */
  lemma BestOfPrefix(text: string, cats: seq<Category>, k: int)
    requires cats != [] && IsBest(text, cats[..|cats| - 1], k)
    ensures 0 <= k < |cats| - 1 && cats[..|cats| - 1][k] == cats[k]
    ensures forall j :: 0 <= j < |cats| - 1 ==> Score(text, cats[j].keywords) <= Score(text, cats[k].keywords)
  {
    var prefix := cats[..|cats| - 1];
    assert forall j :: 0 <= j < |cats| - 1 ==> prefix[j] == cats[j];
  }

  lemma LeaderIsBest(text: string, cats: seq<Category>)
    requires Scored(text, cats) != []
    ensures exists i :: IsBest(text, cats, i) && Leader(Scored(text, cats)) == EntryOf(text, cats[i])
  {
    var i := LeaderPicks(text, cats);
  }

  datatype Suggestion = Suggestion(category: string, confidence: real)

  /** The reduce and the confidence over any table whose names are not
      "other". */
  function Choose(text: string, cats: seq<Category>): (s: Suggestion)
    requires forall j :: 0 <= j < |cats| ==> cats[j].name != Other
    ensures s.category == Other <==> forall j :: 0 <= j < |cats| ==> !Matches(text, cats[j])
    ensures s.category == Other ==> s.confidence == 0.0
    ensures s.category != Other ==> exists i :: (IsBest(text, cats, i)
      && s.category == cats[i].name
      && s.confidence == Min(Score(text, cats[i].keywords) as real / 3.0, 1.0))
  {
    var entries := Scored(text, cats);
    if entries == [] then
      Suggestion(Other, 0.0)
    else
      var best := Leader(entries);
      LeaderIsBest(text, cats);
      Suggestion(best.name, Min(best.score as real / 3.0, 1.0))
  }

  /** `suggestCategory`: the category with the most keyword hits (earliest on a
      tie) and the confidence `min(score / 3, 1)`; ("other", 0) when nothing hits. */
  function Suggest(description: string): (s: Suggestion)
    ensures s.category == Other <==> forall j :: 0 <= j < |Table| ==> !Matches(Lower(description), Table[j])
    ensures s.category == Other ==> s.confidence == 0.0
    ensures s.category != Other ==> exists i :: (IsBest(Lower(description), Table, i)
      && s.category == Table[i].name
      && s.confidence == Min(Score(Lower(description), Table[i].keywords) as real / 3.0, 1.0))
  {
    TableNames();
    Choose(Lower(description), Table)
  }

  /** The confidence is 0 for "other" and between 1/3 and 1 otherwise. */
  lemma ChooseConfidenceRange(text: string, cats: seq<Category>)
    requires forall j :: 0 <= j < |cats| ==> cats[j].name != Other
    ensures var s := Choose(text, cats);
      && 0.0 <= s.confidence <= 1.0
      && (s.category != Other ==> 1.0 / 3.0 <= s.confidence)
  {
    var s := Choose(text, cats);
    if s.category != Other {
      var i :| IsBest(text, cats, i) && s.confidence == Min(Score(text, cats[i].keywords) as real / 3.0, 1.0);
      ThirdOfPositive(Score(text, cats[i].keywords));
    }
  }

  lemma ThirdOfPositive(n: nat)
    requires n >= 1
    ensures 1.0 / 3.0 <= Min(n as real / 3.0, 1.0) <= 1.0
  {
  }

  lemma SuggestConfidenceRange(description: string)
    ensures var s := Suggest(description);
      && 0.0 <= s.confidence <= 1.0
      && (s.category != Other ==> 1.0 / 3.0 <= s.confidence)
  {
    TableNames();
    ChooseConfidenceRange(Lower(description), Table);
  }

  /** Both functions scan the same table, so they agree on "other". */
  lemma SuggestAgreesOnOther(description: string)
    ensures Suggest(description).category == Other <==> Categorize(description) == Other
  {
  }
}

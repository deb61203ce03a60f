/** The filter engine (`matchesFilters`) and the active-filter chips (`updateChips`). */
module Filters {
  import opened Text
  import opened Articles

  /** The four criteria; the empty string means "no constraint". */
  datatype Criteria = Criteria(q: string, country: string, language: string, category: string)

  const NoCriteria := Criteria("", "", "", "")

  /** The lower-cased text a query is searched in. */
  function Haystack(a: Article): string
  {
    Lower(a.title + " " + a.description)
  }

  /** The query as it is compared: trimmed, then lower-cased. */
  function Needle(c: Criteria): string
  {
    Lower(Trim(c.q))
  }

  /** `matchesFilters` with the criteria passed in. */
  predicate Matches(a: Article, c: Criteria)
    // a match satisfies every criterion that is set
    ensures Matches(a, c) ==> Needle(c) == "" || Contains(Haystack(a), Needle(c))
    ensures Matches(a, c) ==> c.country == "" || c.country in a.country
    ensures Matches(a, c) ==> c.language == "" || a.language == c.language
    ensures Matches(a, c) ==> c.category == "" || c.category in a.category
  {
    var q := Needle(c);
    if q != "" && !Contains(Haystack(a), q) then false
    else if c.country != "" && c.country !in a.country then false
    else if c.language != "" && a.language != c.language then false
    else if c.category != "" && c.category !in a.category then false
    else true
  }

  /** An article matches iff every criterion that is set holds; a blank query is not set. */
  lemma MatchesIff(a: Article, c: Criteria)
    ensures Matches(a, c) <==>
              && (IsBlank(c.q) || exists i :: OccursAt(Haystack(a), Needle(c), i))
              && (c.country == "" || c.country in a.country)
              && (c.language == "" || a.language == c.language)
              && (c.category == "" || c.category in a.category)
  {
    TrimBlank(c.q);
    ContainsIff(Haystack(a), Needle(c));
  }

  /** With no criterion set (a query of white space counts as none), every article matches. */
  lemma NoCriteriaMatchesAll(a: Article, c: Criteria)
    requires IsBlank(c.q) && c.country == "" && c.language == "" && c.category == ""
    ensures Matches(a, c)
  {
    TrimBlank(c.q);
  }

  /** A query of white space only imposes no constraint. */
  lemma BlankQueryIsNoConstraint(a: Article, c: Criteria)
    requires IsBlank(c.q)
    ensures Matches(a, c) == Matches(a, c.(q := ""))
  {
    TrimBlank(c.q);
  }

  /** An article without a language never matches a language criterion. */
  lemma EmptyLanguageNeverMatches(a: Article, c: Criteria)
    requires c.language != "" && a.language == ""
    ensures !Matches(a, c)
  {
  }

  /** The query is case-insensitive: upper-casing it does not change the verdict. */
  lemma QueryIgnoresCase(a: Article, c: Criteria)
    ensures Matches(a, c.(q := Upper(c.q))) == Matches(a, c)
  {
    TrimUpper(c.q);
    LowerOfUpper(Trim(c.q));
  }

  /** A title "Election results" matches the query "election": the comparison ignores case. */
  lemma ElectionExample(a: Article)
    requires a.title == "Election results" && a.description == ""
    ensures Matches(a, Criteria("election", "", "", ""))
  {
    var c := Criteria("election", "", "", "");
    assert Trim(c.q) == "election";
    assert Lower("election") == "election";
    ElectionInTitle(a);
  }

  lemma ElectionInTitle(a: Article)
    requires a.title == "Election results" && a.description == ""
    ensures Contains(Haystack(a), "election")
  {
    var h := Haystack(a);
    assert h[..8] == "election";
    assert OccursAt(h, "election", 0);
    ContainsIff(h, "election");
  }

  /** `state.all.filter(matchesFilters)`. */
  function FilterArticles(all: seq<Article>, c: Criteria): (r: seq<Article>)
    ensures |r| <= |all|
  {
    if |all| == 0 then []
    else if Matches(all[0], c) then [all[0]] + FilterArticles(all[1..], c)
    else FilterArticles(all[1..], c)
  }

  /** The visible list holds exactly the loaded articles that match. */
  lemma {:induction false} FilterArticlesMembers(all: seq<Article>, c: Criteria)
    ensures forall x :: x in FilterArticles(all, c) <==> x in all && Matches(x, c)
  {
    if |all| > 0 {
      FilterArticlesMembers(all[1..], c);
      assert all == [all[0]] + all[1..];
    }
  }

  /** Filtering keeps the order of the collection: it distributes over concatenation. */
  lemma {:induction false} FilterConcat(a: seq<Article>, b: seq<Article>, c: Criteria)
    ensures FilterArticles(a + b, c) == FilterArticles(a, c) + FilterArticles(b, c)
  {
    if |a| == 0 {
      assert a + b == b;
    } else {
      assert (a + b)[0] == a[0] && (a + b)[1..] == a[1..] + b;
      FilterConcat(a[1..], b, c);
    }
  }

  /** With no criteria the visible list is the whole collection, in order. */
  lemma {:induction false} FilterNoCriteria(all: seq<Article>)
    ensures FilterArticles(all, NoCriteria) == all
  {
    if |all| > 0 {
      NoCriteriaMatchesAll(all[0], NoCriteria);
      FilterNoCriteria(all[1..]);
    }
  }

  // ---------------------------------------------------------------- chips

  datatype FilterKey = QueryKey | CountryKey | LanguageKey | CategoryKey

  datatype Chip = Chip(key: FilterKey, caption: string)

  function Field(c: Criteria, k: FilterKey): string
  {
    match k
    case QueryKey => c.q
    case CountryKey => c.country
    case LanguageKey => c.language
    case CategoryKey => c.category
  }

  /** `state.filters[key] = value`. */
  function WithField(c: Criteria, k: FilterKey, v: string): (r: Criteria)
    ensures Field(r, k) == v
    ensures forall k' :: k' != k ==> Field(r, k') == Field(c, k')
  {
    match k
    case QueryKey => c.(q := v)
    case CountryKey => c.(country := v)
    case LanguageKey => c.(language := v)
    case CategoryKey => c.(category := v)
  }

  /** The fixed display order of the chips. */
  function Rank(k: FilterKey): nat
  {
    match k
    case QueryKey => 0
    case CountryKey => 1
    case LanguageKey => 2
    case CategoryKey => 3
  }

  function LabelPrefix(k: FilterKey): string
  {
    match k
    case QueryKey => "Search: "
    case CountryKey => "Country: "
    case LanguageKey => "Language: "
    case CategoryKey => "Category: "
  }

  predicate HasChip(chips: seq<Chip>, k: FilterKey)
  {
    exists i :: 0 <= i < |chips| && chips[i].key == k
  }

  function ChipIf(c: Criteria, k: FilterKey): seq<Chip>
  {
    if Field(c, k) != "" then [Chip(k, LabelPrefix(k) + Field(c, k))] else []
  }

  function KeyOfRank(n: nat): (k: FilterKey)
    requires n < 4
    ensures Rank(k) == n
  {
    if n == 0 then QueryKey else if n == 1 then CountryKey else if n == 2 then LanguageKey else CategoryKey
  }

  /** Each chip's criterion comes before the next chip's in the display order. */
  predicate RankAscending(r: seq<Chip>)
  {
    |r| < 2 || (Rank(r[0].key) < Rank(r[1].key) && RankAscending(r[1..]))
  }

  /** The pairwise reading of `RankAscending`. */
  lemma {:induction false} RankAscendingPairs(r: seq<Chip>)
    requires RankAscending(r)
    ensures forall i, j :: 0 <= i < j < |r| ==> Rank(r[i].key) < Rank(r[j].key)
  {
    if |r| > 1 {
      RankAscendingPairs(r[1..]);
      forall i, j | 0 <= i < j < |r| ensures Rank(r[i].key) < Rank(r[j].key) {
        assert r[j] == r[1..][j - 1];
        if i > 0 {
          assert r[i] == r[1..][i - 1];
        } else if j > 1 {
          assert r[1] == r[1..][0];
        }
      }
    }
  }

  /** The chips for the criteria of rank `n` and above. */
  function ChipsFrom(c: Criteria, n: nat): (r: seq<Chip>)
    decreases 4 - n
    ensures |r| <= if n < 4 then 4 - n else 0
  {
    if n >= 4 then []
    else ChipIf(c, KeyOfRank(n)) + ChipsFrom(c, n + 1)
  }

  /** The chip list of `updateChips`: one chip per non-empty criterion (the raw query, not the
      trimmed one), in the order search, country, language, category. */
  function Chips(c: Criteria): (r: seq<Chip>)
    ensures |r| <= 4
  {
    ChipsFrom(c, 0)
  }

  /** The chips from rank `n` on are each for a non-empty criterion of rank `n` or above,
      captioned with its prefix and the criterion's value. */
  lemma {:induction false} ChipsFromFields(c: Criteria, n: nat)
    decreases 4 - n
    ensures forall i :: 0 <= i < |ChipsFrom(c, n)| ==>
              n <= Rank(ChipsFrom(c, n)[i].key) && Field(c, ChipsFrom(c, n)[i].key) != ""
    ensures forall i :: 0 <= i < |ChipsFrom(c, n)| ==>
              ChipsFrom(c, n)[i].caption == LabelPrefix(ChipsFrom(c, n)[i].key) + Field(c, ChipsFrom(c, n)[i].key)
  {
    if n < 4 {
      ChipsFromFields(c, n + 1);
      var head, rest := ChipIf(c, KeyOfRank(n)), ChipsFrom(c, n + 1);
      var r := ChipsFrom(c, n);
      assert r == head + rest;
      forall i | |head| <= i < |r|
        ensures n <= Rank(r[i].key) && Field(c, r[i].key) != ""
        ensures r[i].caption == LabelPrefix(r[i].key) + Field(c, r[i].key)
      {
        assert r[i] == rest[i - |head|];
      }
    }
  }

  /** The chips from rank `n` on are in rank order. */
  lemma {:induction false} ChipsFromAscending(c: Criteria, n: nat)
    decreases 4 - n
    ensures RankAscending(ChipsFrom(c, n))
  {
    if n < 4 {
      ChipsFromAscending(c, n + 1);
      var head, rest := ChipIf(c, KeyOfRank(n)), ChipsFrom(c, n + 1);
      if |head| == 1 && |rest| > 0 {
        ChipsFromFields(c, n + 1);
        var r := ChipsFrom(c, n);
        assert r == head + rest;
        assert r[1..] == rest && r[1] == rest[0];
      }
    }
  }

  /** Every chip names a non-empty criterion and shows its prefix and value, and the chips are
      in the order search, country, language, category. */
  lemma ChipsShape(c: Criteria)
    ensures forall i :: 0 <= i < |Chips(c)| ==> Field(c, Chips(c)[i].key) != ""
    ensures forall i :: 0 <= i < |Chips(c)| ==>
              Chips(c)[i].caption == LabelPrefix(Chips(c)[i].key) + Field(c, Chips(c)[i].key)
    ensures RankAscending(Chips(c))
  {
    ChipsFromFields(c, 0);
    ChipsFromAscending(c, 0);
  }

  /** The chips appear in the order search, country, language, category. */
  lemma ChipsInOrder(c: Criteria)
    ensures forall i, j :: 0 <= i < j < |Chips(c)| ==> Rank(Chips(c)[i].key) < Rank(Chips(c)[j].key)
  {
    ChipsShape(c);
    RankAscendingPairs(Chips(c));
  }

  lemma ChipAtHead(c: Criteria, k: FilterKey)
    requires Field(c, k) != ""
    ensures HasChip(ChipsFrom(c, Rank(k)), k)
  {
    var n := Rank(k);
    var head, rest := ChipIf(c, KeyOfRank(n)), ChipsFrom(c, n + 1);
    assert ChipsFrom(c, n) == head + rest;
    assert KeyOfRank(n) == k;
    assert ChipsFrom(c, n)[0].key == k;
  }

  lemma ChipInTail(c: Criteria, n: nat, k: FilterKey)
    requires n < 4
    requires HasChip(ChipsFrom(c, n + 1), k)
    ensures HasChip(ChipsFrom(c, n), k)
  {
    var head, rest := ChipIf(c, KeyOfRank(n)), ChipsFrom(c, n + 1);
    var i :| 0 <= i < |rest| && rest[i].key == k;
    var all := ChipsFrom(c, n);
    assert all == head + rest;
    assert all[|head| + i] == rest[i];
  }

  lemma {:induction false} ChipFromPresent(c: Criteria, n: nat, k: FilterKey)
    requires n <= Rank(k) && Field(c, k) != ""
    decreases 4 - n
    ensures HasChip(ChipsFrom(c, n), k)
  {
    if Rank(k) == n {
      ChipAtHead(c, k);
    } else {
      ChipFromPresent(c, n + 1, k);
      ChipInTail(c, n, k);
    }
  }

  /** The chip list holds a chip for criterion `k` exactly when that criterion is non-empty. */
  lemma ChipPresent(c: Criteria, k: FilterKey)
    ensures HasChip(Chips(c), k) <==> Field(c, k) != ""
  {
    if Field(c, k) != "" {
      ChipFromPresent(c, 0, k);
    }
    if HasChip(Chips(c), k) {
      ChipsShape(c);
      var i :| 0 <= i < |Chips(c)| && Chips(c)[i].key == k;
      assert Field(c, Chips(c)[i].key) != "";
    }
  }
}

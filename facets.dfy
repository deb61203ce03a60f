/** The facet builder (`uniq` and `buildSelectOptions`): the choices of the three selects. */
module Facets {
  import opened Text
  import opened Articles

  /** No value occurs twice. */
  predicate Distinct(s: seq<string>)
  {
    |s| == 0 || (s[0] !in s[1..] && Distinct(s[1..]))
  }

  /** Each value is `Less` than the one after it. */
  predicate StrictlySorted(s: seq<string>)
  {
    |s| < 2 || (Less(s[0], s[1]) && StrictlySorted(s[1..]))
  }

  /** The values of `s` that are not in `seen`, first occurrences only, empty strings dropped. */
  function UniqAfter(s: seq<string>, seen: set<string>): (r: seq<string>)
    ensures |r| <= |s| && "" !in r
  {
    if |s| == 0 then []
    else if s[0] == "" || s[0] in seen then UniqAfter(s[1..], seen)
    else [s[0]] + UniqAfter(s[1..], seen + {s[0]})
  }

  lemma {:induction false} UniqAfterSpec(s: seq<string>, seen: set<string>)
    ensures forall v :: v in UniqAfter(s, seen) <==> v in s && v != "" && v !in seen
    ensures Distinct(UniqAfter(s, seen))
  {
    if |s| > 0 {
      assert s == [s[0]] + s[1..];
      if s[0] == "" || s[0] in seen {
        UniqAfterSpec(s[1..], seen);
      } else {
        var rest := UniqAfter(s[1..], seen + {s[0]});
        UniqAfterSpec(s[1..], seen + {s[0]});
        assert ([s[0]] + rest)[1..] == rest;
      }
    }
  }

  /** `Array.from(new Set(arr.filter(Boolean)))`: the distinct non-empty values, in order of
      first occurrence. */
  function Uniq(s: seq<string>): (r: seq<string>)
    ensures forall v :: v in r <==> v in s && v != ""
    ensures Distinct(r)
  {
    UniqAfterSpec(s, {});
    UniqAfter(s, {})
  }

  /** One step of insertion into a list sorted by `Less`. */
  function Insert(x: string, s: seq<string>): (r: seq<string>)
    ensures |r| == |s| + 1
    ensures |r| > 0 && (r[0] == x || (|s| > 0 && r[0] == s[0]))
  {
    if |s| == 0 then [x]
    else if Less(s[0], x) then [s[0]] + Insert(x, s[1..])
    else [x] + s
  }

  /** The default `sort` of an array of strings. */
  function Sort(s: seq<string>): (r: seq<string>)
    ensures multiset(r) == multiset(s)
  {
    if |s| == 0 then []
    else
      InsertPermutes(s[0], Sort(s[1..]));
      assert s == [s[0]] + s[1..];
      Insert(s[0], Sort(s[1..]))
  }

  lemma {:induction false} InsertPermutes(x: string, s: seq<string>)
    ensures multiset(Insert(x, s)) == multiset(s) + multiset{x}
  {
    if |s| > 0 && Less(s[0], x) {
      InsertPermutes(x, s[1..]);
      assert s == [s[0]] + s[1..];
    }
  }

  lemma ConsSorted(a: string, r: seq<string>)
    requires StrictlySorted(r)
    requires |r| > 0 ==> Less(a, r[0])
    ensures StrictlySorted([a] + r)
  {
    assert ([a] + r)[1..] == r;
  }

  /** In a strictly sorted list every later value is above the first. */
  lemma {:induction false} SortedHeadBelow(s: seq<string>, v: string)
    requires StrictlySorted(s) && |s| > 0 && v in s[1..]
    ensures Less(s[0], v)
  {
    if v != s[1] {
      assert v in s[1..][1..] by { assert s[1..] == [s[1]] + s[1..][1..]; }
      SortedHeadBelow(s[1..], v);
      LessTransitive(s[0], s[1], v);
    }
  }

  /** The pairwise reading of `StrictlySorted`. */
  lemma {:induction false} StrictlySortedPairs(s: seq<string>)
    requires StrictlySorted(s)
    ensures forall i, j :: 0 <= i < j < |s| ==> Less(s[i], s[j])
  {
    if |s| > 1 {
      StrictlySortedPairs(s[1..]);
      forall i, j | 0 <= i < j < |s| ensures Less(s[i], s[j]) {
        if i == 0 {
          assert s[j] == s[1..][j - 1];
          SortedHeadBelow(s, s[j]);
        } else {
          assert s[i] == s[1..][i - 1] && s[j] == s[1..][j - 1];
        }
      }
    }
  }

  lemma {:induction false} InsertSorted(x: string, s: seq<string>)
    requires StrictlySorted(s) && x !in s
    ensures StrictlySorted(Insert(x, s))
  {
    if |s| > 0 {
      if Less(s[0], x) {
        assert x !in s[1..] by { assert s == [s[0]] + s[1..]; }
        InsertSorted(x, s[1..]);
        ConsSorted(s[0], Insert(x, s[1..]));
      } else {
        LessTotal(x, s[0]);
        ConsSorted(x, s);
      }
    }
  }

  /** Sorting distinct strings gives a strictly increasing list of the same strings. */
  lemma {:induction false} SortDistinct(s: seq<string>)
    requires Distinct(s)
    ensures StrictlySorted(Sort(s))
    ensures forall v :: v in Sort(s) <==> v in s
  {
    if |s| > 0 {
      var t := s[1..];
      SortDistinct(t);
      assert s[0] !in Sort(t) by { assert s[0] !in multiset(t); }
      InsertSorted(s[0], Sort(t));
      forall v ensures v in Sort(s) <==> v in s {
        assert v in Sort(s) <==> v in multiset(Sort(s));
        assert v in s <==> v in multiset(s);
      }
    }
  }

  lemma {:induction false} StrictlySortedIsDistinct(s: seq<string>)
    requires StrictlySorted(s)
    ensures Distinct(s)
  {
    if |s| > 0 {
      if s[0] in s[1..] {
        SortedHeadBelow(s, s[0]);
        LessIrreflexive(s[0]);
      }
      StrictlySortedIsDistinct(s[1..]);
    }
  }

  /** `uniq(values).sort()`: the select's choices for one facet. */
  function Facet(values: seq<string>): (r: seq<string>)
    ensures StrictlySorted(r) && Distinct(r)
    ensures "" !in r
  {
    SortDistinct(Uniq(values));
    StrictlySortedIsDistinct(Sort(Uniq(values)));
    Sort(Uniq(values))
  }

  /** A facet holds exactly the non-empty values it was built from. */
  lemma FacetMembers(values: seq<string>)
    ensures forall v :: v in Facet(values) <==> v in values && v != ""
  {
    SortDistinct(Uniq(values));
  }

  /** Some loaded article lists `v` among its countries. */
  predicate HasCountry(all: seq<Article>, v: string)
  {
    exists i :: 0 <= i < |all| && v in all[i].country
  }

  /** Some loaded article has the language `v`. */
  predicate HasLanguage(all: seq<Article>, v: string)
  {
    exists i :: 0 <= i < |all| && all[i].language == v
  }

  /** Some loaded article lists `v` among its categories. */
  predicate HasCategory(all: seq<Article>, v: string)
  {
    exists i :: 0 <= i < |all| && v in all[i].category
  }

  lemma HasCountryCons(all: seq<Article>)
    requires |all| > 0
    ensures forall v :: HasCountry(all, v) <==> v in all[0].country || HasCountry(all[1..], v)
  {
    forall v ensures HasCountry(all, v) <==> v in all[0].country || HasCountry(all[1..], v) {
      if HasCountry(all[1..], v) {
        var i :| 0 <= i < |all[1..]| && v in all[1..][i].country;
        assert v in all[i + 1].country;
      }
      if HasCountry(all, v) && v !in all[0].country {
        var i :| 0 <= i < |all| && v in all[i].country;
        assert v in all[1..][i - 1].country;
      }
    }
  }

  lemma HasLanguageCons(all: seq<Article>)
    requires |all| > 0
    ensures forall v :: HasLanguage(all, v) <==> all[0].language == v || HasLanguage(all[1..], v)
  {
    forall v ensures HasLanguage(all, v) <==> all[0].language == v || HasLanguage(all[1..], v) {
      if HasLanguage(all[1..], v) {
        var i :| 0 <= i < |all[1..]| && all[1..][i].language == v;
        assert all[i + 1].language == v;
      }
      if HasLanguage(all, v) && all[0].language != v {
        var i :| 0 <= i < |all| && all[i].language == v;
        assert all[1..][i - 1].language == v;
      }
    }
  }

  lemma HasCategoryCons(all: seq<Article>)
    requires |all| > 0
    ensures forall v :: HasCategory(all, v) <==> v in all[0].category || HasCategory(all[1..], v)
  {
    forall v ensures HasCategory(all, v) <==> v in all[0].category || HasCategory(all[1..], v) {
      if HasCategory(all[1..], v) {
        var i :| 0 <= i < |all[1..]| && v in all[1..][i].category;
        assert v in all[i + 1].category;
      }
      if HasCategory(all, v) && v !in all[0].category {
        var i :| 0 <= i < |all| && v in all[i].category;
        assert v in all[1..][i - 1].category;
      }
    }
  }

  /** `state.all.flatMap(a => a.country || [])`: exactly the countries some article lists. */
  function Countries(all: seq<Article>): (r: seq<string>)
    ensures forall v :: v in r <==> HasCountry(all, v)
  {
    if |all| == 0 then []
    else
      HasCountryCons(all);
      all[0].country + Countries(all[1..])
  }

  /** `state.all.map(a => a.language)`: one language per article, so exactly the languages
      some article has. */
  function Languages(all: seq<Article>): (r: seq<string>)
    ensures |r| == |all|
    ensures forall v :: v in r <==> HasLanguage(all, v)
  {
    if |all| == 0 then []
    else
      HasLanguageCons(all);
      [all[0].language] + Languages(all[1..])
  }

  /** `state.all.flatMap(a => a.category || [])`: exactly the categories some article lists. */
  function Categories(all: seq<Article>): (r: seq<string>)
    ensures forall v :: v in r <==> HasCategory(all, v)
  {
    if |all| == 0 then []
    else
      HasCategoryCons(all);
      all[0].category + Categories(all[1..])
  }

  /** The three option lists of the country, language and category selects. */
  datatype FacetLists = FacetLists(countries: seq<string>, languages: seq<string>, categories: seq<string>)

  const NoFacets := FacetLists([], [], [])

  predicate WellFormedList(s: seq<string>)
  {
    StrictlySorted(s) && "" !in s
  }

  predicate WellFormed(f: FacetLists)
  {
    WellFormedList(f.countries) && WellFormedList(f.languages) && WellFormedList(f.categories)
  }

  /** `buildSelectOptions`: each list is sorted, duplicate-free and without the empty string. */
  function BuildFacets(all: seq<Article>): (f: FacetLists)
    ensures WellFormed(f)
  {
    FacetLists(Facet(Countries(all)), Facet(Languages(all)), Facet(Categories(all)))
  }

  /** Each list holds exactly the values some loaded article carries. */
  lemma BuildFacetsMembers(all: seq<Article>)
    ensures forall v :: v in BuildFacets(all).countries <==> v != "" && HasCountry(all, v)
    ensures forall v :: v in BuildFacets(all).languages <==> v != "" && HasLanguage(all, v)
    ensures forall v :: v in BuildFacets(all).categories <==> v != "" && HasCategory(all, v)
  {
    FacetMembers(Countries(all));
    FacetMembers(Languages(all));
    FacetMembers(Categories(all));
  }
}

/** The collection manager: how one fetched page is merged into the loaded articles, and the
    pagination cursor. */
module Collection {
  import opened Values
  import opened Articles

  /** `PAGE_SIZE`: at most this many new articles are admitted from one fetched page. */
  const PageSize: nat := 9

  /** `new Set(state.all.map(x => x.id))` */
  function Ids(s: seq<Article>): set<string>
  {
    set i | 0 <= i < |s| :: s[i].id
  }

  /** `normalized.filter(x => !seen.has(x.id))`: only the ids already `seen` are excluded;
      two articles of `incoming` with the same id both survive. */
  function NewItems(incoming: seq<Article>, seen: set<string>): (r: seq<Article>)
    ensures |r| <= |incoming|
  {
    if |incoming| == 0 then []
    else if incoming[0].id in seen then NewItems(incoming[1..], seen)
    else [incoming[0]] + NewItems(incoming[1..], seen)
  }

  /** The filter keeps exactly the articles whose id is not `seen`. */
  lemma {:induction false} NewItemsMembers(incoming: seq<Article>, seen: set<string>)
    ensures forall x :: x in NewItems(incoming, seen) <==> x in incoming && x.id !in seen
  {
    if |incoming| > 0 {
      NewItemsMembers(incoming[1..], seen);
      assert incoming == [incoming[0]] + incoming[1..];
    }
  }

  /** `s.slice(0, n)` */
  function Take<T>(s: seq<T>, n: nat): (r: seq<T>)
    ensures |r| == if |s| < n then |s| else n
    ensures r <= s
  {
    if |s| <= n then s else s[..n]
  }

  /** The articles of one page that enter the collection: the first `PageSize` of those whose
      id the collection does not hold yet. */
  function Admitted(existing: seq<Article>, incoming: seq<Article>): (r: seq<Article>)
    ensures |r| <= PageSize
  {
    Take(NewItems(incoming, Ids(existing)), PageSize)
  }

  /** Every admitted article comes from the page and has an id the collection lacks. */
  lemma AdmittedMembers(existing: seq<Article>, incoming: seq<Article>)
    ensures forall x :: x in Admitted(existing, incoming) ==> x in incoming && x.id !in Ids(existing)
  {
    var kept := NewItems(incoming, Ids(existing));
    NewItemsMembers(incoming, Ids(existing));
    forall x | x in Admitted(existing, incoming) ensures x in kept {
      var k :| 0 <= k < |Admitted(existing, incoming)| && Admitted(existing, incoming)[k] == x;
      assert kept[k] == x;
    }
  }

  /** `a` can be obtained from `b` by deleting elements: the elements of `a` occur in `b` in
      the same order. */
  predicate Subsequence<T(==)>(a: seq<T>, b: seq<T>)
    decreases |b|
  {
    |a| == 0 || (|b| > 0 && ((a[0] == b[0] && Subsequence(a[1..], b[1..])) || Subsequence(a, b[1..])))
  }

  lemma {:induction false} NewItemsSubsequence(incoming: seq<Article>, seen: set<string>)
    ensures Subsequence(NewItems(incoming, seen), incoming)
  {
    if |incoming| > 0 {
      NewItemsSubsequence(incoming[1..], seen);
      var r := NewItems(incoming, seen);
      if incoming[0].id !in seen {
        assert r[0] == incoming[0] && r[1..] == NewItems(incoming[1..], seen);
      }
    }
  }

  /** A prefix of a subsequence is a subsequence. */
  lemma {:induction false} PrefixOfSubsequence<T>(a: seq<T>, b: seq<T>, c: seq<T>)
    requires a <= b && Subsequence(b, c)
    ensures Subsequence(a, c)
    decreases |c|
  {
    if |a| > 0 {
      if b[0] == c[0] && Subsequence(b[1..], c[1..]) {
        assert a[1..] <= b[1..];
        PrefixOfSubsequence(a[1..], b[1..], c[1..]);
      } else {
        PrefixOfSubsequence(a, b, c[1..]);
      }
    }
  }

  /** The admitted articles appear in the same order as on the page: they are the first
      `PageSize` survivors of the id filter. */
  lemma AdmittedInPageOrder(existing: seq<Article>, incoming: seq<Article>)
    ensures Subsequence(Admitted(existing, incoming), incoming)
    ensures Admitted(existing, incoming) <= NewItems(incoming, Ids(existing))
  {
    NewItemsSubsequence(incoming, Ids(existing));
    PrefixOfSubsequence(Admitted(existing, incoming), NewItems(incoming, Ids(existing)), incoming);
  }

  /** `state.all = append ? state.all.concat(sliced) : sliced` */
  function Merge(existing: seq<Article>, incoming: seq<Article>, append: bool): (r: seq<Article>)
    // appending keeps the old collection as a prefix and grows it by at most one page
    ensures append ==> existing <= r && |r| <= |existing| + PageSize
    // replacing keeps at most one page
    ensures !append ==> |r| <= PageSize
  {
    var sliced := Admitted(existing, incoming);
    if append then existing + sliced else sliced
  }

  /** Nothing appended clashes with an id the collection already had. */
  lemma AppendedIdsAreNew(existing: seq<Article>, incoming: seq<Article>)
    ensures forall k :: |existing| <= k < |Merge(existing, incoming, true)| ==>
              Merge(existing, incoming, true)[k].id !in Ids(existing) &&
              Merge(existing, incoming, true)[k] in incoming
  {
    var m := Merge(existing, incoming, true);
    AdmittedMembers(existing, incoming);
    forall k | |existing| <= k < |m|
      ensures m[k].id !in Ids(existing) && m[k] in incoming
    {
      assert m[k] == Admitted(existing, incoming)[k - |existing|];
    }
  }

  /** The filter keeps the order of the page: filtering two halves separately and joining
      them gives the filter of the whole. */
  lemma {:induction false} NewItemsConcat(a: seq<Article>, b: seq<Article>, seen: set<string>)
    ensures NewItems(a + b, seen) == NewItems(a, seen) + NewItems(b, seen)
  {
    if |a| == 0 {
      assert a + b == b;
    } else {
      assert (a + b)[0] == a[0] && (a + b)[1..] == a[1..] + b;
      NewItemsConcat(a[1..], b, seen);
    }
  }

  /** When no id of the page is known yet, the admitted articles are the page's first
      `PageSize` articles, in the page's order. */
  lemma {:induction false} FreshPageAdmitsItsHead(existing: seq<Article>, incoming: seq<Article>)
    requires forall k :: 0 <= k < |incoming| ==> incoming[k].id !in Ids(existing)
    ensures Admitted(existing, incoming) == Take(incoming, PageSize)
  {
    NewItemsAllFresh(incoming, Ids(existing));
  }

  lemma {:induction false} NewItemsAllFresh(incoming: seq<Article>, seen: set<string>)
    requires forall k :: 0 <= k < |incoming| ==> incoming[k].id !in seen
    ensures NewItems(incoming, seen) == incoming
  {
    if |incoming| > 0 {
      NewItemsAllFresh(incoming[1..], seen);
    }
  }

  lemma {:induction false} NewItemsAllKnown(incoming: seq<Article>, seen: set<string>)
    requires forall k :: 0 <= k < |incoming| ==> incoming[k].id in seen
    ensures NewItems(incoming, seen) == []
  {
    if |incoming| > 0 {
      NewItemsAllKnown(incoming[1..], seen);
    }
  }

  /** A page made only of known articles leaves an appended collection as it was. */
  lemma KnownPageChangesNothing(existing: seq<Article>, incoming: seq<Article>)
    requires forall k :: 0 <= k < |incoming| ==> incoming[k].id in Ids(existing)
    ensures Merge(existing, incoming, true) == existing
  {
    NewItemsAllKnown(incoming, Ids(existing));
  }

  /** Replacing (append = false) still drops what the old collection held: fetching the
      same page again in that mode empties the collection. */
  lemma ReplaceWithSamePageEmpties(existing: seq<Article>)
    ensures Merge(existing, existing, false) == []
  {
    forall k | 0 <= k < |existing| ensures existing[k].id in Ids(existing) {
    }
    NewItemsAllKnown(existing, Ids(existing));
  }

  predicate DistinctIds(s: seq<Article>)
  {
    forall i, j :: 0 <= i < j < |s| ==> s[i].id != s[j].id
  }

  /** Dropping known ids keeps distinct ids distinct. */
  lemma {:induction false} NewItemsDistinct(incoming: seq<Article>, seen: set<string>)
    requires DistinctIds(incoming)
    ensures DistinctIds(NewItems(incoming, seen))
  {
    if |incoming| > 0 {
      var rest := NewItems(incoming[1..], seen);
      NewItemsMembers(incoming[1..], seen);
      assert DistinctIds(incoming[1..]);
      NewItemsDistinct(incoming[1..], seen);
      if incoming[0].id !in seen {
        forall x | x in rest ensures x.id != incoming[0].id {
          assert x in incoming[1..];
          var j :| 0 <= j < |incoming[1..]| && incoming[1..][j] == x;
          assert incoming[j + 1] == x;
        }
        var r := [incoming[0]] + rest;
        forall i, j | 0 <= i < j < |r| ensures r[i].id != r[j].id {
          assert r[j] == rest[j - 1];
          if i > 0 { assert r[i] == rest[i - 1]; } else { assert rest[j - 1] in rest; }
        }
      }
    }
  }

  /** Merging a page whose ids are distinct into a collection whose ids are distinct keeps
      them distinct. */
  lemma MergeKeepsIdsDistinct(existing: seq<Article>, incoming: seq<Article>, append: bool)
    requires DistinctIds(existing) && DistinctIds(incoming)
    ensures DistinctIds(Merge(existing, incoming, append))
  {
    var seen := Ids(existing);
    NewItemsDistinct(incoming, seen);
    var sliced := Admitted(existing, incoming);
    AdmittedMembers(existing, incoming);
    assert DistinctIds(sliced);
    if append {
      var m := existing + sliced;
      forall i, j | 0 <= i < j < |m| ensures m[i].id != m[j].id {
        if j >= |existing| {
          assert m[j] == sliced[j - |existing|];
          assert m[j].id !in seen;
          if i < |existing| { assert m[i].id in seen; }
        }
      }
    }
  }

  /** The deduplication is only against the collection: a page that repeats an id puts both
      copies in. */
  lemma RepeatedIdInOnePageIsKept(x: Article)
    ensures Merge([], [x, x], true) == [x, x]
    ensures !DistinctIds(Merge([], [x, x], true))
  {
    assert Ids([]) == {};
    NewItemsAllFresh([x, x], {});
    assert [] + [x, x] == [x, x];
  }

  /** `data.nextPage || null`: a non-empty string cursor, otherwise none. */
  function Cursor(v: JsVal): (r: Option<string>)
    ensures r.Some? <==> v.Str? && v.s != ""
    ensures r.Some? ==> r.value == v.s && r.value != ""
  {
    if v.Str? && v.s != "" then Some(v.s) else None
  }

  /** The `page` query parameter: sent only when there is a cursor and the caller appends. */
  function PageParam(nextPage: Option<string>, append: bool): (r: Option<string>)
    ensures r.Some? <==> nextPage.Some? && append
    ensures r.Some? ==> r == nextPage
  {
    if nextPage.Some? && append then nextPage else None
  }
}

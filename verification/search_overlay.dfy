/** The type-to-search overlay (`SearchOverlay`): the apps it can find, the
    rows it shows for a query (matching names, those starting with the query
    first, then by name, at most eight), row activation, and its visibility.
    Widgets are not modelled: the overlay is its visible flag, the entry's
    text, the app list and the rows on display. */
module SearchOverlay {
  import opened Wrappers
  import opened Text
  import opened Sorting

  datatype SearchResult = SearchResult(appId: string, name: string, iconName: string, command: string, score: nat)

  const MaxRows: nat := 8

  /** The filter: the lower-cased name contains the lower-cased query. */
  predicate MatchesQuery(r: SearchResult, queryLower: string) {
    Contains(Lower(r.name), queryLower)
  }

  /** The matching apps, in list order. */
  function Filtered(apps: seq<SearchResult>, queryLower: string): (r: seq<SearchResult>)
    ensures |r| <= |apps|
    ensures forall x :: x in r <==> x in apps && MatchesQuery(x, queryLower)
  {
    if apps == [] then []
    else Filtered(apps[..|apps| - 1], queryLower)
         + (if MatchesQuery(apps[|apps| - 1], queryLower) then [apps[|apps| - 1]] else [])
  }

  /** The relevance order: names starting with the query first, then by name. */
  predicate RankLe(queryLower: string, a: SearchResult, b: SearchResult) {
    var aStarts := StartsWith(Lower(a.name), queryLower);
    var bStarts := StartsWith(Lower(b.name), queryLower);
    (aStarts && !bStarts) || (aStarts == bStarts && LexLe(a.name, b.name))
  }

  function RankOrder(queryLower: string): (SearchResult, SearchResult) -> bool {
    (a, b) => RankLe(queryLower, a, b)
  }

  lemma RankOrderTotalPreorder(queryLower: string)
    ensures TotalPreorder(RankOrder(queryLower))
  {
    var le := RankOrder(queryLower);
    forall a: SearchResult, b: SearchResult ensures le(a, b) || le(b, a) {
      LexLeTotal(a.name, b.name);
    }
    forall a: SearchResult, b: SearchResult, c: SearchResult | le(a, b) && le(b, c) ensures le(a, c) {
      if LexLe(a.name, b.name) && LexLe(b.name, c.name) {
        LexLeTransitive(a.name, b.name, c.name);
      }
    }
  }

  /** The rows shown for `query`: none for an empty query; otherwise the
      first eight matches in relevance order. */
  function Shown(apps: seq<SearchResult>, query: string): (rows: seq<SearchResult>)
    ensures query == [] ==> rows == []
    ensures |rows| <= MaxRows
    ensures forall x :: x in rows ==> x in apps && MatchesQuery(x, Lower(query))
    ensures Sorted(RankOrder(Lower(query)), rows)
    ensures query != [] ==> |rows| == if |Filtered(apps, Lower(query))| <= MaxRows then |Filtered(apps, Lower(query))|
                                      else MaxRows
  {
    if query == [] then []
    else
      var q := Lower(query);
      RankOrderTotalPreorder(q);
      var ranked := Sort(RankOrder(q), Filtered(apps, q));
      forall x | x in ranked ensures x in apps && MatchesQuery(x, q) {
        SortMembers(RankOrder(q), Filtered(apps, q), x);
      }
      if |ranked| <= MaxRows then ranked else ranked[..MaxRows]
  }

  /** With at most eight matches, every match is shown. */
  lemma AllFewMatchesShown(apps: seq<SearchResult>, query: string, x: SearchResult)
    requires query != [] && |Filtered(apps, Lower(query))| <= MaxRows
    requires x in apps && MatchesQuery(x, Lower(query))
    ensures x in Shown(apps, query)
  {
    var q := Lower(query);
    RankOrderTotalPreorder(q);
    SortMembers(RankOrder(q), Filtered(apps, q), x);
  }

  /** The rows are the relevance order cut after eight. */
  lemma ShownIsCut(apps: seq<SearchResult>, query: string)
    requires query != []
    ensures TotalPreorder(RankOrder(Lower(query)))
    ensures var ranked := Sort(RankOrder(Lower(query)), Filtered(apps, Lower(query)));
      Shown(apps, query) == if |ranked| <= MaxRows then ranked else ranked[..MaxRows]
  {
    RankOrderTotalPreorder(Lower(query));
  }

  /** A matching app that is not shown ranks no higher than any shown row:
      the rows are the eight best matches. */
  lemma UnshownRanksLower(apps: seq<SearchResult>, query: string, x: SearchResult, i: nat)
    requires query != [] && x in apps && MatchesQuery(x, Lower(query))
    requires x !in Shown(apps, query) && i < |Shown(apps, query)|
    ensures RankLe(Lower(query), Shown(apps, query)[i], x)
  {
    var q := Lower(query);
    ShownIsCut(apps, query);
    var ranked := Sort(RankOrder(q), Filtered(apps, q));
    SortMembers(RankOrder(q), Filtered(apps, q), x);
    if |ranked| <= MaxRows {
      assert false;
    } else {
      SortedCutOlder(RankOrder(q), ranked, MaxRows, x, i);
    }
  }

  /** A shown name that starts with the query precedes every shown name
      that does not. */
  lemma PrefixMatchesFirst(apps: seq<SearchResult>, query: string, i: nat, j: nat)
    requires var rows := Shown(apps, query);
      i < |rows| && j < |rows|
      && StartsWith(Lower(rows[i].name), Lower(query)) && !StartsWith(Lower(rows[j].name), Lower(query))
    ensures i < j
  {
  }

  // ------------------------------------------------------------ activation

  /** Row activation as written: the index is looked up in the matches in
      list order, not in the rows on display. */
  function ActivatedAsWritten(apps: seq<SearchResult>, query: string, index: nat): Option<SearchResult> {
    var filtered := Filtered(apps, Lower(query));
    if index < |filtered| then Some(filtered[index]) else None
  }

  /** Row activation as intended: the result shown on that row. */
  function Activated(rows: seq<SearchResult>, index: nat): (r: Option<SearchResult>)
    ensures r.Some? <==> index < |rows|
    ensures r.Some? ==> r.value == rows[index]
  {
    if index < |rows| then Some(rows[index]) else None
  }

  /** The intended activation yields a result the user saw and that matches
      the query. */
  lemma ActivatedIsShownMatch(apps: seq<SearchResult>, query: string, index: nat)
    requires Activated(Shown(apps, query), index).Some?
    ensures var r := Activated(Shown(apps, query), index).value;
      r in Shown(apps, query) && r in apps && MatchesQuery(r, Lower(query))
  {
  }

  /** The two apps of the counterexample below: both match "z", neither
      starts with it, and "Az" sorts first. */
  lemma CounterexampleApps(bz: SearchResult, az: SearchResult)
    requires bz.name == "Bz" && az.name == "Az"
    ensures Lower("z") == "z"
    ensures MatchesQuery(bz, "z") && MatchesQuery(az, "z")
    ensures RankLe("z", az, bz) && !RankLe("z", bz, az)
  {
    assert Lower("z") == "z";
    assert Lower("Bz") == "bz" && Lower("Az") == "az";
    assert "bz"[1..] == "z" && "az"[1..] == "z";
    assert LexLe("Az", "Bz");
  }

  /** With "Bz" listed before "Az" and the query "z", the first row shows
      "Az" but activating it as written selects "Bz". */
  lemma ActivationMismatch()
    ensures var bz := SearchResult("bz", "Bz", "", "", 0);
      var az := SearchResult("az", "Az", "", "", 0);
      Shown([bz, az], "z") == [az, bz]
      && ActivatedAsWritten([bz, az], "z", 0) == Some(bz)
      && Activated(Shown([bz, az], "z"), 0) == Some(az)
  {
    var bz := SearchResult("bz", "Bz", "", "", 0);
    var az := SearchResult("az", "Az", "", "", 0);
    Mismatch(bz, az);
  }

  /** Any two apps named "Bz" and "Az", listed in that order. */
  lemma Mismatch(bz: SearchResult, az: SearchResult)
    requires bz.name == "Bz" && az.name == "Az"
    ensures Shown([bz, az], "z") == [az, bz]
    ensures ActivatedAsWritten([bz, az], "z", 0) == Some(bz)
    ensures Activated(Shown([bz, az], "z"), 0) == Some(az)
  {
    CounterexampleApps(bz, az);
    CounterexampleFiltered(bz, az);
    CounterexampleRanked(bz, az);
    CounterexampleShown(bz, az);
  }

  /** The rows shown for "z" are the ranked matches. */
  lemma CounterexampleShown(bz: SearchResult, az: SearchResult)
    requires Lower("z") == "z"
    requires Filtered([bz, az], "z") == [bz, az]
    requires TotalPreorder(RankOrder("z")) && Sort(RankOrder("z"), [bz, az]) == [az, bz]
    ensures Shown([bz, az], "z") == [az, bz]
  {
  }

  /** Both apps of the counterexample pass the filter, in list order. */
  lemma CounterexampleFiltered(bz: SearchResult, az: SearchResult)
    requires MatchesQuery(bz, "z") && MatchesQuery(az, "z")
    ensures Filtered([bz, az], "z") == [bz, az]
  {
    var apps := [bz, az];
    assert apps[..1] == [bz] && [bz][..0] == [];
    assert Filtered([bz], "z") == [bz];
  }

  /** Ranking puts the app that sorts first in front. */
  lemma CounterexampleRanked(bz: SearchResult, az: SearchResult)
    requires RankLe("z", az, bz) && !RankLe("z", bz, az)
    ensures TotalPreorder(RankOrder("z"))
    ensures Sort(RankOrder("z"), [bz, az]) == [az, bz]
  {
    var le := RankOrder("z");
    RankOrderTotalPreorder("z");
    assert [bz, az][..1] == [bz];
    assert Sort(le, [bz]) == [bz];
    assert Insert(le, az, [bz]) == [az, bz];
  }

  // ------------------------------------------------------------ the overlay

  class SearchOverlay {
    var visible: bool
    /** The entry's text. */
    var query: string
    /** The apps to search (`set_apps`). */
    var apps: seq<SearchResult>
    /** The rows on display. */
    var rows: seq<SearchResult>
    var hasCallback: bool

    /** `new`: hidden, empty, no callback. */
    constructor ()
      ensures !visible && query == [] && apps == [] && rows == [] && !hasCallback
    {
      visible := false;
      query := [];
      apps := [];
      rows := [];
      hasCallback := false;
    }

    /** `set_apps`: the rows on display are recomputed only when the text
        changes next. */
    method SetApps(newApps: seq<SearchResult>)
      modifies this
      ensures apps == newApps
      ensures visible == old(visible) && query == old(query) && rows == old(rows) && hasCallback == old(hasCallback)
    {
      apps := newApps;
    }

    method OnSelect()
      modifies this
      ensures hasCallback
      ensures visible == old(visible) && query == old(query) && apps == old(apps) && rows == old(rows)
    {
      hasCallback := true;
    }

    /** The entry's `changed` handler: the rows are rebuilt for the new text. */
    method TextChanged(text: string)
      modifies this
      ensures query == text && rows == Shown(apps, text)
      ensures visible == old(visible) && apps == old(apps) && hasCallback == old(hasCallback)
    {
      query := text;
      rows := Shown(apps, text);
    }

    /** `show`: visible, with the text cleared (which clears the rows). */
    method Show()
      modifies this
      ensures visible && query == [] && rows == []
      ensures apps == old(apps) && hasCallback == old(hasCallback)
    {
      visible := true;
      TextChanged([]);
    }

    /** `hide`, and the Escape key. */
    method Hide()
      modifies this
      ensures !visible
      ensures query == old(query) && apps == old(apps) && rows == old(rows) && hasCallback == old(hasCallback)
    {
      visible := false;
    }

    method Toggle()
      modifies this
      ensures visible == !old(visible)
      ensures old(visible) ==> query == old(query) && rows == old(rows)
      ensures !old(visible) ==> query == [] && rows == []
      ensures apps == old(apps) && hasCallback == old(hasCallback)
    {
      if visible {
        Hide();
      } else {
        Show();
      }
    }

    /** Activating a row hands the result shown on that row to the callback
        (the corrected rule; see `ActivatedAsWritten`). */
    method ActivateRow(index: nat) returns (selected: Option<SearchResult>)
      ensures selected == if hasCallback then Activated(rows, index) else None
    {
      if index < |rows| && hasCallback {
        return Some(rows[index]);
      }
      return None;
    }
  }
}

/** The menu matching ladder shared by both front ends: for each menu item the
    user's keywords are tried in list order, and for each keyword the tiers
    Direct, Category, Fuzzy and Semantic in that order; the first success
    decides the item and ends the walk. */
module Matching {
  import opened Text
  import opened Seqs

  datatype Option<T> = None | Some(value: T)

  /** `FUZZY_THRESHOLD = 85`, on rapidfuzz's 0..100 scale. */
  const FuzzyThreshold: real := 85.0

  /** `THRESHOLD = 0.4`, on the cosine similarity of two sentence embeddings. */
  const SemanticThreshold: real := 0.4

  /** The calls the matcher makes into code outside the model. Nothing is
      assumed about them beyond being functions of their arguments. */
  datatype Oracles = Oracles(
    lower: string -> string,                 // str.lower()
    partialRatio: (string, string) -> real,  // fuzz.partial_ratio(a, b)
    similarity: (string, string) -> real)    // cos_sim(encode(a), encode(b)).item()

  /** Python's float formatting, used only in the printed labels:
      `f"{x}"` and `f"{x:.2f}"`. */
  datatype Formatting = Formatting(show: real -> string, twoDecimals: real -> string)

  /** Which tier matched, with the score the front ends print. */
  datatype Tier = Direct | Category | Fuzzy(score: real) | Semantic(similarity: real)

  /** One annotated match: the item as scraped and the tier that admitted it. */
  datatype Entry = Entry(item: string, tier: Tier)

  /** A `CATEGORY_SYNONYMS` table: lower-cased keyword to synonyms. */
  type SynonymTable = map<string, seq<string>>

  /** Position of a tier in the evaluation order. */
  function Rank(t: Tier): nat {
    match t
    case Direct => 0
    case Category => 1
    case Fuzzy(_) => 2
    case Semantic(_) => 3
  }

  /** `CATEGORY_SYNONYMS.get(keyword_lower, [])`. */
  function Synonyms(table: SynonymTable, keywordLower: string): seq<string> {
    if keywordLower in table then table[keywordLower] else []
  }

  /** `any(syn in hay for syn in needles)`. */
  predicate AnyContained(hay: string, needles: seq<string>) {
    exists i :: 0 <= i < |needles| && Contains(hay, needles[i])
  }

  // ---------------------------------------------------------------------
  // The four tiers, as tests on one (keyword, item) pair

  predicate DirectHit(o: Oracles, keyword: string, item: string) {
    Contains(o.lower(item), o.lower(keyword))
  }

  predicate CategoryHit(table: SynonymTable, o: Oracles, keyword: string, item: string) {
    AnyContained(o.lower(item), Synonyms(table, o.lower(keyword)))
  }

  function FuzzyScore(o: Oracles, keyword: string, item: string): real {
    o.partialRatio(o.lower(keyword), o.lower(item))
  }

  predicate FuzzyHit(o: Oracles, keyword: string, item: string) {
    FuzzyScore(o, keyword, item) >= FuzzyThreshold
  }

  /** The semantic tier encodes the keyword and the item as given, not their
      lower-cased forms. */
  predicate SemanticHit(o: Oracles, keyword: string, item: string) {
    o.similarity(keyword, item) >= SemanticThreshold
  }

  /** Whether the tier of the given rank succeeds on the pair. */
  predicate Passes(table: SynonymTable, o: Oracles, keyword: string, item: string, rank: nat) {
    if rank == 0 then DirectHit(o, keyword, item)
    else if rank == 1 then CategoryHit(table, o, keyword, item)
    else if rank == 2 then FuzzyHit(o, keyword, item)
    else rank == 3 && SemanticHit(o, keyword, item)
  }

  /** The ladder for one keyword against one item: the verdict is the first
      tier, in evaluation order, that succeeds, and no tier at all when none
      does; Fuzzy and Semantic carry the score that was compared. */
  function PairTier(table: SynonymTable, o: Oracles, keyword: string, item: string): (r: Option<Tier>)
    ensures r.None? <==> forall n :: 0 <= n < 4 ==> !Passes(table, o, keyword, item, n)
    ensures r.Some? ==> Passes(table, o, keyword, item, Rank(r.value))
    ensures r.Some? ==> forall n :: 0 <= n < Rank(r.value) ==> !Passes(table, o, keyword, item, n)
    ensures r.Some? && r.value.Fuzzy? ==> r.value.score == FuzzyScore(o, keyword, item)
    ensures r.Some? && r.value.Semantic? ==> r.value.similarity == o.similarity(keyword, item)
  {
    if DirectHit(o, keyword, item) then
      assert Passes(table, o, keyword, item, 0);
      Some(Direct)
    else if CategoryHit(table, o, keyword, item) then
      assert Passes(table, o, keyword, item, 1);
      Some(Category)
    else if FuzzyHit(o, keyword, item) then
      assert Passes(table, o, keyword, item, 2);
      Some(Fuzzy(FuzzyScore(o, keyword, item)))
    else if SemanticHit(o, keyword, item) then
      assert Passes(table, o, keyword, item, 3);
      Some(Semantic(o.similarity(keyword, item)))
    else None
  }

  /** A keyword that has no entry in the table never produces a Category match. */
  lemma UnlistedKeywordSkipsCategory(table: SynonymTable, o: Oracles, keyword: string, item: string)
    requires o.lower(keyword) !in table
    ensures !CategoryHit(table, o, keyword, item)
    ensures PairTier(table, o, keyword, item) != Some(Category)
  {
  }

  /** A synonym that itself contains the keyword can never be the reason for
      a Category match: wherever it occurs, the keyword occurs too, and the
      Direct tier has already fired. */
  lemma SynonymContainingKeywordIsDirect(table: SynonymTable, o: Oracles, keyword: string, item: string, syn: string)
    requires Contains(syn, o.lower(keyword))
    requires Contains(o.lower(item), syn)
    ensures PairTier(table, o, keyword, item) == Some(Direct)
  {
    ContainsTransitive(o.lower(item), syn, o.lower(keyword));
  }

  /** When every synonym of a keyword contains the keyword, the Category
      tier can never decide a pair for it. */
  lemma CategoryUnreachableWhenSynonymsContainKeyword(table: SynonymTable, o: Oracles, keyword: string, item: string)
    requires forall i :: 0 <= i < |Synonyms(table, o.lower(keyword))| ==>
      Contains(Synonyms(table, o.lower(keyword))[i], o.lower(keyword))
    ensures PairTier(table, o, keyword, item) != Some(Category)
  {
    if CategoryHit(table, o, keyword, item) {
      var syns := Synonyms(table, o.lower(keyword));
      var i :| 0 <= i < |syns| && Contains(o.lower(item), syns[i]);
      SynonymContainingKeywordIsDirect(table, o, keyword, item, syns[i]);
    }
  }

  // ---------------------------------------------------------------------
  // First keyword wins

  /** The walk over the keywords for one item: the verdict of the first
      keyword for which some tier succeeds. */
  function ItemMatch(table: SynonymTable, o: Oracles, keywords: seq<string>, item: string): Option<Tier>
    decreases |keywords|
  {
    if keywords == [] then None
    else
      match PairTier(table, o, keywords[0], item)
      case Some(t) => Some(t)
      case None => ItemMatch(table, o, keywords[1..], item)
  }

  /** A Direct hit of the first keyword decides the item at once. */
  lemma DirectDecidesAtOnce(table: SynonymTable, o: Oracles, keywords: seq<string>, item: string)
    requires keywords != [] && DirectHit(o, keywords[0], item)
    ensures ItemMatch(table, o, keywords, item) == Some(Direct)
  {
  }

  /** The item is decided by the first keyword, in list order, that matches
      it; the keywords after it are never consulted. */
  lemma {:induction false} ItemMatchIsFirstKeyword(table: SynonymTable, o: Oracles, keywords: seq<string>, item: string, j: nat)
    requires j < |keywords|
    requires PairTier(table, o, keywords[j], item).Some?
    requires forall i :: 0 <= i < j ==> PairTier(table, o, keywords[i], item).None?
    ensures ItemMatch(table, o, keywords, item) == PairTier(table, o, keywords[j], item)
    decreases j
  {
    if j > 0 {
      assert PairTier(table, o, keywords[0], item).None?;
      ItemMatchIsFirstKeyword(table, o, keywords[1..], item, j - 1);
    }
  }

  /** An item is unmatched exactly when every keyword fails every tier on it. */
  lemma {:induction false} ItemMatchNoneIff(table: SynonymTable, o: Oracles, keywords: seq<string>, item: string)
    ensures ItemMatch(table, o, keywords, item).None?
        <==> forall i :: 0 <= i < |keywords| ==> PairTier(table, o, keywords[i], item).None?
    decreases |keywords|
  {
    if keywords != [] {
      ItemMatchNoneIff(table, o, keywords[1..], item);
      assert forall i :: 1 <= i < |keywords| ==> keywords[i] == keywords[1..][i - 1];
    }
  }

  /** The keywords for which the sentence-embedding model is consulted while
      deciding one item, in the order the walk consults it. */
  function SemanticQueries(table: SynonymTable, o: Oracles, keywords: seq<string>, item: string): seq<string>
    decreases |keywords|
  {
    if keywords == [] then []
    else
      var k := keywords[0];
      if DirectHit(o, k, item) || CategoryHit(table, o, k, item) || FuzzyHit(o, k, item) then []
      else if SemanticHit(o, k, item) then [k]
      else [k] + SemanticQueries(table, o, keywords[1..], item)
  }

  /** The model is run on a pair only once Direct, Category and Fuzzy have all
      failed on it, and never for a keyword after the one that decided the item. */
  lemma {:induction false} SemanticQueriedOnlyAfterCheaperTiersFail(
    table: SynonymTable, o: Oracles, keywords: seq<string>, item: string)
    ensures forall i :: 0 <= i < |SemanticQueries(table, o, keywords, item)| ==>
      var k := SemanticQueries(table, o, keywords, item)[i];
      !DirectHit(o, k, item) && !CategoryHit(table, o, k, item) && !FuzzyHit(o, k, item)
    ensures SemanticQueries(table, o, keywords, item) <= keywords
    ensures forall j :: 0 <= j < |keywords| && PairTier(table, o, keywords[j], item).Some? ==>
      |SemanticQueries(table, o, keywords, item)| <= j + 1
    decreases |keywords|
  {
    if keywords != [] {
      SemanticQueriedOnlyAfterCheaperTiersFail(table, o, keywords[1..], item);
      assert keywords == [keywords[0]] + keywords[1..];
      forall j | 1 <= j < |keywords| ensures keywords[j] == keywords[1..][j - 1] {
      }
    }
  }

  /** One step of the walk: the keyword at position `j` decides the item
      if some tier succeeds on it; otherwise the walk moves on. */
  lemma WalkStep(table: SynonymTable, o: Oracles, keywords: seq<string>, item: string, j: nat)
    requires j < |keywords|
    ensures ItemMatch(table, o, keywords[j..], item) ==
      var k := keywords[j];
      if DirectHit(o, k, item) then Some(Direct)
      else if CategoryHit(table, o, k, item) then Some(Category)
      else if FuzzyHit(o, k, item) then Some(Fuzzy(FuzzyScore(o, k, item)))
      else if SemanticHit(o, k, item) then Some(Semantic(o.similarity(k, item)))
      else ItemMatch(table, o, keywords[j + 1..], item)
    ensures SemanticQueries(table, o, keywords[j..], item) ==
      var k := keywords[j];
      if DirectHit(o, k, item) || CategoryHit(table, o, k, item) || FuzzyHit(o, k, item) then []
      else if SemanticHit(o, k, item) then [k]
      else [k] + SemanticQueries(table, o, keywords[j + 1..], item)
  {
    assert keywords[j..][0] == keywords[j] && keywords[j..][1..] == keywords[j + 1..];
  }

  /** The keyword walk for one item, as both front ends write it inline:
      the tiers are tried in order and a success ends the walk (`break`).
      `queried` records the keywords handed to the embedding model. */
  method MatchItem(table: SynonymTable, o: Oracles, keywords: seq<string>, item: string)
    returns (t: Option<Tier>, ghost queried: seq<string>)
    ensures t == ItemMatch(table, o, keywords, item)
    ensures queried == SemanticQueries(table, o, keywords, item)
  {
    var itemLower := o.lower(item);
    t, queried := None, [];
    var j := 0;
    while j < |keywords|
      invariant 0 <= j <= |keywords|
      invariant t == None
      invariant ItemMatch(table, o, keywords, item) == ItemMatch(table, o, keywords[j..], item)
      invariant SemanticQueries(table, o, keywords, item) == queried + SemanticQueries(table, o, keywords[j..], item)
    {
      var keyword := keywords[j];
      var keywordLower := o.lower(keyword);
      WalkStep(table, o, keywords, item, j);
      // 1. direct containment
      if Contains(itemLower, keywordLower) {
        t := Some(Direct);
        assert t == ItemMatch(table, o, keywords, item) && queried == SemanticQueries(table, o, keywords, item);
        break;
      }
      // 2. a synonym of the keyword is contained
      var synonyms := Synonyms(table, keywordLower);
      if AnyContained(itemLower, synonyms) {
        t := Some(Category);
        assert t == ItemMatch(table, o, keywords, item) && queried == SemanticQueries(table, o, keywords, item);
        break;
      }
      // 3. approximate match
      var score := o.partialRatio(keywordLower, itemLower);
      if score >= FuzzyThreshold {
        t := Some(Fuzzy(score));
        assert t == ItemMatch(table, o, keywords, item) && queried == SemanticQueries(table, o, keywords, item);
        break;
      }
      // 4. embedding similarity, on the original-case strings
      ConcatAssoc(queried, [keyword], SemanticQueries(table, o, keywords[j + 1..], item));
      queried := queried + [keyword];
      var sim := o.similarity(keyword, item);
      if sim >= SemanticThreshold {
        t := Some(Semantic(sim));
        assert t == ItemMatch(table, o, keywords, item) && queried == SemanticQueries(table, o, keywords, item);
        break;
      }
      j := j + 1;
    }
    if t == None {
      assert keywords[j..] == [];
    }
  }

  // ---------------------------------------------------------------------
  // One location's menu

  /** The entries for one menu: one per matched item, in menu order. */
  function MenuMatches(table: SynonymTable, o: Oracles, keywords: seq<string>, items: seq<string>): seq<Entry>
    decreases |items|
  {
    if items == [] then []
    else
      var prev := MenuMatches(table, o, keywords, items[..|items| - 1]);
      var item := items[|items| - 1];
      match ItemMatch(table, o, keywords, item)
      case None => prev
      case Some(t) => prev + [Entry(item, t)]
  }

  /** One more item extends a menu's entries by its own, if it matched. */
  lemma MenuMatchesSnoc(table: SynonymTable, o: Oracles, keywords: seq<string>, items: seq<string>, i: nat)
    requires i < |items|
    ensures MenuMatches(table, o, keywords, items[..i + 1]) ==
      match ItemMatch(table, o, keywords, items[i])
      case None => MenuMatches(table, o, keywords, items[..i])
      case Some(t) => MenuMatches(table, o, keywords, items[..i]) + [Entry(items[i], t)]
  {
    assert items[..i + 1][..i] == items[..i];
  }

  /** Positions of the matched items of a menu, in increasing order. */
  function MatchedPositions(table: SynonymTable, o: Oracles, keywords: seq<string>, items: seq<string>): seq<nat>
    decreases |items|
  {
    if items == [] then []
    else
      var prev := MatchedPositions(table, o, keywords, items[..|items| - 1]);
      if ItemMatch(table, o, keywords, items[|items| - 1]).Some? then prev + [|items| - 1] else prev
  }

  predicate Increasing(ps: seq<nat>) {
    forall a, b :: 0 <= a < b < |ps| ==> ps[a] < ps[b]
  }

  /** The entries are exactly the matched items, each once, in menu order,
      each with the verdict of its keyword walk. */
  lemma {:induction false} MenuMatchesAtPositions(table: SynonymTable, o: Oracles, keywords: seq<string>, items: seq<string>)
    ensures var r, ps := MenuMatches(table, o, keywords, items), MatchedPositions(table, o, keywords, items);
      && |ps| == |r|
      && Increasing(ps)
      && (forall k :: 0 <= k < |ps| ==>
            && ps[k] < |items|
            && ItemMatch(table, o, keywords, items[ps[k]]).Some?
            && r[k] == Entry(items[ps[k]], ItemMatch(table, o, keywords, items[ps[k]]).value))
    decreases |items|
  {
    if items != [] {
      var n := |items| - 1;
      var p := items[..n];
      MenuMatchesAtPositions(table, o, keywords, p);
      var ps := MatchedPositions(table, o, keywords, p);
      forall k | 0 <= k < |ps| ensures items[ps[k]] == p[ps[k]] {
      }
      assert items[..n + 1] == items;
      MenuMatchesSnoc(table, o, keywords, items, n);
    }
  }

  /** Every matched item's position is recorded. */
  lemma {:induction false} MatchedPositionsComplete(table: SynonymTable, o: Oracles, keywords: seq<string>, items: seq<string>)
    ensures forall i :: 0 <= i < |items| && ItemMatch(table, o, keywords, items[i]).Some? ==>
      i in MatchedPositions(table, o, keywords, items)
    decreases |items|
  {
    if items != [] {
      var p := items[..|items| - 1];
      MatchedPositionsComplete(table, o, keywords, p);
      forall i | 0 <= i < |p| ensures items[i] == p[i] {
      }
    }
  }

  /** Every entry belongs to a menu item that some keyword matches, with that
      item's verdict. */
  lemma MenuMatchesSound(table: SynonymTable, o: Oracles, keywords: seq<string>, items: seq<string>, k: nat)
    requires k < |MenuMatches(table, o, keywords, items)|
    ensures MenuMatches(table, o, keywords, items)[k].item in items
    ensures ItemMatch(table, o, keywords, MenuMatches(table, o, keywords, items)[k].item)
         == Some(MenuMatches(table, o, keywords, items)[k].tier)
  {
    MenuMatchesAtPositions(table, o, keywords, items);
  }

  /** Every item that some keyword matches has its entry. */
  lemma MenuMatchesComplete(table: SynonymTable, o: Oracles, keywords: seq<string>, items: seq<string>, i: nat)
    requires i < |items| && ItemMatch(table, o, keywords, items[i]).Some?
    ensures Entry(items[i], ItemMatch(table, o, keywords, items[i]).value) in MenuMatches(table, o, keywords, items)
  {
    MenuMatchesAtPositions(table, o, keywords, items);
    MatchedPositionsComplete(table, o, keywords, items);
    var ps := MatchedPositions(table, o, keywords, items);
    var k :| 0 <= k < |ps| && ps[k] == i;
    assert MenuMatches(table, o, keywords, items)[k] == Entry(items[i], ItemMatch(table, o, keywords, items[i]).value);
  }

  function ItemsOf(es: seq<Entry>): (r: seq<string>)
    ensures |r| == |es| && forall k :: 0 <= k < |es| ==> r[k] == es[k].item
  {
    if es == [] then [] else [es[0].item] + ItemsOf(es[1..])
  }

  /** Distinct menu items give entries with distinct items: no item is
      reported twice for one location. */
  lemma MenuMatchesDistinct(table: SynonymTable, o: Oracles, keywords: seq<string>, items: seq<string>)
    requires Distinct(items)
    ensures Distinct(ItemsOf(MenuMatches(table, o, keywords, items)))
  {
    MenuMatchesAtPositions(table, o, keywords, items);
  }

  /** A menu yields no entry exactly when no keyword matches any of its items. */
  lemma MenuMatchesEmptyIff(table: SynonymTable, o: Oracles, keywords: seq<string>, items: seq<string>)
    ensures MenuMatches(table, o, keywords, items) == []
        <==> forall i :: 0 <= i < |items| ==> ItemMatch(table, o, keywords, items[i]).None?
  {
    MenuMatchesAtPositions(table, o, keywords, items);
    MatchedPositionsComplete(table, o, keywords, items);
    var ps := MatchedPositions(table, o, keywords, items);
    if ps != [] {
      assert ItemMatch(table, o, keywords, items[ps[0]]).Some?;
    }
  }

  // ---------------------------------------------------------------------
  // All locations

  /** The per-location results, in location order, leaving out every
      location whose menu yielded no entry. */
  function Report(table: SynonymTable, o: Oracles, keywords: seq<string>, menus: seq<(string, seq<string>)>)
    : seq<(string, seq<Entry>)>
    decreases |menus|
  {
    if menus == [] then []
    else
      var prev := Report(table, o, keywords, menus[..|menus| - 1]);
      var (name, items) := menus[|menus| - 1];
      var m := MenuMatches(table, o, keywords, items);
      if m == [] then prev else prev + [(name, m)]
  }

  /** One more location extends the report by its entries, if it has any. */
  lemma ReportSnoc(table: SynonymTable, o: Oracles, keywords: seq<string>, menus: seq<(string, seq<string>)>, l: nat)
    requires l < |menus|
    ensures Report(table, o, keywords, menus[..l + 1]) ==
      if MenuMatches(table, o, keywords, menus[l].1) == [] then Report(table, o, keywords, menus[..l])
      else Report(table, o, keywords, menus[..l]) + [(menus[l].0, MenuMatches(table, o, keywords, menus[l].1))]
  {
    assert menus[..l + 1][..l] == menus[..l];
  }

  function Names<V>(ps: seq<(string, V)>): (r: seq<string>)
    ensures |r| == |ps| && forall k :: 0 <= k < |ps| ==> r[k] == ps[k].0
  {
    if ps == [] then [] else [ps[0].0] + Names(ps[1..])
  }

  lemma NamesSnoc<V>(ps: seq<(string, V)>, x: (string, V))
    ensures Names(ps + [x]) == Names(ps) + [x.0]
  {
  }

  /** Every reported location is a scraped location with a non-empty list,
      and that list is its menu's entries. */
  lemma {:induction false} ReportSound(table: SynonymTable, o: Oracles, keywords: seq<string>, menus: seq<(string, seq<string>)>)
    ensures forall k :: 0 <= k < |Report(table, o, keywords, menus)| ==>
      Report(table, o, keywords, menus)[k].1 != []
      && exists j :: 0 <= j < |menus| && Report(table, o, keywords, menus)[k] == (menus[j].0, MenuMatches(table, o, keywords, menus[j].1))
    decreases |menus|
  {
    if menus != [] {
      var p := menus[..|menus| - 1];
      ReportSound(table, o, keywords, p);
      var r := Report(table, o, keywords, menus);
      forall k | 0 <= k < |r|
        ensures exists j :: 0 <= j < |menus| && r[k] == (menus[j].0, MenuMatches(table, o, keywords, menus[j].1))
      {
        if k < |Report(table, o, keywords, p)| {
          var j :| 0 <= j < |p| && Report(table, o, keywords, p)[k] == (p[j].0, MenuMatches(table, o, keywords, p[j].1));
          assert menus[j] == p[j];
        } else {
          assert menus[|menus| - 1] == (menus[|menus| - 1].0, menus[|menus| - 1].1);
        }
      }
    }
  }

  /** Every location whose menu yielded an entry is reported with it. */
  lemma {:induction false} ReportComplete(table: SynonymTable, o: Oracles, keywords: seq<string>, menus: seq<(string, seq<string>)>, j: nat)
    requires j < |menus| && MenuMatches(table, o, keywords, menus[j].1) != []
    ensures (menus[j].0, MenuMatches(table, o, keywords, menus[j].1)) in Report(table, o, keywords, menus)
    decreases |menus|
  {
    var p := menus[..|menus| - 1];
    if j < |menus| - 1 {
      assert p[j] == menus[j];
      ReportComplete(table, o, keywords, p, j);
    }
  }

  /** A name that is not one of the scraped locations is not reported. */
  lemma ReportNamesFromMenus(table: SynonymTable, o: Oracles, keywords: seq<string>, menus: seq<(string, seq<string>)>, name: string)
    requires name !in Names(menus)
    ensures name !in Names(Report(table, o, keywords, menus))
  {
    ReportSound(table, o, keywords, menus);
    var r := Report(table, o, keywords, menus);
    forall k | 0 <= k < |r| ensures r[k].0 != name {
      var j :| 0 <= j < |menus| && r[k] == (menus[j].0, MenuMatches(table, o, keywords, menus[j].1));
      assert Names(menus)[j] == menus[j].0;
    }
  }

  /** Distinct location names stay distinct in the report, so it is a
      faithful picture of the dictionary the front ends build. */
  lemma {:induction false} ReportNamesDistinct(table: SynonymTable, o: Oracles, keywords: seq<string>, menus: seq<(string, seq<string>)>)
    requires Distinct(Names(menus))
    ensures Distinct(Names(Report(table, o, keywords, menus)))
    decreases |menus|
  {
    if menus != [] {
      var p := menus[..|menus| - 1];
      var last := menus[|menus| - 1];
      assert menus == p + [last];
      NamesSnoc(p, last);
      DistinctSnoc(Names(p), last.0);
      ReportNamesDistinct(table, o, keywords, p);
      ReportNamesFromMenus(table, o, keywords, p, last.0);
      ReportSnoc(table, o, keywords, menus, |menus| - 1);
      var prev := Report(table, o, keywords, p);
      var m := MenuMatches(table, o, keywords, last.1);
      if m != [] {
        NamesSnoc(prev, (last.0, m));
        DistinctSnoc(Names(prev), last.0);
      }
    }
  }

  /** With an empty keyword list nothing matches anywhere. */
  lemma {:induction false} ReportWithoutKeywordsIsEmpty(table: SynonymTable, o: Oracles, menus: seq<(string, seq<string>)>)
    ensures Report(table, o, [], menus) == []
    decreases |menus|
  {
    if menus != [] {
      ReportWithoutKeywordsIsEmpty(table, o, menus[..|menus| - 1]);
      MenuMatchesEmptyIff(table, o, [], menus[|menus| - 1].1);
    }
  }

  // ---------------------------------------------------------------------
  // Printed labels

  /** The labels of a list of entries, one per entry, in order. */
  function Labels(render: Entry -> string, es: seq<Entry>): (r: seq<string>)
    ensures |r| == |es| && forall k :: 0 <= k < |es| ==> r[k] == render(es[k])
  {
    if es == [] then [] else [render(es[0])] + Labels(render, es[1..])
  }

  lemma LabelsSnoc(render: Entry -> string, es: seq<Entry>, e: Entry)
    ensures Labels(render, es + [e]) == Labels(render, es) + [render(e)]
  {
  }

  /** A report with each location's entries turned into labels. */
  function LabelReport(render: Entry -> string, report: seq<(string, seq<Entry>)>): (r: seq<(string, seq<string>)>)
    ensures |r| == |report|
    ensures forall k :: 0 <= k < |report| ==> r[k] == (report[k].0, Labels(render, report[k].1))
  {
    if report == [] then []
    else [(report[0].0, Labels(render, report[0].1))] + LabelReport(render, report[1..])
  }

  lemma LabelReportSnoc(render: Entry -> string, report: seq<(string, seq<Entry>)>, p: (string, seq<Entry>))
    ensures LabelReport(render, report + [p]) == LabelReport(render, report) + [(p.0, Labels(render, p.1))]
  {
  }
}

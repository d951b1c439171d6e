/** mensa.py, the desktop reminder: `check_for_matches` runs the matching
    ladder with this file's synonym table, stores a printed label per matched
    item (skipping the append when the item's text is already one of the
    stored labels), and dedups each location's list before reporting it;
    `add_keyword` and `clear_keywords` maintain the stored keyword list. */
module Mensa {
  import opened Text
  import opened Seqs
  import opened Matching

  /** This file's `CATEGORY_SYNONYMS`. */
  const CategorySynonyms: SynonymTable := map[
    "nudeln" := ["pasta", "spaghetti", "teigwaren", "maccheroni", "lasagne", "tagliatelle", "penne"],
    "reis" := ["reis", "basmatireis", "wildreis", "jasminreis"],
    "kartoffeln" := ["kartoffel", "pommes", "kartoffelbrei", "kartoffelsalat", "bratkartoffeln", "rosenkartoffeln"],
    "hähnchen" := ["huhn", "poulet", "hähnchenbrust", "pouletbrust", "hähnchenfleisch"],
    "rind" := ["rindfleisch", "rind", "rinderfilet", "rinderhack", "rinderbraten"],
    "schwein" := ["schweinefleisch", "schwein", "schweineschnitzel", "schweinebraten"],
    "fisch" := ["fisch", "lachs", "forelle", "seelachs", "fischfilet"],
    "vegan" := ["vegetarisch", "pflanzlich", "gemüse", "salat", "tofu", "falafel"],
    "asiatisch" := ["japanisch", "chinesisch", "thai", "koreanisch", "vietnamesisch", "indisch", "indonesisch"],
    "käse" := ["käse", "emmentaler", "schafskäse", "mozarella", "parmesan"],
    "dessert" := ["nachtisch", "kuchen", "pudding", "creme", "eis", "torte", "apfelstrudel"],
    "burger" := ["burger", "hamburger", "cheeseburger", "veggie burger", "chicken burger"],
    "pizza" := ["pizza", "fladenbrotpizza", "margherita", "pepperoni", "vegetarisch pizza"],
    "dip" := ["dip", "soße", "sauce", "dressing", "ketchup", "mayonnaise", "senf"]
  ]

  /** The label this file prints for an entry: the item followed by the tier
      in parentheses. */
  function Label(fmt: Formatting, e: Entry): (r: string)
    ensures e.item < r
  {
    e.item +
      match e.tier
      case Direct => " (direct match)"
      case Category => " (category match)"
      case Fuzzy(score) => " (fuzzy match, score: " + fmt.show(score) + ")"
      case Semantic(sim) => " (semantic match, score: " + fmt.twoDecimals(sim) + ")"
  }

  function Render(fmt: Formatting): Entry -> string {
    e => Label(fmt, e)
  }

  /** In this table every synonym of "reis", "rind", "schwein" and "burger"
      contains the keyword itself, so for these keywords the Category tier
      never fires: the Direct tier has always answered first. */
  lemma SelfContainingSynonymsNeverDecide(o: Oracles, keyword: string, item: string)
    requires o.lower(keyword) in {"reis", "rind", "schwein", "burger"}
    ensures PairTier(CategorySynonyms, o, keyword, item) != Some(Category)
  {
    var k := o.lower(keyword);
    if k == "reis" {
      ReisSynonymsContainKeyword();
    } else if k == "burger" {
      BurgerSynonymsContainKeyword();
    } else {
      PrefixSynonymsContainKeyword(k);
    }
    CategoryUnreachableWhenSynonymsContainKeyword(CategorySynonyms, o, keyword, item);
  }

  /** The synonyms of "reis" all end with the keyword. */
  lemma ReisSynonymsContainKeyword()
    ensures forall i :: 0 <= i < |Synonyms(CategorySynonyms, "reis")| ==>
      Contains(Synonyms(CategorySynonyms, "reis")[i], "reis")
  {
    var syns := Synonyms(CategorySynonyms, "reis");
    assert syns == ["reis", "basmatireis", "wildreis", "jasminreis"];
    forall i | 0 <= i < |syns| ensures Contains(syns[i], "reis") {
      if i == 0 {
        ContainsSuffix("reis", "reis");
      } else if i == 1 {
        ContainsSuffix("basmatireis", "reis");
      } else if i == 2 {
        ContainsSuffix("wildreis", "reis");
      } else {
        ContainsSuffix("jasminreis", "reis");
      }
    }
  }

  /** The synonyms of "burger" all end with the keyword. */
  lemma BurgerSynonymsContainKeyword()
    ensures forall i :: 0 <= i < |Synonyms(CategorySynonyms, "burger")| ==>
      Contains(Synonyms(CategorySynonyms, "burger")[i], "burger")
  {
    var syns := Synonyms(CategorySynonyms, "burger");
    assert syns == ["burger", "hamburger", "cheeseburger", "veggie burger", "chicken burger"];
    forall i | 0 <= i < |syns| ensures Contains(syns[i], "burger") {
      if i == 0 {
        ContainsSuffix("burger", "burger");
      } else if i == 1 {
        ContainsSuffix("hamburger", "burger");
      } else if i == 2 {
        ContainsSuffix("cheeseburger", "burger");
      } else if i == 3 {
        ContainsSuffix("veggie burger", "burger");
      } else {
        ContainsSuffix("chicken burger", "burger");
      }
    }
  }

  /** The synonyms of "rind" and "schwein" all start with the keyword. */
  lemma PrefixSynonymsContainKeyword(k: string)
    requires k == "rind" || k == "schwein"
    ensures forall i :: 0 <= i < |Synonyms(CategorySynonyms, k)| ==>
      Contains(Synonyms(CategorySynonyms, k)[i], k)
  {
    var syns := Synonyms(CategorySynonyms, k);
    forall i | 0 <= i < |syns| ensures Contains(syns[i], k) {
      assert k <= syns[i];
    }
  }

  // ---------------------------------------------------------------------
  // The loop as written

  /** One location's `matches` list as the item loop builds it: a matched
      item's label is appended only if the item's own text is not already
      one of the labels stored so far. */
  function GuardedMatches(o: Oracles, fmt: Formatting, keywords: seq<string>, items: seq<string>): seq<string>
    decreases |items|
  {
    if items == [] then []
    else
      var prev := GuardedMatches(o, fmt, keywords, items[..|items| - 1]);
      var item := items[|items| - 1];
      match ItemMatch(CategorySynonyms, o, keywords, item)
      case None => prev
      case Some(t) => if item in prev then prev else prev + [Label(fmt, Entry(item, t))]
  }

  /** `matches_found`: every location whose list is non-empty, with the list
      passed through `dict.fromkeys`. */
  function MensaReport(o: Oracles, fmt: Formatting, keywords: seq<string>, menus: seq<(string, seq<string>)>)
    : seq<(string, seq<string>)>
    decreases |menus|
  {
    if menus == [] then []
    else
      var prev := MensaReport(o, fmt, keywords, menus[..|menus| - 1]);
      var (name, items) := menus[|menus| - 1];
      var g := GuardedMatches(o, fmt, keywords, items);
      if g == [] then prev else prev + [(name, Dedup(g))]
  }

  /** `check_for_matches`, given the stored keywords and the scraped menus:
      nothing at all when no keyword is stored, otherwise `matches_found`. */
  method CheckForMatches(o: Oracles, fmt: Formatting, keywords: seq<string>, menus: seq<(string, seq<string>)>)
    returns (found: Option<seq<(string, seq<string>)>>)
    ensures keywords == [] ==> found == None
    ensures keywords != [] ==> found == Some(MensaReport(o, fmt, keywords, menus))
  {
    if |keywords| == 0 {
      return None;
    }
    var matchesFound: seq<(string, seq<string>)> := [];
    for l := 0 to |menus|
      invariant matchesFound == MensaReport(o, fmt, keywords, menus[..l])
    {
      var (name, items) := menus[l];
      var matches: seq<string> := [];
      for i := 0 to |items|
        invariant matches == GuardedMatches(o, fmt, keywords, items[..i])
      {
        var item := items[i];
        var t, _ := MatchItem(CategorySynonyms, o, keywords, item);
        assert items[..i + 1][..i] == items[..i];
        if t.Some? && item !in matches {
          matches := matches + [Label(fmt, Entry(item, t.value))];
        }
      }
      assert items[..|items|] == items;
      assert menus[..l + 1][..l] == menus[..l];
      if matches != [] {
        matchesFound := matchesFound + [(name, Dedup(matches))];
      }
    }
    assert menus[..|menus|] == menus;
    return Some(matchesFound);
  }

  // ---------------------------------------------------------------------
  // What the guard does and does not change

  /** The guard only ever skips an item once the list is non-empty, so a
      location's list is empty exactly when none of its items matched. */
  lemma {:induction false} GuardedMatchesEmptyIff(o: Oracles, fmt: Formatting, keywords: seq<string>, items: seq<string>)
    ensures GuardedMatches(o, fmt, keywords, items) == []
        <==> MenuMatches(CategorySynonyms, o, keywords, items) == []
    decreases |items|
  {
    if items != [] {
      GuardedMatchesEmptyIff(o, fmt, keywords, items[..|items| - 1]);
    }
  }

  /** A location appears in `matches_found` exactly when the ladder matched
      one of its items. */
  lemma {:induction false} MensaReportLocations(o: Oracles, fmt: Formatting, keywords: seq<string>, menus: seq<(string, seq<string>)>)
    ensures Names(MensaReport(o, fmt, keywords, menus)) == Names(Report(CategorySynonyms, o, keywords, menus))
    decreases |menus|
  {
    if menus != [] {
      var p := menus[..|menus| - 1];
      var (name, items) := menus[|menus| - 1];
      MensaReportLocations(o, fmt, keywords, p);
      GuardedMatchesEmptyIff(o, fmt, keywords, items);
      var a, b := MensaReport(o, fmt, keywords, p), Report(CategorySynonyms, o, keywords, p);
      var g, m := GuardedMatches(o, fmt, keywords, items), MenuMatches(CategorySynonyms, o, keywords, items);
      ReportSnoc(CategorySynonyms, o, keywords, menus, |menus| - 1);
      assert menus[..|menus|] == menus;
      if g != [] {
        NamesSnoc(a, (name, Dedup(g)));
        NamesSnoc(b, (name, m));
      }
    }
  }

  /** Every list in `matches_found` is non-empty and duplicate-free. */
  lemma {:induction false} MensaReportListsNonEmptyDistinct(o: Oracles, fmt: Formatting, keywords: seq<string>, menus: seq<(string, seq<string>)>)
    ensures forall k :: 0 <= k < |MensaReport(o, fmt, keywords, menus)| ==>
      MensaReport(o, fmt, keywords, menus)[k].1 != [] && Distinct(MensaReport(o, fmt, keywords, menus)[k].1)
    decreases |menus|
  {
    if menus != [] {
      MensaReportListsNonEmptyDistinct(o, fmt, keywords, menus[..|menus| - 1]);
      var g := GuardedMatches(o, fmt, keywords, menus[|menus| - 1].1);
      if g != [] {
        assert g[0] in Dedup(g);
      }
    }
  }

  /** Whatever the guard skips, a location's list is the list of the labels
      of its matched items, in menu order, with some of them left out: the
      guard can drop a label but never adds, reorders or alters one. */
  lemma {:induction false} GuardedMatchesWithinLabels(o: Oracles, fmt: Formatting, keywords: seq<string>, items: seq<string>)
    ensures IsSubsequence(GuardedMatches(o, fmt, keywords, items), Labels(Render(fmt), MenuMatches(CategorySynonyms, o, keywords, items)))
    ensures forall x :: x in GuardedMatches(o, fmt, keywords, items) ==>
      x in Labels(Render(fmt), MenuMatches(CategorySynonyms, o, keywords, items))
    decreases |items|
  {
    var g := GuardedMatches(o, fmt, keywords, items);
    var ls := Labels(Render(fmt), MenuMatches(CategorySynonyms, o, keywords, items));
    if items != [] {
      var p := items[..|items| - 1];
      var item := items[|items| - 1];
      GuardedMatchesWithinLabels(o, fmt, keywords, p);
      var gp := GuardedMatches(o, fmt, keywords, p);
      var es := MenuMatches(CategorySynonyms, o, keywords, p);
      var lp := Labels(Render(fmt), es);
      match ItemMatch(CategorySynonyms, o, keywords, item)
      case None =>
      case Some(t) =>
        var l := Label(fmt, Entry(item, t));
        LabelsSnoc(Render(fmt), es, Entry(item, t));
        assert ls == lp + [l];
        if item in gp {
          SubsequenceConcat(gp, lp, [], [l]);
          assert gp + [] == gp;
        } else {
          SubsequenceConcat(gp, lp, [l], [l]);
        }
    }
    SubsequenceMembers(g, ls);
  }

  /** When no item's text is the label, under any tier, of an item before
      it, the guard never fires and the list holds the label of every
      matched item, in menu order. */
  lemma {:induction false} GuardHarmlessUnlessItemIsEarlierLabel(o: Oracles, fmt: Formatting, keywords: seq<string>, items: seq<string>)
    requires forall i, j, t :: 0 <= j < i < |items| ==> items[i] != Label(fmt, Entry(items[j], t))
    ensures GuardedMatches(o, fmt, keywords, items) == Labels(Render(fmt), MenuMatches(CategorySynonyms, o, keywords, items))
    decreases |items|
  {
    if items != [] {
      var p := items[..|items| - 1];
      var item := items[|items| - 1];
      forall i, j, t | 0 <= j < i < |p| ensures p[i] != Label(fmt, Entry(p[j], t)) {
        assert p[i] == items[i] && p[j] == items[j];
      }
      GuardHarmlessUnlessItemIsEarlierLabel(o, fmt, keywords, p);
      var es := MenuMatches(CategorySynonyms, o, keywords, p);
      forall j, t | 0 <= j < |p| ensures item != Label(fmt, Entry(p[j], t)) {
        assert p[j] == items[j];
      }
      ItemNotAmongLabels(o, fmt, keywords, p, item);
      match ItemMatch(CategorySynonyms, o, keywords, item)
      case None =>
      case Some(t) =>
        LabelsSnoc(Render(fmt), es, Entry(item, t));
    }
  }

  /** An item that is no label of an earlier item is not among the labels
      stored for those items. */
  lemma ItemNotAmongLabels(o: Oracles, fmt: Formatting, keywords: seq<string>, items: seq<string>, item: string)
    requires forall j, t :: 0 <= j < |items| ==> item != Label(fmt, Entry(items[j], t))
    ensures item !in Labels(Render(fmt), MenuMatches(CategorySynonyms, o, keywords, items))
  {
    var es := MenuMatches(CategorySynonyms, o, keywords, items);
    var ls := Labels(Render(fmt), es);
    forall k | 0 <= k < |ls| ensures ls[k] != item {
      MenuMatchesSound(CategorySynonyms, o, keywords, items, k);
      var j :| 0 <= j < |items| && items[j] == es[k].item;
      assert es[k] == Entry(items[j], es[k].tier);
    }
  }

  /** The guard compares the raw item with the stored labels, so a matched
      item whose text happens to be an earlier item's label is silently
      dropped: with the keyword "Pasta" and the menu "Pasta",
      "Pasta (direct match)", both items match directly, yet only the
      first one is reported. */
  lemma GuardDropsItemEqualToEarlierLabel(o: Oracles, fmt: Formatting)
    requires o.lower("Pasta") == "pasta"
    requires o.lower("Pasta (direct match)") == "pasta (direct match)"
    ensures var items := ["Pasta", "Pasta (direct match)"];
      && Distinct(items)
      && ItemMatch(CategorySynonyms, o, ["Pasta"], items[0]) == Some(Direct)
      && ItemMatch(CategorySynonyms, o, ["Pasta"], items[1]) == Some(Direct)
      && GuardedMatches(o, fmt, ["Pasta"], items) == ["Pasta (direct match)"]
      && Label(fmt, Entry(items[1], Direct)) !in GuardedMatches(o, fmt, ["Pasta"], items)
  {
    var items := ["Pasta", "Pasta (direct match)"];
    var kws := ["Pasta"];
    assert Contains("pasta", "pasta") by { assert "pasta" <= "pasta"; }
    assert Contains("pasta (direct match)", "pasta") by { assert "pasta" <= "pasta (direct match)"; }
    DirectDecidesAtOnce(CategorySynonyms, o, kws, items[0]);
    DirectDecidesAtOnce(CategorySynonyms, o, kws, items[1]);
    PastaLabel(fmt);
    SecondItemIsFirstLabel(o, fmt, kws, items[0], items[1]);
  }

  lemma PastaLabel(fmt: Formatting)
    ensures Label(fmt, Entry("Pasta", Direct)) == "Pasta (direct match)"
  {
    assert Label(fmt, Entry("Pasta", Direct)) == "Pasta" + " (direct match)";
  }

  /** When the second item's text is the label of the first, both match and
      the first is decided Direct, the guard keeps only the first label. */
  lemma SecondItemIsFirstLabel(o: Oracles, fmt: Formatting, keywords: seq<string>, a: string, b: string)
    requires ItemMatch(CategorySynonyms, o, keywords, a) == Some(Direct)
    requires ItemMatch(CategorySynonyms, o, keywords, b).Some?
    requires Label(fmt, Entry(a, Direct)) == b
    ensures GuardedMatches(o, fmt, keywords, [a, b]) == [b]
  {
    GuardedMatchesSnoc(o, fmt, keywords, [], a);
    assert [] + [a] == [a];
    GuardedMatchesSnoc(o, fmt, keywords, [a], b);
    assert [a] + [b] == [a, b];
  }

  /** One more item extends the guarded list as the loop body does. */
  lemma GuardedMatchesSnoc(o: Oracles, fmt: Formatting, keywords: seq<string>, items: seq<string>, item: string)
    ensures var prev := GuardedMatches(o, fmt, keywords, items);
      GuardedMatches(o, fmt, keywords, items + [item]) ==
        match ItemMatch(CategorySynonyms, o, keywords, item)
        case None => prev
        case Some(t) => if item in prev then prev else prev + [Label(fmt, Entry(item, t))]
  {
    assert (items + [item])[..|items|] == items;
  }

  // ---------------------------------------------------------------------
  // The evidently intended behaviour

  /** One location's list without the broken guard: the label of every
      matched item, in menu order, passed through `dict.fromkeys`. */
  function IntendedMatches(o: Oracles, fmt: Formatting, keywords: seq<string>, items: seq<string>): seq<string> {
    Dedup(Labels(Render(fmt), MenuMatches(CategorySynonyms, o, keywords, items)))
  }

  /** Without the guard, every item that the ladder matches is reported with
      the label of its verdict, each label once, and nothing else is. */
  lemma IntendedMatchesReportEveryMatch(o: Oracles, fmt: Formatting, keywords: seq<string>, items: seq<string>)
    ensures Distinct(IntendedMatches(o, fmt, keywords, items))
    ensures forall i :: 0 <= i < |items| && ItemMatch(CategorySynonyms, o, keywords, items[i]).Some? ==>
      Label(fmt, Entry(items[i], ItemMatch(CategorySynonyms, o, keywords, items[i]).value)) in IntendedMatches(o, fmt, keywords, items)
    ensures forall x :: x in IntendedMatches(o, fmt, keywords, items) ==>
      exists e :: e in MenuMatches(CategorySynonyms, o, keywords, items) && x == Label(fmt, e)
  {
    var es := MenuMatches(CategorySynonyms, o, keywords, items);
    var ls := Labels(Render(fmt), es);
    forall i | 0 <= i < |items| && ItemMatch(CategorySynonyms, o, keywords, items[i]).Some?
      ensures Label(fmt, Entry(items[i], ItemMatch(CategorySynonyms, o, keywords, items[i]).value)) in IntendedMatches(o, fmt, keywords, items)
    {
      var e := Entry(items[i], ItemMatch(CategorySynonyms, o, keywords, items[i]).value);
      MenuMatchesComplete(CategorySynonyms, o, keywords, items, i);
      var k :| 0 <= k < |es| && es[k] == e;
      assert ls[k] == Label(fmt, e);
    }
    forall x | x in IntendedMatches(o, fmt, keywords, items)
      ensures exists e :: e in es && x == Label(fmt, e)
    {
      var k :| 0 <= k < |ls| && ls[k] == x;
      assert es[k] in es;
    }
  }

  // ---------------------------------------------------------------------
  // The stored keyword list

  /** `keywords.json`, as `add_keyword` and `clear_keywords` change it. */
  /** Every keyword is non-empty and has no surrounding whitespace. */
  ghost predicate CleanKeywords(ks: seq<string>) {
    forall i :: 0 <= i < |ks| ==> ks[i] != "" && Strip(ks[i]) == ks[i]
  }

  lemma CleanKeywordsSnoc(ks: seq<string>, k: string)
    requires CleanKeywords(ks) && k != "" && Strip(k) == k
    ensures CleanKeywords(ks + [k])
  {
    forall i | 0 <= i < |ks + [k]| ensures (ks + [k])[i] != "" && Strip((ks + [k])[i]) == (ks + [k])[i] {
      if i < |ks| {
        assert (ks + [k])[i] == ks[i];
      }
    }
  }

  class KeywordFile {
    var saved: seq<string>

    ghost predicate Clean()
      reads this
    {
      CleanKeywords(saved)
    }

    constructor (stored: seq<string>)
      ensures saved == stored
    {
      saved := stored;
    }

    /** `add_keyword`: the stripped entry is appended when it is not empty;
        otherwise the list is left alone and a warning is shown. */
    method AddKeyword(entry: string) returns (added: bool)
      modifies this
      ensures added <==> !AllSpace(entry)
      ensures saved == if added then old(saved) + [Strip(entry)] else old(saved)
      ensures old(Clean()) ==> Clean()
    {
      var keyword := Strip(entry);
      added := keyword != "";
      if added {
        StripIdempotent(entry);
        if old(Clean()) {
          CleanKeywordsSnoc(saved, keyword);
        }
        saved := saved + [keyword];
      }
    }

    /** `clear_keywords`. */
    method ClearKeywords()
      modifies this
      ensures saved == [] && Clean()
    {
      saved := [];
    }
  }
}

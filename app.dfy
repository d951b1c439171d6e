/** app.py, the Streamlit front end: the manual check runs the matching
    ladder inline with this file's (English) synonym table and appends one
    printed label per matched item, with no guard and no final dedup; the
    Add and Clear buttons change the keyword list in place. */
module App {
  import opened Text
  import opened Seqs
  import opened Matching

  /** This file's `CATEGORY_SYNONYMS`. */
  const CategorySynonyms: SynonymTable := map[
    "nudeln" := ["pasta", "spaghetti", "teigwaren", "maccheroni", "lasagne", "tagliatelle", "penne"],
    "reis" := ["rice", "basmati rice", "wild rice", "jasmine rice"],
    "kartoffeln" := ["potato", "french fries", "mashed potatoes", "potato salad", "fried potatoes", "rose potatoes"],
    "hähnchen" := ["chicken", "poulet", "chicken breast", "poulet breast", "chicken meat"],
    "rind" := ["beef", "beef fillet", "ground beef", "roast beef"],
    "schwein" := ["pork", "pork schnitzel", "roast pork"],
    "fisch" := ["fish", "salmon", "trout", "pollock", "fish fillet"],
    "vegan" := ["vegetarian", "plant-based", "vegetables", "salad", "tofu", "falafel"],
    "asiatisch" := ["japanese", "chinese", "thai", "korean", "vietnamese", "indian", "indonesian"],
    "käse" := ["cheese", "emmental", "feta cheese", "mozzarella", "parmesan"],
    "dessert" := ["dessert", "cake", "pudding", "cream", "ice cream", "torte", "apple strudel"],
    "burger" := ["burger", "hamburger", "cheeseburger", "veggie burger", "chicken burger"],
    "pizza" := ["pizza", "flatbread pizza", "margherita", "pepperoni", "vegetarian pizza"],
    "dip" := ["dip", "sauce", "dressing", "ketchup", "mayonnaise", "mustard"]
  ]

  /** The label this file prints for an entry. */
  function Label(fmt: Formatting, e: Entry): (r: string)
    ensures e.item < r
  {
    e.item +
      match e.tier
      case Direct => " (direct match)"
      case Category => " (category match)"
      case Fuzzy(score) => " (fuzzy match: " + fmt.show(score) + ")"
      case Semantic(sim) => " (semantic match: " + fmt.twoDecimals(sim) + ")"
  }

  function Render(fmt: Formatting): Entry -> string {
    e => Label(fmt, e)
  }

  /** `matches_found` after the manual check: the shared report, printed. */
  function AppReport(o: Oracles, fmt: Formatting, keywords: seq<string>, menus: seq<(string, seq<string>)>)
    : seq<(string, seq<string>)>
  {
    LabelReport(Render(fmt), Report(CategorySynonyms, o, keywords, menus))
  }

  /** The "Check today's Mensa menus now" block: for each location and each
      item, the keyword walk with `break`, appending the label of the verdict;
      a location enters `matches_found` only with a non-empty list. */
  method CheckMenus(o: Oracles, fmt: Formatting, keywords: seq<string>, menus: seq<(string, seq<string>)>)
    returns (matchesFound: seq<(string, seq<string>)>)
    ensures matchesFound == AppReport(o, fmt, keywords, menus)
  {
    matchesFound := [];
    ghost var report: seq<(string, seq<Entry>)> := [];
    for l := 0 to |menus|
      invariant report == Report(CategorySynonyms, o, keywords, menus[..l])
      invariant matchesFound == LabelReport(Render(fmt), report)
    {
      var (name, items) := menus[l];
      var matches: seq<string> := [];
      ghost var entries: seq<Entry> := [];
      for i := 0 to |items|
        invariant entries == MenuMatches(CategorySynonyms, o, keywords, items[..i])
        invariant matches == Labels(Render(fmt), entries)
      {
        var item := items[i];
        var t, _ := MatchItem(CategorySynonyms, o, keywords, item);
        MenuMatchesSnoc(CategorySynonyms, o, keywords, items, i);
        if t.Some? {
          LabelsSnoc(Render(fmt), entries, Entry(item, t.value));
          matches := matches + [Label(fmt, Entry(item, t.value))];
          entries := entries + [Entry(item, t.value)];
        }
      }
      assert items[..|items|] == items;
      ReportSnoc(CategorySynonyms, o, keywords, menus, l);
      if matches != [] {
        LabelReportSnoc(Render(fmt), report, (name, entries));
        matchesFound := matchesFound + [(name, matches)];
        report := report + [(name, entries)];
      }
    }
    assert menus[..|menus|] == menus;
  }

  /** With this table, "nudeln" reaches every item that mentions spaghetti
      but not nudeln through the Category tier. */
  lemma NudelnMatchesSpaghettiByCategory(o: Oracles, keyword: string, item: string)
    requires o.lower(keyword) == "nudeln"
    requires Contains(o.lower(item), "spaghetti")
    requires !Contains(o.lower(item), "nudeln")
    ensures PairTier(CategorySynonyms, o, keyword, item) == Some(Category)
  {
    assert Synonyms(CategorySynonyms, "nudeln")[1] == "spaghetti";
  }

  /** Every synonym of "burger" in this table ends with "burger", so the
      keyword "burger" never gets a Category match: the Direct tier has
      always answered first. */
  lemma BurgerNeverCategory(o: Oracles, keyword: string, item: string)
    requires o.lower(keyword) == "burger"
    ensures PairTier(CategorySynonyms, o, keyword, item) != Some(Category)
  {
    var syns := Synonyms(CategorySynonyms, "burger");
    assert syns == ["burger", "hamburger", "cheeseburger", "veggie burger", "chicken burger"];
    forall i | 0 <= i < |syns| ensures Contains(syns[i], "burger") {
      if i == 0 {
        ContainsSuffix("burger", "burger");
      } else if i == 1 {
        ContainsSuffix("hamburger", "burger");
      } else if i == 2 {
        ContainsSuffix("cheeseburger", "burger");
      } else if i == 3 {
        ContainsSuffix("veggie burger", "burger");
      } else {
        ContainsSuffix("chicken burger", "burger");
      }
    }
    CategoryUnreachableWhenSynonymsContainKeyword(CategorySynonyms, o, keyword, item);
  }

  // ---------------------------------------------------------------------
  // The keyword list of the session

  /** The keyword list of a page run, loaded from `keywords.json` and
      written back on every change. */
  class KeywordSession {
    var keywords: seq<string>
    var saved: seq<string>

    /** The page's list and the file agree. */
    ghost predicate Synced()
      reads this
    {
      keywords == saved
    }

    constructor (stored: seq<string>)
      ensures keywords == stored && Synced()
    {
      keywords := stored;
      saved := stored;
    }

    /** "Add": the input is appended as typed, with no stripping, when it is
        not the empty string; otherwise nothing changes. */
    method Add(newKeyword: string) returns (added: bool)
      requires Synced()
      modifies this
      ensures added <==> newKeyword != ""
      ensures keywords == if added then old(keywords) + [newKeyword] else old(keywords)
      ensures Synced()
    {
      added := newKeyword != "";
      if added {
        keywords := keywords + [newKeyword];
        saved := keywords;
      }
    }

    /** "Clear all keywords". */
    method Clear()
      modifies this
      ensures keywords == [] && Synced()
    {
      saved := [];
      keywords := [];
    }
  }
}

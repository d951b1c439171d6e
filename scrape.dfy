/** The list hygiene of `scrape_menus`, the same in both front ends: each
    meal cell's text is whitespace-collapsed, blank texts are dropped, and the
    list is deduplicated keeping first occurrences; a location whose page
    could not be fetched or parsed gets an empty list. Fetching and HTML
    parsing are outside the model: a location's page arrives as a `Fetch`. */
module Scrape {
  import opened Text
  import opened Seqs

  /** What fetching and parsing one location's page gave: the raw text of
      each meal cell in page order (footnote markers already removed), or an
      exception anywhere on the way. */
  datatype Fetch = Fetched(cells: seq<string>) | Failed

  /** The keys of `MENSA_URLS`, in dictionary order. */
  const MensaNames: seq<string> := ["Hauptmensa", "Frischraum"]

  /** The cleaned text of one cell: `.strip()` and then `' '.join(s.split())`. */
  function CleanCell(cell: string): string {
    Collapse(Strip(cell))
  }

  /** The cleaned texts that survive the `if meal_text:` test, in page order. */
  function CleanedTexts(cells: seq<string>): seq<string>
    decreases |cells|
  {
    if cells == [] then []
    else
      var text := CleanCell(cells[|cells| - 1]);
      var prev := CleanedTexts(cells[..|cells| - 1]);
      if text != "" then prev + [text] else prev
  }

  /** One more cell extends the surviving texts by its own cleaned text,
      unless that is blank. */
  lemma CleanedTextsSnoc(cells: seq<string>, i: nat)
    requires i < |cells|
    ensures CleanedTexts(cells[..i + 1]) ==
      if CleanCell(cells[i]) != "" then CleanedTexts(cells[..i]) + [CleanCell(cells[i])] else CleanedTexts(cells[..i])
  {
    assert cells[..i + 1][..i] == cells[..i];
  }

  /** Every surviving text is the non-blank cleaned text of some cell. */
  lemma {:induction false} CleanedTextSource(cells: seq<string>, k: nat) returns (i: nat)
    requires k < |CleanedTexts(cells)|
    ensures i < |cells| && CleanCell(cells[i]) == CleanedTexts(cells)[k] && CleanedTexts(cells)[k] != ""
    decreases |cells|
  {
    var p := cells[..|cells| - 1];
    var text := CleanCell(cells[|cells| - 1]);
    var prev := CleanedTexts(p);
    assert CleanedTexts(cells) == if text != "" then prev + [text] else prev;
    if k < |prev| {
      i := CleanedTextSource(p, k);
      assert cells[i] == p[i];
    } else {
      i := |cells| - 1;
    }
  }

  /** Every cell whose cleaned text is not blank contributes that text. */
  lemma {:induction false} CleanedTextKept(cells: seq<string>, i: nat)
    requires i < |cells| && CleanCell(cells[i]) != ""
    ensures CleanCell(cells[i]) in CleanedTexts(cells)
    decreases |cells|
  {
    var p := cells[..|cells| - 1];
    var text := CleanCell(cells[|cells| - 1]);
    var prev := CleanedTexts(p);
    if i == |p| {
      assert CleanedTexts(cells) == prev + [text];
    } else {
      assert cells[i] == p[i];
      CleanedTextKept(p, i);
      if text != "" {
        assert CleanedTexts(cells) == prev + [text];
      } else {
        assert CleanedTexts(cells) == prev;
      }
    }
  }

  /** The menu list of one location. */
  function LocationItems(f: Fetch): seq<string> {
    match f
    case Failed => []
    case Fetched(cells) => Dedup(CleanedTexts(cells))
  }

  /** Every menu item is non-blank, already in collapsed form, and occurs
      once; a failed fetch gives no items. */
  lemma LocationItemsClean(f: Fetch)
    ensures f.Failed? ==> LocationItems(f) == []
    ensures Distinct(LocationItems(f))
    ensures forall x :: x in LocationItems(f) ==> x != "" && Collapse(x) == x
  {
    if f.Fetched? {
      forall x | x in LocationItems(f) ensures x != "" && Collapse(x) == x {
        CleanedTextIsClean(f.cells, x);
      }
    }
  }

  lemma CleanedTextIsClean(cells: seq<string>, x: string)
    requires x in CleanedTexts(cells)
    ensures x != "" && Collapse(x) == x
  {
    var k :| 0 <= k < |CleanedTexts(cells)| && CleanedTexts(cells)[k] == x;
    var i := CleanedTextSource(cells, k);
    CollapseIdempotent(Strip(cells[i]));
  }

  /** A successfully fetched menu holds the cleaned text of exactly the
      cells that are not blank. */
  lemma LocationItemsFromCells(cells: seq<string>)
    ensures forall x :: x in LocationItems(Fetched(cells)) ==> exists i :: 0 <= i < |cells| && CleanCell(cells[i]) == x
    ensures forall i :: 0 <= i < |cells| && !AllSpace(cells[i]) ==> CleanCell(cells[i]) in LocationItems(Fetched(cells))
  {
    var r := CleanedTexts(cells);
    forall x | x in LocationItems(Fetched(cells))
      ensures exists i :: 0 <= i < |cells| && CleanCell(cells[i]) == x
    {
      var k :| 0 <= k < |r| && r[k] == x;
      var i := CleanedTextSource(cells, k);
    }
    forall i | 0 <= i < |cells| && !AllSpace(cells[i])
      ensures CleanCell(cells[i]) in LocationItems(Fetched(cells))
    {
      CollapseOfStrip(cells[i]);
      CollapseEmptyIff(cells[i]);
      CleanedTextKept(cells, i);
      var k :| 0 <= k < |r| && r[k] == CleanCell(cells[i]);
    }
  }

  /** One location's branch of `scrape_menus`: the loop over the meal cells
      appends each non-blank cleaned text, then `dict.fromkeys` dedups. */
  method ScrapeLocation(f: Fetch) returns (items: seq<string>)
    ensures items == LocationItems(f)
  {
    match f
    case Failed =>
      items := [];
    case Fetched(cells) =>
      var collected: seq<string> := [];
      var i := 0;
      while i < |cells|
        invariant 0 <= i <= |cells|
        invariant collected == CleanedTexts(cells[..i])
      {
        var mealText := Strip(cells[i]);
        mealText := Collapse(mealText);
        CleanedTextsSnoc(cells, i);
        if mealText != "" {
          collected := collected + [mealText];
        }
        i := i + 1;
      }
      assert cells[..i] == cells;
      items := Dedup(collected);
  }

  /** `scrape_menus`: one entry per location of `MENSA_URLS`, in order; the
      page of each location comes from `fetch`. */
  method ScrapeMenus(fetch: string -> Fetch) returns (menus: seq<(string, seq<string>)>)
    ensures |menus| == |MensaNames|
    ensures forall i :: 0 <= i < |menus| ==> menus[i] == (MensaNames[i], LocationItems(fetch(MensaNames[i])))
  {
    menus := [];
    for i := 0 to |MensaNames|
      invariant |menus| == i
      invariant forall k :: 0 <= k < i ==> menus[k] == (MensaNames[k], LocationItems(fetch(MensaNames[k])))
    {
      var name := MensaNames[i];
      var items := ScrapeLocation(fetch(name));
      menus := menus + [(name, items)];
    }
  }
}

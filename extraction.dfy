/** The detail extractor: reads the ranking container of a rendered journal
    page into editions, index flags and per-category ranking histories.
    The page is given as a snapshot of the elements the extractor looks up. */
module Extraction {
  import opened Common
  import opened Records

  /** A `tr` of a ranking table: the texts of its year, rank and quartile
      cells, each absent when the cell is missing. */
  datatype RowView = RowView(year: Option<string>, rank: Option<string>, quartile: Option<string>)

  /** A ranking slide: the text of its category element, if any, and its rows. */
  datatype SlideView = SlideView(category: Option<string>, rows: seq<RowView>)

  /** The ranking container: the texts of its edition elements and its slides. */
  datatype Container = Container(editions: seq<string>, slides: seq<SlideView>)

  /** What the extractor returns. */
  datatype Details = Details(
    rankings: seq<CategoryRanking>,
    editions: seq<string>,
    isScie: bool,
    isSsci: bool)

  const NoDetails := Details([], [], false, false)

  /** An edition label naming the Science Citation Index Expanded. */
  predicate IsScieLabel(t: string) {
    Contains(t, "Science Citation Index Expanded") || Contains(t, "SCIE")
  }

  /** An edition label naming the Social Sciences Citation Index. */
  predicate IsSsciLabel(t: string) {
    Contains(t, "Social Sciences Citation Index") || Contains(t, "SSCI")
  }

  /** The edition an edition element contributes: its stripped text, unless
      that is empty. */
  function EditionOf(text: string): seq<string> {
    var t := Strip(text);
    if t != "" then [t] else []
  }

  /** A row is kept when it has a year cell that is not the header. */
  predicate KeepsRow(r: RowView) {
    r.year.Some? && !Contains(r.year.value, HeaderMarker)
  }

  /** The entry a row contributes; missing rank or quartile read "N/A". */
  function EntryOf(r: RowView): seq<YearEntry> {
    if KeepsRow(r) then [YearEntry(r.year.value, r.rank.GetOr("N/A"), r.quartile.GetOr("N/A"))]
    else []
  }

  /** The category a slide contributes; a slide without a category element
      contributes nothing. */
  function CategoryOf(s: SlideView): seq<CategoryRanking> {
    if s.category.Some? then [CategoryRanking(s.category.value, FlatMap(EntryOf, s.rows))] else []
  }

  function Editions(texts: seq<string>): seq<string> {
    FlatMap(EditionOf, texts)
  }

  function History(rows: seq<RowView>): seq<YearEntry> {
    FlatMap(EntryOf, rows)
  }

  function Rankings(slides: seq<SlideView>): seq<CategoryRanking> {
    FlatMap(CategoryOf, slides)
  }

  /** Some edition in `eds` satisfies the label test. */
  predicate AnyScie(eds: seq<string>) {
    exists k :: 0 <= k < |eds| && IsScieLabel(eds[k])
  }

  predicate AnySsci(eds: seq<string>) {
    exists k :: 0 <= k < |eds| && IsSsciLabel(eds[k])
  }

  /** Appending an edition raises a flag exactly when that edition names the
      index. */
  lemma AnyLabelSnoc(eds: seq<string>, t: string)
    ensures AnyScie(eds + [t]) == (AnyScie(eds) || IsScieLabel(t))
    ensures AnySsci(eds + [t]) == (AnySsci(eds) || IsSsciLabel(t))
  {
    var e := eds + [t];
    assert e[|eds|] == t;
    assert forall k :: 0 <= k < |eds| ==> e[k] == eds[k];
  }

  /** The specification of the extractor: with no ranking container, nothing;
      otherwise the non-empty stripped edition texts, the two index flags
      they raise, and one ranking per slide that has a category. */
  function Extract(page: Option<Container>): Details {
    match page
    case None => NoDetails
    case Some(c) =>
      var eds := Editions(c.editions);
      Details(Rankings(c.slides), eds, AnyScie(eds), AnySsci(eds))
  }

  /** The extractor as the page code runs it: loops that append to the
      editions, the rankings and each category's history and raise the two
      flags. */
  method ExtractDetails(page: Option<Container>) returns (d: Details)
    ensures d == Extract(page)
  {
    if page.None? {
      return NoDetails;
    }
    var c := page.value;
    var editions, isScie, isSsci := ReadEditions(c.editions);
    var rankings := ReadRankings(c.slides);
    d := Details(rankings, editions, isScie, isSsci);
  }

  /** The loop over the edition elements. */
  method ReadEditions(texts: seq<string>) returns (editions: seq<string>, isScie: bool, isSsci: bool)
    ensures editions == Editions(texts)
    ensures isScie == AnyScie(editions) && isSsci == AnySsci(editions)
  {
    editions, isScie, isSsci := [], false, false;
    for i := 0 to |texts|
      invariant editions == Editions(texts[..i])
      invariant isScie == AnyScie(editions)
      invariant isSsci == AnySsci(editions)
    {
      FlatMapSnoc(EditionOf, texts, i);
      var txt := Strip(texts[i]);
      if txt != "" {
        AnyLabelSnoc(editions, txt);
        editions := editions + [txt];
        if IsScieLabel(txt) {
          isScie := true;
        }
        if IsSsciLabel(txt) {
          isSsci := true;
        }
      }
    }
    assert texts[..|texts|] == texts;
  }

  /** The loop over the slides of the container. */
  method ReadRankings(slides: seq<SlideView>) returns (rankings: seq<CategoryRanking>)
    ensures rankings == Rankings(slides)
  {
    rankings := [];
    for j := 0 to |slides|
      invariant rankings == Rankings(slides[..j])
    {
      FlatMapSnoc(CategoryOf, slides, j);
      var slide := slides[j];
      if slide.category.Some? {
        var history := ReadHistory(slide.rows);
        rankings := rankings + [CategoryRanking(slide.category.value, history)];
      }
    }
    assert slides[..|slides|] == slides;
  }

  /** The loop over the rows of one slide. */
  method ReadHistory(rows: seq<RowView>) returns (history: seq<YearEntry>)
    ensures history == History(rows)
  {
    history := [];
    for k := 0 to |rows|
      invariant history == History(rows[..k])
    {
      FlatMapSnoc(EntryOf, rows, k);
      var row := rows[k];
      if row.year.Some? && !Contains(row.year.value, HeaderMarker) {
        var rank := if row.rank.Some? then row.rank.value else "N/A";
        var quartile := if row.quartile.Some? then row.quartile.value else "N/A";
        history := history + [YearEntry(row.year.value, rank, quartile)];
      }
    }
    assert rows[..|rows|] == rows;
  }

  /** A history holds, in order, the entries of its kept rows: it splits over
      concatenated row lists, and a single row contributes its entry exactly
      when it has a year cell without the header marker. */
  lemma HistoryIsFilter(a: seq<RowView>, b: seq<RowView>, r: RowView)
    ensures History(a + b) == History(a) + History(b)
    ensures History([r]) == if KeepsRow(r) then [YearEntry(r.year.value, r.rank.GetOr("N/A"), r.quartile.GetOr("N/A"))] else []
  {
    FlatMapAppend(EntryOf, a, b);
    FlatMapSingleton(EntryOf, r);
  }

  /** An entry is in a history exactly when some kept row yields it; no entry
      carries the header marker in its year. */
  lemma HistoryMembers(rows: seq<RowView>, e: YearEntry)
    ensures e in History(rows) <==>
      exists i :: 0 <= i < |rows| && KeepsRow(rows[i])
                  && e == YearEntry(rows[i].year.value, rows[i].rank.GetOr("N/A"), rows[i].quartile.GetOr("N/A"))
    ensures e in History(rows) ==> !Contains(e.year, HeaderMarker)
  {
    FlatMapMember(EntryOf, rows, e);
  }

  /** The rankings hold, in order, one entry per slide with a category, with
      that slide's history. */
  lemma RankingsIsFilter(a: seq<SlideView>, b: seq<SlideView>, s: SlideView)
    ensures Rankings(a + b) == Rankings(a) + Rankings(b)
    ensures Rankings([s]) == if s.category.Some? then [CategoryRanking(s.category.value, History(s.rows))] else []
  {
    FlatMapAppend(CategoryOf, a, b);
    FlatMapSingleton(CategoryOf, s);
  }

  /** A category is in the rankings exactly when a slide with that category
      element and those rows is on the page. */
  lemma RankingsMembers(slides: seq<SlideView>, c: CategoryRanking)
    ensures c in Rankings(slides) <==>
      exists i :: 0 <= i < |slides| && slides[i].category.Some?
                  && c == CategoryRanking(slides[i].category.value, History(slides[i].rows))
  {
    FlatMapMember(CategoryOf, slides, c);
  }

  /** The editions are exactly the non-empty stripped edition texts, in order. */
  lemma EditionsIsFilter(a: seq<string>, b: seq<string>, t: string)
    ensures Editions(a + b) == Editions(a) + Editions(b)
    ensures Editions([t]) == if Strip(t) != "" then [Strip(t)] else []
  {
    FlatMapAppend(EditionOf, a, b);
    FlatMapSingleton(EditionOf, t);
  }

  /** An edition is listed exactly when it is the non-empty stripped text
      of some edition element. */
  lemma EditionsMembers(texts: seq<string>, e: string)
    ensures e in Editions(texts) <==> exists i :: 0 <= i < |texts| && Strip(texts[i]) != "" && e == Strip(texts[i])
  {
    FlatMapMember(EditionOf, texts, e);
  }

  /** Some listed edition passes `p` exactly when some edition element's
      stripped text is non-empty and passes `p`. */
  lemma SomeEditionPasses(texts: seq<string>, p: string -> bool)
    ensures (exists k :: 0 <= k < |Editions(texts)| && p(Editions(texts)[k])) <==>
            (exists i :: 0 <= i < |texts| && Strip(texts[i]) != "" && p(Strip(texts[i])))
  {
    var eds := Editions(texts);
    if exists k :: 0 <= k < |eds| && p(eds[k]) {
      var k :| 0 <= k < |eds| && p(eds[k]);
      EditionsMembers(texts, eds[k]);
    }
    if exists i :: 0 <= i < |texts| && Strip(texts[i]) != "" && p(Strip(texts[i])) {
      var i :| 0 <= i < |texts| && Strip(texts[i]) != "" && p(Strip(texts[i]));
      EditionsMembers(texts, Strip(texts[i]));
      var k :| 0 <= k < |eds| && eds[k] == Strip(texts[i]);
      assert p(eds[k]);
    }
  }

  /** The SCIE flag is raised exactly when some edition text, stripped, is
      non-empty and names the SCIE; likewise the SSCI flag. */
  lemma IndexFlags(c: Container)
    ensures Extract(Some(c)).isScie <==>
      exists i :: 0 <= i < |c.editions| && Strip(c.editions[i]) != "" && IsScieLabel(Strip(c.editions[i]))
    ensures Extract(Some(c)).isSsci <==>
      exists i :: 0 <= i < |c.editions| && Strip(c.editions[i]) != "" && IsSsciLabel(Strip(c.editions[i]))
  {
    SomeEditionPasses(c.editions, IsScieLabel);
    SomeEditionPasses(c.editions, IsSsciLabel);
  }
}

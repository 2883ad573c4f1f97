/**
 * `extract_news_from_file`: a saved category page becomes a list of news
 * records, the featured item first and then at most four grid items.  The CSS
 * selections are taken as given: the page holds the anchors matched by
 * "div.first-news-holder.vertical a" and by "div.grid-item a", in document
 * order, and each anchor the texts its title, summary and date elements would
 * give, when those elements exist.
 */
module News {
  import opened Wrappers
  import opened Text
  import opened Urls
  import opened SavedFiles

  /** One matched news anchor: its `href` attribute and the text of each of
      its optional title, summary and publish-date elements. */
  datatype NewsAnchor = NewsAnchor(
    href: Option<string>,
    title: Option<string>,
    summary: Option<string>,
    publishDate: Option<string>)

  /** What the two selectors matched on one category page. */
  datatype CategoryPage = CategoryPage(featured: seq<NewsAnchor>, grid: seq<NewsAnchor>)

  /** One row of the output, with the columns Title, Summary, Publish Date, URL. */
  datatype NewsRecord = NewsRecord(title: string, summary: string, publishDate: string, url: string)

  const MaxGridItems: nat := 4
  const NoTitle: string := "No Title"
  const NoSummary: string := "No Summary"
  const NoDate: string := "No Date"

  function Min(a: nat, b: nat): nat {
    if a <= b then a else b
  }

  /** The record for one anchor, each field chosen on its own. */
  function MakeRecord(anchor: NewsAnchor): Result<NewsRecord, ScrapeError> {
    match anchor.href
    case None => Failure(MissingHref)
    case Some(links) =>
      Success(NewsRecord(
        anchor.title.GetOr(NoTitle),
        anchor.summary.GetOr(NoSummary),
        anchor.publishDate.GetOr(NoDate),
        NewsUrl(links)))
  }

  /** The placeholder policy, stated field by field: a field is the element's
      text when the element is there and its placeholder when it is not; the
      link follows the news rule. */
  ghost predicate Describes(record: NewsRecord, anchor: NewsAnchor) {
    && anchor.href.Some?
    && record.url == NewsUrl(anchor.href.value)
    && (anchor.title.Some? ==> record.title == anchor.title.value)
    && (anchor.title.None? ==> record.title == NoTitle)
    && (anchor.summary.Some? ==> record.summary == anchor.summary.value)
    && (anchor.summary.None? ==> record.summary == NoSummary)
    && (anchor.publishDate.Some? ==> record.publishDate == anchor.publishDate.value)
    && (anchor.publishDate.None? ==> record.publishDate == NoDate)
  }

  lemma MakeRecordFollowsPolicy(anchor: NewsAnchor)
    ensures MakeRecord(anchor).Failure? <==> anchor.href.None?
    ensures MakeRecord(anchor).Success? ==> Describes(MakeRecord(anchor).value, anchor)
  {
  }

  /** `select_one` takes the first featured match; `other_news[:4]` the first
      four grid matches. */
  function Selected(page: CategoryPage): seq<NewsAnchor> {
    (if |page.featured| > 0 then [page.featured[0]] else [])
      + page.grid[..Min(MaxGridItems, |page.grid|)]
  }

  /** Where each selected anchor comes from. */
  lemma SelectedShape(page: CategoryPage)
    ensures var off := if |page.featured| > 0 then 1 else 0;
      && |Selected(page)| == off + Min(MaxGridItems, |page.grid|)
      && (|page.featured| > 0 ==> Selected(page)[0] == page.featured[0])
      && forall j :: 0 <= j < Min(MaxGridItems, |page.grid|) ==> Selected(page)[off + j] == page.grid[j]
  {
  }

  /** The records built after `done`, one anchor at a time, in order; the
      first anchor without an `href` raises, and nothing is returned. */
  function RecordsFrom(done: seq<NewsRecord>, anchors: seq<NewsAnchor>): Result<seq<NewsRecord>, ScrapeError>
    decreases |anchors|
  {
    if anchors == [] then Success(done)
    else
      match MakeRecord(anchors[0])
      case Failure(e) => Failure(e)
      case Success(record) => RecordsFrom(done + [record], anchors[1..])
  }

  /** The whole function: a missing file gives the empty list; any other
      read error escapes. */
  function NewsFromPage(file: SavedFile<CategoryPage>): Result<seq<NewsRecord>, ScrapeError> {
    match file
    case NotFound => Success([])
    case Unreadable => Failure(ReadFailed)
    case Parsed(p) => RecordsFrom([], Selected(p))
  }

  method ExtractNewsFromFile(file: SavedFile<CategoryPage>) returns (result: Result<seq<NewsRecord>, ScrapeError>)
    ensures result == NewsFromPage(file)
  {
    var newsData: seq<NewsRecord> := [];
    if file.NotFound? {
      return Success(newsData);
    } else if file.Unreadable? {
      return Failure(ReadFailed);
    }
    var soup := file.content;
    var otherNews := soup.grid;
    var count := Min(MaxGridItems, |otherNews|);
    if |soup.featured| > 0 {
      var firstNews := soup.featured[0];
      assert Selected(soup)[0] == firstNews && Selected(soup)[1..] == otherNews[..count];
      var record := MakeRecord(firstNews);
      if record.Failure? {
        return Failure(record.error);
      }
      newsData := newsData + [record.value];
      assert NewsFromPage(file) == RecordsFrom(newsData, otherNews[..count]);
    } else {
      assert Selected(soup) == otherNews[..count];
    }
    assert otherNews[0..count] == otherNews[..count];
    for i := 0 to count
      invariant RecordsFrom(newsData, otherNews[i..count]) == NewsFromPage(file)
    {
      var newsItem := otherNews[i];
      assert otherNews[i..count][0] == newsItem && otherNews[i..count][1..] == otherNews[i + 1..count];
      var record := MakeRecord(newsItem);
      if record.Failure? {
        return Failure(record.error);
      }
      newsData := newsData + [record.value];
    }
    result := Success(newsData);
  }

  /** An anchor without an `href` anywhere among those visited makes the
      whole extraction fail, whatever was appended before it. */
  lemma {:induction false} RecordsFromMissingHref(done: seq<NewsRecord>, anchors: seq<NewsAnchor>, k: nat)
    requires k < |anchors| && anchors[k].href.None?
    ensures RecordsFrom(done, anchors) == Failure(MissingHref)
    decreases k
  {
    if k > 0 && anchors[0].href.Some? {
      assert anchors[1..][k - 1] == anchors[k];
      RecordsFromMissingHref(done + [MakeRecord(anchors[0]).value], anchors[1..], k - 1);
    }
  }

  /** Extraction succeeds exactly when every visited anchor has an `href`;
      then one record per anchor follows `done`, in order, each following
      the placeholder policy. */
  lemma {:induction false} RecordsFromSpec(done: seq<NewsRecord>, anchors: seq<NewsAnchor>)
    ensures RecordsFrom(done, anchors).Success? <==> forall k :: 0 <= k < |anchors| ==> anchors[k].href.Some?
    ensures RecordsFrom(done, anchors).Success? ==>
      && |RecordsFrom(done, anchors).value| == |done| + |anchors|
      && RecordsFrom(done, anchors).value[..|done|] == done
      && forall k :: 0 <= k < |anchors| ==> Describes(RecordsFrom(done, anchors).value[|done| + k], anchors[k])
    decreases |anchors|
  {
    if anchors != [] {
      MakeRecordFollowsPolicy(anchors[0]);
      if anchors[0].href.Some? {
        var record := MakeRecord(anchors[0]).value;
        var done' := done + [record];
        var rest := anchors[1..];
        RecordsFromSpec(done', rest);
        assert forall k :: 0 <= k < |rest| ==> rest[k] == anchors[k + 1];
        var r := RecordsFrom(done, anchors);
        assert r == RecordsFrom(done', rest);
        if r.Success? {
          var v := r.value;
          assert v[..|done|] == v[..|done'|][..|done|];
          forall k | 0 <= k < |anchors| ensures Describes(v[|done| + k], anchors[k]) {
            if k == 0 {
              assert v[|done|] == v[..|done'|][|done|];
            } else {
              assert v[|done'| + (k - 1)] == v[|done| + k];
            }
          }
        }
      }
    }
  }

  /** The fold only ever raises `KeyError`. */
  lemma {:induction false} RecordsFromOnlyMissingHref(done: seq<NewsRecord>, anchors: seq<NewsAnchor>)
    ensures RecordsFrom(done, anchors).Failure? ==> RecordsFrom(done, anchors).error == MissingHref
    decreases |anchors|
  {
    if anchors != [] && anchors[0].href.Some? {
      RecordsFromOnlyMissingHref(done + [MakeRecord(anchors[0]).value], anchors[1..]);
    }
  }

  /** A missing file gives no records, and the read error escapes exactly
      when the file exists but cannot be read. */
  lemma ReadFailedIffUnreadable(file: SavedFile<CategoryPage>)
    ensures file.NotFound? ==> NewsFromPage(file) == Success([])
    ensures NewsFromPage(file) == Failure(ReadFailed) <==> file.Unreadable?
  {
    if file.Parsed? {
      RecordsFromOnlyMissingHref([], Selected(file.content));
    }
  }

  /** At most five records: one featured, then up to four from the grid. */
  lemma NewsCount(page: CategoryPage)
    ensures NewsFromPage(Parsed(page)).Success? ==>
      && |NewsFromPage(Parsed(page)).value| == (if |page.featured| > 0 then 1 else 0) + Min(MaxGridItems, |page.grid|)
      && |NewsFromPage(Parsed(page)).value| <= 5
  {
    RecordsFromSpec([], Selected(page));
  }

  /** The only failure: the first featured anchor, or one of the first four
      grid anchors, has no `href`.  Anchors further down the grid are never
      looked at. */
  lemma NewsFailsIffMissingHref(page: CategoryPage)
    ensures NewsFromPage(Parsed(page)).Failure? <==>
      || (|page.featured| > 0 && page.featured[0].href.None?)
      || exists j :: 0 <= j < Min(MaxGridItems, |page.grid|) && page.grid[j].href.None?
  {
    var s := Selected(page);
    var off := if |page.featured| > 0 then 1 else 0;
    var count := Min(MaxGridItems, |page.grid|);
    SelectedShape(page);
    if |page.featured| > 0 && page.featured[0].href.None? {
      RecordsFromMissingHref([], s, 0);
    } else if j :| 0 <= j < count && page.grid[j].href.None? {
      RecordsFromMissingHref([], s, off + j);
    } else {
      RecordsFromSpec([], s);
      forall k | 0 <= k < |s| ensures s[k].href.Some? {
        if k >= off {
          assert s[off + (k - off)] == page.grid[k - off];
        }
      }
    }
  }

  /** The featured record comes first, and the grid records follow in the
      grid's own order, each built from its anchor under the placeholder policy. */
  lemma NewsOrder(page: CategoryPage, news: seq<NewsRecord>)
    requires NewsFromPage(Parsed(page)) == Success(news)
    ensures |page.featured| > 0 ==> |news| > 0 && Describes(news[0], page.featured[0])
    ensures var off := if |page.featured| > 0 then 1 else 0;
      && |news| == off + Min(MaxGridItems, |page.grid|)
      && forall j :: 0 <= j < Min(MaxGridItems, |page.grid|) ==> Describes(news[off + j], page.grid[j])
  {
    RecordsFromSpec([], Selected(page));
    SelectedShape(page);
  }

  /** Whatever follows the fourth grid anchor has no effect on the result. */
  lemma GridBeyondFourIgnored(featured: seq<NewsAnchor>, grid: seq<NewsAnchor>, more: seq<NewsAnchor>)
    requires |grid| >= MaxGridItems
    ensures NewsFromPage(Parsed(CategoryPage(featured, grid + more))) == NewsFromPage(Parsed(CategoryPage(featured, grid)))
  {
    assert (grid + more)[..MaxGridItems] == grid[..MaxGridItems];
  }

  /** A page on which neither selector matched gives no records. */
  lemma EmptyPageGivesNoNews()
    ensures NewsFromPage(Parsed(CategoryPage([], []))) == Success([])
  {
    assert Selected(CategoryPage([], [])) == [];
  }

  /** An anchor with an `href` and a title, and no summary or date. */
  function TitledAnchor(title: string, href: string): NewsAnchor {
    NewsAnchor(Some(href), Some(title), None, None)
  }

  /** One step of the fold. */
  lemma RecordsFromStep(done: seq<NewsRecord>, anchor: NewsAnchor, rest: seq<NewsAnchor>, record: NewsRecord)
    requires MakeRecord(anchor) == Success(record)
    ensures RecordsFrom(done, [anchor] + rest) == RecordsFrom(done + [record], rest)
  {
    assert ([anchor] + rest)[1..] == rest;
  }

  /** The record of an anchor with a title and a root-relative link only. */
  lemma TitledItemRecord(title: string, href: string)
    requires |href| > 0 && href[0] == '/'
    ensures MakeRecord(TitledAnchor(title, href)) == Success(NewsRecord(title, NoSummary, NoDate, Origin + href))
  {
    assert href[..1] == "/";
  }

  /** Five titled anchors with root-relative links, visited in turn. */
  lemma FiveTitledRecords(t0: string, h0: string, t1: string, h1: string, t2: string, h2: string,
                          t3: string, h3: string, t4: string, h4: string)
    requires |h0| > 0 && h0[0] == '/' && |h1| > 0 && h1[0] == '/' && |h2| > 0 && h2[0] == '/'
    requires |h3| > 0 && h3[0] == '/' && |h4| > 0 && h4[0] == '/'
    ensures RecordsFrom([], [TitledAnchor(t0, h0), TitledAnchor(t1, h1), TitledAnchor(t2, h2),
                             TitledAnchor(t3, h3), TitledAnchor(t4, h4)])
         == Success([NewsRecord(t0, NoSummary, NoDate, Origin + h0), NewsRecord(t1, NoSummary, NoDate, Origin + h1),
                     NewsRecord(t2, NoSummary, NoDate, Origin + h2), NewsRecord(t3, NoSummary, NoDate, Origin + h3),
                     NewsRecord(t4, NoSummary, NoDate, Origin + h4)])
  {
    var a0, a1, a2, a3, a4 := TitledAnchor(t0, h0), TitledAnchor(t1, h1), TitledAnchor(t2, h2), TitledAnchor(t3, h3), TitledAnchor(t4, h4);
    var r0 := NewsRecord(t0, NoSummary, NoDate, Origin + h0);
    var r1 := NewsRecord(t1, NoSummary, NoDate, Origin + h1);
    var r2 := NewsRecord(t2, NoSummary, NoDate, Origin + h2);
    var r3 := NewsRecord(t3, NoSummary, NoDate, Origin + h3);
    var r4 := NewsRecord(t4, NoSummary, NoDate, Origin + h4);
    // each anchor in turn: its record, then the rest of the fold
    TitledItemRecord(t0, h0);
    RecordsFromStep([], a0, [a1, a2, a3, a4], r0);
    TitledItemRecord(t1, h1);
    RecordsFromStep([r0], a1, [a2, a3, a4], r1);
    TitledItemRecord(t2, h2);
    RecordsFromStep([r0, r1], a2, [a3, a4], r2);
    TitledItemRecord(t3, h3);
    RecordsFromStep([r0, r1, r2], a3, [a4], r3);
    TitledItemRecord(t4, h4);
    RecordsFromStep([r0, r1, r2, r3], a4, [], r4);
    assert [a0, a1, a2, a3, a4] == [a0] + [a1, a2, a3, a4] && [a1, a2, a3, a4] == [a1] + [a2, a3, a4];
    assert [a2, a3, a4] == [a2] + [a3, a4] && [a3, a4] == [a3] + [a4] && [a4] == [a4] + [];
    assert [] + [r0] == [r0] && [r0] + [r1] == [r0, r1] && [r0, r1] + [r2] == [r0, r1, r2];
    assert [r0, r1, r2] + [r3] == [r0, r1, r2, r3] && [r0, r1, r2, r3] + [r4] == [r0, r1, r2, r3, r4];
  }

  /** One featured anchor and six grid anchors give five records: the
      featured one and the first four grid ones, links made absolute and the
      absent summaries and dates replaced by their placeholders. */
  lemma FeaturedAndSixGridItemsExample()
    ensures NewsFromPage(Parsed(CategoryPage(
              [TitledAnchor("Match Recap", "/news/1")],
              [TitledAnchor("G1", "/news/2"), TitledAnchor("G2", "/news/3"), TitledAnchor("G3", "/news/4"),
               TitledAnchor("G4", "/news/5"), TitledAnchor("G5", "/news/6"), TitledAnchor("G6", "/news/7")])))
         == Success([
              NewsRecord("Match Recap", NoSummary, NoDate, Origin + "/news/1"),
              NewsRecord("G1", NoSummary, NoDate, Origin + "/news/2"),
              NewsRecord("G2", NoSummary, NoDate, Origin + "/news/3"),
              NewsRecord("G3", NoSummary, NoDate, Origin + "/news/4"),
              NewsRecord("G4", NoSummary, NoDate, Origin + "/news/5")])
  {
    var f := TitledAnchor("Match Recap", "/news/1");
    var g1, g2, g3, g4 := TitledAnchor("G1", "/news/2"), TitledAnchor("G2", "/news/3"), TitledAnchor("G3", "/news/4"), TitledAnchor("G4", "/news/5");
    var page := CategoryPage([f], [g1, g2, g3, g4, TitledAnchor("G5", "/news/6"), TitledAnchor("G6", "/news/7")]);
    assert Selected(page) == [f, g1, g2, g3, g4];
    FiveTitledRecords("Match Recap", "/news/1", "G1", "/news/2", "G2", "/news/3", "G3", "/news/4", "G4", "/news/5");
  }
}

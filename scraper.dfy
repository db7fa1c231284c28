/** The scraper: reads, from the public-libraries survey page, the routes of each
    survey year's resources, keyed by year and then by the link's text, and keeps
    them in `urls.json` in the data directory. */
module Scraper {
  import opened Collections
  import opened Strings
  import opened Configuration

  const SurveyUrl := "https://www.imls.gov/research-evaluation/data-collection/public-libraries-survey"
  const CachedUrlsFile := "urls.json"
  const NoMatchMessage := "this should have matched"

  /** The routes found on the page: year, then link text, then route. */
  type ResourceMap = map<string, map<string, string>>

  // ----- the parsed page -----

  /** An `<a>` element: its text and its `href` attribute, if it has one. */
  datatype Anchor = Anchor(text: string, href: Option<string>)

  /** A sibling that follows a label: a bare string, or an element with the
      anchors among its descendants, in document order. */
  datatype Sibling = Text(s: string) | Element(anchors: seq<Anchor>)

  /** A `<label>` element: its text and all the siblings that follow it. */
  datatype Label = Label(text: string, siblings: seq<Sibling>)

  /** Whether `s` holds `FY `, a space and four decimal digits at position `i`. */
  predicate YearAt(s: string, i: nat)
  {
    i + 7 <= |s| && s[i..i + 3] == "FY " && AllDigits(s[i + 3..i + 7])
  }

  /** The page's label filter, `re.compile(r"FY \d{4}")`, which is searched for
      anywhere in the label's text. */
  predicate HasFYYear(s: string)
  {
    exists i :: 0 <= i < |s| && YearAt(s, i)
  }

  /** The labels `find_all` yields, in document order. */
  function Matching(labels: seq<Label>): (r: seq<Label>)
    ensures forall l :: l in r <==> l in labels && HasFYYear(l.text)
    ensures |r| <= |labels|
  {
    if labels == [] then []
    else (if HasFYYear(labels[0].text) then [labels[0]] else []) + Matching(labels[1..])
  }

  /** `find_all` keeps document order: the labels picked from a page's first
      part come before those picked from the rest. */
  lemma {:induction false} MatchingAppend(a: seq<Label>, b: seq<Label>)
    ensures Matching(a + b) == Matching(a) + Matching(b)
    decreases a
  {
    if a == [] {
      assert a + b == b;
    } else {
      assert (a + b)[0] == a[0];
      assert (a + b)[1..] == a[1..] + b;
      MatchingAppend(a[1..], b);
    }
  }

  /** A single label is picked once exactly when its text holds a year. */
  lemma MatchingSingle(l: Label)
    ensures Matching([l]) == if HasFYYear(l.text) then [l] else []
  {
    assert [l][1..] == [];
  }

  /** `_get_year_for_data(year_text)`: the four digits of a leading `FY dddd`;
      anything after them is ignored. */
  function YearOf(s: string): (r: Result<string>)
    ensures r.Ok? <==> YearAt(s, 0)
    ensures r.Ok? ==> |r.value| == 4 && AllDigits(r.value) && s == "FY " + r.value + s[7..]
    ensures r.Err? ==> r.message == "this should have matched"
  {
    if YearAt(s, 0) then Ok(s[3..7]) else Err(NoMatchMessage)
  }

  /** A year written by `str` reads back from a label that starts with it. */
  lemma YearOfWrittenYear(n: nat, rest: string)
    requires 1000 <= n <= 9999
    ensures YearOf("FY " + NatString(n) + rest) == Ok(NatString(n))
    ensures DigitsValue(YearOf("FY " + NatString(n) + rest).value) == n
  {
    FourDigitYear(n);
    var s := "FY " + NatString(n) + rest;
    assert s[..3] == "FY " && s[3..7] == NatString(n);
    NatStringRoundTrip(n);
  }

  lemma YearOfExamples()
    ensures YearOf("FY 1234") == Ok("1234")
    ensures YearOf("banana") == Err("this should have matched")
  {
    var s := "FY 1234";
    assert s[0..3] == "FY " && s[3..7] == "1234";
    assert AllDigits("1234") by {
      assert forall i :: 0 <= i < 4 ==> "1234"[i] in "0123456789";
    }
    assert "banana"[0..3][0] == 'b';
  }

  /** The filter searches where `_get_year_for_data` matches at the start: a
      label with the year later in its text is picked and then raises. */
  lemma FilterPicksUnparsableLabel()
    ensures HasFYYear("Data for FY 2019") && YearOf("Data for FY 2019").Err?
  {
    var s := "Data for FY 2019";
    assert s[9..12] == "FY " && s[12..16] == "2019";
    assert AllDigits("2019") by {
      assert forall i :: 0 <= i < 4 ==> "2019"[i] in "0123456789";
    }
    assert YearAt(s, 9);
    assert s[0..3][0] == 'D';
  }

  // ----- `_scrape_files` -----

  /** `url_dict[year][text] = href` for each anchor in turn; an anchor without
      `href` raises `KeyError`. */
  function FillAnchors(acc: map<string, string>, anchors: seq<Anchor>): Result<map<string, string>>
    decreases |anchors|
  {
    if anchors == [] then Ok(acc)
    else
      match anchors[0].href
      case None => Err("href")
      case Some(href) => FillAnchors(acc[anchors[0].text := href], anchors[1..])
  }

  /** The anchors of every sibling that is an element, bare strings skipped. */
  function FillSiblings(acc: map<string, string>, siblings: seq<Sibling>): Result<map<string, string>>
    decreases |siblings|
  {
    if siblings == [] then Ok(acc)
    else
      match siblings[0]
      case Text(_) => FillSiblings(acc, siblings[1..])
      case Element(anchors) =>
        match FillAnchors(acc, anchors)
        case Err(e) => Err(e)
        case Ok(acc') => FillSiblings(acc', siblings[1..])
  }

  /** The outer loop over the picked labels: each resets its year's entry, then
      fills it from the siblings that follow the label. */
  function CollectFrom(urls: ResourceMap, labels: seq<Label>): Result<ResourceMap>
    decreases |labels|
  {
    if labels == [] then Ok(urls)
    else
      match YearOf(labels[0].text)
      case Err(e) => Err(e)
      case Ok(year) =>
        match FillSiblings(map[], labels[0].siblings)
        case Err(e) => Err(e)
        case Ok(links) => CollectFrom(urls[year := links], labels[1..])
  }

  /** `_scrape_files()`, given the labels of the parsed page. */
  function CollectUrls(page: seq<Label>): Result<ResourceMap>
  {
    CollectFrom(map[], Matching(page))
  }

  // What `_scrape_files` computes, stated without its loops.

  /** Whether every anchor has an `href`. */
  predicate Linked(anchors: seq<Anchor>)
  {
    forall a :: a in anchors ==> a.href.Some?
  }

  /** Whether every anchor in the elements after a label has an `href`. */
  predicate AllLinked(siblings: seq<Sibling>)
  {
    siblings == [] ||
    ((siblings[0].Element? ==> Linked(siblings[0].anchors)) && AllLinked(siblings[1..]))
  }

  function LinkPairs(anchors: seq<Anchor>): (ps: seq<(string, string)>)
    requires Linked(anchors)
    ensures |ps| == |anchors|
    ensures forall i :: 0 <= i < |anchors| ==> ps[i] == (anchors[i].text, anchors[i].href.value)
  {
    seq(|anchors|, i requires 0 <= i < |anchors| => (anchors[i].text, anchors[i].href.value))
  }

  /** The (text, href) pairs of the anchors after a label, in document order. */
  function AnchorPairs(siblings: seq<Sibling>): seq<(string, string)>
    requires AllLinked(siblings)
  {
    if siblings == [] then []
    else if siblings[0].Text? then AnchorPairs(siblings[1..])
    else LinkPairs(siblings[0].anchors) + AnchorPairs(siblings[1..])
  }

  /** The anchors are recorded text to href, a repeated text keeping its last
      href; a missing `href` raises. */
  lemma {:induction false} FillAnchorsAssigns(acc: map<string, string>, anchors: seq<Anchor>)
    ensures FillAnchors(acc, anchors).Ok? <==> Linked(anchors)
    ensures Linked(anchors) ==> FillAnchors(acc, anchors) == Ok(acc + Assign(LinkPairs(anchors)))
    decreases |anchors|
  {
    if anchors == [] {
      assert acc + map[] == acc;
    } else {
      var a, rest := anchors[0], anchors[1..];
      assert forall x :: x in anchors <==> x == a || x in rest;
      if a.href.Some? {
        var p := (a.text, a.href.value);
        FillAnchorsAssigns(acc[p.0 := p.1], rest);
        if Linked(anchors) {
          assert LinkPairs(anchors) == [p] + LinkPairs(rest);
          AssignCons(acc, p, LinkPairs(rest));
        }
      }
    }
  }

  /** An element after a label records its anchors before the rest. */
  lemma FillSiblingsElement(acc: map<string, string>, siblings: seq<Sibling>)
    requires siblings != [] && siblings[0].Element?
    ensures !Linked(siblings[0].anchors) ==> FillSiblings(acc, siblings).Err? && !AllLinked(siblings)
    ensures Linked(siblings[0].anchors) ==>
      FillSiblings(acc, siblings) == FillSiblings(acc + Assign(LinkPairs(siblings[0].anchors)), siblings[1..]) &&
      AllLinked(siblings) == AllLinked(siblings[1..])
  {
    FillAnchorsAssigns(acc, siblings[0].anchors);
  }

  /** The anchors of all the elements after a label are recorded in document
      order; a missing `href` anywhere raises. */
  lemma {:induction false} FillSiblingsAssigns(acc: map<string, string>, siblings: seq<Sibling>)
    ensures FillSiblings(acc, siblings).Ok? <==> AllLinked(siblings)
    ensures AllLinked(siblings) ==> FillSiblings(acc, siblings) == Ok(acc + Assign(AnchorPairs(siblings)))
    decreases |siblings|
  {
    if siblings == [] {
      assert acc + map[] == acc;
    } else if siblings[0].Text? {
      FillSiblingsAssigns(acc, siblings[1..]);
    } else {
      var anchors, rest := siblings[0].anchors, siblings[1..];
      FillSiblingsElement(acc, siblings);
      if Linked(anchors) {
        var a := Assign(LinkPairs(anchors));
        FillSiblingsAssigns(acc + a, rest);
        if AllLinked(rest) {
          AssignThen(acc, LinkPairs(anchors), AnchorPairs(rest), AnchorPairs(siblings));
        }
      }
    }
  }

  /** Whether a picked label is read without raising. */
  predicate Readable(l: Label)
  {
    YearAt(l.text, 0) && AllLinked(l.siblings)
  }

  predicate AllReadable(labels: seq<Label>)
  {
    forall l :: l in labels ==> Readable(l)
  }

  /** The year a readable label is filed under, and the links it contributes. */
  function Year(l: Label): string
    requires Readable(l)
  {
    l.text[3..7]
  }

  function Links(l: Label): map<string, string>
    requires Readable(l)
  {
    Assign(AnchorPairs(l.siblings))
  }

  /** What the outer loop does to the map: each label assigns its links to its
      year, so a later label for a year replaces an earlier one. */
  function LabelPairs(labels: seq<Label>): (ps: seq<(string, map<string, string>)>)
    requires AllReadable(labels)
    ensures |ps| == |labels|
    ensures forall i :: 0 <= i < |labels| ==> ps[i] == (Year(labels[i]), Links(labels[i]))
  {
    seq(|labels|, i requires 0 <= i < |labels| => (Year(labels[i]), Links(labels[i])))
  }

  lemma AllReadableCons(labels: seq<Label>)
    requires labels != []
    ensures AllReadable(labels) <==> Readable(labels[0]) && AllReadable(labels[1..])
  {
    assert forall x :: x in labels ==> x == labels[0] || x in labels[1..];
  }

  /** One label of the outer loop: it raises exactly when the label is
      unreadable, and otherwise files the label's links under its year. */
  lemma CollectFromFirst(urls: ResourceMap, labels: seq<Label>)
    requires labels != []
    ensures CollectFrom(urls, labels).Ok? ==> Readable(labels[0])
    ensures Readable(labels[0]) ==>
      CollectFrom(urls, labels) == CollectFrom(urls[Year(labels[0]) := Links(labels[0])], labels[1..])
  {
    var l := labels[0];
    FillSiblingsAssigns(map[], l.siblings);
    if Readable(l) {
      assert map[] + Links(l) == Links(l);
    }
  }

  /** The outer loop raises exactly when a picked label is unreadable, and
      otherwise assigns each label's links to its year in turn. */
  lemma {:induction false} CollectFromAssigns(urls: ResourceMap, labels: seq<Label>)
    ensures CollectFrom(urls, labels).Ok? <==> AllReadable(labels)
    ensures AllReadable(labels) ==> CollectFrom(urls, labels) == Ok(urls + Assign(LabelPairs(labels)))
    decreases |labels|
  {
    if labels == [] {
      assert urls + map[] == urls;
    } else {
      var l, rest := labels[0], labels[1..];
      AllReadableCons(labels);
      CollectFromFirst(urls, labels);
      if Readable(l) {
        var p := (Year(l), Links(l));
        CollectFromAssigns(urls[p.0 := p.1], rest);
        if AllReadable(rest) {
          assert LabelPairs(labels) == [p] + LabelPairs(rest);
          AssignCons(urls, p, LabelPairs(rest));
        }
      }
    }
  }

  /** `_scrape_files` raises exactly when a picked label does not start with
      its year or an anchor after it has no `href`. */
  lemma CollectUrlsRaises(page: seq<Label>)
    ensures CollectUrls(page).Ok? <==> AllReadable(Matching(page))
    ensures CollectUrls(page).Err? ==>
      CollectUrls(page).message in {"this should have matched", "href"}
  {
    CollectFromAssigns(map[], Matching(page));
    CollectFromErrors(map[], Matching(page));
  }

  lemma {:induction false} CollectFromErrors(urls: ResourceMap, labels: seq<Label>)
    ensures CollectFrom(urls, labels).Err? ==>
      CollectFrom(urls, labels).message in {"this should have matched", "href"}
    decreases |labels|
  {
    if labels != [] {
      FillSiblingsErrors(map[], labels[0].siblings);
      match YearOf(labels[0].text)
      case Err(_) =>
      case Ok(year) =>
        match FillSiblings(map[], labels[0].siblings)
        case Err(_) =>
        case Ok(links) => CollectFromErrors(urls[year := links], labels[1..]);
    }
  }

  lemma {:induction false} FillSiblingsErrors(acc: map<string, string>, siblings: seq<Sibling>)
    ensures FillSiblings(acc, siblings).Err? ==> FillSiblings(acc, siblings).message == "href"
    decreases |siblings|
  {
    if siblings != [] {
      match siblings[0]
      case Text(_) => FillSiblingsErrors(acc, siblings[1..]);
      case Element(anchors) =>
        FillAnchorsErrors(acc, anchors);
        match FillAnchors(acc, anchors)
        case Err(_) =>
        case Ok(acc') => FillSiblingsErrors(acc', siblings[1..]);
    }
  }

  lemma {:induction false} FillAnchorsErrors(acc: map<string, string>, anchors: seq<Anchor>)
    ensures FillAnchors(acc, anchors).Err? ==> FillAnchors(acc, anchors).message == "href"
    decreases |anchors|
  {
    if anchors != [] && anchors[0].href.Some? {
      FillAnchorsErrors(acc[anchors[0].text := anchors[0].href.value], anchors[1..]);
    }
  }

  /** When it succeeds, the years scraped are exactly those of the picked labels. */
  lemma CollectUrlsYears(page: seq<Label>)
    requires AllReadable(Matching(page))
    ensures CollectUrls(page).Ok?
    ensures CollectUrls(page).value.Keys == set l | l in Matching(page) :: Year(l)
  {
    var ls := Matching(page);
    CollectFromAssigns(map[], ls);
    MergeIntoEmpty(Assign(LabelPairs(ls)));
    LabelPairsKeys(ls);
  }

  /** The first components of the label pairs are the labels' years. */
  lemma LabelPairsKeys(ls: seq<Label>)
    requires AllReadable(ls)
    ensures (set i | 0 <= i < |LabelPairs(ls)| :: LabelPairs(ls)[i].0) == set l | l in ls :: Year(l)
  {
    var ps := LabelPairs(ls);
    var byIndex := set i | 0 <= i < |ps| :: ps[i].0;
    var byLabel := set l | l in ls :: Year(l);
    forall y | y in byIndex ensures y in byLabel {
      var i :| 0 <= i < |ps| && ps[i].0 == y;
      assert ls[i] in ls;
    }
    forall y | y in byLabel ensures y in byIndex {
      var l :| l in ls && Year(l) == y;
      var i :| 0 <= i < |ls| && ls[i] == l;
      assert ps[i].0 == y;
    }
  }

  /** The links filed under a year are those of the last picked label with that
      year, whatever earlier labels held. */
  lemma CollectUrlsLastLabelWins(page: seq<Label>, i: nat)
    requires AllReadable(Matching(page)) && i < |Matching(page)|
    requires forall j :: i < j < |Matching(page)| ==> Year(Matching(page)[j]) != Year(Matching(page)[i])
    ensures CollectUrls(page).Ok? && Year(Matching(page)[i]) in CollectUrls(page).value
    ensures CollectUrls(page).value[Year(Matching(page)[i])] == Links(Matching(page)[i])
  {
    var ls := Matching(page);
    CollectFromAssigns(map[], ls);
    var ps := LabelPairs(ls);
    MergeIntoEmpty(Assign(ps));
    AssignLastWins(ps, i);
  }

  // ----- the service -----

  /** Where the scraped routes are kept: `<data_dir>/urls.json`. */
  function CachedUrlsPath(config: Config): string
  {
    config.dataDir + "/" + CachedUrlsFile
  }

  /** A `ScrapingService`: its configuration and the labels of the survey page
      it would fetch, the JSON files on disk by path, and the pages fetched. */
  class ScrapingService {
    const config: Config
    const page: seq<Label>
    var files: map<string, ResourceMap>
    var requests: seq<string>

    constructor (config: Config, page: seq<Label>, files: map<string, ResourceMap>)
      ensures this.config == config && this.page == page && this.files == files && requests == []
    {
      this.config := config;
      this.page := page;
      this.files := files;
      requests := [];
    }

    /** `scrape_files()`: the cached routes when `urls.json` exists and may not
        be overwritten, otherwise freshly scraped routes, which are also written
        to `urls.json`. */
    method ScrapeFiles() returns (r: Result<ResourceMap>)
      modifies this
      ensures var path := CachedUrlsPath(config);
        if path in old(files) && !config.shouldOverwriteCachedUrls then
          r == Ok(old(files)[path]) && files == old(files) && requests == old(requests)
        else
          r == CollectUrls(page) && requests == old(requests) + [SurveyUrl] &&
          files == (if r.Ok? then old(files)[path := r.value] else old(files))
    {
      var path := CachedUrlsPath(config);
      if path in files && !config.shouldOverwriteCachedUrls {
        return Ok(files[path]);
      }
      r := ScrapeListing();
      if r.Ok? {
        files := files[path := r.value];
      }
    }

    /** `_scrape_files()`: fetches the survey page, then, for each picked label,
        resets its year's entry and records the anchors of every element that
        follows it. */
    method ScrapeListing() returns (r: Result<ResourceMap>)
      modifies this
      ensures r == CollectUrls(page)
      ensures requests == old(requests) + [SurveyUrl] && files == old(files)
    {
      requests := requests + [SurveyUrl];
      var labels := Matching(page);
      var urls: ResourceMap := map[];
      for i := 0 to |labels|
        invariant CollectFrom(urls, labels[i..]) == CollectUrls(page)
      {
        assert labels[i..][0] == labels[i] && labels[i..][1..] == labels[i + 1..];
        var year := YearOf(labels[i].text);
        if year.Err? {
          return Err(year.message);
        }
        var links := map[];
        var siblings := labels[i].siblings;
        for j := 0 to |siblings|
          invariant FillSiblings(map[], siblings) == FillSiblings(links, siblings[j..])
        {
          assert siblings[j..][0] == siblings[j] && siblings[j..][1..] == siblings[j + 1..];
          if siblings[j].Element? {
            var anchors := siblings[j].anchors;
            ghost var before := links;
            for k := 0 to |anchors|
              invariant FillAnchors(before, anchors) == FillAnchors(links, anchors[k..])
            {
              assert anchors[k..][0] == anchors[k] && anchors[k..][1..] == anchors[k + 1..];
              if anchors[k].href.None? {
                return Err("href");
              }
              links := links[anchors[k].text := anchors[k].href.value];
            }
            assert anchors[|anchors|..] == [];
          }
        }
        assert siblings[|siblings|..] == [];
        urls := urls[year.value := links];
      }
      assert labels[|labels|..] == [];
      return Ok(urls);
    }
  }
}

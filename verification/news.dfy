/** The headline scrapers `coinmarketcap_news` and `marketwatch_news`, and the `stock_news`
    wrapper. Each folds the anchors found on the page into a dictionary from headline to link. */
module News {
  import opened Wrappers
  import opened Seqs
  import opened PyStrings

  /** An `a` element: its flattened text and its `href` attribute, which may be missing. */
  datatype Anchor = Anchor(text: string, href: Option<string>)

  /** Headline to link; a missing `href` is stored as None. */
  type NewsMap = map<string, Option<string>>

  function Href(a: Anchor): Option<string>
  {
    a.href
  }

  /** The dictionary key `coinmarketcap_news` uses: the stripped anchor text. */
  function CoinHeadline(a: Anchor): string
  {
    Strip(a.text)
  }

  /** `coinmarketcap_news` after the download. `container` is the news div, or None when
      `find` matched nothing, in which case `find_all` raises. */
  function CoinMarketCapNews(container: Option<seq<Anchor>>): (r: Result<NewsMap, PyError>)
    ensures container.None? ==> r == Failure(AttributeError(NoneHasNoFindAll))
    ensures container.Some? ==> r.Success? && |r.value| <= |container.value|
  {
    match container
    case None => Failure(AttributeError(NoneHasNoFindAll))
    case Some(anchors) => Success(LastWins(Pairs(anchors, CoinHeadline, Href)))
  }

  /** The headlines are the stripped anchor texts, and nothing else. */
  lemma CoinNewsKeys(anchors: seq<Anchor>, headline: string)
    ensures headline in CoinMarketCapNews(Some(anchors)).value
        <==> exists i :: 0 <= i < |anchors| && CoinHeadline(anchors[i]) == headline
  {
    PairsKeys(anchors, CoinHeadline, Href, headline);
  }

  /** A repeated headline keeps the link of its last anchor. */
  lemma CoinNewsValue(anchors: seq<Anchor>, i: nat)
    requires i < |anchors|
    requires forall j :: i < j < |anchors| ==> CoinHeadline(anchors[j]) != CoinHeadline(anchors[i])
    ensures CoinHeadline(anchors[i]) in CoinMarketCapNews(Some(anchors)).value
    ensures CoinMarketCapNews(Some(anchors)).value[CoinHeadline(anchors[i])] == anchors[i].href
  {
    PairsValue(anchors, CoinHeadline, Href, i);
  }

  /** The dictionary key `marketwatch_news` uses: stripped, then lower-cased. */
  function MarketwatchHeadline(a: Anchor): string
  {
    Lower(Strip(a.text))
  }

  /** A key is already stripped and lower-case, so normalising it again changes nothing. */
  lemma MarketwatchHeadlineNormalised(a: Anchor)
    ensures Strip(MarketwatchHeadline(a)) == MarketwatchHeadline(a)
    ensures Lower(MarketwatchHeadline(a)) == MarketwatchHeadline(a)
  {
    LowerStripCommute(Strip(a.text));
    StripIdempotent(a.text);
    LowerIdempotent(Strip(a.text));
  }

  /** The anchors of the `h3` headings that have one; `find('a')` on the others yields None,
      the AttributeError is caught and the heading skipped. */
  function Anchors(headings: seq<Option<Anchor>>): (anchors: seq<Anchor>)
    ensures |anchors| <= |headings|
    ensures forall a :: a in anchors <==> Some(a) in headings
  {
    if headings == [] then []
    else
      var first := match headings[0]
        case None => []
        case Some(a) => [a];
      first + Anchors(headings[1..])
  }

  /** Each anchor is kept as many times as headings carry it; the bare headings add nothing. */
  lemma {:induction false} AnchorsCounts(headings: seq<Option<Anchor>>)
    ensures forall a :: multiset(Anchors(headings))[a] == multiset(headings)[Some(a)]
  {
    if headings != [] {
      var rest := headings[1..];
      AnchorsCounts(rest);
      assert headings == [headings[0]] + rest;
      assert multiset(headings) == multiset{headings[0]} + multiset(rest);
      match headings[0]
      case None =>
        assert Anchors(headings) == Anchors(rest);
      case Some(b) =>
        assert Anchors(headings) == [b] + Anchors(rest);
        assert multiset(Anchors(headings)) == multiset{b} + multiset(Anchors(rest));
    }
  }

  /** `marketwatch_news` after the download: `container` holds, for each `h3` of the news div,
      its first anchor if it has one. */
  function MarketwatchNews(container: Option<seq<Option<Anchor>>>): (r: Result<NewsMap, PyError>)
    ensures container.None? ==> r == Failure(AttributeError(NoneHasNoFindAll))
    ensures container.Some? ==> r.Success? && |r.value| <= |container.value|
  {
    match container
    case None => Failure(AttributeError(NoneHasNoFindAll))
    case Some(headings) => Success(LastWins(Pairs(Anchors(headings), MarketwatchHeadline, Href)))
  }

  lemma {:induction false} AnchorsAppend(a: seq<Option<Anchor>>, b: seq<Option<Anchor>>)
    ensures Anchors(a + b) == Anchors(a) + Anchors(b)
  {
    if a == [] {
      assert a + b == b;
    } else {
      assert (a + b)[1..] == a[1..] + b;
      AnchorsAppend(a[1..], b);
    }
  }

  /** A heading without an anchor contributes nothing. */
  lemma MarketwatchSkipsBareHeadings(before: seq<Option<Anchor>>, after: seq<Option<Anchor>>)
    ensures MarketwatchNews(Some(before + [None] + after)) == MarketwatchNews(Some(before + after))
  {
    AnchorsAppend(before + [None], after);
    AnchorsAppend(before, [None]);
    AnchorsAppend(before, after);
    assert Anchors([None]) == [];
    assert Anchors(before) + [] == Anchors(before);
  }

  /** The headlines are exactly the normalised texts of the headings that have an anchor. */
  lemma MarketwatchKeys(headings: seq<Option<Anchor>>, headline: string)
    ensures headline in MarketwatchNews(Some(headings)).value
        <==> exists a :: Some(a) in headings && MarketwatchHeadline(a) == headline
  {
    AnchorKeys(headings, MarketwatchHeadline, headline);
  }

  lemma AnchorKeys(headings: seq<Option<Anchor>>, key: Anchor -> string, headline: string)
    ensures headline in LastWins(Pairs(Anchors(headings), key, Href))
        <==> exists a :: Some(a) in headings && key(a) == headline
  {
    var anchors := Anchors(headings);
    PairsKeys(anchors, key, Href, headline);
    if exists a :: Some(a) in headings && key(a) == headline {
      var a :| Some(a) in headings && key(a) == headline;
      var i :| 0 <= i < |anchors| && anchors[i] == a;
    }
  }

  /** Every headline is already stripped and lower-case. */
  lemma MarketwatchKeysNormalised(headings: seq<Option<Anchor>>, headline: string)
    requires headline in MarketwatchNews(Some(headings)).value
    ensures Lower(Strip(headline)) == headline
  {
    MarketwatchKeys(headings, headline);
    var a :| Some(a) in headings && MarketwatchHeadline(a) == headline;
    MarketwatchHeadlineNormalised(a);
  }

  /** A headline keeps the link of the last heading whose anchor normalises to it: the anchor
      of heading `k` wins when no later heading's anchor has the same headline. */
  lemma MarketwatchValue(headings: seq<Option<Anchor>>, k: nat, a: Anchor)
    requires k < |headings| && headings[k] == Some(a)
    requires forall j :: k < j < |headings| && headings[j].Some? ==>
      MarketwatchHeadline(headings[j].value) != MarketwatchHeadline(a)
    ensures MarketwatchHeadline(a) in MarketwatchNews(Some(headings)).value
    ensures MarketwatchNews(Some(headings)).value[MarketwatchHeadline(a)] == a.href
  {
    AnchorValue(headings, MarketwatchHeadline, k, a);
  }

  lemma AnchorValue(headings: seq<Option<Anchor>>, key: Anchor -> string, k: nat, a: Anchor)
    requires k < |headings| && headings[k] == Some(a)
    requires forall j :: k < j < |headings| && headings[j].Some? ==> key(headings[j].value) != key(a)
    ensures key(a) in LastWins(Pairs(Anchors(headings), key, Href))
    ensures LastWins(Pairs(Anchors(headings), key, Href))[key(a)] == a.href
  {
    var xs := Anchors(headings);
    var i := |Anchors(headings[..k])|;
    AnchorsAround(headings, k, a);
    forall j | i < j < |xs|
      ensures key(xs[j]) != key(xs[i])
    {
      LaterAnchor(headings, k, xs[j]);
    }
    PairsValue(xs, key, Href, i);
  }

  /** The anchors of the headings before `k`, then heading `k`'s anchor, then those after. */
  lemma {:induction false} AnchorsAround(headings: seq<Option<Anchor>>, k: nat, a: Anchor)
    requires k < |headings| && headings[k] == Some(a)
    ensures Anchors(headings) == Anchors(headings[..k]) + [a] + Anchors(headings[k + 1..])
  {
    var pre, post := headings[..k], headings[k + 1..];
    SplitAround(headings, k);
    AnchorsAppend(pre + [Some(a)], post);
    AnchorsAppend(pre, [Some(a)]);
    AnchorsSingle(a);
  }

  lemma AnchorsSingle(a: Anchor)
    ensures Anchors([Some(a)]) == [a]
  {
    assert [Some(a)][1..] == [];
  }

  /** An anchor taken from the headings after `k` is the anchor of some heading after `k`. */
  lemma LaterAnchor(headings: seq<Option<Anchor>>, k: nat, b: Anchor)
    requires k < |headings|
    requires b in Anchors(headings[k + 1..])
    ensures exists j :: k < j < |headings| && headings[j] == Some(b)
  {
    var post := headings[k + 1..];
    assert Some(b) in post;
    var m :| 0 <= m < |post| && post[m] == Some(b);
    assert headings[k + 1 + m] == Some(b);
  }

  /** Headlines that differ only in case or surrounding whitespace share one entry: the link of
      the last of them. */
  lemma MarketwatchLastWins(a: Anchor, b: Anchor)
    requires MarketwatchHeadline(a) == MarketwatchHeadline(b)
    ensures MarketwatchNews(Some([Some(a), Some(b)])).value == map[MarketwatchHeadline(b) := b.href]
  {
    AnchorsPair(a, b);
    PairsOverwrite(a, b, MarketwatchHeadline, Href);
  }

  lemma AnchorsPair(a: Anchor, b: Anchor)
    ensures Anchors([Some(a), Some(b)]) == [a, b]
  {
    assert [Some(a), Some(b)][1..] == [Some(b)];
    assert [Some(b)][1..] == [];
  }

  /** `stock_news`: the Marketwatch headlines under their single source key. */
  function StockNews(container: Option<seq<Option<Anchor>>>): (r: Result<map<string, NewsMap>, PyError>)
    ensures r.Success? <==> container.Some?
    ensures r.Success? ==> r.value.Keys == {"marketwatch"}
    ensures r.Failure? ==> r == Failure(AttributeError(NoneHasNoFindAll))
    ensures r.Success? ==> r.value["marketwatch"] == MarketwatchNews(container).value
  {
    match MarketwatchNews(container)
    case Failure(e) => Failure(e)
    case Success(m) => Success(map["marketwatch" := m])
  }
}

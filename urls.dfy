/** The two ways the scraper turns an `href` into an absolute link. */
module Urls {
  import opened Text

  /** The homepage the scraper starts from, with its trailing slash (Scraper.py line 10). */
  const Link: string := "https://www.index.hr/"

  /** The origin written literally in front of root-relative news links. */
  const Origin: string := "https://www.index.hr"

  /** Category links: `link.rstrip('/') + href`, whatever `href` looks like. */
  function CategoryUrl(href: string): string {
    RStrip(Link, '/') + href
  }

  /** News links: the origin goes in front of an `href` that starts with "/";
      any other `href` (absolute, relative or empty) is kept verbatim. */
  function NewsUrl(href: string): string {
    if StartsWith(href, "/") then Origin + href else href
  }

  /** Stripping the slashes off the homepage leaves exactly the origin. */
  lemma StrippedLinkIsOrigin()
    ensures RStrip(Link, '/') == Origin
  {
    assert Link[|Link| - 1] == '/';
    assert Link[..|Link| - 1] == Origin;
    assert Origin[|Origin| - 1] == 'r';
  }

  /** The category rule is a plain concatenation with the origin: it does not
      look at `href`, so an `href` without a leading slash is glued on directly. */
  lemma CategoryUrlIsOriginPlusHref(href: string)
    ensures CategoryUrl(href) == Origin + href
  {
    StrippedLinkIsOrigin();
  }

  /** The news rule either prefixes the origin or changes nothing, and the
      `href` always survives as the tail of the link. */
  lemma NewsUrlKeepsHref(href: string)
    ensures NewsUrl(href) == href || NewsUrl(href) == Origin + href
    ensures StartsWith(href, "/") <==> NewsUrl(href) != href
    ensures EndsWith(NewsUrl(href), href)
  {
    var u := NewsUrl(href);
    if StartsWith(href, "/") {
      assert |u| > |href|;
      assert u[|u| - |href|..] == href;
    } else {
      assert u[|u| - |href|..] == href;
    }
  }

  /** A link the news rule produced is left alone by the rule: a prefixed link
      starts with 'h', not with "/". */
  lemma NewsUrlIdempotent(href: string)
    ensures NewsUrl(NewsUrl(href)) == NewsUrl(href)
  {
    if StartsWith(href, "/") {
      var u := Origin + href;
      assert u[0] == 'h';
      assert !StartsWith(u, "/");
    }
  }

  /** For a root-relative `href` both rules give the same absolute link. */
  lemma UrlRulesAgree(href: string)
    requires StartsWith(href, "/")
    ensures CategoryUrl(href) == NewsUrl(href)
    ensures StartsWith(NewsUrl(href), Link)
  {
    CategoryUrlIsOriginPlusHref(href);
    var u := Origin + href;
    assert u[..|Link|] == Origin + href[..1];
  }

  /** A root-relative article path becomes one absolute link under either rule,
      with neither a doubled nor a missing slash. */
  lemma ArticleLinkExample()
    ensures CategoryUrl("/sport/football/article-1") == "https://www.index.hr/sport/football/article-1"
    ensures NewsUrl("/sport/football/article-1") == "https://www.index.hr/sport/football/article-1"
  {
    var href := "/sport/football/article-1";
    assert StartsWith(href, "/");
    UrlRulesAgree(href);
  }
}

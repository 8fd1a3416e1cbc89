/** The loop of scraper.py that turns the `href`s of a listing page into
    absolute detail-page URLs. */
module Links {
  import opened Wrappers
  import opened Text
  import Lists

  /** The relative prefix removed from every `href`. */
  const UpPrefix := "../../../"

  /** `urljoin(root, rel)` on the site's own form of path: non-empty
      segments of ASCII letters, digits, `-`, `_` and `.`, none of them `.`
      or `..`. There the result is the root, which ends in '/', followed by
      the path. */
  function Join(root: string, rel: string): string {
    root + rel
  }

  /** One anchor: `None` for an anchor without `href`, which is skipped;
      otherwise the joined URL unless the cleaned `href` is empty. */
  function LinkOf(root: string, href: Option<string>): (u: Option<string>)
    ensures u.Some? <==> href.Some? && RemoveAll(href.value, UpPrefix) != []
    ensures u.Some? ==> u.value == Join(root, RemoveAll(href.value, UpPrefix)) && |u.value| > |root|
  {
    match href
    case None => None
    case Some(h) =>
      var rel := RemoveAll(h, UpPrefix);
      if rel == [] then None else Some(Join(root, rel))
  }

  /** `u` is the root followed by a non-empty path. */
  predicate UnderRoot(root: string, u: string) {
    |u| > |root| && u[..|root|] == root
  }

  /** The URLs of one listing page, in listing order: at most one per
      anchor, each a path under the root. */
  function ListingUrls(root: string, hrefs: seq<Option<string>>): (r: seq<string>)
    ensures |r| <= |hrefs|
    ensures forall k :: 0 <= k < |r| ==> UnderRoot(root, r[k])
  {
    var f := (h: Option<string>) => LinkOf(root, h);
    var r := Lists.FilterMap(f, hrefs);
    assert forall k :: 0 <= k < |r| ==> UnderRoot(root, r[k]) by {
      forall k | 0 <= k < |r|
        ensures UnderRoot(root, r[k])
      {
        Lists.FilterMapMembers(f, hrefs, r[k]);
      }
    }
    r
  }

  /** Each URL comes from one anchor of the page, and every anchor with a
      non-empty cleaned `href` gives one; the order of the page is kept. */
  lemma ListingUrlsSpec(root: string, hrefs: seq<Option<string>>, more: seq<Option<string>>)
    ensures forall u :: u in ListingUrls(root, hrefs) <==>
      exists h :: h in hrefs && h.Some? && RemoveAll(h.value, UpPrefix) != []
                  && u == Join(root, RemoveAll(h.value, UpPrefix))
    ensures |ListingUrls(root, hrefs)| == |hrefs| <==>
      forall h :: h in hrefs ==> h.Some? && RemoveAll(h.value, UpPrefix) != []
    ensures ListingUrls(root, hrefs + more) == ListingUrls(root, hrefs) + ListingUrls(root, more)
  {
    var f := (h: Option<string>) => LinkOf(root, h);
    Lists.FilterMapAppend(f, hrefs, more);
    Lists.FilterMapKeepsAll(f, hrefs);
    forall u | u in ListingUrls(root, hrefs)
      ensures exists h :: h in hrefs && h.Some? && RemoveAll(h.value, UpPrefix) != []
                          && u == Join(root, RemoveAll(h.value, UpPrefix))
    {
      Lists.FilterMapMembers(f, hrefs, u);
      var h :| h in hrefs && f(h) == Some(u);
    }
    forall u, h | h in hrefs && h.Some? && RemoveAll(h.value, UpPrefix) != []
                  && u == Join(root, RemoveAll(h.value, UpPrefix))
      ensures u in ListingUrls(root, hrefs)
    {
      assert f(h) == Some(u);
      Lists.FilterMapMembers(f, hrefs, u);
    }
  }

  /** The loop over the anchors: strip the prefix, skip what is left empty
      (or an anchor without `href`), append the joined URL. */
  method CollectUrls(root: string, hrefs: seq<Option<string>>) returns (urls: seq<string>)
    ensures urls == ListingUrls(root, hrefs)
  {
    urls := [];
    ghost var f := (h: Option<string>) => LinkOf(root, h);
    for i := 0 to |hrefs|
      invariant urls == ListingUrls(root, hrefs[..i])
    {
      assert hrefs[..i + 1] == hrefs[..i] + [hrefs[i]];
      Lists.FilterMapAppend(f, hrefs[..i], [hrefs[i]]);
      Lists.FilterMapSingle(f, hrefs[i]);
      if hrefs[i].None? {
        continue;
      }
      var relative := RemoveAll(hrefs[i].value, UpPrefix);
      if relative == [] {
        continue;
      }
      urls := urls + [Join(root, relative)];
    }
    assert hrefs[..|hrefs|] == hrefs;
  }

  /** The loop as written: `link.get("href")` is `None` for an anchor without
      `href`, and calling `.replace` on it raises before the emptiness check,
      ending the whole crawl. `None` here stands for that exception. */
  function ListingUrlsAsWritten(root: string, hrefs: seq<Option<string>>): (r: Option<seq<string>>)
    ensures r.Some? ==> |r.value| <= |hrefs|
    ensures r.Some? ==> forall k :: 0 <= k < |r.value| ==> UnderRoot(root, r.value[k])
    decreases |hrefs|
  {
    if hrefs == [] then Some([])
    else if hrefs[0].None? then None
    else
      match ListingUrlsAsWritten(root, hrefs[1..])
      case None => None
      case Some(rest) =>
        var rel := RemoveAll(hrefs[0].value, UpPrefix);
        Some((if rel == [] then [] else [Join(root, rel)]) + rest)
  }

  /** As written, the loop fails exactly when some anchor has no `href`, and
      otherwise agrees with `ListingUrls`. */
  lemma {:induction false} AsWrittenFailsOnMissingHref(root: string, hrefs: seq<Option<string>>)
    ensures ListingUrlsAsWritten(root, hrefs).None? <==> None in hrefs
    ensures None !in hrefs ==> ListingUrlsAsWritten(root, hrefs) == Some(ListingUrls(root, hrefs))
    decreases |hrefs|
  {
    if hrefs != [] {
      assert hrefs == [hrefs[0]] + hrefs[1..];
      AsWrittenFailsOnMissingHref(root, hrefs[1..]);
      if hrefs[0].Some? {
        var f := (h: Option<string>) => LinkOf(root, h);
        Lists.FilterMapAppend(f, [hrefs[0]], hrefs[1..]);
        Lists.FilterMapSingle(f, hrefs[0]);
      }
    }
  }

  /** The site's own form of `href`: the prefix is dropped and the dots and
      slashes of the rest are kept. */
  lemma CleanedCatalogueHref()
    ensures RemoveAll(UpPrefix + "a/index.html", UpPrefix) == "a/index.html"
  {
    RemoveAllLeading("a/index.html", UpPrefix);
    CatalogueHrefClean();
  }

  /** The catalogue-relative href holds no `../` to remove. */
  lemma CatalogueHrefClean()
    ensures RemoveAll("a/index.html", UpPrefix) == "a/index.html"
  {
    var s := "a/index.html";
    forall i ensures !OccursAt(s, UpPrefix, i) {
      if 0 <= i && i + |UpPrefix| <= |s| {
        assert s[i..i + |UpPrefix|][0] == s[i] != '.';
      }
    }
    RemoveAllAbsent(s, UpPrefix);
  }

  /** One anchor without `href` among valid ones: as written the page aborts
      the crawl, while the skipping loop keeps the valid link. */
  lemma MissingHrefExample(root: string)
    ensures ListingUrlsAsWritten(root, [None, Some("a/index.html")]) == None
    ensures ListingUrls(root, [None, Some("a/index.html")]) == [root + "a/index.html"]
  {
    CatalogueHrefClean();
    AsWrittenFailsOnMissingHref(root, [None, Some("a/index.html")]);
    var f := (h: Option<string>) => LinkOf(root, h);
    Lists.FilterMapAppend(f, [None], [Some("a/index.html")]);
    Lists.FilterMapSingle(f, None);
    Lists.FilterMapSingle(f, Some("a/index.html"));
    assert [None, Some("a/index.html")] == [None] + [Some("a/index.html")];
  }
}

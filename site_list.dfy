// The Enterprise Mode site list document, ie-sitelist.xml, as the element
// tree create_xml builds and parse_xml reads (ie-mode.py:63-72, 266-282).
// The document is modelled as its tree; the textual XML layout is not.
module SiteList {

  /** An XML element: tag, attributes, text content and child elements. */
  datatype Element = Element(tag: string, attrs: map<string, string>, text: string, children: seq<Element>)

  /** The document file as parse_xml finds it: absent, present but not
      well-formed XML (ElementTree raises), or present with a root. */
  datatype DocFile = Missing | Unreadable | Present(root: Element)

  /** Where the site list is written and where the Edge policy points. */
  const XmlPath: string := @"C:\ProgramData\Microsoft\Edge\ie-sitelist.xml"

  const CompatMode: string := "IE11"

  /** `<site url=...><compat-mode>IE11</compat-mode><open-in>IE11</open-in></site>` */
  function SiteElement(url: string): Element {
    Element("site", map["url" := url], "", [
      Element("compat-mode", map[], CompatMode, []),
      Element("open-in", map[], CompatMode, [])
    ])
  }

  /** A site entry opened in IE11 mode with both IE11 settings. */
  predicate IsIeSite(e: Element, url: string) {
    e.tag == "site" && e.attrs == map["url" := url] &&
    |e.children| == 2 &&
    e.children[0].tag == "compat-mode" && e.children[0].text == "IE11" &&
    e.children[1].tag == "open-in" && e.children[1].text == "IE11"
  }

  /** create_xml's tree (ie-mode.py:266-275): a `site-list` root carrying
      the version stamp, one IE11 site per URL, in list order. */
  function BuildSiteList(urls: seq<string>, version: string): (root: Element)
    ensures root.tag == "site-list" && root.attrs == map["version" := version]
    ensures |root.children| == |urls|
    ensures forall i :: 0 <= i < |urls| ==> IsIeSite(root.children[i], urls[i])
  {
    Element("site-list", map["version" := version], "", seq(|urls|, i requires 0 <= i < |urls| => SiteElement(urls[i])))
  }

  /** `site.get('url')` is present and non-empty. */
  predicate Listed(e: Element) {
    e.tag == "site" && "url" in e.attrs && e.attrs["url"] != ""
  }

  /** `[site.get('url') for site in root.findall('site') if site.get('url')]`:
      the direct children tagged `site` with a non-empty `url`, in order. */
  function SiteUrls(children: seq<Element>): (r: seq<string>)
    ensures |r| <= |children|
    ensures forall k :: 0 <= k < |r| ==> r[k] != ""
  {
    if children == [] then []
    else (if Listed(children[0]) then [children[0].attrs["url"]] else []) + SiteUrls(children[1..])
  }

  /** The URLs of two runs of children are those of each run, in order:
      parse_xml collects child by child. */
  lemma {:induction false} SiteUrlsAppend(a: seq<Element>, b: seq<Element>)
    ensures SiteUrls(a + b) == SiteUrls(a) + SiteUrls(b)
  {
    if a == [] {
      assert a + b == b;
    } else {
      var ab := a + b;
      assert ab[0] == a[0];
      assert ab[1..] == a[1..] + b;
      var h := if Listed(a[0]) then [a[0].attrs["url"]] else [];
      assert SiteUrls(ab) == h + SiteUrls(a[1..] + b);
      SiteUrlsAppend(a[1..], b);
      assert SiteUrls(a) == h + SiteUrls(a[1..]);
    }
  }

  /** When every child is a listed site, parse_xml collects each child's
      `url`, one per child, in order; when none is, it collects nothing. */
  lemma {:induction false} SiteUrlsOfSites(children: seq<Element>)
    ensures (forall j :: 0 <= j < |children| ==> Listed(children[j])) ==>
              |SiteUrls(children)| == |children| &&
              forall k :: 0 <= k < |children| ==> SiteUrls(children)[k] == children[k].attrs["url"]
    ensures (forall j :: 0 <= j < |children| ==> !Listed(children[j])) ==> SiteUrls(children) == []
  {
    if children != [] {
      SiteUrlsOfSites(children[1..]);
    }
  }

  /** parse_xml (ie-mode.py:63-72): a missing file and a file that does not
      parse both give the empty list. The root's own tag is not checked. */
  function ParseXml(doc: DocFile): (r: seq<string>)
    ensures doc.Missing? || doc.Unreadable? ==> r == []
    ensures forall k :: 0 <= k < |r| ==> r[k] != ""
  {
    if doc.Present? then SiteUrls(doc.root.children) else []
  }

  /** The URLs that are not the empty string, in order. */
  function NonEmpty(urls: seq<string>): seq<string> {
    if urls == [] then []
    else (if urls[0] != "" then [urls[0]] else []) + NonEmpty(urls[1..])
  }

  lemma {:induction false} NonEmptyKeeps(urls: seq<string>)
    requires forall k :: 0 <= k < |urls| ==> urls[k] != ""
    ensures NonEmpty(urls) == urls
  {
    if urls != [] {
      NonEmptyKeeps(urls[1..]);
      assert [urls[0]] + urls[1..] == urls;
    }
  }

  lemma {:induction false} SiteUrlsOfBuilt(urls: seq<string>, sites: seq<Element>)
    requires |sites| == |urls| && forall i :: 0 <= i < |urls| ==> IsIeSite(sites[i], urls[i])
    ensures SiteUrls(sites) == NonEmpty(urls)
  {
    if urls != [] {
      SiteUrlsOfBuilt(urls[1..], sites[1..]);
      assert IsIeSite(sites[0], urls[0]);
      assert "url" in sites[0].attrs && sites[0].attrs["url"] == urls[0];
    }
  }

  /** Reading back a written site list gives its non-empty URLs, in order. */
  lemma ParseBuildSiteList(urls: seq<string>, version: string)
    ensures ParseXml(Present(BuildSiteList(urls, version))) == NonEmpty(urls)
  {
    var root := BuildSiteList(urls, version);
    SiteUrlsOfBuilt(urls, root.children);
  }

  /** The list the editor writes (never an empty URL) reads back exactly. */
  lemma RoundTrip(urls: seq<string>, version: string)
    requires forall k :: 0 <= k < |urls| ==> urls[k] != ""
    ensures ParseXml(Present(BuildSiteList(urls, version))) == urls
  {
    ParseBuildSiteList(urls, version);
    NonEmptyKeeps(urls);
  }
}

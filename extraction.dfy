/**
 * The per-document part of `ETLDiskJob.create_df`: the admission gate and the
 * partial rows a document emits, in the order the code appends them to
 * `final_dict`. The libraries and helpers whose code is not part of this
 * model (BeautifulSoup, extruct, the site-rule scrapers, the `create_metadata`
 * mappers, `ProcessData` helpers, `urlparse`, `arrow`) are the fields of
 * `Collaborators`: total functions the model knows nothing about.
 */
module Extraction {
  import opened Wrappers
  import opened Values
  import HtmlDecoding
  import Domain

  /** The fields of a crawl record that `create_df` reads. */
  datatype Ad = Ad(url: string, content: string, contentType: string, fetchTime: int)

  /** `BeautifulSoup(html, parser)`, represented by what it was built from. */
  datatype Soup = Soup(markup: string, parser: string)

  /** What reading the title and the text of a soup does: `(text, title)`, or an exception. */
  datatype TextTitle = Extracted(text: string, title: Option<string>) | ExtractionFailed

  /** `extruct.extract(...)` for the four syntaxes; a syntax it did not find is an empty list. */
  datatype Metadata = Metadata(jsonLd: seq<Dict>, microdata: seq<Dict>, opengraph: seq<Dict>, dublincore: seq<Dict>)

  datatype Collaborators = Collaborators(
    detector: HtmlDecoding.Detector,
    getParser: string -> string,                   // ProcessData.get_parser(content_type)
    textTitle: Soup -> TextTitle,                  // soup.get_text() and soup.title.string
    removeText: Value -> bool,                     // ProcessData.remove_text
    netloc: string -> string,                      // urlparse(url).netloc
    formatTime: int -> string,                     // get_time(fetch_time)
    domainScrapers: set<string>,                   // constants.DOMAIN_SCRAPERS
    sellerInfo: (string, Soup) -> Dict,            // what add_seller_information_to_metadata writes
    siteRule: (string, string) -> Option<Dict>,    // open_scrap(...).get(Page(html)); None when it raises
    extruct: (string, string) -> Option<Metadata>, // extruct.extract(html, base_url=url); None when it raises
    microdata: Dict -> Dict,                       // get_dict_microdata; {} stands for None
    opengraph: Dict -> Dict,                       // get_sintax_opengraph
    dublincore: Dict -> Dict,                      // get_sintax_dublincore
    jsonLd: Dict -> Dict,                          // get_dict_json_ld
    fixPrice: Value -> Value,                      // ProcessData.fix_price_str
    fixCurrency: Value -> Value,                   // ProcessData.fix_currency
    fixText: Value -> Value)                       // ProcessData.maybe_fix_text

  /** `get_text_title(soup)`: no soup gives (None, None); a failure while reading gives ("", ""). */
  function GetTextTitle(soup: Option<Soup>, read: Soup -> TextTitle): (r: (Value, Value))
    ensures soup.None? <==> r == (Null, Null)
    ensures soup.Some? ==> r.0.Str? && (r.1.Null? || r.1.Str?)
    ensures soup.Some? && read(soup.value).ExtractionFailed? ==> r == (Str(""), Str(""))
  {
    match soup
    case None => (Null, Null)
    case Some(s) =>
      match read(s)
      case Extracted(text, title) => (Str(text), if title.Some? then Str(title.value) else Null)
      case ExtractionFailed => (Str(""), Str(""))
  }

  /** How a document fares at the gate of lines 140-146. */
  datatype Admission =
    | Escaped(error: PyError)  // decoding raised past its handlers: create_df raises
    | NoHtml                   // decoding gave None or ""
    | LowValue                 // remove_text(text) holds; the bloom filter is not consulted
    | Admitted(html: string, soup: Soup, text: Value, title: Value)

  function Admit(ad: Ad, ops: Collaborators): Admission {
    match HtmlDecoding.DecodeHtml(ad.content, ops.detector)
    case Escapes(e) => Escaped(e)
    case NoText => NoHtml
    case Text(html) =>
      if html == [] then NoHtml
      else
        var soup := Soup(html, ops.getParser(ad.contentType));
        var (text, title) := GetTextTitle(Some(soup), ops.textTitle);
        if ops.removeText(text) then LowValue else Admitted(html, soup, text, title)
  }

  /**
   * Admission happens exactly when decoding gives non-empty HTML whose text
   * remove_text keeps; every other outcome names the test that failed.
   */
  lemma AdmitGate(ad: Ad, ops: Collaborators)
    ensures var decoded := HtmlDecoding.DecodeHtml(ad.content, ops.detector);
            Admit(ad, ops).Admitted?
            <==> && decoded.Text? && decoded.html != []
                 && !ops.removeText(GetTextTitle(Some(Soup(decoded.html, ops.getParser(ad.contentType))), ops.textTitle).0)
    ensures var decoded := HtmlDecoding.DecodeHtml(ad.content, ops.detector);
            match Admit(ad, ops)
            case Escaped(e) => decoded == HtmlDecoding.Escapes(e)
            case NoHtml => decoded == HtmlDecoding.NoText || decoded == HtmlDecoding.Text([])
            case LowValue =>
              && decoded.Text? && decoded.html != []
              && ops.removeText(GetTextTitle(Some(Soup(decoded.html, ops.getParser(ad.contentType))), ops.textTitle).0)
            case Admitted(html, soup, text, title) =>
              && decoded == HtmlDecoding.Text(html) && html != []
              && soup == Soup(html, ops.getParser(ad.contentType))
              && (text, title) == GetTextTitle(Some(soup), ops.textTitle)
              && text.Str? && !ops.removeText(text)
  {
  }

  /** The base row of lines 148-166: the text fields, every commerce field None. */
  function BaseRow(url: string, title: Value, text: Value, domain: string, retrieved: string): (r: Row)
    ensures Get(r, "url") == Str(url)
    ensures "product" !in r
  {
    map[
      "url" := Str(url), "title" := title, "text" := text, "domain" := Str(domain),
      "retrieved" := Str(retrieved), "name" := Null, "description" := Null, "image" := Null,
      "production_data" := Null, "category" := Null, "price" := Null, "currency" := Null,
      "seller" := Null, "seller_type" := Null, "seller_url" := Null, "location" := Null,
      "ships to" := Null]
  }

  /** The sources of non-base rows, in the order create_df appends them. */
  datatype Source = Ebay | SiteRule | Microdata | OpenGraph | DublinCore | JsonLd

  function Rank(source: Source): nat {
    match source
    case Ebay => 0
    case SiteRule => 1
    case Microdata => 2
    case OpenGraph => 3
    case DublinCore => 4
    case JsonLd => 5
  }

  /** One source's field mapping, to be laid over a copy of the base row. */
  datatype Contribution = Contribution(source: Source, fields: Dict)

  /** `meta.get("@type") == 'Product'`. */
  predicate IsProduct(item: Dict) {
    Get(item, "@type") == Str("Product")
  }

  /** The JSON-LD loop only maps items of type Product; the microdata loop maps every item. */
  predicate Selected(source: Source, item: Dict) {
    source != JsonLd || IsProduct(item)
  }

  /** The microdata and JSON-LD loops: one contribution per selected item whose mapping is truthy. */
  function ItemContributions(items: seq<Dict>, source: Source, mapper: Dict -> Dict): (cs: seq<Contribution>)
    ensures |cs| <= |items|
    ensures forall c | c in cs :: c.source == source && c.fields != map[]
    decreases |items|
  {
    if items == [] then []
    else
      var m := mapper(items[0]);
      (if Selected(source, items[0]) && m != map[] then [Contribution(source, m)] else [])
      + ItemContributions(items[1..], source, mapper)
  }

  /** Opengraph and Dublin Core: only item 0 is mapped. */
  function FirstItemContribution(items: seq<Dict>, source: Source, mapper: Dict -> Dict): (cs: seq<Contribution>)
    ensures |cs| <= 1
    ensures forall c | c in cs :: c.source == source && c.fields != map[]
    ensures cs != [] ==> items != [] && cs[0].fields == mapper(items[0])
  {
    if items == [] then []
    else
      var m := mapper(items[0]);
      if m != map[] then [Contribution(source, m)] else []
  }

  function MetadataContributions(md: Metadata, ops: Collaborators): seq<Contribution> {
    ItemContributions(md.microdata, Microdata, ops.microdata)
    + FirstItemContribution(md.opengraph, OpenGraph, ops.opengraph)
    + FirstItemContribution(md.dublincore, DublinCore, ops.dublincore)
    + ItemContributions(md.jsonLd, JsonLd, ops.jsonLd)
  }

  /** The site-rule step of lines 173-182; an exception means no contribution. */
  function SiteRuleContribution(first: string, html: string, hasMinio: bool, ops: Collaborators): seq<Contribution> {
    if hasMinio && first in ops.domainScrapers then
      match ops.siteRule(first, html)
      case None => []
      case Some(m) => [Contribution(SiteRule, m)]
    else []
  }

  /** The ebay step of lines 169-172: a row whenever "ebay" occurs in the first label. */
  function EbayContribution(first: string, soup: Soup, ops: Collaborators): seq<Contribution> {
    if Domain.Occurs("ebay", first) then [Contribution(Ebay, ops.sellerInfo(first, soup))] else []
  }

  /** Lines 183-221: nothing when extruct raised. */
  function ExtructContributions(metadata: Option<Metadata>, ops: Collaborators): seq<Contribution> {
    match metadata
    case None => []
    case Some(md) => MetadataContributions(md, ops)
  }

  /** Lines 168-221: every non-base contribution of an admitted document, in source order. */
  function Contributions(first: string, html: string, url: string, soup: Soup, hasMinio: bool, ops: Collaborators): seq<Contribution> {
    EbayContribution(first, soup, ops)
    + SiteRuleContribution(first, html, hasMinio, ops)
    + ExtructContributions(ops.extruct(html, url), ops)
  }

  /** `extract_dict = dict_df.copy(); extract_dict.update(fields)`. */
  function Overlay(base: Row, fields: Dict): (r: Row)
    ensures r.Keys == base.Keys + fields.Keys
    ensures forall k | k in fields :: r[k] == fields[k]
    ensures forall k | k in base && k !in fields :: r[k] == base[k]
  {
    base + fields
  }

  /** The site-rule row: the overlay, then a truthy "product" is moved to "name" (lines 178-179). */
  function SiteRuleRow(base: Row, fields: Dict): (r: Row)
    ensures var o := Overlay(base, fields);
            if Truthy(Get(o, "product"))
            then && r.Keys == (base.Keys + fields.Keys - {"product"}) + {"name"}
                 && r["name"] == o["product"]
                 && (forall k | k in r && k != "name" :: r[k] == o[k])
            else r == o
  {
    var o := Overlay(base, fields);
    if Truthy(Get(o, "product")) then (o - {"product"})["name" := o["product"]] else o
  }

  function Apply(base: Row, c: Contribution): Row {
    if c.source == SiteRule then SiteRuleRow(base, c.fields) else Overlay(base, c.fields)
  }

  function ApplyAll(base: Row, cs: seq<Contribution>): (rows: seq<Row>)
    ensures |rows| == |cs|
  {
    seq(|cs|, i requires 0 <= i < |cs| => Apply(base, cs[i]))
  }

  /** A document's rows: the base row, then one row per contribution. */
  function DocumentRows(base: Row, cs: seq<Contribution>): seq<Row> {
    [base] + ApplyAll(base, cs)
  }

  /** The ranks of the contributions never decrease: rows come out in the fixed source order. */
  predicate InSourceOrder(cs: seq<Contribution>) {
    forall i, j | 0 <= i < j < |cs| :: Rank(cs[i].source) <= Rank(cs[j].source)
  }

  predicate AllFrom(cs: seq<Contribution>, lo: nat, hi: nat) {
    forall c | c in cs :: lo <= Rank(c.source) <= hi
  }

  lemma OrderedConcat(a: seq<Contribution>, b: seq<Contribution>, lo: nat, mid: nat, hi: nat)
    requires lo <= mid <= hi
    requires InSourceOrder(a) && InSourceOrder(b) && AllFrom(a, lo, mid) && AllFrom(b, mid, hi)
    ensures InSourceOrder(a + b) && AllFrom(a + b, lo, hi)
  {
    var ab := a + b;
    forall c | c in ab ensures lo <= Rank(c.source) <= hi {
      assert c in a || c in b;
    }
    forall i, j | 0 <= i < j < |ab| ensures Rank(ab[i].source) <= Rank(ab[j].source) {
      if j < |a| {
        assert ab[i] == a[i] && ab[j] == a[j];
      } else if i >= |a| {
        assert ab[i] == b[i - |a|] && ab[j] == b[j - |a|];
      } else {
        assert ab[i] in a && ab[j] in b;
      }
    }
  }

  lemma SingleSource(cs: seq<Contribution>, source: Source)
    requires forall c | c in cs :: c.source == source
    ensures InSourceOrder(cs) && AllFrom(cs, Rank(source), Rank(source))
  {
  }

  /** How many contributions come from `source`. */
  function Count(cs: seq<Contribution>, source: Source): nat
    decreases |cs|
  {
    if cs == [] then 0 else (if cs[0].source == source then 1 else 0) + Count(cs[1..], source)
  }

  lemma {:induction false} CountConcat(a: seq<Contribution>, b: seq<Contribution>, source: Source)
    ensures Count(a + b, source) == Count(a, source) + Count(b, source)
    decreases |a|
  {
    if a == [] {
      assert a + b == b;
    } else {
      CountConcat(a[1..], b, source);
      assert (a + b)[1..] == a[1..] + b;
    }
  }

  lemma {:induction false} CountSingleSource(cs: seq<Contribution>, from: Source, source: Source)
    requires forall c | c in cs :: c.source == from
    ensures Count(cs, source) == if from == source then |cs| else 0
    decreases |cs|
  {
    if cs != [] {
      CountSingleSource(cs[1..], from, source);
    }
  }

  /**
   * A document's contributions are in source order (ebay, site rule,
   * microdata, opengraph, dublincore, JSON-LD), with at most one each from
   * ebay, the site rule, opengraph and dublincore.
   */
  lemma {:induction false} ContributionsInSourceOrder(first: string, html: string, url: string, soup: Soup, hasMinio: bool, ops: Collaborators)
    ensures var cs := Contributions(first, html, url, soup, hasMinio, ops);
            && InSourceOrder(cs)
            && Count(cs, Ebay) <= 1 && Count(cs, SiteRule) <= 1
            && Count(cs, OpenGraph) <= 1 && Count(cs, DublinCore) <= 1
  {
    var m := ExtructContributions(ops.extruct(html, url), ops);
    if ops.extruct(html, url).Some? {
      MetadataInSourceOrder(ops.extruct(html, url).value, ops);
    }
    HeadThenMetadata(EbayContribution(first, soup, ops), SiteRuleContribution(first, html, hasMinio, ops), m);
  }

  /**
   * The ebay row appears exactly when "ebay" occurs in the first label; the
   * site-rule row exactly when a MinIO client is set, the label has a site
   * rule and the rule produced fields without raising.
   */
  lemma EbayAndSiteRuleRows(first: string, html: string, url: string, soup: Soup, hasMinio: bool, ops: Collaborators)
    ensures var cs := Contributions(first, html, url, soup, hasMinio, ops);
            && (Count(cs, Ebay) == 1 <==> Domain.Occurs("ebay", first))
            && (Count(cs, SiteRule) == 1
                <==> hasMinio && first in ops.domainScrapers && ops.siteRule(first, html).Some?)
  {
    var e := EbayContribution(first, soup, ops);
    var s := SiteRuleContribution(first, html, hasMinio, ops);
    var m := ExtructContributions(ops.extruct(html, url), ops);
    if ops.extruct(html, url).Some? {
      MetadataInSourceOrder(ops.extruct(html, url).value, ops);
    }
    CountsOfThree(e, s, m, Ebay);
    CountsOfThree(e, s, m, SiteRule);
    CountSingleSource(e, Ebay, Ebay);
    CountSingleSource(e, Ebay, SiteRule);
    CountSingleSource(s, SiteRule, Ebay);
    CountSingleSource(s, SiteRule, SiteRule);
  }

  lemma HeadThenMetadata(e: seq<Contribution>, s: seq<Contribution>, m: seq<Contribution>)
    requires |e| <= 1 && forall c | c in e :: c.source == Ebay
    requires |s| <= 1 && forall c | c in s :: c.source == SiteRule
    requires InSourceOrder(m) && AllFrom(m, 2, 5)
    requires Count(m, Ebay) == 0 && Count(m, SiteRule) == 0 && Count(m, OpenGraph) <= 1 && Count(m, DublinCore) <= 1
    ensures InSourceOrder(e + s + m)
    ensures Count(e + s + m, Ebay) <= 1 && Count(e + s + m, SiteRule) <= 1
    ensures Count(e + s + m, OpenGraph) <= 1 && Count(e + s + m, DublinCore) <= 1
  {
    SingleSource(e, Ebay);
    SingleSource(s, SiteRule);
    OrderedConcat(e, s, 0, 0, 1);
    OrderedConcat(e + s, m, 0, 1, 5);
    CountsOfThree(e, s, m, Ebay);
    CountsOfThree(e, s, m, SiteRule);
    CountsOfThree(e, s, m, OpenGraph);
    CountsOfThree(e, s, m, DublinCore);
    CountSingleSource(e, Ebay, Ebay);
    CountSingleSource(e, Ebay, SiteRule);
    CountSingleSource(e, Ebay, OpenGraph);
    CountSingleSource(e, Ebay, DublinCore);
    CountSingleSource(s, SiteRule, Ebay);
    CountSingleSource(s, SiteRule, SiteRule);
    CountSingleSource(s, SiteRule, OpenGraph);
    CountSingleSource(s, SiteRule, DublinCore);
  }

  lemma CountsOfThree(a: seq<Contribution>, b: seq<Contribution>, c: seq<Contribution>, source: Source)
    ensures Count(a + b + c, source) == Count(a, source) + Count(b, source) + Count(c, source)
  {
    CountConcat(a, b, source);
    CountConcat(a + b, c, source);
  }

  lemma MetadataInSourceOrder(md: Metadata, ops: Collaborators)
    ensures var m := MetadataContributions(md, ops);
            && InSourceOrder(m) && AllFrom(m, 2, 5)
            && Count(m, Ebay) == 0 && Count(m, SiteRule) == 0
            && Count(m, OpenGraph) <= 1 && Count(m, DublinCore) <= 1
  {
    var mi := ItemContributions(md.microdata, Microdata, ops.microdata);
    var og := FirstItemContribution(md.opengraph, OpenGraph, ops.opengraph);
    var dc := FirstItemContribution(md.dublincore, DublinCore, ops.dublincore);
    var js := ItemContributions(md.jsonLd, JsonLd, ops.jsonLd);
    assert MetadataContributions(md, ops) == mi + og + dc + js;
    MetadataShape(mi, og, dc, js);
  }

  lemma MetadataShape(mi: seq<Contribution>, og: seq<Contribution>, dc: seq<Contribution>, js: seq<Contribution>)
    requires forall c | c in mi :: c.source == Microdata
    requires |og| <= 1 && forall c | c in og :: c.source == OpenGraph
    requires |dc| <= 1 && forall c | c in dc :: c.source == DublinCore
    requires forall c | c in js :: c.source == JsonLd
    ensures var m := mi + og + dc + js;
            && InSourceOrder(m) && AllFrom(m, 2, 5)
            && Count(m, Ebay) == 0 && Count(m, SiteRule) == 0
            && Count(m, OpenGraph) <= 1 && Count(m, DublinCore) <= 1
  {
    SingleSource(mi, Microdata);
    SingleSource(og, OpenGraph);
    SingleSource(dc, DublinCore);
    SingleSource(js, JsonLd);
    OrderedConcat(mi, og, 2, 2, 3);
    OrderedConcat(mi + og, dc, 2, 3, 4);
    OrderedConcat(mi + og + dc, js, 2, 4, 5);
    MetadataCount(mi, og, dc, js, Ebay);
    MetadataCount(mi, og, dc, js, SiteRule);
    MetadataCount(mi, og, dc, js, OpenGraph);
    MetadataCount(mi, og, dc, js, DublinCore);
  }

  lemma MetadataCount(mi: seq<Contribution>, og: seq<Contribution>, dc: seq<Contribution>, js: seq<Contribution>, source: Source)
    requires forall c | c in mi :: c.source == Microdata
    requires |og| <= 1 && forall c | c in og :: c.source == OpenGraph
    requires |dc| <= 1 && forall c | c in dc :: c.source == DublinCore
    requires forall c | c in js :: c.source == JsonLd
    ensures source != Microdata && source != JsonLd ==> Count(mi + og + dc + js, source) <= 1
    ensures source != Microdata && source != JsonLd && source != OpenGraph && source != DublinCore
            ==> Count(mi + og + dc + js, source) == 0
  {
    CountConcat(mi, og, source);
    CountConcat(mi + og, dc, source);
    CountConcat(mi + og + dc, js, source);
    CountSingleSource(mi, Microdata, source);
    CountSingleSource(og, OpenGraph, source);
    CountSingleSource(dc, DublinCore, source);
    CountSingleSource(js, JsonLd, source);
  }

  /**
   * Every non-base row is the base row with only its source's keys
   * overwritten (and, for the site rule, "name" taken from "product"):
   * every other column keeps the base value.
   */
  lemma NonBaseRowKeepsBase(base: Row, cs: seq<Contribution>, i: nat, k: string)
    requires i < |cs| && k in base && k !in cs[i].fields && k != "name" && k != "product"
    ensures k in DocumentRows(base, cs)[i + 1] && DocumentRows(base, cs)[i + 1][k] == base[k]
  {
  }

  /** The JSON-LD loop skips every item whose "@type" is not "Product". */
  lemma {:induction false} JsonLdOnlyProducts(items: seq<Dict>, mapper: Dict -> Dict)
    requires forall i | 0 <= i < |items| :: !IsProduct(items[i])
    ensures ItemContributions(items, JsonLd, mapper) == []
    decreases |items|
  {
    if items != [] {
      JsonLdOnlyProducts(items[1..], mapper);
    }
  }

  /** An admitted document's rows (lines 147-221). */
  function AdRows(ad: Ad, html: string, soup: Soup, text: Value, title: Value, hasMinio: bool, ops: Collaborators): seq<Row> {
    var domain := Domain.GetDomain(ad.url, ops.netloc);
    var base := BaseRow(ad.url, title, text, domain, ops.formatTime(ad.fetchTime));
    DocumentRows(base, Contributions(Domain.FirstLabel(domain), html, ad.url, soup, hasMinio, ops))
  }

  /**
   * The rows `final_dict` holds after a batch, the texts handed to
   * `maybe_check_bloom` in order, and the exception that ended the batch, if any.
   */
  datatype Batch = Batch(rows: seq<Row>, probes: seq<Value>, escaped: Option<PyError>)

  /** One turn of the loop of lines 139-222; a batch that has raised stays as it is. */
  function EmitStep(b: Batch, ad: Ad, hasMinio: bool, ops: Collaborators): Batch {
    if b.escaped.Some? then b
    else
      match Admit(ad, ops)
      case Escaped(e) => Batch(b.rows, b.probes, Some(e))
      case NoHtml => b
      case LowValue => b
      case Admitted(html, soup, text, title) =>
        Batch(b.rows + AdRows(ad, html, soup, text, title, hasMinio, ops), b.probes + [text], None)
  }

  function Emit(ads: seq<Ad>, hasMinio: bool, ops: Collaborators): Batch
    decreases |ads|
  {
    if ads == [] then Batch([], [], None)
    else EmitStep(Emit(ads[..|ads| - 1], hasMinio, ops), ads[|ads| - 1], hasMinio, ops)
  }

  lemma EmitSnoc(ads: seq<Ad>, ad: Ad, hasMinio: bool, ops: Collaborators)
    ensures Emit(ads + [ad], hasMinio, ops) == EmitStep(Emit(ads, hasMinio, ops), ad, hasMinio, ops)
  {
    assert (ads + [ad])[..|ads|] == ads;
  }

  /** Low-value text never reaches the bloom filter: every probed text passed remove_text. */
  lemma {:induction false} ProbesPassRemoveText(ads: seq<Ad>, hasMinio: bool, ops: Collaborators)
    ensures forall t | t in Emit(ads, hasMinio, ops).probes :: !ops.removeText(t)
    decreases |ads|
  {
    if ads != [] {
      ProbesPassRemoveText(ads[..|ads| - 1], hasMinio, ops);
    }
  }

  /** A document the gate drops leaves no trace: no rows, no probe, as if it were not in the batch. */
  lemma {:induction false} DroppedDocumentIsInvisible(pre: seq<Ad>, ad: Ad, post: seq<Ad>, hasMinio: bool, ops: Collaborators)
    requires Admit(ad, ops).NoHtml? || Admit(ad, ops).LowValue?
    ensures Emit(pre + [ad] + post, hasMinio, ops) == Emit(pre + post, hasMinio, ops)
    decreases |post|
  {
    if post == [] {
      EmitSnoc(pre, ad, hasMinio, ops);
      assert pre + [ad] + post == pre + [ad];
      assert pre + post == pre;
    } else {
      var init := post[..|post| - 1];
      var last := post[|post| - 1];
      DroppedDocumentIsInvisible(pre, ad, init, hasMinio, ops);
      EmitSnoc(pre + [ad] + init, last, hasMinio, ops);
      EmitSnoc(pre + init, last, hasMinio, ops);
      assert pre + [ad] + post == pre + [ad] + init + [last];
      assert pre + post == pre + init + [last];
    }
  }

  /** Once a document's decoding raises, the batch fails with that exception whatever follows. */
  lemma {:induction false} EscapeAbortsBatch(pre: seq<Ad>, ad: Ad, post: seq<Ad>, hasMinio: bool, ops: Collaborators)
    requires Emit(pre, hasMinio, ops).escaped.None? && Admit(ad, ops).Escaped?
    ensures var b := Emit(pre, hasMinio, ops);
            Emit(pre + [ad] + post, hasMinio, ops) == Batch(b.rows, b.probes, Some(Admit(ad, ops).error))
    decreases |post|
  {
    if post == [] {
      EmitSnoc(pre, ad, hasMinio, ops);
      assert pre + [ad] + post == pre + [ad];
    } else {
      var init := post[..|post| - 1];
      EscapeAbortsBatch(pre, ad, init, hasMinio, ops);
      EmitSnoc(pre + [ad] + init, post[|post| - 1], hasMinio, ops);
      assert pre + [ad] + post == pre + [ad] + init + [post[|post| - 1]];
    }
  }
}

/**
 * The `ETLDiskJob` object: the bloom filter and the MinIO client it was built
 * with, and the three operations that use them, `maybe_check_bloom`,
 * `create_df` and `extract`. The rows a batch emits and the frame built from
 * them are specified by the functions of `Extraction` and `Merge`.
 */
module EtlDiskJob {
  import opened Wrappers
  import opened Values
  import opened Bloom
  import opened Extraction
  import HtmlDecoding
  import Domain
  import Merge

  // ---------------------------------------------------------------------------
  // `extract` (lines 252-274), specified one record at a time.

  /** What one record does in the loop of `extract`. */
  datatype ExtractStep =
    | Keep(item: Value, seen: set<Value>)  // count += 1; cache.append(item)
    | Pass(seen: set<Value>)               // nothing appended
    | Raise(error: PyError)                // the loop raises

  /** `val.get("_source")` is truthy: the record goes through remove_text and the filter. */
  predicate HasSource(val: Dict) {
    Truthy(Get(val, "_source"))
  }

  function ExtractOne(val: Dict, seen: set<Value>, hasBloom: bool, removeText: Value -> bool): ExtractStep {
    var processed := Get(val, "_source");
    if Truthy(processed) then
      if !processed.Obj? then Raise(TypeError)
      else if "text" !in processed.fields then Raise(KeyError("text"))
      else
        var text := processed.fields["text"];
        if removeText(text) then Pass(seen)
        else if !hasBloom then Raise(AttributeError)
        else if text in seen then Pass(seen)
        else Keep(processed, seen + {text})
    else if "content" !in val then Raise(KeyError("content"))
    else if Truthy(val["content"]) then Keep(Obj(val), seen)
    else Pass(seen)
  }

  /**
   * The state of `extract` after a prefix of the records: the cache, the
   * indices of the records it came from, the texts the filter has recorded,
   * and the exception that stopped the loop, if any.
   */
  datatype ExtractRun = ExtractRun(cache: seq<Value>, picked: seq<nat>, seen: set<Value>, error: Option<PyError>)

  /** The run after record `index` has taken `step`. */
  function Advance(run: ExtractRun, step: ExtractStep, index: nat): ExtractRun {
    match step
    case Keep(item, seen) => ExtractRun(run.cache + [item], run.picked + [index], seen, None)
    case Pass(seen) => ExtractRun(run.cache, run.picked, seen, None)
    case Raise(e) => ExtractRun(run.cache, run.picked, run.seen, Some(e))
  }

  function ExtractAll(result: seq<Dict>, seen0: set<Value>, hasBloom: bool, removeText: Value -> bool): ExtractRun
    decreases |result|
  {
    if result == [] then ExtractRun([], [], seen0, None)
    else
      var run := ExtractAll(result[..|result| - 1], seen0, hasBloom, removeText);
      if run.error.Some? then run
      else Advance(run, ExtractOne(result[|result| - 1], run.seen, hasBloom, removeText), |result| - 1)
  }

  /** The run over one more record. */
  lemma ExtractAdvance(result: seq<Dict>, i: nat, seen0: set<Value>, hasBloom: bool, removeText: Value -> bool)
    requires i < |result| && ExtractAll(result[..i], seen0, hasBloom, removeText).error.None?
    ensures var run := ExtractAll(result[..i], seen0, hasBloom, removeText);
            ExtractAll(result[..i + 1], seen0, hasBloom, removeText)
            == Advance(run, ExtractOne(result[i], run.seen, hasBloom, removeText), i)
  {
    assert result[..i + 1][..i] == result[..i];
  }

  /** The record a kept index stands for in the cache. */
  function Cached(val: Dict): Value {
    if HasSource(val) then Get(val, "_source") else Obj(val)
  }

  /**
   * The cache keeps input order and holds no more than the input: each
   * entry comes from a distinct, later record than the one before.
   */
  lemma {:induction false} ExtractKeepsOrder(result: seq<Dict>, seen0: set<Value>, hasBloom: bool, removeText: Value -> bool)
    ensures var run := ExtractAll(result, seen0, hasBloom, removeText);
            && |run.cache| == |run.picked| <= |result|
            && (forall k | 0 <= k < |run.picked| :: run.picked[k] < |result| && run.cache[k] == Cached(result[run.picked[k]]))
            && (forall k, l | 0 <= k < l < |run.picked| :: run.picked[k] < run.picked[l])
    decreases |result|
  {
    if result != [] {
      var init := result[..|result| - 1];
      ExtractKeepsOrder(init, seen0, hasBloom, removeText);
      assert forall k | 0 <= k < |init| :: init[k] == result[k];
    }
  }

  /** Low-value text never reaches the filter: every text the run records passed remove_text. */
  lemma {:induction false} ExtractProbesPassRemoveText(result: seq<Dict>, seen0: set<Value>, hasBloom: bool, removeText: Value -> bool)
    ensures var run := ExtractAll(result, seen0, hasBloom, removeText);
            seen0 <= run.seen && forall t | t in run.seen - seen0 :: !removeText(t)
    decreases |result|
  {
    if result != [] {
      ExtractProbesPassRemoveText(result[..|result| - 1], seen0, hasBloom, removeText);
    }
  }

  /** The text of a `_source` record. */
  function SourceText(item: Value): Value {
    if item.Obj? then Get(item.fields, "text") else Null
  }

  /**
   * Deduplication: the `_source` records kept have texts the filter had not
   * recorded before the call, and no two of them share a text.
   */
  lemma {:induction false} ExtractDeduplicates(result: seq<Dict>, seen0: set<Value>, hasBloom: bool, removeText: Value -> bool)
    ensures var run := ExtractAll(result, seen0, hasBloom, removeText);
            && |run.picked| == |run.cache|
            && (forall k | 0 <= k < |run.picked| && run.picked[k] < |result| && HasSource(result[run.picked[k]]) ::
                  SourceText(run.cache[k]) !in seen0 && SourceText(run.cache[k]) in run.seen)
            && (forall k, l | 0 <= k < l < |run.picked| && run.picked[k] < |result| && run.picked[l] < |result|
                              && HasSource(result[run.picked[k]]) && HasSource(result[run.picked[l]]) ::
                  SourceText(run.cache[k]) != SourceText(run.cache[l]))
    decreases |result|
  {
    ExtractKeepsOrder(result, seen0, hasBloom, removeText);
    if result != [] {
      var init := result[..|result| - 1];
      ExtractDeduplicates(init, seen0, hasBloom, removeText);
      ExtractKeepsOrder(init, seen0, hasBloom, removeText);
      ExtractProbesPassRemoveText(init, seen0, hasBloom, removeText);
      assert forall k | 0 <= k < |init| :: init[k] == result[k];
    }
  }

  /** Once the loop has raised, later records change nothing. */
  lemma {:induction false} ExtractErrorPersists(result: seq<Dict>, n: nat, seen0: set<Value>, hasBloom: bool, removeText: Value -> bool)
    requires n <= |result| && ExtractAll(result[..n], seen0, hasBloom, removeText).error.Some?
    ensures ExtractAll(result, seen0, hasBloom, removeText) == ExtractAll(result[..n], seen0, hasBloom, removeText)
    decreases |result| - n
  {
    if n < |result| {
      var init := result[..|result| - 1];
      assert init[..n] == result[..n];
      ExtractErrorPersists(init, n, seen0, hasBloom, removeText);
    } else {
      assert result[..n] == result;
    }
  }

  /** What `extract` logs: records received and records kept, and the cache it built. */
  datatype ExtractLog = ExtractLog(hits: nat, count: nat, cache: seq<Value>)

  // ---------------------------------------------------------------------------

  lemma ApplyAllSnoc(base: Row, cs: seq<Contribution>, c: Contribution)
    ensures ApplyAll(base, cs + [c]) == ApplyAll(base, cs) + [Apply(base, c)]
  {
  }

  lemma ApplyAllConcat(base: Row, a: seq<Contribution>, b: seq<Contribution>)
    ensures ApplyAll(base, a + b) == ApplyAll(base, a) + ApplyAll(base, b)
  {
  }

  lemma AppendApplyAll(acc: seq<Row>, base: Row, a: seq<Contribution>, b: seq<Contribution>)
    ensures acc + ApplyAll(base, a) + ApplyAll(base, b) == acc + ApplyAll(base, a + b)
  {
    ApplyAllConcat(base, a, b);
  }

  lemma DocumentRowsSplit(acc: seq<Row>, base: Row, head: seq<Contribution>, tail: seq<Contribution>)
    ensures acc + [base] + ApplyAll(base, head) + ApplyAll(base, tail) == acc + DocumentRows(base, head + tail)
  {
    ApplyAllConcat(base, head, tail);
  }

  lemma UrlsGrow(rows: seq<Row>, more: seq<Row>)
    ensures Merge.Urls(rows) <= Merge.Urls(rows + more)
  {
    forall u | u in Merge.Urls(rows) ensures u in Merge.Urls(rows + more) {
      var i :| 0 <= i < |rows| && Merge.Url(rows[i]) != Null && Merge.Url(rows[i]) == u;
      assert (rows + more)[i] == rows[i];
    }
  }

  /** The last ad of a batch that did not raise: the rows before it, then its own rows if admitted. */
  lemma EmitLast(ads: seq<Ad>, hasMinio: bool, ops: Collaborators)
    requires ads != [] && Emit(ads, hasMinio, ops).escaped.None?
    ensures var b := Emit(ads[..|ads| - 1], hasMinio, ops);
            var ad := ads[|ads| - 1];
            var a := Admit(ad, ops);
            && b.escaped.None? && !a.Escaped?
            && Emit(ads, hasMinio, ops).rows
               == if a.Admitted? then b.rows + AdRows(ad, a.html, a.soup, a.text, a.title, hasMinio, ops) else b.rows
  {
  }

  /** An admitted document's rows start with its base row, which carries its url. */
  lemma AdRowsStartWithBase(ad: Ad, html: string, soup: Soup, text: Value, title: Value, hasMinio: bool, ops: Collaborators)
    ensures var rows := AdRows(ad, html, soup, text, title, hasMinio, ops);
            rows != [] && Merge.Url(rows[0]) == Str(ad.url)
  {
  }

  lemma UrlOfLastBlock(rows: seq<Row>, block: seq<Row>, url: Value)
    requires block != [] && Merge.Url(block[0]) == url && url != Null
    ensures url in Merge.Urls(rows + block)
  {
    assert (rows + block)[|rows|] == block[0];
  }

  /** The urls emitted before the last ad stay emitted. */
  lemma EmitUrlsGrow(ads: seq<Ad>, hasMinio: bool, ops: Collaborators)
    requires ads != [] && Emit(ads, hasMinio, ops).escaped.None?
    ensures Emit(ads[..|ads| - 1], hasMinio, ops).escaped.None?
    ensures Merge.Urls(Emit(ads[..|ads| - 1], hasMinio, ops).rows) <= Merge.Urls(Emit(ads, hasMinio, ops).rows)
  {
    var ad := ads[|ads| - 1];
    var a := Admit(ad, ops);
    EmitLast(ads, hasMinio, ops);
    if a.Admitted? {
      UrlsGrow(Emit(ads[..|ads| - 1], hasMinio, ops).rows, AdRows(ad, a.html, a.soup, a.text, a.title, hasMinio, ops));
    }
  }

  /** The last ad, when admitted, has its url among the emitted rows. */
  lemma LastAdmittedUrl(ads: seq<Ad>, hasMinio: bool, ops: Collaborators)
    requires ads != [] && Emit(ads, hasMinio, ops).escaped.None? && Admit(ads[|ads| - 1], ops).Admitted?
    ensures Str(ads[|ads| - 1].url) in Merge.Urls(Emit(ads, hasMinio, ops).rows)
  {
    var ad := ads[|ads| - 1];
    var a := Admit(ad, ops);
    EmitLast(ads, hasMinio, ops);
    AdRowsStartWithBase(ad, a.html, a.soup, a.text, a.title, hasMinio, ops);
    UrlOfLastBlock(Emit(ads[..|ads| - 1], hasMinio, ops).rows, AdRows(ad, a.html, a.soup, a.text, a.title, hasMinio, ops), Str(ad.url));
  }

  /** A batch that did not raise emitted a row for the url of every admitted document. */
  lemma {:induction false} AdmittedUrlIsEmitted(ads: seq<Ad>, i: nat, hasMinio: bool, ops: Collaborators)
    requires i < |ads| && Emit(ads, hasMinio, ops).escaped.None? && Admit(ads[i], ops).Admitted?
    ensures Str(ads[i].url) in Merge.Urls(Emit(ads, hasMinio, ops).rows)
    decreases |ads|
  {
    if i == |ads| - 1 {
      LastAdmittedUrl(ads, hasMinio, ops);
    } else {
      var init := ads[..|ads| - 1];
      assert init[i] == ads[i];
      EmitUrlsGrow(ads, hasMinio, ops);
      AdmittedUrlIsEmitted(init, i, hasMinio, ops);
    }
  }

  /** Every admitted document of a batch that did not raise has its record in the frame. */
  lemma AdmittedDocumentHasRecord(ads: seq<Ad>, i: nat, hasMinio: bool, ops: Collaborators)
    requires i < |ads| && Emit(ads, hasMinio, ops).escaped.None? && Admit(ads[i], ops).Admitted?
    ensures Str(ads[i].url) in Merge.BuildFrame(Emit(ads, hasMinio, ops).rows, ops.fixPrice, ops.fixCurrency, ops.fixText)
  {
    AdmittedUrlIsEmitted(ads, i, hasMinio, ops);
    Merge.OneRecordPerUrl(Emit(ads, hasMinio, ops).rows, ops.fixPrice, ops.fixCurrency, ops.fixText);
  }

  /** One item of the microdata or JSON-LD loop adds at most its own row. */
  lemma ItemRowsStep(acc: seq<Row>, base: Row, items: seq<Dict>, j: nat, source: Source, mapper: Dict -> Dict)
    requires j < |items| && source != SiteRule
    ensures acc + ApplyAll(base, ItemContributions(items[..j + 1], source, mapper))
         == acc + ApplyAll(base, ItemContributions(items[..j], source, mapper))
            + (if Selected(source, items[j]) && mapper(items[j]) != map[] then [Overlay(base, mapper(items[j]))] else [])
  {
    var c := Contribution(source, mapper(items[j]));
    ItemContributionsSnoc(items, j, source, mapper);
    ApplyAllSnoc(base, ItemContributions(items[..j], source, mapper), c);
  }

  /** One admitted document: its rows are appended and its text is probed. */
  lemma EmitAdmitted(ads: seq<Ad>, i: nat, hasMinio: bool, ops: Collaborators, html: string, soup: Soup, text: Value, title: Value)
    requires i < |ads| && Emit(ads[..i], hasMinio, ops).escaped.None?
    requires Admit(ads[i], ops) == Admitted(html, soup, text, title)
    ensures var b := Emit(ads[..i], hasMinio, ops);
            Emit(ads[..i + 1], hasMinio, ops)
            == Batch(b.rows + AdRows(ads[i], html, soup, text, title, hasMinio, ops), b.probes + [text], None)
  {
    assert ads[..i + 1][..i] == ads[..i];
  }

  /** One document the gate drops: the batch is unchanged. */
  lemma EmitDropped(ads: seq<Ad>, i: nat, hasMinio: bool, ops: Collaborators)
    requires i < |ads| && Emit(ads[..i], hasMinio, ops).escaped.None?
    requires Admit(ads[i], ops).NoHtml? || Admit(ads[i], ops).LowValue?
    ensures Emit(ads[..i + 1], hasMinio, ops) == Emit(ads[..i], hasMinio, ops)
  {
    assert ads[..i + 1][..i] == ads[..i];
  }

  lemma ProbesGrow(seen0: set<Value>, probes: seq<Value>, text: Value)
    ensures seen0 + (set t | t in probes) + {text} == seen0 + set t | t in probes + [text]
  {
  }

  lemma SplitAt<T>(s: seq<T>, i: nat)
    requires i < |s|
    ensures s[..i] + [s[i]] + s[i + 1..] == s
  {
  }

  lemma {:induction false} ItemContributionsSnoc(items: seq<Dict>, j: nat, source: Source, mapper: Dict -> Dict)
    requires j < |items|
    ensures ItemContributions(items[..j + 1], source, mapper)
         == ItemContributions(items[..j], source, mapper)
            + (if Selected(source, items[j]) && mapper(items[j]) != map[] then [Contribution(source, mapper(items[j]))] else [])
    decreases j
  {
    if j > 0 {
      assert items[..j + 1][1..] == items[1..][..j];
      assert items[..j][1..] == items[1..][..j - 1];
      ItemContributionsSnoc(items[1..], j - 1, source, mapper);
    } else {
      assert items[..1][1..] == [];
    }
  }

  class EtlDiskJob {
    const bloomFilter: BloomFilter?
    /** Whether a MinIO client was configured (`if self.minio_client`). */
    const hasMinioClient: bool

    constructor (bloomFilter: BloomFilter?, hasMinioClient: bool)
      ensures this.bloomFilter == bloomFilter && this.hasMinioClient == hasMinioClient
    {
      this.bloomFilter := bloomFilter;
      this.hasMinioClient := hasMinioClient;
    }

    /**
     * `maybe_check_bloom` (lines 131-135). With a filter it consults it and
     * then returns None, dropping the answer; without one it returns False.
     * Either way the result is falsy, so it never causes a document to be skipped.
     */
    method MaybeCheckBloom(text: Value) returns (r: Value)
      modifies bloomFilter
      ensures !Truthy(r)
      ensures bloomFilter != null ==> r == Null && bloomFilter.seen == old(bloomFilter.seen) + {text}
      ensures bloomFilter == null ==> r == Bool(false)
    {
      if bloomFilter != null {
        var _ := bloomFilter.CheckBloomFilter(text);
        r := Null;
      } else {
        r := Bool(false);
      }
    }

    /**
     * The microdata loop (lines 195-201) and the JSON-LD loop (lines 214-222):
     * a row for every selected item whose mapping is truthy, in item order.
     */
    method AppendItemRows(acc: seq<Row>, base: Row, items: seq<Dict>, source: Source, mapper: Dict -> Dict)
      returns (out: seq<Row>)
      requires source == Microdata || source == JsonLd
      ensures out == acc + ApplyAll(base, ItemContributions(items, source, mapper))
    {
      out := acc;
      var j := 0;
      while j < |items|
        invariant 0 <= j <= |items|
        invariant out == acc + ApplyAll(base, ItemContributions(items[..j], source, mapper))
      {
        ItemRowsStep(acc, base, items, j, source, mapper);
        var item := items[j];
        if Selected(source, item) {
          var fields := mapper(item);
          if fields != map[] {
            out := out + [Overlay(base, fields)];
          }
        }
        j := j + 1;
      }
      assert items[..j] == items;
    }

    /** The opengraph and Dublin Core steps (lines 202-213): item 0 only. */
    method AppendFirstItemRow(acc: seq<Row>, base: Row, items: seq<Dict>, source: Source, mapper: Dict -> Dict)
      returns (out: seq<Row>)
      requires source == OpenGraph || source == DublinCore
      ensures out == acc + ApplyAll(base, FirstItemContribution(items, source, mapper))
    {
      out := acc;
      if items != [] {
        var fields := mapper(items[0]);
        if fields != map[] {
          out := out + [Overlay(base, fields)];
        }
      }
    }

    /** The ebay step (lines 169-172) and the site-rule step (lines 173-182). */
    method AppendHeadRows(acc: seq<Row>, base: Row, first: string, html: string, soup: Soup, ops: Collaborators)
      returns (out: seq<Row>)
      ensures out == acc + ApplyAll(base, EbayContribution(first, soup, ops) + SiteRuleContribution(first, html, hasMinioClient, ops))
    {
      out := acc;
      if Domain.Occurs("ebay", first) {
        out := out + [Overlay(base, ops.sellerInfo(first, soup))];
      }
      ghost var mid := out;
      if hasMinioClient && first in ops.domainScrapers {
        var scraped := ops.siteRule(first, html);
        if scraped.Some? {
          out := out + [SiteRuleRow(base, scraped.value)];
        }
      }
      assert mid == acc + ApplyAll(base, EbayContribution(first, soup, ops));
      assert out == mid + ApplyAll(base, SiteRuleContribution(first, html, hasMinioClient, ops));
      ApplyAllConcat(base, EbayContribution(first, soup, ops), SiteRuleContribution(first, html, hasMinioClient, ops));
    }

    /** The extruct steps (lines 194-222), in the order create_df runs them. */
    method AppendMetadataRows(acc: seq<Row>, base: Row, md: Metadata, ops: Collaborators)
      returns (out: seq<Row>)
      ensures out == acc + ApplyAll(base, MetadataContributions(md, ops))
    {
      ghost var mi := ItemContributions(md.microdata, Microdata, ops.microdata);
      ghost var og := FirstItemContribution(md.opengraph, OpenGraph, ops.opengraph);
      ghost var dc := FirstItemContribution(md.dublincore, DublinCore, ops.dublincore);
      ghost var js := ItemContributions(md.jsonLd, JsonLd, ops.jsonLd);
      out := AppendItemRows(acc, base, md.microdata, Microdata, ops.microdata);
      out := AppendFirstItemRow(out, base, md.opengraph, OpenGraph, ops.opengraph);
      AppendApplyAll(acc, base, mi, og);
      out := AppendFirstItemRow(out, base, md.dublincore, DublinCore, ops.dublincore);
      AppendApplyAll(acc, base, mi + og, dc);
      out := AppendItemRows(out, base, md.jsonLd, JsonLd, ops.jsonLd);
      AppendApplyAll(acc, base, mi + og + dc, js);
    }

    /**
     * Lines 167-221 for one admitted document: append its base row and then
     * a row per contribution, source by source.
     */
    method AppendDocumentRows(acc: seq<Row>, base: Row, first: string, html: string, url: string, soup: Soup, ops: Collaborators)
      returns (out: seq<Row>)
      ensures out == acc + DocumentRows(base, Contributions(first, html, url, soup, hasMinioClient, ops))
    {
      ghost var head := EbayContribution(first, soup, ops) + SiteRuleContribution(first, html, hasMinioClient, ops);
      out := AppendHeadRows(acc + [base], base, first, html, soup, ops);
      var metadata := ops.extruct(html, url);
      ghost var tail := ExtructContributions(metadata, ops);
      if metadata.Some? {
        out := AppendMetadataRows(out, base, metadata.value, ops);
      } else {
        assert ApplyAll(base, tail) == [];
      }
      DocumentRowsSplit(acc, base, head, tail);
    }

    /**
     * The body of the loop of `create_df` for one ad (lines 140-222):
     * decode, apply the gate, consult the filter and append the document's
     * rows. `escaped` is the exception that leaves the decoder, if any.
     */
    method AddDocument(acc: seq<Row>, ad: Ad, ops: Collaborators) returns (out: seq<Row>, escaped: Option<PyError>)
      modifies bloomFilter
      ensures var a := Admit(ad, ops);
              && escaped == (if a.Escaped? then Some(a.error) else None)
              && out == (if a.Admitted? then acc + AdRows(ad, a.html, a.soup, a.text, a.title, hasMinioClient, ops) else acc)
              && (bloomFilter != null ==> bloomFilter.seen == old(bloomFilter.seen) + (if a.Admitted? then {a.text} else {}))
    {
      out, escaped := acc, None;
      var htmlContent := HtmlDecoding.DecodeHtml(ad.content, ops.detector);
      if htmlContent.Escapes? {
        escaped := Some(htmlContent.error);
        return;
      }
      if htmlContent.Text? && htmlContent.html != [] {
        var soup := Soup(htmlContent.html, ops.getParser(ad.contentType));
        var (text, title) := GetTextTitle(Some(soup), ops.textTitle);
        if !ops.removeText(text) {
          var skip := MaybeCheckBloom(text);
          if !Truthy(skip) {
            var domain := Domain.GetDomain(ad.url, ops.netloc);
            var base := BaseRow(ad.url, title, text, domain, ops.formatTime(ad.fetchTime));
            out := AppendDocumentRows(out, base, Domain.FirstLabel(domain), htmlContent.html, ad.url, soup, ops);
          }
        }
      }
    }

    /**
     * `create_df` (lines 137-250): the rows of every admitted document, in
     * order, merged into a frame; the filter records the text of every
     * document that passed remove_text. An exception escaping the decoder
     * aborts the whole call.
     */
    method CreateDf(ads: seq<Ad>, ops: Collaborators) returns (r: Result<Merge.Frame, PyError>)
      modifies bloomFilter
      ensures var b := Emit(ads, hasMinioClient, ops);
              && (bloomFilter != null ==> bloomFilter.seen == old(bloomFilter.seen) + set t | t in b.probes)
              && r == if b.escaped.Some? then Failure(b.escaped.value)
                      else Success(Merge.BuildFrame(b.rows, ops.fixPrice, ops.fixCurrency, ops.fixText))
    {
      var finalDict: seq<Row> := [];
      ghost var probes: seq<Value> := [];
      var i := 0;
      while i < |ads|
        invariant 0 <= i <= |ads|
        invariant Emit(ads[..i], hasMinioClient, ops) == Batch(finalDict, probes, None)
        invariant bloomFilter != null ==> bloomFilter.seen == old(bloomFilter.seen) + set t | t in probes
      {
        ghost var a := Admit(ads[i], ops);
        var escaped;
        finalDict, escaped := AddDocument(finalDict, ads[i], ops);
        if escaped.Some? {
          SplitAt(ads, i);
          EscapeAbortsBatch(ads[..i], ads[i], ads[i + 1..], hasMinioClient, ops);
          return Failure(escaped.value);
        }
        if a.Admitted? {
          EmitAdmitted(ads, i, hasMinioClient, ops, a.html, a.soup, a.text, a.title);
          if bloomFilter != null {
            ProbesGrow(old(bloomFilter.seen), probes, a.text);
          }
          probes := probes + [a.text];
        } else {
          EmitDropped(ads, i, hasMinioClient, ops);
        }
        i := i + 1;
      }
      assert ads[..i] == ads;
      r := Success(Merge.BuildFrame(finalDict, ops.fixPrice, ops.fixCurrency, ops.fixText));
    }

    /**
     * `extract` (lines 252-274). The method returns what the source logs
     * (records received, records kept) together with the cache it builds.
     */
    method Extract(result: seq<Dict>, removeText: Value -> bool) returns (r: Result<ExtractLog, PyError>)
      modifies bloomFilter
      ensures var run := ExtractAll(result, if bloomFilter != null then old(bloomFilter.seen) else {}, bloomFilter != null, removeText);
              && (bloomFilter != null ==> bloomFilter.seen == run.seen)
              && r == if run.error.Some? then Failure(run.error.value)
                      else Success(ExtractLog(|result|, |run.cache|, run.cache))
    {
      ghost var seen0: set<Value> := if bloomFilter != null then bloomFilter.seen else {};
      ghost var seen := seen0;
      ghost var picked: seq<nat> := [];
      var cache: seq<Value> := [];
      var count := 0;
      var hits := |result|;
      var i := 0;
      while i < |result|
        invariant 0 <= i <= |result|
        invariant ExtractAll(result[..i], seen0, bloomFilter != null, removeText) == ExtractRun(cache, picked, seen, None)
        invariant bloomFilter != null ==> bloomFilter.seen == seen
        invariant count == |cache|
      {
        var val := result[i];
        ExtractAdvance(result, i, seen0, bloomFilter != null, removeText);
        ghost var step := ExtractOne(val, seen, bloomFilter != null, removeText);
        var processed := Get(val, "_source");
        if Truthy(processed) {
          if !processed.Obj? {
            ExtractErrorPersists(result, i + 1, seen0, bloomFilter != null, removeText);
            return Failure(TypeError);
          }
          if "text" !in processed.fields {
            ExtractErrorPersists(result, i + 1, seen0, bloomFilter != null, removeText);
            return Failure(KeyError("text"));
          }
          var text := processed.fields["text"];
          if !removeText(text) {
            if bloomFilter == null {
              ExtractErrorPersists(result, i + 1, seen0, bloomFilter != null, removeText);
              return Failure(AttributeError);
            }
            var present := bloomFilter.CheckBloomFilter(text);
            seen := seen + {text};
            if !present {
              count := count + 1;
              cache := cache + [processed];
              picked := picked + [i];
            }
          }
        } else if "content" !in val {
          ExtractErrorPersists(result, i + 1, seen0, bloomFilter != null, removeText);
          return Failure(KeyError("content"));
        } else if Truthy(val["content"]) {
          count := count + 1;
          cache := cache + [Obj(val)];
          picked := picked + [i];
        }
        i := i + 1;
      }
      assert result[..i] == result;
      r := Success(ExtractLog(hits, count, cache));
    }
  }
}

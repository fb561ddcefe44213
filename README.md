# wildlife_pipeline ETL core, modelled in Dafny

This project models the per-document extract-and-merge pipeline of
`ETLDiskJob` in the wildlife_pipeline crawler. Crawled ads come in with a
base64 `content` field. For each ad the job:

- decodes the content to HTML (strict base64, then UTF-8, then ASCII, then an
  encoding detected by chardet);
- admits it if the HTML is non-empty and its text is not low-value;
- emits a base row and then zero or more partial rows in source order: at
  most one each from ebay seller information, a site-specific scraper rule,
  opengraph and Dublin Core, and one per item from microdata and from JSON-LD
  products, each only when its source yields fields;
- merges all partial rows into one record per url, keeping the first non-null
  value of each column.

It also models the `extract` loop, which deduplicates search hits through the
job's bloom filter.

Modules, one per file:

- `Wrappers`, `Values`: Option/Result, Python values as they appear in rows
  (None, bool, int, str, list, dict), and the Python exceptions that can
  leave the core (`TypeError`, `LookupError`, `KeyError`, `AttributeError`).
- `Base64`: strict decoding with the alphabet and padding of section 4 of
  RFC 4648, and an encoder that is its partner.
- `Utf8`: well-formedness and decoding by the table of section 4 of RFC 3629,
  an encoder, and ASCII.
- `HtmlDecoding`: `get_decoded_html_from_bytes` as a chain with three
  outcomes: text, `None`, or an exception that escapes.
- `Domain`: `get_domain` (delete every "www." from the netloc) and the
  first dot-label split.
- `Extraction`: the admission gate, the base row, the contributions of each
  source, and the batch of rows `create_df` emits (`Emit`).
- `Merge`: price and currency normalisation, group-by-url keeping the first
  non-null value, and text repair. Also an independent one-row-at-a-time
  merge that is proved equal to it.
- `Bloom`: the bloom filter as a class holding the set of texts it has seen.
- `EtlDiskJob`: the `ETLDiskJob` class with `maybe_check_bloom`, `create_df`
  (its loops appending to `final_dict`) and `extract` (its counting loop).
  Each method is proved against the specification functions above.

Collaborators whose code is not part of this model are parameters. They are
fields of the `Extraction.Collaborators` datatype: chardet and the codec
registry, `get_parser`, BeautifulSoup's text and title, `remove_text`,
`urlparse`'s netloc, `get_time`, `DOMAIN_SCRAPERS`,
`add_seller_information_to_metadata`, the site rule, extruct, the
`create_metadata` mappers, `fix_price_str`, `fix_currency` and
`maybe_fix_text`.

Where the code's evident purpose and its behaviour differ, the model follows
the behaviour:

- `maybe_check_bloom` consults the filter but drops its answer (it returns
  None), so `create_df` never skips a document as a duplicate. The filter
  still records every admitted text.
- When chardet finds no encoding, `decode(None)` raises `TypeError`. An
  unknown encoding name raises `LookupError`. Both are raised inside the
  `except UnicodeDecodeError` handler, so the sibling `except Exception` does
  not catch them. They leave `get_decoded_html_from_bytes` and abort the
  whole `create_df` call.
- The ASCII fallback is dead code, because ASCII bytes are always well-formed
  UTF-8.

## Model

| member | source | states |
|---|---|---|
| Base64.WellFormed | etl_disk_job.py:290 | what `b64decode(validate=True)` accepts: whole four-character quanta of alphabet characters, with "=" padding only in the last two places; Base64.Decode succeeds exactly on it |
| Base64.Decode | etl_disk_job.py:290 | strict decoding succeeds exactly on well-formed input (whole quanta, alphabet characters, padding only at the end) |
| Base64.CharOf | etl_disk_job.py:290 | every 6-bit value has an alphabet character that stands for it |
| Base64.EncodeQuantum | etl_disk_job.py:290 | three bytes encode to a full quantum that decodes back to them |
| Base64.EncodePadded | etl_disk_job.py:290 | one or two trailing bytes encode to a padded quantum that decodes back to them |
| Base64.DecodeEncode | etl_disk_job.py:290 | every byte string survives encoding followed by strict decoding |
| Utf8.WellFormed | etl_disk_job.py:291 | what `decode('utf-8')` accepts: a sequence of RFC 3629 characters; Utf8.DecodeEncode and Utf8.EncodeDecode show it is exactly the set of encodings of strings |
| Utf8.Decode | etl_disk_job.py:291 | `decode('utf-8')` on accepted bytes; Utf8.EncodeDecode and Utf8.DecodeEncode make it the inverse of encoding |
| Utf8.CodePoint | etl_disk_job.py:291 | a well-formed encoded character decodes to a Unicode scalar value (no surrogate, at most U+10FFFF) |
| Utf8.EncodeChar | etl_disk_job.py:291 | every character encodes to a well-formed sequence that decodes back to it |
| Utf8.DecodeEncode | etl_disk_job.py:291 | every string encodes to well-formed UTF-8 that decodes back to it |
| Utf8.EncodeCodePoint | etl_disk_job.py:291 | each well-formed encoded character is the unique encoding of its code point |
| Utf8.EncodeDecode | etl_disk_job.py:291 | well-formed UTF-8 is exactly the encoding of what it decodes to |
| Utf8.AsciiDecode | etl_disk_job.py:296 | ASCII decoding gives one character per byte, with the byte's value |
| Utf8.AsciiIsUtf8 | etl_disk_job.py:291-296 | ASCII bytes are well-formed UTF-8 and decode the same way under both codecs |
| HtmlDecoding.DetectedStage | etl_disk_job.py:298-305 | the chardet stage: no encoding raises TypeError, an unknown codec raises LookupError, a failed decode gives None; HtmlDecoding.EscapesOnlyFromDetection and HtmlDecoding.NoDetectedEncodingEscapes state its escapes |
| HtmlDecoding.DecodeHtml | etl_disk_job.py:287-311 | `get_decoded_html_from_bytes` as a three-way outcome (text, None, escaping exception); the lemmas below characterise each outcome and the round trip |
| HtmlDecoding.InvalidBase64IsNone | etl_disk_job.py:287-311 | content that strict base64 rejects yields None, whatever chardet does |
| HtmlDecoding.Utf8Wins | etl_disk_job.py:290-291 | base64 of well-formed UTF-8 yields the UTF-8 text |
| HtmlDecoding.AsciiFallbackIsDead | etl_disk_job.py:293-300 | once UTF-8 fails the bytes are not ASCII, so control always reaches chardet |
| HtmlDecoding.RoundTrip | etl_disk_job.py:287-311 | any text, UTF-8 encoded and then base64 encoded, decodes back to itself |
| HtmlDecoding.EscapesOnlyFromDetection | etl_disk_job.py:298-305 | an exception leaves the function only from the chardet stage, when chardet finds no encoding or names an unknown codec |
| HtmlDecoding.LoneFFByte | etl_disk_job.py:290-291 | "/w==" decodes to the single byte 0xFF, which is not UTF-8 |
| HtmlDecoding.NoDetectedEncodingEscapes | etl_disk_job.py:300-302 | if chardet finds no encoding for 0xFF, TypeError escapes instead of None being returned |
| Domain.DeleteAll | etl_disk_job.py:316 | `str.replace(pat, "")`; Domain.DeleteAllIsConcatOfSplit with Domain.JoinSplit and Domain.SplitCutsAtLeftmost pin it down as removing exactly the leftmost non-overlapping occurrences |
| Domain.GetDomain | etl_disk_job.py:314-317 | `get_domain`: the netloc with every "www." deleted (Domain.DeleteAll) |
| Domain.FirstLabel | etl_disk_job.py:168 | `domain.split(".")[0]`; Domain.FirstLabelIsDotFreePrefix characterises it |
| Domain.Split | etl_disk_job.py:168 | `str.split` always yields at least one part |
| Domain.JoinSplit | etl_disk_job.py:168 | joining the parts of a split with the separator gives back the string |
| Domain.SplitCutsAtLeftmost | etl_disk_job.py:168 | `str.split` cuts at the leftmost non-overlapping occurrences: no piece but the last, followed by all but the last character of the separator, holds the separator, and the last piece holds none |
| Domain.DeleteAllIsConcatOfSplit | etl_disk_job.py:316 | `replace("www.", "")` equals splitting on "www." and concatenating the parts |
| Domain.DeleteAllAbsent | etl_disk_job.py:314-317 | a netloc without "www." is returned unchanged |
| Domain.DeleteAllShrinks | etl_disk_job.py:316 | the result has no more characters than the netloc, and at least one "www." fewer when it holds one |
| Domain.FirstLabelIsDotFreePrefix | etl_disk_job.py:168 | the first label is the longest dot-free prefix of the domain |
| Domain.FirstLabelOfDotted | etl_disk_job.py:168 | for a dot-free word w, the first label of w + "." + t is w |
| Domain.EbayExample | etl_disk_job.py:168-169 | netloc "www.ebay.co.uk" gives domain "ebay.co.uk", first label "ebay", which takes the ebay branch |
| Extraction.GetTextTitle | etl_disk_job.py:326-338 | no soup gives (None, None); a soup gives a string text and a string or None title; a failure while reading gives ("", "") |
| Extraction.Admit | etl_disk_job.py:140-146 | the gate of one ad: an escaping decoder exception, no HTML, text that `remove_text` rejects, or admission with the soup, text and title; Extraction.AdmitGate characterises each outcome |
| Extraction.AdmitGate | etl_disk_job.py:140-146 | a document is admitted exactly when decoding gives non-empty HTML whose text `remove_text` keeps; an escape comes only from decoding |
| Extraction.BaseRow | etl_disk_job.py:148-166 | the base row carries the ad's url and no "product" key |
| Extraction.ItemContributions | etl_disk_job.py:195-201 | at most one contribution per item, each from that loop's source and with a non-empty mapping |
| Extraction.FirstItemContribution | etl_disk_job.py:202-213 | at most one contribution, taken from item 0's mapping |
| Extraction.Overlay | etl_disk_job.py:199-201 | the copy has the base keys plus the mapping's keys, mapping values win, all other base values are kept |
| Extraction.SiteRuleRow | etl_disk_job.py:175-180 | when the overlay's "product" is truthy the row has the overlay's keys without "product" and with "name", "name" holds the product value and every other key keeps its overlay value; otherwise the row is the plain overlay |
| Extraction.Contributions | etl_disk_job.py:168-221 | the partial rows of an admitted document, as source-tagged mappings; Extraction.ContributionsInSourceOrder and Extraction.EbayAndSiteRuleRows state their order and conditions |
| Extraction.AdRows | etl_disk_job.py:147-222 | the base row followed by one overlaid row per contribution; Extraction.NonBaseRowKeepsBase and Extraction.SiteRuleRow state what each row holds |
| Extraction.ContributionsInSourceOrder | etl_disk_job.py:167-221 | rows come in source order (ebay, site rule, microdata, opengraph, dublincore, JSON-LD) with at most one each from ebay, site rule, opengraph and dublincore |
| Extraction.EbayAndSiteRuleRows | etl_disk_job.py:168-182 | an ebay row iff "ebay" occurs in the first label; a site-rule row iff a MinIO client is set, the label has a rule and the rule raised nothing |
| Extraction.MetadataInSourceOrder | etl_disk_job.py:194-222 | the extruct rows are in source order, with at most one opengraph row and at most one dublincore row |
| Extraction.NonBaseRowKeepsBase | etl_disk_job.py:170-221 | a partial row keeps the base value of every key its source does not set (other than name/product) |
| Extraction.JsonLdOnlyProducts | etl_disk_job.py:214-216 | JSON-LD items whose "@type" is not "Product" contribute no rows |
| Extraction.EmitStep | etl_disk_job.py:139-222 | one turn of the ad loop on the accumulated rows, probes and escape; a batch that raised is left as it is |
| Extraction.Emit | etl_disk_job.py:139-222 | the rows and bloom probes of a whole batch, in ad order; the three lemmas below and EtlDiskJob.EtlDiskJob.CreateDf use it |
| Extraction.ProbesPassRemoveText | etl_disk_job.py:146 | every text handed to the bloom filter passed `remove_text`: low-value text never reaches it |
| Extraction.DroppedDocumentIsInvisible | etl_disk_job.py:140-146 | a document the gate drops leaves the batch as if it were absent: no rows, no probe |
| Extraction.EscapeAbortsBatch | etl_disk_job.py:139-140 | once decoding raises, the batch fails with that exception whatever follows, with the rows and probes it had |
| Merge.Normalise | etl_disk_job.py:227-228 | price and currency normalisation of every row, keeping the row count; Merge.NormaliseOnlyPriceAndCurrency gives each row |
| Merge.GroupByFirst | etl_disk_job.py:229-245 | one record per url holding each column's first non-null value; the Merge lemmas below state its behaviour |
| Merge.IncrementalMerge | etl_disk_job.py:229-245 | an independent reference merge, one row at a time, that Merge.GroupByFirstIsIncremental proves equal to Merge.GroupByFirst |
| Merge.FixText | etl_disk_job.py:247-248 | `maybe_fix_text` on title, text, name and description of every record |
| Merge.BuildFrame | etl_disk_job.py:224-250 | no rows give an empty frame; otherwise normalise, group by first and repair text; Merge.OneRecordPerUrl states its keys |
| Merge.NormaliseOnlyPriceAndCurrency | etl_disk_job.py:227-228 | each row gets price and currency from the normalisers applied to its own values (missing ones read as None); every other column is unchanged |
| Merge.GroupByFirstIsIncremental | etl_disk_job.py:229-245 | group-by-first equals merging the rows one at a time, where a new url takes the row's values and a known url fills only its null columns |
| Merge.FirstNonNullIsNull | etl_disk_job.py:229-245 | a merged column is null iff every row of that url has it null |
| Merge.FirstNonNullAt | etl_disk_job.py:229-245 | the merged column is the value of the earliest row of that url where it is non-null |
| Merge.MergeTakesFirstNonNull | etl_disk_job.py:229-245 | the url has a record whose column is the first non-null value among its rows in emission order |
| Merge.MergeIsComplete | etl_disk_job.py:229-245 | no merged column is null while some row of that url has it non-null |
| Merge.NormalisePreservesUrls | etl_disk_job.py:227-228 | price and currency normalisation leaves the set of urls unchanged |
| Merge.OneRecordPerUrl | etl_disk_job.py:224-250 | the frame has exactly one record per distinct non-null url; no rows gives an empty frame |
| Merge.BaseColumnsPrevail | etl_disk_job.py:147-166 | a non-null title, text, domain or retrieved on a url's first row is what the merge keeps |
| Merge.PrecedenceExample | etl_disk_job.py:229-245 | a null base price, then "19.99" from the site rule, then "9.99" from microdata, merge to "19.99" |
| Bloom.BloomFilter.CheckBloomFilter | etl_disk_job.py:267-268 | answers whether the text was recorded before, and records it |
| EtlDiskJob.EtlDiskJob.constructor | etl_disk_job.py:33-44 | the job holds the bloom filter (or None) and whether it has a MinIO client |
| EtlDiskJob.EtlDiskJob.MaybeCheckBloom | etl_disk_job.py:131-135 | the result is always falsy (None with a filter, False without); with a filter the text is recorded |
| EtlDiskJob.EtlDiskJob.AppendItemRows | etl_disk_job.py:195-201 | the loop appends exactly the rows of the item contributions, in item order |
| EtlDiskJob.EtlDiskJob.AppendFirstItemRow | etl_disk_job.py:202-213 | appends the row of item 0's contribution, if any |
| EtlDiskJob.EtlDiskJob.AppendHeadRows | etl_disk_job.py:168-182 | appends the ebay row and then the site-rule row, each when its condition holds |
| EtlDiskJob.EtlDiskJob.AppendMetadataRows | etl_disk_job.py:194-222 | appends microdata, opengraph, dublincore and JSON-LD rows in that order |
| EtlDiskJob.EtlDiskJob.AddDocument | etl_disk_job.py:140-222 | one turn of the ad loop: a decoding exception is reported, an admitted document appends exactly its rows, a dropped one appends nothing, and the filter records the text exactly when the document passed the gate |
| EtlDiskJob.EtlDiskJob.AppendDocumentRows | etl_disk_job.py:167-222 | appends the base row and then exactly the document's partial rows, in source order |
| EtlDiskJob.EtlDiskJob.CreateDf | etl_disk_job.py:137-250 | the frame is the merge of the rows every admitted document emits in ad order; the filter records exactly the admitted texts; a decoding exception aborts the call |
| EtlDiskJob.EtlDiskJob.Extract | etl_disk_job.py:252-274 | hits is the number of records, count is the cache length, the cache and the filter's state are those of the record-by-record specification, and an exception ends the call |
| EtlDiskJob.ExtractOne | etl_disk_job.py:265-273 | one record of the extract loop: keep, pass or raise (TypeError, KeyError, AttributeError), with the filter's new state |
| EtlDiskJob.ExtractAll | etl_disk_job.py:259-273 | the extract loop as a function of the records and the filter's initial state; EtlDiskJob.EtlDiskJob.Extract is proved equal to it |
| EtlDiskJob.ExtractKeepsOrder | etl_disk_job.py:259-273 | count == len(cache) <= len(result); each cache entry comes from a strictly later record than the one before |
| EtlDiskJob.ExtractProbesPassRemoveText | etl_disk_job.py:267-268 | a `_source` text that `remove_text` rejects never reaches the bloom filter |
| EtlDiskJob.ExtractDeduplicates | etl_disk_job.py:265-270 | kept `_source` records have texts the filter had not seen before the call, and no two of them share a text |
| EtlDiskJob.ExtractErrorPersists | etl_disk_job.py:263-273 | once a record raises, later records change nothing |
| EtlDiskJob.AdmittedUrlIsEmitted | etl_disk_job.py:146-167 | a batch that did not raise emitted a row for the url of every admitted document |
| EtlDiskJob.AdmittedDocumentHasRecord | etl_disk_job.py:137-250 | every admitted document of a batch that did not raise has its record in the frame |

## Left out

- Spark setup, `get_files` and `run` (lines 35-109): orchestration, file discovery and MinIO I/O.
- `get_decompressed_file`: file I/O and zlib.
- `load_file_to_minio`, `save_image_if_applicable`, `perform_classification`: storage, images and model wrappers.
- `get_time`: float division and `arrow` formatting; it is the `formatTime` parameter.
- `urlparse`: the netloc is the `netloc` parameter.
- BeautifulSoup, extruct, mlscraper, chardet, the codec registry, the `create_metadata` mappers and the `ProcessData` helpers are parameters of which nothing is assumed.
- Exceptions raised by collaborators outside a `try` are not modelled: `get_parser`, BeautifulSoup, `remove_text`, `add_seller_information_to_metadata`, the mappers, the normalisers, `urlparse` (which raises ValueError on a malformed bracketed netloc) and `get_time` are total functions.
- The site rule and extruct return None where the source catches an exception, since the exception is only logged.
- `add_seller_information_to_metadata` is modelled as returning the fields it writes into the copy, laid over the base row.
- The bloom filter is a set of seen texts without false positives; the real filter may report a text it never saw. Its `save()` is left out.
- Merge.BuildFrame: `assert_types` is treated as leaving the frame unchanged. Column dtypes, NaN versus None, row order and the pandas index are not modelled.
- Missing keys in an ad (`content`, `content_type`, `url`, `fetch_time`) are not modelled; an ad always has them.
- Base64.Decode: non-zero bits after the last byte of a padded quantum are accepted and dropped, as the strict decoder does; whitespace is rejected.
- EtlDiskJob.EtlDiskJob.Extract: `log_processed` and the timestamp are left out; the method returns hits, count and the cache instead of logging them.
- Logging everywhere, and the `print` in the ASCII branch.
- test_process_data.py: its only live test is a Spark and filesystem run; it states nothing about this core.

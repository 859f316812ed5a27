# OVGME mod-repository updater, modelled in Dafny

The system is a storage-triggered function, `lambda_handler`. It runs when a
mod archive (a ZIP file) is uploaded to a bucket. It keeps the mod catalog
`repo.xml` up to date in these steps:

1. It reads `README.txt` and `VERSION.txt` from the archive.
2. It names the mod after the object key (the last path segment without its
   extension).
3. It builds a `<mod name="…" version="…" url="…">description</mod>` record.
   The description is the README with its line breaks escaped as
   `&#13;&#10;`. The URL is the download base URL followed by the
   percent-encoded key.
4. It splices the record into the catalog text. The mod's existing record is
   replaced; otherwise the record goes before `</mod_list>`.
5. It uploads the new catalog, mirrors it to `mods/repo.xml` and invalidates
   the CDN cache for both catalog paths and for the archive.

A non-ZIP object is ignored. A ZIP missing either text file is answered
with status 400.

The model is a set of Dafny functions with lemmas about them:

- `PyText` covers the Python `str` operations the code uses:
  - `find` and `find` with a start index;
  - `rfind` of one character;
  - `replace`;
  - slicing with possibly negative bounds.
- `PyPath` covers `os.path.basename` and `os.path.splitext`.
- `UrlQuote` covers `urllib.parse.quote` with `safe='/'`, including the
  UTF-8 step.
- `Catalog` covers the sanitisation, the mod name, the record and the
  update-or-create splice.
- `Handler` models one invocation as a function. Its inputs are what the
  storage returns. Its output is the status code, the body message and the
  ordered trace of storage and CDN calls.

The splice reproduces Python exactly, including a marker that is missing.
In that case `find` returns -1, and `s[:-1]` and `s[5:]` are read as Python
reads them. The lemmas about the splice's result hold on any catalog:
the record is there, nothing names the mod before it, and a later splice
for the same mod replaces it. The last two need a record that the splice
can find again: a mod name without `<`, and a record that holds `</mod>`
only at its end. Separate lemmas spell out the text produced when a
marker is missing.

## Model

| member | source | states |
|---|---|---|
| PyText.FindFrom | lambda_handler.py:57 | `find(sub, start)` is -1 exactly when `sub` does not occur at or after `start`. Otherwise it is the first index at or after `start` where `sub` occurs. |
| PyText.Find | lambda_handler.py:54 | `find(sub)` is -1 exactly when `sub` does not occur. Otherwise it is the first occurrence. |
| PyText.LastIndexOf | lambda_handler.py:40 | `rfind` of one character is -1 exactly when the character is absent. Otherwise it is an index holding the character with none after it. |
| PyText.SliceIndex | lambda_handler.py:58 | A slice bound in range is used as is. A bound above the length reads as the length. A negative bound counts from the end, and one below minus the length reads as 0. |
| PyText.SliceTo | lambda_handler.py:58 | `s[:k]` is the prefix of `s` whose length is the normalised bound. |
| PyText.SliceFrom | lambda_handler.py:62 | `s[k:]` is the suffix of `s` holding everything after the normalised bound. |
| PyText.SlicesSplit | lambda_handler.py:58 | `s[:k] + s[k:] == s` for every bound, so the splice loses no character and keeps their order. |
| PyText.Replace | lambda_handler.py:48 | Text without an occurrence of the pattern comes back unchanged. |
| PyText.ReplaceCharConcat | lambda_handler.py:48 | Replacing one character distributes over concatenation. |
| PyText.ReplaceRemovesChar | lambda_handler.py:48 | After a character is replaced by text without it, the character no longer occurs. |
| PyText.ReplaceKeepsCharOut | lambda_handler.py:48 | A replacement adds no character absent from both the text and the replacement. |
| PyPath.Basename | lambda_handler.py:40 | The result has no `/`. It is a suffix of the path. When shorter than the path, a `/` precedes it. |
| PyPath.SplitExt | lambda_handler.py:40 | Root and extension concatenate to the path. The extension is empty, or a `.` followed by text with no `.` and no `/`. |
| PyPath.SplitExtOfFileName | lambda_handler.py:40 | A file name loses an extension exactly when some non-dot character precedes one of its dots. This is the leading-dot rule. |
| UrlQuote.Quote | lambda_handler.py:51 | Quoted text holds only unreserved characters, `/`, `%` and upper-case hexadecimal digits. So it never holds `"`, `<` or `>`. |
| UrlQuote.QuoteRoundTrip | lambda_handler.py:76 | Percent-decoding the quoted key gives back exactly the key's UTF-8 bytes. |
| UrlQuote.QuoteOfSafeText | lambda_handler.py:51 | A key made only of letters, digits, `_.-~` and `/` is its own quoted form. |
| UrlQuote.QuoteConcat | lambda_handler.py:51 | Quoting a concatenation quotes each part. |
| UrlQuote.QuoteSafeKeyExample | lambda_handler.py:51 | `mods/Foo.zip` is quoted as itself. |
| UrlQuote.QuoteSpaceExample | lambda_handler.py:76 | A space is quoted as `%20`. |
| Catalog.Sanitize | lambda_handler.py:48 | The sanitised README contains no CR and no LF. |
| Catalog.SanitizeEscapesEachLineBreak | lambda_handler.py:48 | The three chained replacements equal the one-pass escaping `EscapeLineBreaks`. A CR LF pair, a lone CR and a lone LF each become exactly one `&#13;&#10;`. Every other character is kept in order. |
| Catalog.SanitizeKeepsPlainText | lambda_handler.py:48 | Text without line breaks is returned unchanged. |
| Catalog.SanitizeIdempotent | lambda_handler.py:48 | Sanitising a sanitised README changes nothing. |
| Catalog.SanitizeKeepsCharOut | lambda_handler.py:48 | Sanitising introduces no character that is absent from both the README and `&#13;&#10;`. In particular, it adds no `<`. |
| Catalog.ModName | lambda_handler.py:40 | The mod name has no `/` and is a prefix of the key's last segment. |
| Catalog.ModNameDropsLastExtension | lambda_handler.py:40 | The name differs from the last segment exactly when the segment has an extension. When it does, the name stops at the segment's last dot. |
| Catalog.ModNameOfKey | lambda_handler.py:40 | In any folder, `STEM.EXT` names the mod `STEM`, inner dots included, when the stem has a non-dot character. So `mods/Foo.zip` gives `Foo` and `a.b.zip` gives `a.b`. |
| Catalog.ModNameOfDotFile | lambda_handler.py:40 | In any folder, `.EXT` names the mod `.EXT`. |
| Catalog.OpenTag | lambda_handler.py:54 | The searched opening `<mod name="N"` is 12 characters longer than the name. It starts with `<` and ends with the closing quote. |
| Catalog.Record | lambda_handler.py:51 | The record starts with the mod's opening tag and ends with `</mod>`. |
| Catalog.RecordLayout | lambda_handler.py:51 | The record is `<mod name="N" version="V" url="BASE+quote(key)">`, then the escaped README, then `</mod>`. |
| Catalog.RecordClosesOnce | lambda_handler.py:51 | With no `<` in the name, version, base URL or README, `</mod>` occurs in the record only as its last six characters. |
| Catalog.RecordClosesOnceDespiteAngles | lambda_handler.py:48-51 | The same holds when the README does contain `<`, provided no `<` of the sanitised README is followed by `/`. A README such as `x < y` or `<YourName>` qualifies. |
| Catalog.OpenTagMatchesOnlyItsName | lambda_handler.py:54 | For names without `"`, one mod's opening tag is a prefix of another's tag (plus any text) only when the names are equal. |
| Catalog.PrefixNameExample | lambda_handler.py:54 | The search for `Foo` does not match at the start of the record for `FooBar`. |
| Catalog.UpdateOrCreate | lambda_handler.py:53-62 | The new catalog is at least as long as the record. |
| Catalog.SpliceHoldsRecord | lambda_handler.py:53-62 | Whatever the catalog holds, markers or not, the record occurs in the spliced catalog. |
| Catalog.UpdateReplacesRecordSpan | lambda_handler.py:54-58 | Update path: the text before the first opening tag is kept, and so is the text after the first `</mod>` that follows it. Exactly that span is replaced by the record. |
| Catalog.CreateInsertsBeforeListEnd | lambda_handler.py:59-62 | Create path: the result is `c[..i] + "  " + record + "\n" + c[i..]`, where `i` is the first `</mod_list>`. The length grows by `|record| + 3`. |
| Catalog.CreateWithoutListEnd | lambda_handler.py:61-62 | Assume the catalog holds neither the mod's opening tag nor `</mod_list>`, so `find` gives -1 for both. The record then lands before the catalog's last character. For an empty catalog, the result is `"  " + record + "\n"`. |
| Catalog.UpdateWithoutModClose | lambda_handler.py:57-58 | With no `</mod>` after the opening tag, the span's end reads as index 5. The text from index 5 on is kept after the record. |
| Catalog.UnclosedUpdatePlacesRecord | lambda_handler.py:57-58 | Assume the mod name holds no `<`, and the record opens with the mod's tag and holds `</mod>` only as its last six characters. Then, even with no `</mod>` after the mod's tag, the record lands where the old tag began, with no opening tag of the mod before it. |
| Catalog.SplicePlacesRecord | lambda_handler.py:53-62 | Assume the mod name holds no `<`, and the record opens with the mod's tag and holds `</mod>` only as its last six characters. Then, on any catalog, after the splice, the record stands at some position with no opening tag of the mod before it. |
| Catalog.LastWriteWins | lambda_handler.py:53-62 | Assume the mod name holds no `<`, and the first record opens with the mod's tag and holds `</mod>` only as its last six characters. Then, on any catalog, splicing a second record for the mod after the first gives what splicing the second alone gives. The later record replaces the earlier one in place, and nothing is duplicated. |
| Catalog.UpdateOrCreateIdempotent | lambda_handler.py:53-62 | Assume the mod name holds no `<`, and the record opens with the mod's tag and holds `</mod>` only as its last six characters. Then, on any catalog with or without its markers, splicing the same record twice gives the same catalog as splicing it once. It is the case of `LastWriteWins` where both records are equal. |
| Handler.NewCatalog | lambda_handler.py:40-62 | The catalog text written for an archive holds that archive's record. |
| Handler.Handle | lambda_handler.py:11-84 | Every run first downloads the object. The status is 400 exactly for a ZIP missing `README.txt` or `VERSION.txt`, with the missing-file message. Otherwise it is 200 with the success message. The trace is more than that first download exactly when the archive is processed. |
| Handler.ProcessedEffects | lambda_handler.py:22-76 | A processed archive produces six calls, the first being the download of the object. |
| Handler.NonZipIsIgnored | lambda_handler.py:22-25 | A non-ZIP object: status 200, and the download of the object is the only call. |
| Handler.MissingEntryIsRefused | lambda_handler.py:29-37 | A ZIP without README or VERSION: status 400, and no call after the object's download. In particular, there is no catalog upload. |
| Handler.ProcessedTrace | lambda_handler.py:39-84 | A processable ZIP gets status 200 after exactly six calls, in this order: download the object, download `repo.xml`, upload the new catalog as `repo.xml`, copy `repo.xml` to `mods/repo.xml`, invalidate `/repo.xml` and `/mods/repo.xml`, invalidate `/` + `quote(key)`. |
| Handler.ProcessedOrder | lambda_handler.py:44-76 | In order: `repo.xml` is downloaded, the new catalog is uploaded as `repo.xml`, then copied to `mods/repo.xml`. Invalidations follow: `/repo.xml` and `/mods/repo.xml` first, then the object's path. Nothing is written before index 2. |
| Handler.WritesOnlyWhenProcessable | lambda_handler.py:22-84 | Some call changes storage or the CDN exactly when the archive is a ZIP with both entries. |
| Handler.ProcessedBatches | lambda_handler.py:73-76 | The invalidation batches of a processed trace are exactly its calls at indices 4 and 5, the last two; so there are two. |
| Handler.InvalidationCount | lambda_handler.py:73-76 | A run issues two invalidation batches when it processes the archive, and none otherwise. |
| Handler.NewReleaseReplacesOld | lambda_handler.py:40-66 | Assume no `<` in the mod name, and the earlier release's record holds `</mod>` only as its last six characters (`RecordClosesOnce` and `RecordClosesOnceDespiteAngles` give sufficient conditions). Then processing a new README and VERSION for the same key, against the catalog written for the earlier release, writes the same catalog as processing them against the catalog before that release. |
| Handler.ReprocessingIsStable | lambda_handler.py:40-66 | Assume no `<` in the mod name, and the archive's record holds `</mod>` only as its last six characters. Then, on any catalog, processing the same archive against the catalog just written writes that catalog unchanged. |

## Left out

- Storage and CDN calls (`download_fileobj`, `upload_fileobj`, `copy_object`, `create_invalidation`) are not performed. They appear only as `Effect` values in the returned trace. What the downloads return is an input.
- The trace includes the two downloads. The code downloads the object before the ZIP check, and the catalog after reading the archive's entries. So even a non-ZIP or refused object causes one read; it causes no write.
- ZIP detection and reading (`zipfile`) become the `Archive` input: `NotZip`, or `Zip` with the README and VERSION text when present.
- The UTF-8 decoding of the README, VERSION and catalog is not modelled; the inputs are decoded text. A non-UTF-8 entry raises an exception, which the code does not catch. The UTF-8 encoding of the uploaded catalog is also not modelled.
- `json.dumps` of the body is not modelled. The body is the plain message.
- Logging with `print` is not modelled.
- Extracting the bucket and key from the event record is not modelled. They are parameters.
- The download base URL and the CDN distribution id are fixed in the code. Their values are not part of this model, so they are the `Config` parameter.
- Every storage and CDN call is assumed to succeed. In the code, only a missing archive entry (`KeyError`) is caught. A failing call raises and ends the run without a status code: for example, a first run with no `repo.xml` fails at its download. Writes already made stay in place; if the copy fails, the catalog upload stays and is not mirrored. This matters in practice: both invalidations use a fixed caller reference (lambda_handler.py:73 and :76). Under the CloudFront `CreateInvalidation` API, a reused reference with the same paths creates no new invalidation. A reused reference with different paths is refused with `InvalidationBatchAlreadyExists`. So after the first run, the catalog invalidation no longer refreshes the cache, and the mod invalidation raises for every new key, after the upload and the copy. The trace `ProcessedTrace` states is the calls the code makes, not their outcome.
- Two concurrent invocations can lose an update to `repo.xml` (read, modify, write). Concurrency is not modelled.
- Handler.ReprocessingIsStable: only proved when the mod name holds no `<` and the record holds `</mod>` only at its end. Sanitisation does not escape `<`. A README holding `</mod>` makes the next update cut the record short at that point, and the source then does not replace the record cleanly.
- Handler.NewReleaseReplacesOld: only proved under the same two premises on the earlier release, for the same reason.
- Catalog.OpenTagMatchesOnlyItsName: only proved for names without `"`. A key whose last segment holds a `"` can give tags that match other names.
- UrlQuote.QuoteRoundTrip: the decoder `PercentDecode` is strict. It rejects a stray `%` and non-ASCII characters. Python's lenient `unquote` is not modelled.
- Text is a sequence of Unicode scalar values. Lone surrogates, which Python strings can hold but UTF-8 cannot encode, are not represented.

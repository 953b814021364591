# manga-mochi page downloader: a Dafny model

This project models the scrape-and-name logic of `downloadSignedUrls.mjs` in the
manga-mochi downloader for MangaOne chapters. It covers three parts.

- **The payload extractor.** This is the text-processing half of `fetchAndExtract`:
  - The global URL regular expression
    `https://app.manga-one.com/[^"'\s\x00-\x1F]*?/manga_page_low/<chapter>/[^"'\s\x00-\x1F]*`
    is written out as an explicit scanner. `FindMarker` is the lazy middle part, `UrlCharRunEnd` is the greedy suffix, and `MatchSpans` is the `g`-flag `match` loop.
  - The key search `[a-f0-9]{64}`.
  - The `replace` that removes the key's first occurrence.
  - The IV search `[a-f0-9]{32}` in what remains.
  - The three error exits.
- **Secret decoding.** `Buffer.from(hex, "hex")` turns the 64- and 32-digit
  secrets into the 32-byte key and the 16-byte IV.
- **`downloadEncryptedPages`.**
  - The three-way choice of the directory segments.
  - The directory creation.
  - The page loop. It names page `index` as `page_` + `(index + 1).toString().padStart(3, "0")` + `.webp`, hands the URL and the file to the fetch-decrypt-write step, and cools down after every page. The effects are recorded as a trace of events. Whether the directory can be created and whether a page step fails come from an `Env` parameter.

Modules: `Wrappers` (Option/Result), `Hex`, `Extractor` and `ExtractorProperties`
(extractor.dfy), `PageNames` (page_names.dfy), `Downloader` and
`DownloaderProperties` (downloader.dfy).

## Model

| member | source | states |
|---|---|---|
| `Hex.HexDecode` | downloadSignedUrls.mjs:111-112 | `Buffer.from(s, "hex")`, which reads two digits per byte: the contract bounds the result at half as many bytes as there are characters |
| `Hex.HexDecodeStopsAtInvalidPair` | downloadSignedUrls.mjs:111-112 | decoding stops without error at the first pair that is not two hex digits: what follows a well-formed prefix from there on is ignored |
| `Hex.HexDecodeLength` | downloadSignedUrls.mjs:111-112 | lower-case hex of even length decodes completely, one byte per two digits |
| `Hex.HexDecodeEncode` | downloadSignedUrls.mjs:111-112 | decoding the lower-case hex spelling of any bytes gives those bytes back |
| `Hex.HexEncodeDecode` | downloadSignedUrls.mjs:111-112 | lower-case hex of even length is exactly the spelling of its decoded bytes, so decoding loses nothing |
| `Extractor.FindMarker` | downloadSignedUrls.mjs:62 | the lazy `[^…]*?`: the first position reachable over wildcard characters where `/manga_page_low/<chapter>/` starts; none if the wildcard run ends before any such position |
| `Extractor.UrlCharRunEnd` | downloadSignedUrls.mjs:62 | the greedy `[^…]*`: every character up to the returned end is in the wildcard class, and the end is the text's end or an excluded character |
| `Extractor.MatchAt` | downloadSignedUrls.mjs:61-64 | an attempt at position p fails exactly when the host prefix is absent or no marker is reachable after it; otherwise it reports the first reachable marker and the maximal suffix end |
| `Extractor.ExtractUrls` | downloadSignedUrls.mjs:65 | the global `match` on the body, or the empty list when nothing matches: one URL per match, each the text of the body found at its match's span |
| `Extractor.MatchSpans` | downloadSignedUrls.mjs:61-65 | the global `match`: every span is a match starting at or after p, the spans are pairwise non-overlapping in left-to-right order, and the pattern matches at no uncovered position |
| `Extractor.FindHexWindow` | downloadSignedUrls.mjs:68 | a non-global `match` of `[a-f0-9]{n}`: the result is a hex window with no window to its left, or none when no window exists |
| `Extractor.IndexOf` | downloadSignedUrls.mjs:74 | the leftmost occurrence of a string, or none when it occurs nowhere |
| `Extractor.ReplaceFirst` | downloadSignedUrls.mjs:74 | `replace` with a string pattern: only the first occurrence is replaced; the text before it and after it is kept; a text without an occurrence is unchanged |
| `Extractor.ExtractSecrets` | downloadSignedUrls.mjs:68-81 | fails with KeyNotFound exactly when the body has no 64-character hex window, and never with the fetch error; on success the key is 64 and the IV 32 lower-case hex characters |
| `Extractor.Extract` | downloadSignedUrls.mjs:58-81 | succeeds exactly when both secrets are found, with the same error otherwise; on success it returns the scanned URL list, which may be empty, beside the secrets |
| `Extractor.FetchAndExtract` | downloadSignedUrls.mjs:53-81 | a response that is not ok fails with "Cannot fetch from MangaOne" and nothing else does; otherwise it is the extraction of the body |
| `ExtractorProperties.UrlCharClass` | downloadSignedUrls.mjs:62 | the class `[^"'\s\x00-\x1F]` (`IsUrlChar`, with `IsJsWhitespace` for `\s`) excludes both quotes, the controls below U+0020 and whitespace including U+00A0, U+2028 and U+3000, and admits every other printable ASCII character |
| `ExtractorProperties.ErrorMessages` | downloadSignedUrls.mjs:55-77 | `ExtractError.Message` gives the three messages of lines 55, 70 and 77, and they are pairwise distinct |
| `ExtractorProperties.UrlsAreOrderedSpans` | downloadSignedUrls.mjs:61-65 | the URLs are the texts of non-overlapping spans of the body in order of appearance, and each ends at the body's end or just before an excluded character |
| `ExtractorProperties.UrlShape` | downloadSignedUrls.mjs:61-64 | every URL starts with `https://app.manga-one.com/` and holds `/manga_page_low/<chapter>/` after it; it has no quote, whitespace or control character when the chapter id has none |
| `ExtractorProperties.NoUrlsIffNoMatch` | downloadSignedUrls.mjs:65 | the URL list is empty exactly when the pattern matches nowhere, and that is not an error |
| `ExtractorProperties.LeftmostWindowBoundary` | downloadSignedUrls.mjs:68 | the character just before the leftmost hex window is not a hex digit |
| `ExtractorProperties.KeyRemoval` | downloadSignedUrls.mjs:74 | the first occurrence of the key string is the matched window itself, so `replace` cuts exactly that span and the text becomes 64 characters shorter |
| `ExtractorProperties.KeyNotFoundFirst` | downloadSignedUrls.mjs:68-72 | without a 64-character hex window, extraction fails with "Could not find the Encryption Key in response!" whatever else the body holds |
| `ExtractorProperties.IvSearch` | downloadSignedUrls.mjs:74-79 | once the key is found, extraction fails with IvNotFound exactly when the key-less text has no 32-character window; otherwise the IV is that text's leftmost such window |
| `ExtractorProperties.WindowBesideCut` | downloadSignedUrls.mjs:74-75 | a hex window of the key-less text lies wholly before or wholly after the removed key span, and reads the same as the original text there |
| `ExtractorProperties.IvOutsideKey` | downloadSignedUrls.mjs:74-79 | the IV occurs in the original body wholly before or wholly after the key's span, so it never takes characters of the key |
| `ExtractorProperties.NaiveIvSearchHitsKey` | downloadSignedUrls.mjs:74-75 | when the IV lies after the key, searching the untouched body would return the key's first 32 characters instead |
| `ExtractorProperties.SecretSizes` | downloadSignedUrls.mjs:111-112 | extracted secrets decode to a 32-byte key and a 16-byte IV, and spell those bytes back exactly |
| `PageNames.DecimalString` | downloadSignedUrls.mjs:149 | `toString()` of a count is a non-empty run of decimal digits with no leading zero |
| `PageNames.PadStart` | downloadSignedUrls.mjs:149 | `padStart` keeps the string as a suffix and fills only on the left, up to a minimum width; it never truncates |
| `PageNames.DecimalRoundTrip` | downloadSignedUrls.mjs:149 | the digits `toString` writes denote the number written |
| `PageNames.PageFileNameNumber` | downloadSignedUrls.mjs:149 | `PageFileName(index)`, the template of line 149, is `page_`, at least three digits denoting index + 1 that end with its full decimal numeral, and `.webp` |
| `PageNames.PageFileNamesDistinct` | downloadSignedUrls.mjs:149 | different positions get different file names |
| `PageNames.PageFileNameExamples` | downloadSignedUrls.mjs:149 | positions 0, 11 and 999 are named `page_001.webp`, `page_012.webp` and `page_1000.webp` |
| `Downloader.DestinationSegments` | downloadSignedUrls.mjs:136-143 | no `dest` gives `[moduleDir, "temp"]`; an absolute one gives `[path]`; a relative one gives `[moduleDir] + paths` |
| `Downloader.PageFile` | downloadSignedUrls.mjs:149 | the page file is the `path.join` of the already-joined output directory with a name, so it lies directly in that directory |
| `Downloader.ResolveDestination` | downloadSignedUrls.mjs:136-144 | the reassigned `pathToJoin` joined: the directory of the segment table |
| `Downloader.DownloadPages` | downloadSignedUrls.mjs:146-153 | the loop succeeds exactly when every page step succeeds, and the trace is then step and cooldown for every page in order; otherwise it stops at the first failing index with that step's cause, and the trace ends with that step |
| `Downloader.DownloadEncryptedPages` | downloadSignedUrls.mjs:135-153 | the directory is created first; if that fails the run stops with nothing else emitted; otherwise the run is the page loop's outcome and trace inside that directory |
| `DownloaderProperties.CompletedPagesLayout` | downloadSignedUrls.mjs:147-153 | after n completed pages the trace holds, for each i < n in order, the step for `urls[i]` and file i, then a 500 ms cooldown |
| `DownloaderProperties.FailureStopsLoop` | downloadSignedUrls.mjs:147-150 | after a failure at page f, the trace holds the step of no later page |
| `DownloaderProperties.PageFilesDistinctInDir` | downloadSignedUrls.mjs:144-149 | every page file is the created directory joined with that page's name, and no two pages share a file |
| `DownloaderProperties.StepCarriesAesSizes` | downloadSignedUrls.mjs:111-112 | a step made from extracted secrets carries a 32-byte key and a 16-byte IV |
| `DownloaderProperties.DestinationExamples` | downloadSignedUrls.mjs:136-143 | relative `["out", "ch1"]` resolves under the module directory; the default is `temp` there; an absolute path stands alone |

## Left out

- The HTTP requests are network I/O and are not modelled. This covers headers, cookies, the POST to the MangaOne API and the GET of each page (downloadSignedUrls.mjs:30-51, 101-105). Only the `ok` flag of the first response and a per-page failure cause (`FetchFailed`) remain.
- UTF-8 decoding of the response body (`TextDecoder`, downloadSignedUrls.mjs:58-60) is left out. The model takes the decoded body as a string of Unicode scalar values. JavaScript strings are UTF-16, so a lone surrogate in the body cannot be represented.
- AES-256-CBC decryption (`crypto.createDecipheriv`, downloadSignedUrls.mjs:117-118) and `fs.writeFileSync` (line 121) are left out. They are a foreign crypto call and file I/O. The whole of `decryptMangaPage` is one abstract `DecryptPage` event whose outcome comes from `Env.pageStep`.
- `fs.mkdirSync` (line 145) is an event whose success comes from `Env.makeDirectoryOk`.
- `path.join` is left uninterpreted and does no separator or `..` normalisation. Its two calls are two constructors: `Join` over the destination segments (line 144), and `JoinFile` of that directory with the page name (line 149). The model therefore does not equate `path.join(path.join(...s), n)` with `path.join(...s, n)`.
- The 500 ms `setTimeout` (line 152) is kept only as a `Cooldown(500)` event. No time passes in the model.
- The `console.log` calls are not modelled, because they have no effect on behaviour.
- The chapter id is matched literally. The source interpolates it unescaped into the regular expression (line 62). That differs only for ids containing regex metacharacters, and main.mjs passes numeric ids.
- `\s` is the fixed set of ECMAScript WhiteSpace and LineTerminator code points. It is not tied to a particular Unicode version's Zs category.
- `dest` is one of three cases. The source sends any `dest` whose `type` is not `"absolute"` down the relative branch, so `Relative` stands for all of those.
- `PageFailed` records the index of the failing page. The source's exception carries no index; the index is there so the contract can name the failing page.
- main.mjs is glue and is not part of this model. It loads `.env`, hardcodes the ids and an output path, and calls the two exports.

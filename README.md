# GUGiK client: download file names and WMS layer lists

This project models the pure logic inside `GugikHttpClient`, the HTTP client the
service uses to talk to the Polish national geodetic service (GUGiK):

- **`_generate_filename(url)`**: the local file name a download is saved under.
  The base name is the URL's last `/`-segment. When that segment holds a query
  (`?`), the base name is instead the text after its last `?`, with every `=`
  replaced by `_` and `.zip` appended. A chain of case-sensitive keyword tests
  on the whole URL then picks a dataset prefix. The keywords are `Budynki3D`
  (3D buildings, with `LOD1`/`LOD2` and a 9-segment rule), `PRG`, `bdot10k`,
  `Archiwum` with `bdot10k`, `bdoo`, `ZestawieniaZbiorczeEGiB` and `osnowa`.
  Some prefixes embed path segment 4, 5 or 6. When the URL has too few segments
  for that index, Python raises `IndexError`. The model returns this as the
  result `IndexError(index, length)`.
- **The end of `get_wms_layers`**: the candidate layer `Name` elements found in
  a GetCapabilities document are reduced to the names that are present and
  non-empty. `list(dict.fromkeys(..))` then removes duplicates while keeping
  first-occurrence order.

`py_builtins.dfy` (module `PyBuiltins`) gives the Python built-ins this logic
depends on, with Python's semantics:
- `str.split` on one character keeps empty pieces.
- `xs[-1]` takes the last element.
- `t in s` is a substring test.
- `str.replace` swaps one character for another.
- `list(dict.fromkeys(xs))` removes duplicates.

Each built-in is proved against an independent characterisation. Split and join
are mutual inverses. `Contains` means "occurs at some index". The last split
piece is the text after the last separator. `Dedup` keeps first-occurrence order.

`gugik_client.dfy` (module `GugikClient`) models the two operations. The
elif chain of the source is written as `DatasetOf` followed by a `match`. It
runs the same tests in the same order. Lemmas then state the outcome branch by
branch, and prove that the chain only ever prepends to the base name.

`_generate_filename` has no loop and changes no state. `get_wms_layers`
collects its names with a list comprehension (line 123) or with a `for` loop
that appends to a local list `layers` (lines 125-128). That list is local and
is only read afterwards, so the model writes the collection as the recursive
function `PresentNames`, which handles one candidate at a time in the same
order. The model is functional throughout.

## Model

| member | source | states |
|---|---|---|
| `PyBuiltins.Split` | app/core/gugik_client.py:152 | `url.split('/')`: one more piece than separators (`Count + 1`, so never empty and `[-1]` is always defined), and no piece contains the separator |
| `PyBuiltins.JoinSplit` | app/core/gugik_client.py:152 | joining the split pieces with the separator gives back the original string (no character is lost) |
| `PyBuiltins.SplitJoin` | app/core/gugik_client.py:152 | splitting a join of separator-free pieces gives back exactly those pieces, empty ones included, so `Split` is the unique such decomposition |
| `PyBuiltins.SplitUrlExample` | app/core/gugik_client.py:152 | `"https://a/b".split('/')` is `["https:", "", "a", "b"]` (empty segment kept) |
| `PyBuiltins.LastPieceIsFinalComponent` | app/core/gugik_client.py:152-154 | `s.split(sep)[-1]` is a suffix of `s` free of `sep` that is either the whole of `s` or directly preceded by `sep`, i.e. the text after the last separator |
| `PyBuiltins.Contains` | app/core/gugik_client.py:156-173 | Python's substring test `t in s`, written as a recursive predicate; its meaning is stated by `ContainsIff` |
| `PyBuiltins.ContainsIff` | app/core/gugik_client.py:156-173 | the keyword test `t in s` holds exactly when `t` occurs in `s` at some index (case-sensitive, contiguous) |
| `PyBuiltins.ReplaceChar` | app/core/gugik_client.py:154 | `s.replace('=', '_')`: same length, each `=` becomes `_`, every other character stays where it was |
| `PyBuiltins.ReplaceCharRemoves` | app/core/gugik_client.py:154 | after the replacement no `=` remains and no character appears that was not in the input or `_` |
| `PyBuiltins.Dedup` | app/core/gugik_client.py:130 | `list(dict.fromkeys(xs))` has no duplicates and holds exactly the values of `xs` |
| `PyBuiltins.DedupFirstOccurrenceOrder` | app/core/gugik_client.py:130 | the de-duplicated list orders values by the index of their first occurrence in the input |
| `GugikClient.LastSegment` | app/core/gugik_client.py:152 | `url.split('/')[-1]`; `LastPieceIsFinalComponent` and `PlainBaseName` state that it is the `/`-free text after the URL's last `/` |
| `GugikClient.BaseName` | app/core/gugik_client.py:152-154 | the name before any prefix never contains `/` |
| `GugikClient.QueryFileName` | app/core/gugik_client.py:153-154 | the name built from a query segment holds no `=` and no `?`, ends with `.zip`, and holds a `/` only if the segment did |
| `GugikClient.PlainBaseName` | app/core/gugik_client.py:152-153 | when the last segment has no `?`, the base name is the text after the URL's last `/` (a `/`-free suffix of the URL, either the whole URL or directly preceded by `/`) |
| `GugikClient.QueryBaseName` | app/core/gugik_client.py:153-154 | when the last segment has a `?`, the query text is the part after its LAST `?` (a proper, `?`-free suffix directly preceded by `?`), and the base name is that text with `=` made `_` plus `.zip` |
| `GugikClient.GenerateFilename` | app/core/gugik_client.py:150-176 | `_generate_filename`: the dataset prefix chosen by `DatasetOf`, then the base name; `IndexError(i, n)` where Python raises. It has no contract of its own: `GenerateFilenameShape`, `UnprefixedIff`, `IndexErrorIff`, `QueryNameEndsZip` and the per-branch lemmas (`Buildings3DName`, `PrgName`, `Bdot10kNames`, `YearPrefixes`, `OsnowaName`) state what it returns |
| `GugikClient.GenerateFilenameShape` | app/core/gugik_client.py:150-176 | every successful name ends with the base name (branches only prepend) and contains no `/`; an `IndexError` names an index at or past the number of segments |
| `GugikClient.QueryNameEndsZip` | app/core/gugik_client.py:153-176 | when the last segment holds `?`, every successful file name ends with `.zip`, whichever prefix the dataset adds |
| `GugikClient.PlainUrlKeepsLastSegment` | app/core/gugik_client.py:152-176 | without `?` in the last segment and without any dataset keyword, the file name is the last segment unchanged |
| `GugikClient.UnprefixedIff` | app/core/gugik_client.py:156-176 | the name equals the bare base name if and only if no branch prefixes it (no keyword matched, or `Budynki3D` with neither LOD marker and not exactly 9 segments) |
| `GugikClient.DatasetOf` | app/core/gugik_client.py:156-173 | the keyword tests of the elif chain, in source order, each one only reached when the earlier ones failed; its outcomes are stated by `Buildings3DName`, `PrgName`, `Bdot10kNames`, `YearPrefixes`, `OsnowaName` and `UnprefixedIff` |
| `GugikClient.LodTag` | app/core/gugik_client.py:157-160 | the LOD prefix of a 3D-buildings name, `LOD1` tested before `LOD2`; `Lod1BeforeLod2` states the result when both markers are present |
| `GugikClient.Buildings3DName` | app/core/gugik_client.py:156-162 | any URL containing `Budynki3D` succeeds: with exactly 9 segments the name is segment 6 + `_` + LOD prefix + base, otherwise LOD prefix + base, whatever PRG/bdot10k/bdoo/EGiB/osnowa keywords it also holds |
| `GugikClient.Lod1BeforeLod2` | app/core/gugik_client.py:157-160 | a `Budynki3D` URL with both `LOD1` and `LOD2` ends with `Budynki_3D_LOD1_` + base and not with `Budynki_3D_LOD2_` + base |
| `GugikClient.NineSegmentsWithoutLod` | app/core/gugik_client.py:161-162 | a 9-segment `Budynki3D` URL without LOD markers still gets segment 6 and `_` in front of the base name |
| `GugikClient.PrgName` | app/core/gugik_client.py:163-164 | any URL with `PRG` but without `Budynki3D` gets `PRG_` + base, whatever bdot10k/Archiwum/bdoo/EGiB/osnowa keywords it also holds |
| `GugikClient.Bdot10kNames` | app/core/gugik_client.py:165-168 | after the Budynki3D and PRG tests: `bdot10k` alone gives `bdot10k_` + base; with `Archiwum` it gives `archiwalne_bdot10k_` + segment 5 + `_` + base, or `IndexError(5)` with at most 5 segments; `Archiwum` without `bdot10k` picks neither bdot10k branch |
| `GugikClient.YearPrefixes` | app/core/gugik_client.py:169-172 | for a URL without `Budynki3D`, `PRG` and `bdot10k`: `bdoo` gives `bdoo_rok` + segment 4 + `_` + base; without `bdoo`, `ZestawieniaZbiorczeEGiB` gives `ZestawieniaZbiorczeEGiB_rok` + segment 4 + `_` + base; either fails with `IndexError(4)` at 4 segments or fewer |
| `GugikClient.OsnowaName` | app/core/gugik_client.py:173-174 | a URL with `osnowa` and none of the earlier keywords (`Budynki3D`, `PRG`, `bdot10k`, `bdoo`, `ZestawieniaZbiorczeEGiB`) gets `podstawowa_osnowa_` + base |
| `GugikClient.IndexErrorIff` | app/core/gugik_client.py:161-172 | the function fails exactly when the archival branch has at most 5 segments or the bdoo/EGiB branch at most 4; the 3D-buildings branch never fails |
| `GugikClient.PresentNames` | app/core/gugik_client.py:119-128 | the collected names are exactly the non-empty texts of the present `Name` elements, and there are no more of them than candidates |
| `GugikClient.PresentNamesAppend` | app/core/gugik_client.py:123-128 | collecting works candidate by candidate: it distributes over concatenation, so order and repeats are kept |
| `GugikClient.PresentNamesKeepOrder` | app/core/gugik_client.py:123-128 | of two collected names, the one collected first also occurs first among the candidates |
| `GugikClient.WmsLayerNames` | app/core/gugik_client.py:119-130 | the returned layer list has no duplicates and contains exactly the distinct non-empty names present |
| `GugikClient.WmsLayerNamesOrder` | app/core/gugik_client.py:119-130 | the returned layers follow the first-occurrence order of the candidates |
| `GugikClient.WmsLayers` | app/core/gugik_client.py:103-130 | a failed request or empty body gives no layers; otherwise the layers are exactly the distinct non-empty names extracted, without duplicates |

## Left out

- `get_request` (app/core/gugik_client.py:36-54): network I/O, `time.sleep` and an internet probe. Its only logic is a retry counter around a remote call.
- `download_file` (app/core/gugik_client.py:56-98): streaming HTTP, writing and deleting files, progress and cancel callbacks, and I/O error handling. Only the file-name step it calls (`_generate_filename`) is modelled.
- `check_connection` and `_is_internet_connected` (app/core/gugik_client.py:132-148): network probes only.
- The XML side of `get_wms_layers` (app/core/gugik_client.py:107-128): lxml parsing, namespace lookup and XPath/`findall` are foreign library calls. The model starts from the candidate `Name` elements, given as `Option<string>` values, and `WmsLayers` takes the extraction as a function parameter.
- WmsLayers: the extraction it is given is total, so the model always returns a list. The source can raise instead: with `recover=True`, lxml can give no root for a body that is not XML, and `root.findall` at line 125 then raises `AttributeError`. That failure path is not modelled.
- `GenerateFilename` itself carries no `ensures`: its properties are stated by the lemmas beside it (`GenerateFilenameShape`, `UnprefixedIff`, `IndexErrorIff` and the per-branch lemmas).
- `_cleanup_file`, logging, the session and SSL configuration, and the warning suppression: operating-system and library plumbing.
- Python strings are sequences of code points. Dafny's `char` is a Unicode scalar value, so the two agree for every string without lone surrogates (U+D800 to U+DFFF), which a Python `str` can hold and a Dafny `char` cannot. No normalisation or case folding happens in the source either.

/**
 * The pure logic of `GugikHttpClient`: the local file name a download URL
 * is saved under (`_generate_filename`) and the clean-up of the layer
 * names read from a WMS GetCapabilities document (end of `get_wms_layers`).
 */
module GugikClient {
  import opened PyBuiltins

  // ---------------------------------------------------------------------------
  // File name of a download
  // ---------------------------------------------------------------------------

  /**
   * Outcome of `_generate_filename`: a file name, or the `IndexError` that
   * Python raises when `url.split('/')[index]` has only `length` segments.
   */
  datatype FileNameResult = Ok(name: string) | IndexError(index: nat, length: nat)

  /** The dataset family a URL is recognised as, i.e. which branch of the elif chain fires. */
  datatype Dataset =
    | Buildings3D       // 'Budynki3D'
    | Prg               // 'PRG': administrative boundaries
    | Bdot10k           // 'bdot10k' without 'Archiwum'
    | ArchivalBdot10k   // 'Archiwum' and 'bdot10k'
    | Bdoo              // 'bdoo'
    | EgibSummary       // 'ZestawieniaZbiorczeEGiB'
    | GeodeticControl   // 'osnowa'
    | Unclassified      // none of the above: no prefix

  /** The keyword tests on the whole URL, in the order the source tries them. */
  function DatasetOf(url: string): Dataset
  {
    if Contains(url, "Budynki3D") then Buildings3D
    else if Contains(url, "PRG") then Prg
    else if Contains(url, "bdot10k") && !Contains(url, "Archiwum") then Bdot10k
    else if Contains(url, "Archiwum") && Contains(url, "bdot10k") then ArchivalBdot10k
    else if Contains(url, "bdoo") then Bdoo
    else if Contains(url, "ZestawieniaZbiorczeEGiB") then EgibSummary
    else if Contains(url, "osnowa") then GeodeticControl
    else Unclassified
  }

  /** `url.split('/')`, the path segments the prefixes index into. */
  function Segments(url: string): seq<string>
  {
    Split(url, '/')
  }

  /**
   * `url.split('/')[-1]`: the `/`-free text after the URL's last `/`, or the
   * whole URL when it has no `/`.
   */
  function LastSegment(url: string): string
  {
    Last(Segments(url))
  }

  /** Taking the query part and replacing `=` adds no `/`. */
  lemma QueryKeepsSlashFree(segment: string)
    ensures '/' !in segment ==> '/' !in ReplaceChar(Last(Split(segment, '?')), '=', '_')
  {
    if '/' !in segment {
      var query := Last(Split(segment, '?'));
      LastPieceIsFinalComponent(segment, '?');
      SuffixLacks(segment, query, '/');
      ReplaceCharRemoves(query, '=', '_', '/');
    }
  }

  /**
   * The name a last segment holding a query becomes: the text after its
   * last `?`, each `=` made `_`, plus `.zip`. It holds neither `=` nor `?`,
   * ends with `.zip`, and gains no `/`.
   */
  function QueryFileName(segment: string): (name: string)
    ensures '=' !in name && '?' !in name
    ensures EndsWith(name, ".zip")
    ensures '/' !in segment ==> '/' !in name
  {
    QueryNameParts(segment);
    ZipAppended(ReplaceChar(Last(Split(segment, '?')), '=', '_'));
    ReplaceChar(Last(Split(segment, '?')), '=', '_') + ".zip"
  }

  /** The query text after `=` replacement holds neither `=` nor `?`, and no `/` the segment lacked. */
  lemma QueryNameParts(segment: string)
    ensures var replaced := ReplaceChar(Last(Split(segment, '?')), '=', '_');
      && '=' !in replaced && '?' !in replaced
      && ('/' !in segment ==> '/' !in replaced)
  {
    var query := Last(Split(segment, '?'));
    LastPieceIsFinalComponent(segment, '?');
    ReplaceCharRemoves(query, '=', '_', '?');
    QueryKeepsSlashFree(segment);
  }

  /** Appending `.zip` gives a name ending in `.zip` that gains none of `=`, `?` and `/`. */
  lemma ZipAppended(name: string)
    ensures EndsWith(name + ".zip", ".zip")
    ensures forall c :: c in name + ".zip" && c !in name ==> c in ".zip"
  {
    EndsWithAfterPrefix(name, ".zip");
    forall c | c in name + ".zip" && c !in name
      ensures c in ".zip"
    {
      var i :| 0 <= i < |name + ".zip"| && (name + ".zip")[i] == c;
      assert i >= |name| && (name + ".zip")[i] == ".zip"[i - |name|];
    }
  }

  /**
   * The name before any dataset prefix: the last segment, or its query
   * form when it holds a `?`. It never holds a `/`.
   */
  function BaseName(url: string): (base: string)
    ensures '/' !in base
  {
    var last := LastSegment(url);
    if '?' in last then QueryFileName(last) else last
  }

  /** The level-of-detail prefix of a 3D buildings URL; `LOD1` is tested before `LOD2`. */
  function LodTag(url: string): string
  {
    if Contains(url, "LOD1") then "Budynki_3D_LOD1_"
    else if Contains(url, "LOD2") then "Budynki_3D_LOD2_"
    else ""
  }

  /** Prepending a `/`-free prefix keeps a name `/`-free and ending with the old name. */
  lemma Prepended(prefix: string, name: string)
    requires '/' !in prefix && '/' !in name
    ensures EndsWith(prefix + name, name) && '/' !in prefix + name
  {
    EndsWithAfterPrefix(prefix, name);
  }

  /** `_generate_filename(url)`: the base name behind the prefix of the first matching branch. */
  function GenerateFilename(url: string): FileNameResult
  {
    var segments := Segments(url);
    var fileName := BaseName(url);
    match DatasetOf(url)
    case Buildings3D =>
      var named := LodTag(url) + fileName;
      if |segments| == 9 then Ok(segments[6] + "_" + named) else Ok(named)
    case Prg => Ok("PRG_" + fileName)
    case Bdot10k => Ok("bdot10k_" + fileName)
    case ArchivalBdot10k =>
      if 5 < |segments| then Ok("archiwalne_bdot10k_" + segments[5] + "_" + fileName)
      else IndexError(5, |segments|)
    case Bdoo =>
      if 4 < |segments| then Ok("bdoo_" + "rok" + segments[4] + "_" + fileName)
      else IndexError(4, |segments|)
    case EgibSummary =>
      if 4 < |segments| then Ok("ZestawieniaZbiorczeEGiB_" + "rok" + segments[4] + "_" + fileName)
      else IndexError(4, |segments|)
    case GeodeticControl => Ok("podstawowa_osnowa_" + fileName)
    case Unclassified => Ok(fileName)
  }

  /**
   * Every branch only prepends to the base name, no piece of the name holds
   * a `/` (so the name stays inside the destination folder), and an
   * `IndexError` names an index that really is past the end of the
   * segment list.
   */
  lemma GenerateFilenameShape(url: string)
    ensures var r := GenerateFilename(url);
      && (r.Ok? ==> EndsWith(r.name, BaseName(url)) && '/' !in r.name)
      && (r.IndexError? ==> r.length == |Segments(url)| <= r.index)
  {
    var segments, base := Segments(url), BaseName(url);
    match DatasetOf(url)
    case Buildings3D =>
      Prepended(LodTag(url), base);
      if |segments| == 9 {
        Prepended(segments[6] + "_", LodTag(url) + base);
      }
    case Prg =>
      Prepended("PRG_", base);
    case Bdot10k =>
      Prepended("bdot10k_", base);
    case ArchivalBdot10k =>
      if 5 < |segments| {
        Prepended("archiwalne_bdot10k_" + segments[5] + "_", base);
      }
    case Bdoo =>
      if 4 < |segments| {
        Prepended("bdoo_" + "rok" + segments[4] + "_", base);
      }
    case EgibSummary =>
      if 4 < |segments| {
        Prepended("ZestawieniaZbiorczeEGiB_" + "rok" + segments[4] + "_", base);
      }
    case GeodeticControl =>
      Prepended("podstawowa_osnowa_", base);
    case Unclassified =>
  }

  // ---------------------------------------------------------------------------
  // Properties of the file name
  // ---------------------------------------------------------------------------

  /**
   * Without a `?` in the last segment, the base name is the text after the
   * URL's last `/` (the whole URL when it has none).
   */
  lemma PlainBaseName(url: string)
    requires '?' !in LastSegment(url)
    ensures EndsWith(url, BaseName(url)) && '/' !in BaseName(url)
    ensures |BaseName(url)| == |url| || url[|url| - |BaseName(url)| - 1] == '/'
  {
    LastPieceIsFinalComponent(url, '/');
  }

  /**
   * With a `?` in the last segment, the base name is the query text after
   * the LAST `?` of that segment, every `=` turned into `_`, plus `.zip`.
   */
  lemma QueryBaseName(url: string)
    requires '?' in LastSegment(url)
    ensures var last := LastSegment(url);
      var query := Last(Split(last, '?'));
      && EndsWith(last, query) && |query| < |last|
      && last[|last| - |query| - 1] == '?' && '?' !in query
      && BaseName(url) == ReplaceChar(query, '=', '_') + ".zip"
  {
    var last := LastSegment(url);
    var query := Last(Split(last, '?'));
    LastPieceIsFinalComponent(last, '?');
    SameLengthSuffix(last, query);
  }

  /** A suffix as long as the string is the string itself. */
  lemma SameLengthSuffix(s: string, t: string)
    requires EndsWith(s, t)
    ensures |t| == |s| ==> t == s
  {
  }

  /**
   * The URL's last segment comes back unchanged when it has no `?` and the
   * URL carries none of the dataset keywords. This is one direction only:
   * `UnprefixedIff` gives the exact condition, which also admits some
   * `Budynki3D` URLs.
   */
  lemma PlainUrlKeepsLastSegment(url: string)
    requires '?' !in LastSegment(url)
    requires !Contains(url, "Budynki3D") && !Contains(url, "PRG") && !Contains(url, "bdot10k")
    requires !Contains(url, "bdoo") && !Contains(url, "ZestawieniaZbiorczeEGiB") && !Contains(url, "osnowa")
    ensures GenerateFilename(url) == Ok(LastSegment(url))
  {
  }

  /** The URL gets no dataset prefix at all. */
  predicate Unprefixed(url: string)
  {
    || DatasetOf(url) == Unclassified
    || (&& DatasetOf(url) == Buildings3D
        && !Contains(url, "LOD1") && !Contains(url, "LOD2")
        && |Segments(url)| != 9)
  }

  /** The name is the bare base name if and only if no prefix rule applies. */
  lemma UnprefixedIff(url: string)
    ensures GenerateFilename(url) == Ok(BaseName(url)) <==> Unprefixed(url)
  {
    var r := GenerateFilename(url);
    if r.Ok? && !Unprefixed(url) {
      assert |r.name| > |BaseName(url)|;
    }
  }

  /**
   * A `Budynki3D` URL never fails and gets only the 3D-buildings prefixes,
   * whatever other keywords it holds: `LOD1` wins over `LOD2`, and with
   * exactly 9 segments segment 6 and `_` go in front of everything, with
   * or without a LOD marker.
   */
  lemma Buildings3DName(url: string)
    requires Contains(url, "Budynki3D")
    ensures |Segments(url)| == 9 ==>
      GenerateFilename(url) == Ok(Segments(url)[6] + "_" + (LodTag(url) + BaseName(url)))
    ensures |Segments(url)| != 9 ==>
      GenerateFilename(url) == Ok(LodTag(url) + BaseName(url))
  {
    assert DatasetOf(url) == Buildings3D;
  }

  /** With both LOD markers the LOD1 prefix is chosen and the LOD2 one is not. */
  lemma Lod1BeforeLod2(url: string)
    requires Contains(url, "Budynki3D") && Contains(url, "LOD1") && Contains(url, "LOD2")
    ensures GenerateFilename(url).Ok?
    ensures EndsWith(GenerateFilename(url).name, "Budynki_3D_LOD1_" + BaseName(url))
    ensures !EndsWith(GenerateFilename(url).name, "Budynki_3D_LOD2_" + BaseName(url))
  {
    var base := BaseName(url);
    var name := GenerateFilename(url).name;
    Buildings3DName(url);
    var head := if |Segments(url)| == 9 then Segments(url)[6] + "_" else "";
    assert name == head + ("Budynki_3D_LOD1_" + base) by {
      if |Segments(url)| != 9 {
        assert "" + ("Budynki_3D_LOD1_" + base) == "Budynki_3D_LOD1_" + base;
      }
    }
    var lod1, lod2 := "Budynki_3D_LOD1_" + base, "Budynki_3D_LOD2_" + base;
    EndsWithAfterPrefix(head, lod1);
    assert lod1[14] == '1' && lod2[14] == '2';
  }

  /** The segment-6 prefix of a 9-segment `Budynki3D` URL comes even without a LOD marker. */
  lemma NineSegmentsWithoutLod(url: string)
    requires Contains(url, "Budynki3D") && !Contains(url, "LOD1") && !Contains(url, "LOD2")
    requires |Segments(url)| == 9
    ensures GenerateFilename(url) == Ok(Segments(url)[6] + "_" + BaseName(url))
  {
    Buildings3DName(url);
    var base := BaseName(url);
    assert LodTag(url) + base == base by {
      assert LodTag(url) == "";
    }
  }

  /** `PRG` is tested right after `Budynki3D`, so it wins over every later keyword. */
  lemma PrgName(url: string)
    requires !Contains(url, "Budynki3D") && Contains(url, "PRG")
    ensures GenerateFilename(url) == Ok("PRG_" + BaseName(url))
  {
  }

  /** `osnowa` is the last test: it applies only when no earlier keyword matched. */
  lemma OsnowaName(url: string)
    requires !Contains(url, "Budynki3D") && !Contains(url, "PRG") && !Contains(url, "bdot10k")
    requires !Contains(url, "bdoo") && !Contains(url, "ZestawieniaZbiorczeEGiB")
    requires Contains(url, "osnowa")
    ensures GenerateFilename(url) == Ok("podstawowa_osnowa_" + BaseName(url))
  {
  }

  /** A name built from a query segment ends with `.zip`, whatever prefix the dataset adds. */
  lemma QueryNameEndsZip(url: string)
    requires '?' in LastSegment(url) && GenerateFilename(url).Ok?
    ensures EndsWith(GenerateFilename(url).name, ".zip")
  {
    GenerateFilenameShape(url);
    var n, b := GenerateFilename(url).name, BaseName(url);
    assert n[|n| - 4..] == b[|b| - 4..];
  }

  /**
   * The two `bdot10k` prefixes, for URLs not claimed by an earlier branch:
   * `bdot10k_` without `Archiwum`; `archiwalne_bdot10k_` and segment 5 with
   * it (an `IndexError` with 5 segments or fewer); and `Archiwum` without
   * `bdot10k` gives neither.
   */
  lemma Bdot10kNames(url: string)
    requires !Contains(url, "Budynki3D") && !Contains(url, "PRG")
    ensures Contains(url, "bdot10k") && !Contains(url, "Archiwum") ==>
      GenerateFilename(url) == Ok("bdot10k_" + BaseName(url))
    ensures Contains(url, "bdot10k") && Contains(url, "Archiwum") ==>
      GenerateFilename(url) ==
        if |Segments(url)| > 5 then Ok("archiwalne_bdot10k_" + Segments(url)[5] + "_" + BaseName(url))
        else IndexError(5, |Segments(url)|)
    ensures !Contains(url, "bdot10k") ==> DatasetOf(url) != Bdot10k && DatasetOf(url) != ArchivalBdot10k
  {
  }

  /**
   * For URLs not claimed by the 3D-buildings, PRG or bdot10k tests, `bdoo`
   * gives `bdoo_rok`, segment 4 and `_`; without `bdoo`,
   * `ZestawieniaZbiorczeEGiB` gives `ZestawieniaZbiorczeEGiB_rok`, segment 4
   * and `_`; with 4 segments or fewer Python raises `IndexError`.
   */
  lemma YearPrefixes(url: string)
    requires !Contains(url, "Budynki3D") && !Contains(url, "PRG") && !Contains(url, "bdot10k")
    ensures Contains(url, "bdoo") ==>
      GenerateFilename(url) ==
        if |Segments(url)| > 4 then Ok("bdoo_rok" + Segments(url)[4] + "_" + BaseName(url))
        else IndexError(4, |Segments(url)|)
    ensures !Contains(url, "bdoo") && Contains(url, "ZestawieniaZbiorczeEGiB") ==>
      GenerateFilename(url) ==
        if |Segments(url)| > 4 then Ok("ZestawieniaZbiorczeEGiB_rok" + Segments(url)[4] + "_" + BaseName(url))
        else IndexError(4, |Segments(url)|)
  {
    assert "bdoo_" + "rok" == "bdoo_rok";
    assert "ZestawieniaZbiorczeEGiB_" + "rok" == "ZestawieniaZbiorczeEGiB_rok";
  }

  /**
   * `_generate_filename` raises exactly when the archival, `bdoo` or EGiB
   * branch indexes past the segments; the `Budynki3D` branch checks the
   * length first and never raises.
   */
  lemma IndexErrorIff(url: string)
    ensures GenerateFilename(url).IndexError? <==>
      || (DatasetOf(url) == ArchivalBdot10k && |Segments(url)| <= 5)
      || ((DatasetOf(url) == Bdoo || DatasetOf(url) == EgibSummary) && |Segments(url)| <= 4)
  {
  }

  // ---------------------------------------------------------------------------
  // Layer names of a WMS GetCapabilities document
  // ---------------------------------------------------------------------------

  /**
   * The layer names collected from the candidate `Name` elements: a
   * candidate is `None` when the element or its text is missing, and empty
   * texts are dropped too. Order and repetitions are kept.
   */
  function PresentNames(found: seq<Option<string>>): (names: seq<string>)
    ensures forall x :: x in names <==> x != "" && Some(x) in found
    ensures |names| <= |found|
    decreases |found|
  {
    if found == [] then []
    else
      var head := match found[0] case Some(t) => if t != "" then [t] else [] case None => [];
      assert found == [found[0]] + found[1..];
      head + PresentNames(found[1..])
  }

  /** Collecting is done element by element: it distributes over concatenation. */
  lemma {:induction false} PresentNamesAppend(a: seq<Option<string>>, b: seq<Option<string>>)
    ensures PresentNames(a + b) == PresentNames(a) + PresentNames(b)
    decreases |a|
  {
    if a != [] {
      assert (a + b)[0] == a[0];
      assert (a + b)[1..] == a[1..] + b;
      PresentNamesAppend(a[1..], b);
    } else {
      assert a + b == b;
    }
  }

  /** The first candidate contributes its name, if present and non-empty, ahead of the rest. */
  lemma PresentNamesOfHead(h: Option<string>, tail: seq<Option<string>>)
    ensures PresentNames([h] + tail)
      == (if h.Some? && h.value != "" then [h.value] else []) + PresentNames(tail)
  {
    assert ([h] + tail)[1..] == tail;
  }

  /** Past a different head element, the first occurrence moves up by one. */
  lemma FirstIndexAfterHead<T>(h: T, tail: seq<T>, x: T)
    requires x in tail && h != x
    ensures FirstIndex([h] + tail, x) == 1 + FirstIndex(tail, x)
  {
    assert ([h] + tail)[1..] == tail;
  }

  /**
   * Collecting keeps relative order: of two collected names, the one
   * collected first also occurs first among the candidates.
   */
  lemma {:induction false} PresentNamesKeepOrder(found: seq<Option<string>>, x: string, y: string)
    requires x in PresentNames(found) && y in PresentNames(found)
    requires FirstIndex(PresentNames(found), x) < FirstIndex(PresentNames(found), y)
    ensures FirstIndex(found, Some(x)) < FirstIndex(found, Some(y))
    decreases |found|
  {
    var h, tail := found[0], found[1..];
    assert found == [h] + tail;
    if h == Some(x) {
      HeadComesFirst(h, tail, y);
    } else if h == Some(y) {
      HeadIsNotLater(h, tail, y);
    } else {
      FirstIndexAfterHead(h, tail, Some(x));
      FirstIndexAfterHead(h, tail, Some(y));
      OrderInTail(h, tail, x, y);
      PresentNamesKeepOrder(tail, x, y);
    }
  }

  /** The first candidate comes before any other value among the candidates. */
  lemma HeadComesFirst(h: Option<string>, tail: seq<Option<string>>, y: string)
    requires Some(y) in [h] + tail && h != Some(y)
    ensures FirstIndex([h] + tail, h) == 0 < FirstIndex([h] + tail, Some(y))
  {
  }

  /** A name collected from the first candidate comes first among the collected names. */
  lemma HeadIsNotLater(h: Option<string>, tail: seq<Option<string>>, y: string)
    requires h == Some(y) && y != ""
    ensures y in PresentNames([h] + tail) && FirstIndex(PresentNames([h] + tail), y) == 0
  {
    PresentNamesOfHead(h, tail);
  }

  /** Past a candidate holding neither name, both keep their relative order among the rest. */
  lemma OrderInTail(h: Option<string>, tail: seq<Option<string>>, x: string, y: string)
    requires h != Some(x) && h != Some(y)
    requires x in PresentNames([h] + tail) && y in PresentNames([h] + tail)
    requires FirstIndex(PresentNames([h] + tail), x) < FirstIndex(PresentNames([h] + tail), y)
    ensures x in PresentNames(tail) && y in PresentNames(tail)
    ensures FirstIndex(PresentNames(tail), x) < FirstIndex(PresentNames(tail), y)
  {
    PresentNamesOfHead(h, tail);
    var names, rest := PresentNames([h] + tail), PresentNames(tail);
    if h.Some? && h.value != "" {
      assert names == [h.value] + rest;
      FirstIndexAfterHead(h.value, rest, x);
      FirstIndexAfterHead(h.value, rest, y);
    } else {
      assert names == [] + rest == rest;
    }
  }

  /** `list(dict.fromkeys(layers))` over the collected names. */
  function WmsLayerNames(found: seq<Option<string>>): (layers: seq<string>)
    ensures NoDuplicates(layers)
    ensures forall x :: x in layers <==> x != "" && Some(x) in found
  {
    Dedup(PresentNames(found))
  }

  /** The layer list follows the first-occurrence order of the candidates. */
  lemma WmsLayerNamesOrder(found: seq<Option<string>>)
    ensures var layers := WmsLayerNames(found);
      forall i, j :: 0 <= i < j < |layers| ==>
        FirstIndex(found, Some(layers[i])) < FirstIndex(found, Some(layers[j]))
  {
    var names := PresentNames(found);
    var layers := Dedup(names);
    DedupFirstOccurrenceOrder(names);
    forall i, j | 0 <= i < j < |layers|
      ensures FirstIndex(found, Some(layers[i])) < FirstIndex(found, Some(layers[j]))
    {
      PresentNamesKeepOrder(found, layers[i], layers[j]);
    }
  }

  /**
   * `get_wms_layers` after the request: no layers when the request failed
   * or returned an empty body, otherwise the distinct non-empty names the
   * (unmodelled) XML extraction `extract` finds in the body.
   */
  function WmsLayers(ok: bool, payload: string, extract: string -> seq<Option<string>>): (layers: seq<string>)
    ensures NoDuplicates(layers)
    ensures forall x :: x in layers <==> ok && payload != "" && x != "" && Some(x) in extract(payload)
  {
    if !ok || payload == "" then [] else WmsLayerNames(extract(payload))
  }
}

/**
 * The string logic of the Cloudinary-to-S3 migration script: the mapper
 * that turns resource URLs into (source URL, S3 key) pairs, the folder
 * filter that narrows a batch of URLs, and the target strings of the sample
 * mapping shown before a migration starts.
 */
module StorageMigration {
  import opened PyStr
  import opened UploadPattern

  /** One entry of the mapper's list, `[url, key]`: where to read and where to write. */
  datatype Mapping = Mapping(source: string, target: string)

  /* ---------- URL -> target key ---------- */

  /**
   * The key in the default mode: `re.split(pattern, url)[-1]`, the text after
   * the last `<type>/upload/v<digits>/`, or the whole URL when there is none.
   */
  function DefaultKey(url: string): string
  {
    LastPiece(url)
  }

  /** The key when the provider's structure is kept: `"/".join(url.split("/")[3:])`. */
  function StructuredKey(url: string): string
  {
    Join('/', Drop(Split(url, '/'), 3))
  }

  /** The key before any parent path is put in front of it. */
  function BaseKey(url: string, keepSameStructure: bool): string
  {
    if keepSameStructure then StructuredKey(url) else DefaultKey(url)
  }

  /**
   * The target key of one URL: the base key, behind the parent path stripped
   * of `/` and one `/`, when the parent path is not empty.
   */
  function TargetKey(url: string, keepSameStructure: bool, parentPath: string): string
  {
    var key := BaseKey(url, keepSameStructure);
    if parentPath != [] then Strip(parentPath, {'/'}) + "/" + key else key
  }

  /**
   * `source_to_target_mapper`: one mapping per URL, in the order of the
   * URLs, each pairing the URL itself with its target key.
   */
  method SourceToTargetMapper(urlList: seq<string>, keepSameStructure: bool, parentPath: string)
    returns (pairs: seq<Mapping>)
    ensures |pairs| == |urlList|
    ensures forall i :: 0 <= i < |urlList| ==>
              pairs[i].source == urlList[i] && pairs[i].target == TargetKey(urlList[i], keepSameStructure, parentPath)
  {
    pairs := [];
    for i := 0 to |urlList|
      invariant |pairs| == i
      invariant forall k :: 0 <= k < i ==> pairs[k] == Mapping(urlList[k], TargetKey(urlList[k], keepSameStructure, parentPath))
    {
      var url := urlList[i];
      var key: string;
      if !keepSameStructure {
        key := DefaultKey(url);
      } else {
        key := StructuredKey(url);
      }
      if parentPath != [] {
        key := Strip(parentPath, {'/'}) + "/" + key;
      }
      assert key == TargetKey(url, keepSameStructure, parentPath);
      pairs := pairs + [Mapping(url, key)];
    }
  }

  /**
   * Keeping the structure, the key is the text after the URL's third `/`,
   * and empty when the URL has fewer than three.
   */
  lemma StructuredKeyAfterThirdSlash(url: string)
    ensures CountOf(url, '/') < 3 ==> StructuredKey(url) == []
    ensures CountOf(url, '/') >= 3 ==>
      exists i :: 0 <= i < |url| && url[i] == '/' && CountOf(url[..i], '/') == 2 && StructuredKey(url) == url[i + 1..]
  {
    if CountOf(url, '/') >= 3 {
      var i := JoinDropSplit(url, '/', 3);
    }
  }

  /** Keeping the structure, `scheme://host/rest` maps to `rest`: scheme and host are dropped. */
  lemma StructuredKeyDropsSchemeAndHost(scheme: string, host: string, rest: string)
    requires '/' !in scheme && '/' !in host
    ensures StructuredKey(scheme + "//" + host + "/" + rest) == rest
  {
    var url := scheme + "//" + host + "/" + rest;
    assert url == scheme + ['/'] + (['/'] + (host + ['/'] + rest));
    SplitSchemeAndHost(scheme, host, rest, url);
    assert Drop(Split(url, '/'), 3) == Split(rest, '/');
    JoinSplit(rest, '/');
  }

  /** The fields of `scheme://host/rest`: the scheme, an empty field, the host, then those of `rest`. */
  lemma SplitSchemeAndHost(scheme: string, host: string, rest: string, url: string)
    requires '/' !in scheme && '/' !in host
    requires url == scheme + ['/'] + (['/'] + (host + ['/'] + rest))
    ensures Split(url, '/') == [scheme] + ([[]] + ([host] + Split(rest, '/')))
  {
    var afterHost := host + ['/'] + rest;
    SplitConcat(host, '/', rest);
    SplitConcat([], '/', afterHost);
    assert [] + ['/'] + afterHost == ['/'] + afterHost;
    SplitConcat(scheme, '/', ['/'] + afterHost);
  }

  /** Whatever the mode, the base key is a suffix of the URL. */
  lemma BaseKeyIsSuffix(url: string, keepSameStructure: bool)
    ensures var key := BaseKey(url, keepSameStructure);
            |key| <= |url| && url[|url| - |key|..] == key
  {
    if keepSameStructure {
      StructuredKeyAfterThirdSlash(url);
    } else {
      LastPieceIsSuffix(url);
    }
  }

  /**
   * In the default mode a URL made of a prefix, an upload segment after a
   * word boundary and a rest in which no match can start maps to the rest.
   */
  lemma DefaultKeyOfUploadUrl(url: string, prefix: string, segment: string, rest: string)
    requires url == prefix + segment + rest
    requires prefix == [] || !IsWordChar(prefix[|prefix| - 1])
    requires IsUploadSegment(segment)
    requires 'i' !in rest && 'v' !in rest && 'r' !in rest
    ensures DefaultKey(url) == rest
  {
    var a, e := |prefix|, |prefix| + |segment|;
    assert url[a..e] == segment;
    SegmentIsMatch(url, a, e);
    forall q | a < q <= |url| ensures MatchAt(url, q).None? {
      if q < e {
        MatchesDoNotOverlap(url, a, q);
      } else {
        NoMatchInRest(url, e, rest, q);
      }
    }
    LastPieceSpec(url);
    var p :| 0 <= p < |url| && MatchAt(url, p).Some? && LastPiece(url) == url[MatchAt(url, p).value..]
             && forall q :: p < q <= |url| ==> MatchAt(url, q).None?;
    assert p == a;
    assert url[e..] == rest;
  }

  /** No match starts in a rest without `i`, `v` or `r`, nor at its end. */
  lemma NoMatchInRest(url: string, e: nat, rest: string, q: nat)
    requires e <= q <= |url| && url[e..] == rest
    requires 'i' !in rest && 'v' !in rest && 'r' !in rest
    ensures MatchAt(url, q).None?
  {
    if q < |url| {
      assert url[q] == rest[q - e];
    }
    if MatchAt(url, q).Some? {
      MatchStart(url, q);
    }
  }

  /**
   * The end-to-end example, default mode: the key of an upload URL is the
   * public ID and extension after `image/upload/v123/`.
   */
  lemma DefaultKeyExample(url: string)
    requires url == "https://res.example.com/demo/image/upload/v123/samples/cat.jpg"
    ensures DefaultKey(url) == "samples/cat.jpg"
  {
    var prefix, segment, rest := "https://res.example.com/demo/", "image/upload/v123/", "samples/cat.jpg";
    ExampleSegment(segment);
    ExampleUrlParts(url, prefix, segment, rest);
    assert !IsWordChar(prefix[|prefix| - 1]);
    assert 'i' !in rest && 'v' !in rest && 'r' !in rest;
    DefaultKeyOfUploadUrl(url, prefix, segment, rest);
  }

  /** The example URL, cut before and after its upload segment. */
  lemma ExampleUrlParts(url: string, prefix: string, segment: string, rest: string)
    requires url == "https://res.example.com/demo/image/upload/v123/samples/cat.jpg"
    requires prefix == "https://res.example.com/demo/" && segment == "image/upload/v123/"
    requires rest == "samples/cat.jpg"
    ensures url == prefix + segment + rest
  {
  }

  /** The example URL's upload segment. */
  lemma ExampleSegment(segment: string)
    requires segment == "image/upload/v123/"
    ensures IsUploadSegment(segment)
  {
    assert segment[..14] == "image" + UploadInfix;
    forall k | 14 <= k < 17 ensures IsDigit(segment[k]) {
      assert k == 14 || k == 15 || k == 16;
    }
  }

  /**
   * The parent path: an empty one leaves the base key as it is; otherwise
   * the key is the parent path stripped of `/`, one `/`, then the base key,
   * so it ends with `/` and the base key. For a parent path with some
   * character other than `/`, the stripped parent path neither starts nor
   * ends with `/`; one made of slashes only gives `/` and the base key.
   */
  lemma TargetKeyShape(url: string, keepSameStructure: bool, parentPath: string)
    ensures var key, base := TargetKey(url, keepSameStructure, parentPath), BaseKey(url, keepSameStructure);
            && (parentPath == [] ==> key == base)
            && (parentPath != [] ==>
                  && |key| > |base| && key[|key| - |base|..] == base && key[|key| - |base| - 1] == '/'
                  && key[..|key| - |base| - 1] == Strip(parentPath, {'/'}))
            && ((exists k :: 0 <= k < |parentPath| && parentPath[k] != '/') ==>
                  key[0] != '/' && key[|key| - |base| - 2] != '/')
            && (parentPath != [] && (forall k :: 0 <= k < |parentPath| ==> parentPath[k] == '/') ==>
                  key == "/" + base)
  {
    var key, base := TargetKey(url, keepSameStructure, parentPath), BaseKey(url, keepSameStructure);
    if parentPath != [] {
      var stripped := Strip(parentPath, {'/'});
      assert key == stripped + "/" + base;
      assert key[|key| - |base|..] == base;
      assert key[..|key| - |base| - 1] == stripped;
      if exists k :: 0 <= k < |parentPath| && parentPath[k] != '/' {
        assert stripped != [];
        assert key[0] == stripped[0];
        assert key[|key| - |base| - 2] == stripped[|stripped| - 1];
      }
    }
  }

  /**
   * Only the parent path is stripped of `/`: a base key that starts with `/`
   * follows the parent path's `/`, so the key holds `//` there.
   */
  lemma SlashLedBaseKeyDoublesSlash(url: string, keepSameStructure: bool, parentPath: string)
    requires parentPath != []
    requires var base := BaseKey(url, keepSameStructure); base != [] && base[0] == '/'
    ensures var key, base := TargetKey(url, keepSameStructure, parentPath), BaseKey(url, keepSameStructure);
            |key| > |base| && key[|key| - |base| - 1] == '/' && key[|key| - |base|] == '/'
  {
    var key, base := TargetKey(url, keepSameStructure, parentPath), BaseKey(url, keepSameStructure);
    var stripped := Strip(parentPath, {'/'});
    assert key == stripped + "/" + base;
    assert key[|key| - |base|] == base[0];
  }

  /** The end-to-end example: with parent path `backup` the key is `backup/samples/cat.jpg`. */
  lemma TargetKeyExample(url: string, parentPath: string)
    requires url == "https://res.example.com/demo/image/upload/v123/samples/cat.jpg"
    requires parentPath == "backup"
    ensures TargetKey(url, false, "") == "samples/cat.jpg"
    ensures TargetKey(url, false, parentPath) == "backup/samples/cat.jpg"
  {
    DefaultKeyExample(url);
    StripUnchanged(parentPath, {'/'});
    assert parentPath + "/" + "samples/cat.jpg" == "backup/samples/cat.jpg";
  }

  /* ---------- Folder filter ---------- */

  /** No element occurs twice. */
  predicate NoDuplicates(s: seq<string>)
  {
    forall i, j :: 0 <= i < j < |s| ==> s[i] != s[j]
  }

  /**
   * A URL is selected by a comma-separated list of folder names when one of
   * the names, stripped of surrounding whitespace, occurs in it.
   */
  predicate Selected(sourceBuckets: string, url: string)
  {
    exists sb :: sb in Split(sourceBuckets, ',') && IsSubstring(Strip(sb, Whitespace), url)
  }

  /** The URLs, in order, that the inner loop appends for one folder name. */
  function Hits(name: string, urls: seq<string>): seq<string>
  {
    if urls == [] then []
    else
      var last := urls[|urls| - 1];
      Hits(name, urls[..|urls| - 1]) + (if IsSubstring(name, last) then [last] else [])
  }

  /** The URLs, in order, that the two loops append for the given pieces of the list. */
  function Collected(pieces: seq<string>, urls: seq<string>): seq<string>
  {
    if pieces == [] then []
    else Collected(pieces[..|pieces| - 1], urls) + Hits(Strip(pieces[|pieces| - 1], Whitespace), urls)
  }

  /** The inner loop appends exactly the URLs that contain the name. */
  lemma {:induction false} HitsMembers(name: string, urls: seq<string>, u: string)
    ensures u in Hits(name, urls) <==> u in urls && IsSubstring(name, u)
  {
    if urls != [] {
      var init := urls[..|urls| - 1];
      HitsMembers(name, init, u);
      assert urls == init + [urls[|urls| - 1]];
    }
  }

  /** The two loops append exactly the URLs that contain one of the stripped pieces. */
  lemma {:induction false} CollectedMembers(pieces: seq<string>, urls: seq<string>, u: string)
    ensures u in Collected(pieces, urls) <==>
              u in urls && SomePieceIn(pieces, u)
  {
    if pieces != [] {
      var init := pieces[..|pieces| - 1];
      var last := pieces[|pieces| - 1];
      CollectedMembers(init, urls, u);
      HitsMembers(Strip(last, Whitespace), urls, u);
      assert Collected(pieces, urls) == Collected(init, urls) + Hits(Strip(last, Whitespace), urls);
      SomePieceSplit(pieces, u);
    }
  }

  /** The stripped text of some piece of the list occurs in `u`. */
  predicate SomePieceIn(pieces: seq<string>, u: string)
  {
    exists j :: 0 <= j < |pieces| && IsSubstring(Strip(pieces[j], Whitespace), u)
  }

  /** Some piece of the list is in `u` when some piece before the last one is, or the last one is. */
  lemma SomePieceSplit(pieces: seq<string>, u: string)
    requires pieces != []
    ensures SomePieceIn(pieces, u) <==>
              SomePieceIn(pieces[..|pieces| - 1], u) || IsSubstring(Strip(pieces[|pieces| - 1], Whitespace), u)
  {
    var init := pieces[..|pieces| - 1];
    if SomePieceIn(pieces, u) {
      var j :| 0 <= j < |pieces| && IsSubstring(Strip(pieces[j], Whitespace), u);
      if j < |pieces| - 1 {
        assert pieces[j] == init[j];
      }
    }
    if SomePieceIn(init, u) {
      var j :| 0 <= j < |init| && IsSubstring(Strip(init[j], Whitespace), u);
      assert init[j] == pieces[j];
    }
  }

  /**
   * `filter_urls_base_on_folder_names`: the URLs that contain one of the
   * comma-separated folder names, each once. `list(set(...))` fixes no
   * order, so the order of the result is left open.
   */
  method FilterUrlsByFolderNames(sourceBuckets: string, urlList: seq<string>) returns (filtered: seq<string>)
    ensures NoDuplicates(filtered)
    ensures forall u :: u in filtered <==> u in urlList && Selected(sourceBuckets, u)
  {
    var pieces := Split(sourceBuckets, ',');
    var collected: seq<string> := [];
    for j := 0 to |pieces|
      invariant collected == Collected(pieces[..j], urlList)
    {
      var sb := Strip(pieces[j], Whitespace);
      assert pieces[..j + 1][..j] == pieces[..j];
      collected := AppendHits(collected, sb, urlList);
    }
    assert pieces[..|pieces|] == pieces;
    filtered := Distinct(collected);
    forall u ensures u in filtered <==> u in urlList && Selected(sourceBuckets, u) {
      CollectedIsSelected(sourceBuckets, urlList, u);
    }
  }

  /**
   * The inner loop of the filter: appends, in order, the URLs that contain
   * the name, which are exactly the URLs of `urls` holding `name`.
   */
  method AppendHits(collected: seq<string>, name: string, urls: seq<string>) returns (result: seq<string>)
    ensures result == collected + Hits(name, urls)
    ensures forall u :: u in result <==> u in collected || (u in urls && IsSubstring(name, u))
  {
    result := collected;
    for k := 0 to |urls|
      invariant result == collected + Hits(name, urls[..k])
    {
      assert urls[..k + 1][..k] == urls[..k];
      if IsSubstring(name, urls[k]) {
        result := result + [urls[k]];
      }
    }
    assert urls[..|urls|] == urls;
    forall u ensures u in result <==> u in collected || (u in urls && IsSubstring(name, u)) {
      HitsMembers(name, urls, u);
    }
  }

  /**
   * `list(set(xs))`: every element of `xs` once, in an order of the set's
   * own choosing.
   */
  method Distinct(xs: seq<string>) returns (ys: seq<string>)
    ensures NoDuplicates(ys)
    ensures forall u :: u in ys <==> u in xs
  {
    var remaining := set u | u in xs;
    ys := [];
    while remaining != {}
      invariant NoDuplicates(ys)
      invariant forall u :: u in ys ==> u in xs && u !in remaining
      invariant forall u :: u in xs ==> u in ys || u in remaining
      invariant forall u :: u in remaining ==> u in xs
      decreases |remaining|
    {
      var u :| u in remaining;
      ys := ys + [u];
      remaining := remaining - {u};
    }
  }

  /** What the two loops collect over the whole list is what the list selects. */
  lemma CollectedIsSelected(sourceBuckets: string, urls: seq<string>, u: string)
    ensures u in Collected(Split(sourceBuckets, ','), urls) <==> u in urls && Selected(sourceBuckets, u)
  {
    var pieces := Split(sourceBuckets, ',');
    CollectedMembers(pieces, urls, u);
    if u in urls && Selected(sourceBuckets, u) {
      var sb :| sb in pieces && IsSubstring(Strip(sb, Whitespace), u);
      var j :| 0 <= j < |pieces| && pieces[j] == sb;
    }
  }

  /** A list that ends with a comma has an empty last name, which selects every URL. */
  lemma TrailingCommaSelectsAll(sourceBuckets: string, url: string)
    requires |sourceBuckets| > 0 && sourceBuckets[|sourceBuckets| - 1] == ','
    ensures Selected(sourceBuckets, url)
  {
    var pieces := Split(sourceBuckets, ',');
    SplitTrailingSeparator(sourceBuckets, ',');
    var last := pieces[|pieces| - 1];
    assert Strip(last, Whitespace) == [];
    EmptyIsSubstring(url);
  }

  /**
   * A list holding one folder name, without commas or surrounding
   * whitespace, selects exactly the URLs that contain that name.
   */
  lemma SelectedBySingleName(name: string, url: string)
    requires ',' !in name
    requires name != [] ==> name[0] !in Whitespace && name[|name| - 1] !in Whitespace
    ensures Selected(name, url) <==> IsSubstring(name, url)
  {
    SplitNoSeparator(name, ',');
    StripUnchanged(name, Whitespace);
    assert name in Split(name, ',');
  }

  /**
   * The filter's example: the folder list `/samples/rats` selects, of a rats
   * URL and a birds URL, the rats URL only.
   */
  lemma FolderFilterExample(sourceBuckets: string, rats: string, birds: string)
    requires sourceBuckets == "/samples/rats"
    requires rats == ".../samples/rats/a.jpg" && birds == ".../samples/birds/b.jpg"
    ensures forall u :: u in [rats, birds] && Selected(sourceBuckets, u) <==> u == rats
  {
    ExampleFolderName(sourceBuckets);
    SelectedBySingleName(sourceBuckets, rats);
    SelectedBySingleName(sourceBuckets, birds);
    assert OccursAt(sourceBuckets, rats, 3);
    assert sourceBuckets[11] == 't';
    forall k | 0 <= k < |birds| ensures birds[k] != 't' {
    }
    MissingCharNotSubstring(sourceBuckets, birds, 't');
  }

  /** The example's folder list is one name without commas or surrounding whitespace. */
  lemma ExampleFolderName(sourceBuckets: string)
    requires sourceBuckets == "/samples/rats"
    ensures ',' !in sourceBuckets
    ensures sourceBuckets[0] !in Whitespace && sourceBuckets[|sourceBuckets| - 1] !in Whitespace
  {
  }

  /* ---------- Sample mapping ---------- */

  /** How many mappings the sample shows. */
  const SampleSize: nat := 5

  /** Where a key ends up: `endpoint.strip("/") + "/" + bucket + "/" + key`. */
  function SampleTarget(endpoint: string, bucket: string, key: string): string
  {
    Strip(endpoint, {'/'}) + "/" + bucket + "/" + key
  }

  /** The line shown for one mapping: `"{} ==> {}".format(source, target)`. */
  function SampleLine(m: Mapping, endpoint: string, bucket: string): string
  {
    m.source + " ==> " + SampleTarget(endpoint, bucket, m.target)
  }

  /** The lines for at most `n` leading mappings. */
  function SampleLines(pairs: seq<Mapping>, n: nat, endpoint: string, bucket: string): (lines: seq<string>)
    ensures |lines| == if |pairs| < n then |pairs| else n
    ensures forall i :: 0 <= i < |lines| ==> lines[i] == SampleLine(pairs[i], endpoint, bucket)
  {
    if n == 0 || pairs == [] then []
    else [SampleLine(pairs[0], endpoint, bucket)] + SampleLines(pairs[1..], n - 1, endpoint, bucket)
  }

  /** `show_sample_mapping`'s output lines: one per leading mapping, at most five. */
  function ShowSampleMapping(pairs: seq<Mapping>, endpoint: string, bucket: string): (lines: seq<string>)
    ensures |lines| == if |pairs| < SampleSize then |pairs| else SampleSize
    ensures forall i :: 0 <= i < |lines| ==> lines[i] == SampleLine(pairs[i], endpoint, bucket)
  {
    SampleLines(pairs, SampleSize, endpoint, bucket)
  }

  /**
   * A sample target is the stripped endpoint, the bucket and the key, each
   * after one `/`: it ends with `/`, the bucket, `/` and the key, and when
   * the endpoint is more than slashes the stripped endpoint neither starts
   * nor ends with `/`.
   */
  lemma SampleTargetShape(endpoint: string, bucket: string, key: string)
    ensures var t, tail := SampleTarget(endpoint, bucket, key), "/" + bucket + "/" + key;
            && |t| >= |tail| && t[|t| - |tail|..] == tail
            && t[..|t| - |tail|] == Strip(endpoint, {'/'})
            && ((exists k :: 0 <= k < |endpoint| && endpoint[k] != '/') ==>
                  t[0] != '/' && t[|t| - |tail| - 1] != '/')
  {
    var t, tail := SampleTarget(endpoint, bucket, key), "/" + bucket + "/" + key;
    var e := Strip(endpoint, {'/'});
    assert t == e + tail;
    if exists k :: 0 <= k < |endpoint| && endpoint[k] != '/' {
      assert e != [];
      assert t[0] == e[0] && t[|t| - |tail| - 1] == e[|e| - 1];
    }
  }
}

/**
 * How `AppleLoops.process_plist` turns the packages of one feed document into
 * `Loop` records: the URL join of `build_url`, the `../` rewrite, the
 * `IsMandatory` default, the year taken from the URL and the digit-stripped
 * `loop_for`; then, for whole feed documents and for the two location tables
 * of `build_loops_master_list`, what the catalog is after processing them.
 * A package whose URL has no segment with the year marker raises in the
 * source (an `IndexError` from `[...][0]`); here that is `NoYearSegment`, and
 * processing stops there, keeping what was inserted before.
 */
module Feeds {
  import opened Wrappers
  import opened Text
  import opened Catalog

  const SCHEME := "http:"
  const HOST := "audiocontentdownload.apple.com"
  /** The prefix that replaces `../` in a download name. */
  const HOST_URL := SCHEME + "//" + HOST + "/"
  const CONTENT_DIR := "lp10_ms3_content_"
  /** `self.base_url`. */
  const BASE_URL := HOST_URL + CONTENT_DIR
  /** The text a URL segment must contain to carry the year. */
  const MARKER := "lp10_ms3"
  /** The parent-directory prefix of some download names. */
  const PARENT := "../"

  /** The prefix that replaces `../`, written out. */
  lemma HostUrlValue()
    ensures HOST_URL == "http://audiocontentdownload.apple.com/"
  {
    assert SCHEME + "//" == "http://";
    assert "http://" + HOST == "http://audiocontentdownload.apple.com";
  }

  /** `self.base_url`, written out. */
  lemma BaseUrlValue()
    ensures BASE_URL == "http://audiocontentdownload.apple.com/lp10_ms3_content_"
  {
    HostUrlValue();
    assert "http://audiocontentdownload.apple.com/" + "lp10_ms3_content_" == "http://audiocontentdownload.apple.com/lp10_ms3_content_";
  }

  datatype Error = NoYearSegment(url: string)

  // ---------------------------------------------------------------------
  // build_url

  /** `build_url`: `'/'.join([base_url + loop_year, filename])`. */
  function BuildUrl(loopYear: string, filename: string): (url: string)
    ensures url == BASE_URL + loopYear + "/" + filename
  {
    JoinPair(BASE_URL + loopYear, filename);
    Join([BASE_URL + loopYear, filename])
  }

  lemma HostChars()
    ensures SLASH !in SCHEME && MARKER[0] !in SCHEME
    ensures SLASH !in HOST && MARKER[2] !in HOST
  {
  }

  /** None of the three leading pieces of a URL holds the marker. */
  lemma MarkerFacts()
    ensures !Contains(SCHEME, MARKER) && !Contains("", MARKER) && !Contains(HOST, MARKER)
    ensures SLASH !in SCHEME && SLASH !in HOST
  {
    HostChars();
    NotContains(SCHEME, MARKER, 0);
    NotContains(HOST, MARKER, 2);
    NotContains("", MARKER, 0);
  }

  /** `scheme//host/rest`, with its three separators written one by one. */
  lemma RootedShape(scheme: string, host: string, rest: string)
    ensures scheme + "//" + host + "/" + rest == scheme + [SLASH] + ([SLASH] + (host + [SLASH] + rest))
  {
    assert "//" == [SLASH] + [SLASH] && "/" == [SLASH];
  }

  /** `scheme//host/rest` splits into the scheme, the empty piece, the host and the pieces of `rest`. */
  lemma RootedPieces(scheme: string, host: string, rest: string)
    requires SLASH !in scheme && SLASH !in host
    ensures Split(scheme + "//" + host + "/" + rest) == [scheme, "", host] + Split(rest)
  {
    var tail := host + [SLASH] + rest;
    RootedShape(scheme, host, rest);
    SplitAppend(scheme, [SLASH] + tail);
    SplitNoSlash(scheme);
    assert [SLASH] + tail == [] + [SLASH] + tail;
    SplitAppend([], tail);
    SplitAppend(host, rest);
    SplitNoSlash(host);
  }

  /** The host prefix contributes the pieces `http:`, the empty piece and the host. */
  lemma HostUrlPieces(rest: string)
    ensures Split(HOST_URL + rest) == [SCHEME, "", HOST] + Split(rest)
  {
    MarkerFacts();
    assert HOST_URL + rest == SCHEME + "//" + HOST + "/" + rest;
    RootedPieces(SCHEME, HOST, rest);
  }

  lemma Regroup(a: string, b: string, c: string, d: string)
    ensures a + b + c + "/" + d == a + (b + c + [SLASH] + d)
  {
    assert "/" == [SLASH];
  }

  /** The pieces of a built URL: the host pieces, the content directory, then the file name's. */
  lemma BuildUrlPieces(loopYear: string, filename: string)
    requires SLASH !in loopYear
    ensures Split(BuildUrl(loopYear, filename)) == [SCHEME, "", HOST, CONTENT_DIR + loopYear] + Split(filename)
  {
    var dir := CONTENT_DIR + loopYear;
    Regroup(HOST_URL, CONTENT_DIR, loopYear, filename);
    assert BuildUrl(loopYear, filename) == HOST_URL + (dir + [SLASH] + filename);
    HostUrlPieces(dir + [SLASH] + filename);
    SplitAppend(dir, filename);
    assert SLASH !in CONTENT_DIR;
    SplitNoSlash(dir);
  }

  // ---------------------------------------------------------------------
  // year = [x[-4:] for x in url.split('/') if 'lp10_ms3' in x][0]

  /** `[x[-4:] for x in pieces if 'lp10_ms3' in x]`. */
  function MarkedYears(pieces: seq<string>): (years: seq<string>)
    ensures |years| <= |pieces|
    ensures forall k :: 0 <= k < |years| ==> |years[k]| <= 4
  {
    if pieces == [] then []
    else (if Contains(pieces[0], MARKER) then [LastFour(pieces[0])] else []) + MarkedYears(pieces[1..])
  }

  /** No piece contains the marker. */
  predicate NoMarkedPiece(pieces: seq<string>) {
    forall k :: 0 <= k < |pieces| ==> !Contains(pieces[k], MARKER)
  }

  /** Piece `k` is the first piece that contains the marker. */
  predicate FirstMarkedAt(pieces: seq<string>, k: int) {
    && 0 <= k < |pieces|
    && Contains(pieces[k], MARKER)
    && forall j :: 0 <= j < k ==> !Contains(pieces[j], MARKER)
  }

  lemma {:induction false} MarkedYearsEmpty(pieces: seq<string>)
    ensures MarkedYears(pieces) == [] <==> NoMarkedPiece(pieces)
  {
    if pieces != [] {
      MarkedYearsEmpty(pieces[1..]);
      assert forall k :: 1 <= k < |pieces| ==> pieces[k] == pieces[1..][k - 1];
    }
  }

  lemma {:induction false} MarkedYearsFirst(pieces: seq<string>, k: int)
    requires FirstMarkedAt(pieces, k)
    ensures MarkedYears(pieces) != [] && MarkedYears(pieces)[0] == LastFour(pieces[k])
    decreases k
  {
    if k > 0 {
      MarkedYearsFirst(pieces[1..], k - 1);
    }
  }

  lemma {:induction false} MarkedYearsUnmarked(front: seq<string>, rest: seq<string>)
    requires NoMarkedPiece(front)
    ensures MarkedYears(front + rest) == MarkedYears(rest)
  {
    if front != [] {
      assert (front + rest)[1..] == front[1..] + rest;
      assert NoMarkedPiece(front[1..]) by {
        assert forall k :: 0 <= k < |front| - 1 ==> front[1..][k] == front[k + 1];
      }
      MarkedYearsUnmarked(front[1..], rest);
    } else {
      assert front + rest == rest;
    }
  }

  /**
   * The year of a URL: the last four characters of the first '/'-piece that
   * contains the marker; an error when no piece does.
   */
  function YearFromUrl(url: string): (r: Result<string, Error>)
    ensures r.Err? <==> NoMarkedPiece(Split(url))
    ensures r.Err? ==> r.error == NoYearSegment(url)
    ensures forall k :: FirstMarkedAt(Split(url), k) ==> r == Ok(LastFour(Split(url)[k]))
  {
    var pieces := Split(url);
    MarkedYearsEmpty(pieces);
    MarkedYearsFirstAll(pieces);
    var years := MarkedYears(pieces);
    if years == [] then Err(NoYearSegment(url)) else Ok(years[0])
  }

  lemma MarkedYearsFirstAll(pieces: seq<string>)
    ensures forall k :: FirstMarkedAt(pieces, k) ==> MarkedYears(pieces) != [] && MarkedYears(pieces)[0] == LastFour(pieces[k])
  {
    forall k | FirstMarkedAt(pieces, k)
      ensures MarkedYears(pieces) != [] && MarkedYears(pieces)[0] == LastFour(pieces[k])
    {
      MarkedYearsFirst(pieces, k);
    }
  }

  /**
   * A URL built from a year without '/' yields the last four characters of
   * its content directory; for a four-character year, the year itself.
   */
  lemma BuildUrlYear(loopYear: string, filename: string)
    requires SLASH !in loopYear
    ensures YearFromUrl(BuildUrl(loopYear, filename)) == Ok(LastFour(CONTENT_DIR + loopYear))
    ensures |loopYear| == 4 ==> YearFromUrl(BuildUrl(loopYear, filename)) == Ok(loopYear)
  {
    BuildUrlPieces(loopYear, filename);
    HostPiecesUnmarked();
    ContentDirMarked(loopYear);
    ContentDirYear(loopYear);
    assert [SCHEME, "", HOST, CONTENT_DIR + loopYear] + Split(filename) == [SCHEME, "", HOST] + [CONTENT_DIR + loopYear] + Split(filename);
    YearOfPieces(BuildUrl(loopYear, filename), [SCHEME, "", HOST], CONTENT_DIR + loopYear, Split(filename));
  }

  lemma HostPiecesUnmarked()
    ensures NoMarkedPiece([SCHEME, "", HOST])
  {
    MarkerFacts();
    UnmarkedTriple(SCHEME, "", HOST);
  }

  lemma UnmarkedTriple(a: string, b: string, c: string)
    requires !Contains(a, MARKER) && !Contains(b, MARKER) && !Contains(c, MARKER)
    ensures NoMarkedPiece([a, b, c])
  {
  }

  /** The year is read from the first marked piece, whatever follows it. */
  lemma YearOfPieces(url: string, front: seq<string>, piece: string, back: seq<string>)
    requires Split(url) == front + [piece] + back
    requires NoMarkedPiece(front) && Contains(piece, MARKER)
    ensures YearFromUrl(url) == Ok(LastFour(piece))
  {
    MarkedYearsOf(front, piece, back);
  }

  /** Unmarked pieces, then a marked one: the comprehension starts with the marked piece's year. */
  lemma MarkedYearsOf(front: seq<string>, piece: string, back: seq<string>)
    requires NoMarkedPiece(front) && Contains(piece, MARKER)
    ensures MarkedYears(front + [piece] + back) == [LastFour(piece)] + MarkedYears(back)
  {
    var marked := [piece] + back;
    assert front + [piece] + back == front + marked;
    MarkedYearsUnmarked(front, marked);
    assert marked[0] == piece && marked[1..] == back;
  }

  /** The content directory segment of a built URL holds the marker. */
  lemma ContentDirMarked(loopYear: string)
    ensures Contains(CONTENT_DIR + loopYear, MARKER)
  {
    var tail := "_content_" + loopYear;
    assert CONTENT_DIR == MARKER + "_content_";
    assert CONTENT_DIR + loopYear == MARKER + tail;
    ContainsPrefix(MARKER, tail);
  }

  /** A four-character year is the last four characters of its content directory. */
  lemma ContentDirYear(loopYear: string)
    ensures |loopYear| == 4 ==> LastFour(CONTENT_DIR + loopYear) == loopYear
  {
    var dir := CONTENT_DIR + loopYear;
    if |loopYear| == 4 {
      assert dir[|dir| - 4..] == loopYear;
    }
  }

  /** Under the host prefix, the year comes from the pieces of the rest alone. */
  lemma HostUrlYear(rest: string)
    ensures YearFromUrl(HOST_URL + rest).Err? <==> NoMarkedPiece(Split(rest))
    ensures forall k :: FirstMarkedAt(Split(rest), k) ==> YearFromUrl(HOST_URL + rest) == Ok(LastFour(Split(rest)[k]))
  {
    HostUrlPieces(rest);
    HostPiecesUnmarked();
    MarkedYearsUnmarked([SCHEME, "", HOST], Split(rest));
    MarkedYearsEmpty(Split(rest));
    MarkedYearsFirstAll(Split(rest));
  }

  // ---------------------------------------------------------------------
  // The `../` rewrite, the mandatory default and loop_for

  /** The stored name and URL of a package. */
  datatype Location = Location(name: string, url: string)

  /**
   * The URL is `build_url(loop_year, name)`, except that a name starting with
   * `../` is served from the host root and is stored by its basename only.
   */
  function Locate(loopYear: string, downloadName: string): (loc: Location)
    ensures !StartsWith(downloadName, PARENT) ==> loc == Location(downloadName, BuildUrl(loopYear, downloadName))
    ensures StartsWith(downloadName, PARENT) ==>
      && SLASH !in loc.name
      && loc.url == HOST_URL + downloadName[|PARENT|..]
      && loc.name == Basename(loc.url)
  {
    if StartsWith(downloadName, PARENT) then
      ParentBasename(downloadName);
      Location(Basename(downloadName), HOST_URL + downloadName[|PARENT|..])
    else
      Location(downloadName, BuildUrl(loopYear, downloadName))
  }

  /** The basename of a `../` name is the basename of its host-rooted URL. */
  lemma ParentBasename(downloadName: string)
    requires StartsWith(downloadName, PARENT)
    ensures Basename(downloadName) == Basename(HOST_URL + downloadName[|PARENT|..])
  {
    var rest := downloadName[|PARENT|..];
    var url := HOST_URL + rest;
    var name := Basename(downloadName);
    assert downloadName[2] == SLASH;
    assert |name| <= |rest|;
    assert url[|url| - |name|..] == rest[|rest| - |name|..] == name;
    if |name| == |rest| {
      assert url[|url| - |name| - 1] == HOST_URL[|HOST_URL| - 1] == SLASH;
    } else {
      assert url[|url| - |name| - 1] == rest[|rest| - |name| - 1];
    }
    BasenameUnique(url, name);
  }

  /** `IsMandatory` when the entry has it, `False` when it does not. */
  function MandatoryOf(isMandatory: Option<bool>): (mandatory: bool)
    ensures isMandatory.None? ==> !mandatory
    ensures isMandatory.Some? ==> mandatory == isMandatory.value
  {
    match isMandatory
    case None => false
    case Some(flag) => flag
  }

  /** `loop_for`: the feed file name without its extension and its digits. */
  function LoopFor(plist: string): (category: string)
    ensures forall i :: 0 <= i < |category| ==> !IsDigit(category[i])
    ensures |category| <= |plist|
  {
    StripDigits(SplitExtRoot(plist))
  }

  /** For a plain file name with one extension, the category is its stem without digits. */
  lemma LoopForOf(stem: string, ext: string, k: nat)
    requires SLASH !in stem && k < |stem| && stem[k] != DOT
    requires SLASH !in ext && DOT !in ext
    ensures LoopFor(stem + [DOT] + ext) == StripDigits(stem)
  {
    SplitExtRootOf(stem, ext, k);
  }

  /**
   * A feed stem made of a digit-free product family, a digit code and a
   * digit-free suffix loses exactly its code.
   */
  lemma FeedStemDigits(family: string, code: string, suffix: string)
    requires forall i :: 0 <= i < |family| ==> !IsDigit(family[i])
    requires forall i :: 0 <= i < |code| ==> IsDigit(code[i])
    requires forall i :: 0 <= i < |suffix| ==> !IsDigit(suffix[i])
    ensures StripDigits(family + code + suffix) == family + suffix
  {
    var front := family + code;
    StripDigitsAppend(front, suffix);
    StripDigitsAppend(family, code);
    StripDigitsUnchanged(family);
    StripDigitsUnchanged(suffix);
    NoDigitsLeft(code);
    assert StripDigits(front) == family;
  }

  /** A feed file name is its stem and the extension `.plist`. */
  lemma PlistName(stem: string)
    ensures stem + ".plist" == stem + [DOT] + "plist"
  {
    assert [DOT] + "plist" == ".plist";
  }

  /** The category of `<stem>.plist` is the stem without digits. */
  lemma PlistCategory(stem: string)
    requires SLASH !in stem && DOT !in stem && |stem| > 0
    ensures LoopFor(stem + ".plist") == StripDigits(stem)
  {
    PlistName(stem);
    LoopForOf(stem, "plist", 0);
  }

  /**
   * A feed named by a digit-free product family, a digit code and a
   * digit-free suffix, such as `logicpro` + `1023` + `` or `logicpro` +
   * `1000` + `_en`, has the family followed by the suffix as category.
   */
  lemma FeedCategory(family: string, code: string, suffix: string)
    requires |family| > 0 && SLASH !in family && DOT !in family
    requires forall i :: 0 <= i < |family| ==> !IsDigit(family[i])
    requires forall i :: 0 <= i < |code| ==> IsDigit(code[i])
    requires SLASH !in suffix && DOT !in suffix
    requires forall i :: 0 <= i < |suffix| ==> !IsDigit(suffix[i])
    ensures LoopFor(family + code + suffix + ".plist") == family + suffix
  {
    var stem := family + code + suffix;
    assert SLASH !in code && DOT !in code by {
      assert forall i :: 0 <= i < |code| ==> code[i] != SLASH && code[i] != DOT;
    }
    PlistCategory(stem);
    FeedStemDigits(family, code, suffix);
  }

  /** The example of the constructor's comment: `logicpro1023.plist` is for `logicpro`. */
  lemma LogicCategory(plist: string)
    requires plist == "logicpro1023.plist"
    ensures LoopFor(plist) == "logicpro"
  {
    var family, code, suffix := "logicpro", "1023", "";
    assert plist == family + code + suffix + ".plist";
    FeedCategory(family, code, suffix);
  }

  /**
   * The 2013 feeds carry a language suffix, which stays in the category:
   * `logicpro1000_en.plist` is for `logicpro_en`, not for `logicpro`.
   */
  lemma EnglishFeedCategory(code: string)
    requires forall i :: 0 <= i < |code| ==> IsDigit(code[i])
    ensures LoopFor("logicpro" + code + "_en" + ".plist") == "logicpro_en"
  {
    var family, suffix := "logicpro", "_en";
    PlainPart(family);
    PlainPart(suffix);
    FeedCategory(family, code, suffix);
  }

  /** The family and suffix literals of the feed names have no '/', '.' or digit. */
  lemma PlainPart(part: string)
    requires part == "logicpro" || part == "_en"
    ensures SLASH !in part && DOT !in part
    ensures forall i :: 0 <= i < |part| ==> !IsDigit(part[i])
  {
  }

  // ---------------------------------------------------------------------
  // One package, one feed document

  /**
   * One entry of a feed's `Packages`: its `DownloadName`, its `IsMandatory`
   * if present, and the stripped `Content-Length` that the probe of its URL
   * answered.
   */
  datatype Package = Package(downloadName: string, isMandatory: Option<bool>, contentLength: string)

  /** The body of the package loop of `process_plist`, up to the `add_loop` call. */
  function ResolvePackage(loopYear: string, loopFor: string, pkg: Package): (r: Result<Loop, Error>)
    ensures r.Ok? ==>
      r.value.mandatory == MandatoryOf(pkg.isMandatory) && r.value.size == pkg.contentLength && r.value.loopFor == loopFor
    ensures r.Err? ==> r.error == NoYearSegment(Locate(loopYear, pkg.downloadName).url)
  {
    var loc := Locate(loopYear, pkg.downloadName);
    var mandatory := MandatoryOf(pkg.isMandatory);
    match YearFromUrl(loc.url)
    case Err(e) => Err(e)
    case Ok(year) => Ok(Loop(loc.name, loc.url, mandatory, pkg.contentLength, year, loopFor))
  }

  /**
   * A name without `../` never fails on a year without '/': it keeps its
   * name, gets the built URL, and its year is the loop year when that has
   * four characters.
   */
  lemma ResolvePlain(loopYear: string, loopFor: string, pkg: Package)
    requires !StartsWith(pkg.downloadName, PARENT) && SLASH !in loopYear
    ensures var r := ResolvePackage(loopYear, loopFor, pkg);
      && r.Ok?
      && r.value == Loop(pkg.downloadName, BuildUrl(loopYear, pkg.downloadName), MandatoryOf(pkg.isMandatory),
                         pkg.contentLength, LastFour(CONTENT_DIR + loopYear), loopFor)
      && (|loopYear| == 4 ==> r.value.year == loopYear)
  {
    BuildUrlYear(loopYear, pkg.downloadName);
  }

  /**
   * A `../` name ignores the loop year: it fails exactly when no piece of the
   * name after `../` holds the marker, and otherwise is stored by its
   * basename under the host-rooted URL, with the year of its first marked piece.
   */
  lemma ResolveParent(loopYear: string, loopFor: string, pkg: Package)
    requires StartsWith(pkg.downloadName, PARENT)
    ensures var rest := pkg.downloadName[|PARENT|..];
      && (ResolvePackage(loopYear, loopFor, pkg).Err? <==> NoMarkedPiece(Split(rest)))
      && forall k :: FirstMarkedAt(Split(rest), k) ==>
           ResolvePackage(loopYear, loopFor, pkg) ==
           Ok(Loop(Basename(pkg.downloadName), HOST_URL + rest, MandatoryOf(pkg.isMandatory),
                   pkg.contentLength, LastFour(Split(rest)[k]), loopFor))
  {
    HostUrlYear(pkg.downloadName[|PARENT|..]);
  }

  /** The records of one feed document, up to the first failing package, and that failure. */
  datatype FeedResult = FeedResult(loops: seq<Loop>, error: Option<Error>)

  /**
   * The bookkeeping of the package loop over the packages' outcomes, one
   * per package in order: the records up to the first error, and that error.
   */
  function Collect(results: seq<Result<Loop, Error>>): (fr: FeedResult)
    ensures |fr.loops| <= |results|
    ensures fr.error.None? <==> |fr.loops| == |results|
  {
    if results == [] then FeedResult([], None)
    else
      var prev := Collect(results[..|results| - 1]);
      if prev.error.Some? then prev
      else
        match results[|results| - 1]
        case Err(e) => FeedResult(prev.loops, Some(e))
        case Ok(loop) => FeedResult(prev.loops + [loop], None)
  }

  /** Every record comes from the outcome at its own position. */
  lemma {:induction false} CollectRecords(results: seq<Result<Loop, Error>>)
    ensures var fr := Collect(results);
      forall i :: 0 <= i < |fr.loops| ==> results[i] == Ok(fr.loops[i])
  {
    if results != [] {
      var init := results[..|results| - 1];
      CollectRecords(init);
      assert forall i :: 0 <= i < |init| ==> init[i] == results[i];
    }
  }

  /** An error is the outcome just after the records. */
  lemma {:induction false} CollectError(results: seq<Result<Loop, Error>>)
    ensures var fr := Collect(results);
      fr.error.Some? ==> results[|fr.loops|] == Err(fr.error.value)
  {
    if results != [] {
      var init := results[..|results| - 1];
      CollectError(init);
      var prev := Collect(init);
      if prev.error.Some? {
        assert init[|prev.loops|] == results[|prev.loops|];
      }
    }
  }

  /** Once a leading part of the outcomes holds an error, the rest is never looked at. */
  lemma {:induction false} CollectStops(results: seq<Result<Loop, Error>>, n: nat)
    requires n <= |results| && Collect(results[..n]).error.Some?
    ensures Collect(results) == Collect(results[..n])
    decreases |results| - n
  {
    if n < |results| {
      var init := results[..|results| - 1];
      assert init[..n] == results[..n];
      CollectStops(init, n);
    } else {
      assert results[..n] == results;
    }
  }

  /** The outcome of every package of a feed, in order. */
  function ResolveAll(loopYear: string, loopFor: string, packages: seq<Package>): (results: seq<Result<Loop, Error>>)
    ensures |results| == |packages|
  {
    seq(|packages|, i requires 0 <= i < |packages| => ResolvePackage(loopYear, loopFor, packages[i]))
  }

  lemma ResolveAllPrefix(loopYear: string, loopFor: string, packages: seq<Package>, n: nat)
    requires n <= |packages|
    ensures ResolveAll(loopYear, loopFor, packages[..n]) == ResolveAll(loopYear, loopFor, packages)[..n]
  {
  }

  /** The package loop of `process_plist`, stopping at the first package that raises. */
  function ResolveFeed(loopYear: string, loopFor: string, packages: seq<Package>): (fr: FeedResult)
    ensures |fr.loops| <= |packages|
    ensures fr.error.None? <==> |fr.loops| == |packages|
  {
    Collect(ResolveAll(loopYear, loopFor, packages))
  }

  /**
   * The records are those of the leading packages that resolve, one each and
   * in order; there is an error exactly when a package is left, and it is
   * the error of the first package left.
   */
  lemma ResolveFeedShape(loopYear: string, loopFor: string, packages: seq<Package>)
    ensures var fr := ResolveFeed(loopYear, loopFor, packages);
      && |fr.loops| <= |packages|
      && (forall i :: 0 <= i < |fr.loops| ==> ResolvePackage(loopYear, loopFor, packages[i]) == Ok(fr.loops[i]))
      && (fr.error.None? <==> |fr.loops| == |packages|)
      && (fr.error.Some? ==> ResolvePackage(loopYear, loopFor, packages[|fr.loops|]) == Err(fr.error.value))
  {
    CollectRecords(ResolveAll(loopYear, loopFor, packages));
    CollectError(ResolveAll(loopYear, loopFor, packages));
  }

  /** Resolving one more package after a clean prefix. */
  lemma ResolveFeedStep(loopYear: string, loopFor: string, packages: seq<Package>, i: nat)
    requires i < |packages| && ResolveFeed(loopYear, loopFor, packages[..i]).error.None?
    ensures var prev := ResolveFeed(loopYear, loopFor, packages[..i]);
      ResolveFeed(loopYear, loopFor, packages[..i + 1]) ==
        match ResolvePackage(loopYear, loopFor, packages[i])
        case Err(e) => FeedResult(prev.loops, Some(e))
        case Ok(loop) => FeedResult(prev.loops + [loop], None)
  {
    var results := ResolveAll(loopYear, loopFor, packages[..i + 1]);
    assert packages[..i + 1][..i] == packages[..i];
    ResolveAllPrefix(loopYear, loopFor, packages[..i + 1], i);
    assert results[..|results| - 1] == ResolveAll(loopYear, loopFor, packages[..i]);
    assert results[|results| - 1] == ResolvePackage(loopYear, loopFor, packages[i]);
  }

  /** Once a leading part of the packages has failed, the rest is never looked at. */
  lemma ResolveFeedStops(loopYear: string, loopFor: string, packages: seq<Package>, n: nat)
    requires n <= |packages| && ResolveFeed(loopYear, loopFor, packages[..n]).error.Some?
    ensures ResolveFeed(loopYear, loopFor, packages) == ResolveFeed(loopYear, loopFor, packages[..n])
  {
    ResolveAllPrefix(loopYear, loopFor, packages, n);
    CollectStops(ResolveAll(loopYear, loopFor, packages), n);
  }

  // ---------------------------------------------------------------------
  // build_loops_master_list

  /** A feed document of one year: its file name and its parsed packages. */
  datatype FeedDoc = FeedDoc(plist: string, packages: seq<Package>)

  /** One year of a location table, with the feed documents listed for it. */
  datatype YearFeeds = YearFeeds(year: string, docs: seq<FeedDoc>)

  /** The two lists after a run, and the error that stopped it, if any. */
  datatype Run = Run(lists: Lists, error: Option<Error>)

  /** `process_plist(year, doc.plist)` on the lists `ls`. */
  function ProcessDoc(ls: Lists, year: string, doc: FeedDoc): (run: Run)
    ensures ls.master <= run.lists.master && ls.duplicates <= run.lists.duplicates
  {
    var fr := ResolveFeed(year, LoopFor(doc.plist), doc.packages);
    InsertAllPrefix(ls, fr.loops);
    Run(InsertAll(ls, fr.loops), fr.error)
  }

  /** The inner loop of `build_loops_master_list` over the feeds of one year. */
  function RunDocs(ls: Lists, year: string, docs: seq<FeedDoc>): (run: Run)
    ensures ls.master <= run.lists.master && ls.duplicates <= run.lists.duplicates
  {
    if docs == [] then Run(ls, None)
    else
      var prev := RunDocs(ls, year, docs[..|docs| - 1]);
      if prev.error.Some? then prev else ProcessDoc(prev.lists, year, docs[|docs| - 1])
  }

  /** The outer loop of `build_loops_master_list` over the years of one table. */
  function RunYears(ls: Lists, groups: seq<YearFeeds>): (run: Run)
    ensures ls.master <= run.lists.master && ls.duplicates <= run.lists.duplicates
  {
    if groups == [] then Run(ls, None)
    else
      var prev := RunYears(ls, groups[..|groups| - 1]);
      if prev.error.Some? then prev else RunDocs(prev.lists, groups[|groups| - 1].year, groups[|groups| - 1].docs)
  }

  /** `build_loops_master_list`: the Logic Pro table, then the GarageBand table. */
  function BuildRun(ls: Lists, logic: seq<YearFeeds>, garageband: seq<YearFeeds>): (run: Run)
    ensures ls.master <= run.lists.master && ls.duplicates <= run.lists.duplicates
  {
    var first := RunYears(ls, logic);
    if first.error.Some? then first else RunYears(first.lists, garageband)
  }

  /** Processing one more feed document after a clean prefix. */
  lemma RunDocsStep(ls: Lists, year: string, docs: seq<FeedDoc>, j: nat)
    requires j < |docs| && RunDocs(ls, year, docs[..j]).error.None?
    ensures RunDocs(ls, year, docs[..j + 1]) == ProcessDoc(RunDocs(ls, year, docs[..j]).lists, year, docs[j])
  {
    assert docs[..j + 1][..j] == docs[..j];
  }

  /** Processing one more year after a clean prefix. */
  lemma RunYearsStep(ls: Lists, groups: seq<YearFeeds>, i: nat)
    requires i < |groups| && RunYears(ls, groups[..i]).error.None?
    ensures RunYears(ls, groups[..i + 1]) == RunDocs(RunYears(ls, groups[..i]).lists, groups[i].year, groups[i].docs)
  {
    assert groups[..i + 1][..i] == groups[..i];
  }

  lemma {:induction false} RunDocsStops(ls: Lists, year: string, docs: seq<FeedDoc>, n: nat)
    requires n <= |docs| && RunDocs(ls, year, docs[..n]).error.Some?
    ensures RunDocs(ls, year, docs) == RunDocs(ls, year, docs[..n])
    decreases |docs| - n
  {
    if n < |docs| {
      var init := docs[..|docs| - 1];
      assert init[..n] == docs[..n];
      RunDocsStops(ls, year, init, n);
    } else {
      assert docs[..n] == docs;
    }
  }

  lemma {:induction false} RunYearsStops(ls: Lists, groups: seq<YearFeeds>, n: nat)
    requires n <= |groups| && RunYears(ls, groups[..n]).error.Some?
    ensures RunYears(ls, groups) == RunYears(ls, groups[..n])
    decreases |groups| - n
  {
    if n < |groups| {
      var init := groups[..|groups| - 1];
      assert init[..n] == groups[..n];
      RunYearsStops(ls, init, n);
    } else {
      assert groups[..n] == groups;
    }
  }

  lemma {:induction false} RunDocsDeduplicated(ls: Lists, year: string, docs: seq<FeedDoc>)
    requires Deduplicated(ls)
    ensures Deduplicated(RunDocs(ls, year, docs).lists)
    ensures ls.master <= RunDocs(ls, year, docs).lists.master
  {
    if docs != [] {
      var prev := RunDocs(ls, year, docs[..|docs| - 1]);
      RunDocsDeduplicated(ls, year, docs[..|docs| - 1]);
      if prev.error.None? {
        var doc := docs[|docs| - 1];
        var fr := ResolveFeed(year, LoopFor(doc.plist), doc.packages);
        InsertAllDeduplicated(prev.lists, fr.loops);
        InsertAllPrefix(prev.lists, fr.loops);
      }
    }
  }

  lemma {:induction false} RunYearsDeduplicated(ls: Lists, groups: seq<YearFeeds>)
    requires Deduplicated(ls)
    ensures Deduplicated(RunYears(ls, groups).lists)
    ensures ls.master <= RunYears(ls, groups).lists.master
  {
    if groups != [] {
      var prev := RunYears(ls, groups[..|groups| - 1]);
      RunYearsDeduplicated(ls, groups[..|groups| - 1]);
      if prev.error.None? {
        var g := groups[|groups| - 1];
        RunDocsDeduplicated(prev.lists, g.year, g.docs);
      }
    }
  }

  /**
   * However the feeds resolve, and whether or not the run stops on an error,
   * the lists it leaves are deduplicated and extend the lists it began with.
   */
  lemma BuildRunDeduplicated(ls: Lists, logic: seq<YearFeeds>, garageband: seq<YearFeeds>)
    requires Deduplicated(ls)
    ensures Deduplicated(BuildRun(ls, logic, garageband).lists)
    ensures ls.master <= BuildRun(ls, logic, garageband).lists.master
  {
    RunYearsDeduplicated(ls, logic);
    RunYearsDeduplicated(RunYears(ls, logic).lists, garageband);
  }
}

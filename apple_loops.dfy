/**
 * The `AppleLoops` object: its download location and the two lists that
 * `add_loop` appends to in place, with `process_plist` and
 * `build_loops_master_list` as loops over already parsed feed documents.
 * Each method is stated against the functions of `Catalog` and `Feeds`:
 * the lists it leaves are those functions applied to the lists it found.
 */
module Downloader {
  import opened Wrappers
  import opened Text
  import opened Catalog
  import opened Feeds

  /** Where packages go when no download location is given. */
  const DEFAULT_LOCATION := "/tmp"

  class AppleLoops {
    var downloadLocation: string
    var masterList: seq<Loop>
    var duplicateLoopsList: seq<Loop>

    /** The two lists as a value. */
    ghost function Snapshot(): Lists
      reads this
    {
      Lists(masterList, duplicateLoopsList)
    }

    /** The lists hold no repeats and every duplicate is also in the master list. */
    ghost predicate Valid()
      reads this
    {
      Deduplicated(Snapshot())
    }

    /** `__init__`: an absent or empty location falls back to `/tmp`; both lists start empty. */
    constructor(downloadLocation: Option<string>)
      ensures downloadLocation.None? ==> this.downloadLocation == DEFAULT_LOCATION
      ensures downloadLocation.Some? && downloadLocation.value == "" ==> this.downloadLocation == DEFAULT_LOCATION
      ensures downloadLocation.Some? && downloadLocation.value != "" ==> this.downloadLocation == downloadLocation.value
      ensures masterList == [] && duplicateLoopsList == []
      ensures Valid()
    {
      if downloadLocation.None? || downloadLocation.value == "" {
        this.downloadLocation := DEFAULT_LOCATION;
      } else {
        this.downloadLocation := downloadLocation.value;
      }
      masterList := [];
      duplicateLoopsList := [];
    }

    /**
     * `add_loop`: a record not yet in the master list is appended to it;
     * a record already there is appended to the duplicate list unless it is
     * already there too; otherwise nothing changes.
     */
    method AddLoop(packageName: string, packageUrl: string, packageMandatory: bool,
                   packageSize: string, packageYear: string, loopFor: string)
      modifies this
      ensures var loop := Loop(packageName, packageUrl, packageMandatory, packageSize, packageYear, loopFor);
        && (loop !in old(masterList) ==>
              masterList == old(masterList) + [loop] && duplicateLoopsList == old(duplicateLoopsList))
        && (loop in old(masterList) && loop !in old(duplicateLoopsList) ==>
              masterList == old(masterList) && duplicateLoopsList == old(duplicateLoopsList) + [loop])
        && (loop in old(masterList) && loop in old(duplicateLoopsList) ==>
              masterList == old(masterList) && duplicateLoopsList == old(duplicateLoopsList))
        && Snapshot() == Insert(old(Snapshot()), loop)
      ensures old(Valid()) ==> Valid()
      ensures downloadLocation == old(downloadLocation)
    {
      var loop := Loop(packageName, packageUrl, packageMandatory, packageSize, packageYear, loopFor);
      if loop !in masterList {
        masterList := masterList + [loop];
      } else if loop !in duplicateLoopsList {
        duplicateLoopsList := duplicateLoopsList + [loop];
      }
      if old(Valid()) {
        InsertDeduplicated(old(Snapshot()), loop);
      }
    }

    /**
     * The body of the package loop of `process_plist` up to `add_loop`, in
     * the order the source takes its steps: the built URL and the
     * `IsMandatory` default, the `../` rewrite, then the year from the URL.
     */
    method ResolvePackageSteps(loopYear: string, loopFor: string, pkg: Package) returns (r: Result<Loop, Error>)
      ensures r == ResolvePackage(loopYear, loopFor, pkg)
    {
      var name := pkg.downloadName;
      var url := BuildUrl(loopYear, name);
      var mandatory := MandatoryOf(pkg.isMandatory);
      if StartsWith(name, PARENT) {
        url := HOST_URL + name[|PARENT|..];
        name := Basename(name);
      }
      assert Location(name, url) == Locate(loopYear, pkg.downloadName);
      var year := YearFromUrl(url);
      if year.Err? {
        return Err(year.error);
      }
      r := Ok(Loop(name, url, mandatory, pkg.contentLength, year.value, loopFor));
    }

    /**
     * `process_plist(loop_year, plist)` on the packages of the feed document:
     * every package that resolves is added in order, and the first package
     * whose URL has no year segment stops the loop with its error, keeping
     * what was added before it.
     */
    method ProcessPlist(loopYear: string, plist: string, packages: seq<Package>) returns (error: Option<Error>)
      modifies this
      ensures var fr := ResolveFeed(loopYear, LoopFor(plist), packages);
        Snapshot() == InsertAll(old(Snapshot()), fr.loops) && error == fr.error
      ensures old(Valid()) ==> Valid()
      ensures downloadLocation == old(downloadLocation)
    {
      var loopFor := LoopFor(plist);
      var i := 0;
      while i < |packages|
        invariant 0 <= i <= |packages|
        invariant ResolveFeed(loopYear, loopFor, packages[..i]).error == None
        invariant Snapshot() == InsertAll(old(Snapshot()), ResolveFeed(loopYear, loopFor, packages[..i]).loops)
        invariant old(Valid()) ==> Valid()
        invariant downloadLocation == old(downloadLocation)
      {
        var pkg := packages[i];
        var resolved := ResolvePackageSteps(loopYear, loopFor, pkg);
        ResolveFeedStep(loopYear, loopFor, packages, i);
        if resolved.Err? {
          ResolveFeedStops(loopYear, loopFor, packages, i + 1);
          return Some(resolved.error);
        }
        var loop := resolved.value;
        AddLoop(loop.name, loop.url, loop.mandatory, loop.size, loop.year, loop.loopFor);
        i := i + 1;
      }
      assert packages[..i] == packages;
      error := None;
    }

    /**
     * The inner loop of `build_loops_master_list`: the feed documents of
     * one year, in order, until one raises.
     */
    method ProcessYear(year: string, docs: seq<FeedDoc>) returns (error: Option<Error>)
      modifies this
      ensures var run := RunDocs(old(Snapshot()), year, docs);
        Snapshot() == run.lists && error == run.error
      ensures old(Valid()) ==> Valid()
      ensures downloadLocation == old(downloadLocation)
    {
      var j := 0;
      while j < |docs|
        invariant 0 <= j <= |docs|
        invariant RunDocs(old(Snapshot()), year, docs[..j]) == Run(Snapshot(), None)
        invariant old(Valid()) ==> Valid()
        invariant downloadLocation == old(downloadLocation)
      {
        RunDocsStep(old(Snapshot()), year, docs, j);
        error := ProcessPlist(year, docs[j].plist, docs[j].packages);
        if error.Some? {
          RunDocsStops(old(Snapshot()), year, docs, j + 1);
          return;
        }
        j := j + 1;
      }
      assert docs[..j] == docs;
      error := None;
    }

    /**
     * The outer loop of `build_loops_master_list` over one location table:
     * every year, in order, until one of its feed documents raises.
     */
    method ProcessLocations(groups: seq<YearFeeds>) returns (error: Option<Error>)
      modifies this
      ensures var run := RunYears(old(Snapshot()), groups);
        Snapshot() == run.lists && error == run.error
      ensures old(Valid()) ==> Valid()
      ensures downloadLocation == old(downloadLocation)
    {
      var i := 0;
      while i < |groups|
        invariant 0 <= i <= |groups|
        invariant RunYears(old(Snapshot()), groups[..i]) == Run(Snapshot(), None)
        invariant old(Valid()) ==> Valid()
        invariant downloadLocation == old(downloadLocation)
      {
        RunYearsStep(old(Snapshot()), groups, i);
        error := ProcessYear(groups[i].year, groups[i].docs);
        if error.Some? {
          RunYearsStops(old(Snapshot()), groups, i + 1);
          return;
        }
        i := i + 1;
      }
      assert groups[..i] == groups;
      error := None;
    }

    /**
     * `build_loops_master_list`: the Logic Pro table, then the GarageBand
     * table, each with the years and feed documents in the order given.
     */
    method BuildLoopsMasterList(logic: seq<YearFeeds>, garageband: seq<YearFeeds>) returns (error: Option<Error>)
      modifies this
      ensures var run := BuildRun(old(Snapshot()), logic, garageband);
        Snapshot() == run.lists && error == run.error
      ensures old(Valid()) ==> Valid()
      ensures downloadLocation == old(downloadLocation)
    {
      error := ProcessLocations(logic);
      if error.None? {
        error := ProcessLocations(garageband);
      }
    }
  }
}

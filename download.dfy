/**
 * The download command: every matching item is fetched and written into the
 * output directory under its own filename; successes are counted and a
 * failing item does not stop the run.
 */
module Download {
  import opened Wrappers
  import opened Dates
  import opened Photos

  /** A directory's files: filename to contents. */
  type Listing = map<string, Bytes>

  /** The local directories the script can see: path to listing. */
  type FileSystem = map<string, Listing>

  /** Create the output directory only when it does not exist yet. */
  function EnsureDir(fs: FileSystem, dir: string): (r: FileSystem)
    ensures r.Keys == fs.Keys + {dir}
    ensures forall d :: d in fs ==> r[d] == fs[d]
    ensures dir !in fs ==> r[dir] == map[]
  {
    if dir in fs then fs else fs[dir := map[]]
  }

  /** Whether the item's transfer leaves a file behind. */
  predicate Writes(p: Photo)
  {
    !p.transfer.RequestFailed?
  }

  /** The contents left in the file: the payload, or an empty file when the stream failed after opening. */
  function Written(p: Photo): Bytes
    requires Writes(p)
  {
    if p.transfer.Received? then p.transfer.data else []
  }

  /** One transfer into a listing. */
  function Save(listing: Listing, p: Photo): Listing
  {
    if Writes(p) then listing[p.filename := Written(p)] else listing
  }

  /** The listing after transferring the matches one after another. */
  function Downloaded(listing: Listing, matches: seq<Photo>): Listing
  {
    if matches == [] then listing
    else Save(Downloaded(listing, matches[..|matches| - 1]), matches[|matches| - 1])
  }

  /** Contents of the last file written under `name`, if any transfer writes it. */
  function LastWrite(matches: seq<Photo>, name: string): Option<Bytes>
  {
    if matches == [] then None
    else
      var p := matches[|matches| - 1];
      if Writes(p) && p.filename == name then Some(Written(p))
      else LastWrite(matches[..|matches| - 1], name)
  }

  /** Number of transfers that succeeded, i.e. the `count` the script reports. */
  function CountReceived(matches: seq<Photo>): (r: nat)
    ensures r <= |matches|
  {
    if matches == [] then 0
    else CountReceived(matches[..|matches| - 1]) + (if matches[|matches| - 1].transfer.Received? then 1 else 0)
  }

  /** Number of transfers that raised. */
  function FailedTransfers(matches: seq<Photo>): nat
  {
    if matches == [] then 0
    else FailedTransfers(matches[..|matches| - 1]) + (if matches[|matches| - 1].transfer.Received? then 0 else 1)
  }

  /** The reported count is the number of matches minus the failures. */
  lemma {:induction false} ReceivedPlusFailed(matches: seq<Photo>)
    ensures CountReceived(matches) + FailedTransfers(matches) == |matches|
  {
    if matches != [] {
      ReceivedPlusFailed(matches[..|matches| - 1]);
    }
  }

  /** Each file of the result holds the last write under its name, or its previous contents if nothing wrote it. */
  lemma {:induction false} DownloadedAt(listing: Listing, matches: seq<Photo>, name: string)
    ensures name in Downloaded(listing, matches) <==> name in listing || LastWrite(matches, name).Some?
    ensures name in Downloaded(listing, matches) ==>
      Downloaded(listing, matches)[name] ==
        if LastWrite(matches, name).Some? then LastWrite(matches, name).value else listing[name]
  {
    if matches != [] {
      DownloadedAt(listing, matches[..|matches| - 1], name);
    }
  }

  /** A match that writes `name` and is followed by no other write of `name` decides the file's contents. */
  lemma {:induction false} LastWriteWins(listing: Listing, matches: seq<Photo>, k: nat)
    requires k < |matches| && Writes(matches[k])
    requires forall j :: k < j < |matches| ==> !(Writes(matches[j]) && matches[j].filename == matches[k].filename)
    ensures matches[k].filename in Downloaded(listing, matches)
    ensures Downloaded(listing, matches)[matches[k].filename] == Written(matches[k])
  {
    var name := matches[k].filename;
    var n := |matches| - 1;
    if k < n {
      var init := matches[..n];
      LastWriteWins(listing, init, k);
      assert !(Writes(matches[n]) && matches[n].filename == name);
    }
  }

  /** A filename no match writes keeps its previous state: files are neither created nor changed nor removed. */
  lemma {:induction false} UntouchedNamesKept(listing: Listing, matches: seq<Photo>, name: string)
    requires forall j :: 0 <= j < |matches| ==> !(Writes(matches[j]) && matches[j].filename == name)
    ensures name in Downloaded(listing, matches) <==> name in listing
    ensures name in listing ==> Downloaded(listing, matches)[name] == listing[name]
  {
    if matches != [] {
      var n := |matches| - 1;
      assert !(Writes(matches[n]) && matches[n].filename == name);
      UntouchedNamesKept(listing, matches[..n], name);
    }
  }

  /** Transferring the same matches again leaves the directory as the first run left it. */
  lemma DownloadedIdempotent(listing: Listing, matches: seq<Photo>)
    ensures Downloaded(Downloaded(listing, matches), matches) == Downloaded(listing, matches)
  {
    var once := Downloaded(listing, matches);
    var twice := Downloaded(once, matches);
    forall name | name in twice || name in once
      ensures name in twice && name in once && twice[name] == once[name]
    {
      DownloadedAt(listing, matches, name);
      DownloadedAt(once, matches, name);
    }
  }

  /** The file system after `download_photos`: the directory is ensured, then every match is transferred into it. */
  function AfterDownload(fs: FileSystem, photos: seq<Photo>, cutoff: Date, dir: string): FileSystem
  {
    var prepared := EnsureDir(fs, dir);
    prepared[dir := Downloaded(prepared[dir], Select(photos, cutoff))]
  }

  /** Other directories are untouched, and files already in the output directory survive (possibly overwritten). */
  lemma AfterDownloadKeeps(fs: FileSystem, photos: seq<Photo>, cutoff: Date, dir: string)
    ensures AfterDownload(fs, photos, cutoff, dir).Keys == fs.Keys + {dir}
    ensures forall d :: d in fs && d != dir ==> AfterDownload(fs, photos, cutoff, dir)[d] == fs[d]
    ensures dir in fs ==> fs[dir].Keys <= AfterDownload(fs, photos, cutoff, dir)[dir].Keys
  {
    if dir in fs {
      forall name | name in fs[dir]
        ensures name in AfterDownload(fs, photos, cutoff, dir)[dir]
      {
        DownloadedAt(fs[dir], Select(photos, cutoff), name);
      }
    }
  }

  /** Running the download command twice with the same cutoff and directory gives the same files as running it once. */
  lemma AfterDownloadIdempotent(fs: FileSystem, photos: seq<Photo>, cutoff: Date, dir: string)
    ensures AfterDownload(AfterDownload(fs, photos, cutoff, dir), photos, cutoff, dir) == AfterDownload(fs, photos, cutoff, dir)
  {
    var prepared := EnsureDir(fs, dir);
    DownloadedIdempotent(prepared[dir], Select(photos, cutoff));
  }

  /**
   * A second run, whatever its items, cutoff and transfer outcomes, removes
   * no file the first run left in the output directory.
   */
  lemma RerunKeepsFiles(fs: FileSystem, photos: seq<Photo>, cutoff: Date,
                        again: seq<Photo>, cutoffAgain: Date, dir: string)
    ensures var first := AfterDownload(fs, photos, cutoff, dir);
      dir in first && first[dir].Keys <= AfterDownload(first, again, cutoffAgain, dir)[dir].Keys
  {
    var first := AfterDownload(fs, photos, cutoff, dir);
    AfterDownloadKeeps(fs, photos, cutoff, dir);
    AfterDownloadKeeps(first, again, cutoffAgain, dir);
  }

  /** The interactions for one enumerated item: it is read, and fetched right after if it matches. */
  function Step(p: Photo, cutoff: Date): seq<Event>
  {
    [Read(p)] + (if Matches(p, cutoff) then [Fetch(p)] else [])
  }

  /** The interactions of a download run, item after item. */
  function DownloadTrace(photos: seq<Photo>, cutoff: Date): seq<Event>
  {
    if photos == [] then []
    else DownloadTrace(photos[..|photos| - 1], cutoff) + Step(photos[|photos| - 1], cutoff)
  }

  /** The items a trace reads, in order. */
  function ReadItems(trace: seq<Event>): seq<Photo>
  {
    if trace == [] then []
    else ReadItems(trace[..|trace| - 1]) + (if trace[|trace| - 1].Read? then [trace[|trace| - 1].photo] else [])
  }

  /** The items a trace fetches, in order. */
  function Fetched(trace: seq<Event>): seq<Photo>
  {
    if trace == [] then []
    else Fetched(trace[..|trace| - 1]) + (if trace[|trace| - 1].Fetch? then [trace[|trace| - 1].photo] else [])
  }

  lemma {:induction false} ReadItemsAppend(a: seq<Event>, b: seq<Event>)
    ensures ReadItems(a + b) == ReadItems(a) + ReadItems(b)
  {
    if b == [] {
      assert a + b == a;
    } else {
      var m := |b| - 1;
      ReadItemsAppend(a, b[..m]);
      assert (a + b)[..|a + b| - 1] == a + b[..m];
    }
  }

  lemma {:induction false} FetchedAppend(a: seq<Event>, b: seq<Event>)
    ensures Fetched(a + b) == Fetched(a) + Fetched(b)
  {
    if b == [] {
      assert a + b == a;
    } else {
      var m := |b| - 1;
      FetchedAppend(a, b[..m]);
      assert (a + b)[..|a + b| - 1] == a + b[..m];
    }
  }

  lemma StepReadsAndFetches(p: Photo, cutoff: Date)
    ensures ReadItems(Step(p, cutoff)) == [p]
    ensures Fetched(Step(p, cutoff)) == if Matches(p, cutoff) then [p] else []
  {
    assert [Read(p)][..0] == [];
    assert ReadItems([Read(p)]) == [p] && Fetched([Read(p)]) == [];
    if Matches(p, cutoff) {
      assert Step(p, cutoff)[..1] == [Read(p)];
    } else {
      assert Step(p, cutoff) == [Read(p)];
    }
  }

  /** Every item is read once, in order: an unreadable date does not end the enumeration. */
  lemma {:induction false} DownloadTraceReadsAll(photos: seq<Photo>, cutoff: Date)
    ensures ReadItems(DownloadTrace(photos, cutoff)) == photos
  {
    if photos != [] {
      var n := |photos| - 1;
      DownloadTraceReadsAll(photos[..n], cutoff);
      ReadItemsAppend(DownloadTrace(photos[..n], cutoff), Step(photos[n], cutoff));
      StepReadsAndFetches(photos[n], cutoff);
      assert photos == photos[..n] + [photos[n]];
    }
  }

  /** Exactly the matches are fetched, once each, in enumeration order. */
  lemma {:induction false} DownloadTraceFetchesSelection(photos: seq<Photo>, cutoff: Date)
    ensures Fetched(DownloadTrace(photos, cutoff)) == Select(photos, cutoff)
  {
    if photos != [] {
      var n := |photos| - 1;
      DownloadTraceFetchesSelection(photos[..n], cutoff);
      FetchedAppend(DownloadTrace(photos[..n], cutoff), Step(photos[n], cutoff));
      StepReadsAndFetches(photos[n], cutoff);
    }
  }

  /** One more enumerated item extends the specification of the run by that item's effect. */
  lemma DownloadExtends(listing: Listing, photos: seq<Photo>, i: nat, cutoff: Date)
    requires i < |photos|
    ensures var p, before, after := photos[i], Select(photos[..i], cutoff), Select(photos[..i + 1], cutoff);
      && Downloaded(listing, after) == (if Matches(p, cutoff) then Save(Downloaded(listing, before), p) else Downloaded(listing, before))
      && CountReceived(after) == CountReceived(before) + (if Matches(p, cutoff) && p.transfer.Received? then 1 else 0)
      && DownloadTrace(photos[..i + 1], cutoff) == DownloadTrace(photos[..i], cutoff) + Step(p, cutoff)
  {
    var p := photos[i];
    assert photos[..i + 1][..i] == photos[..i];
    var before := Select(photos[..i], cutoff);
    assert Select(photos[..i + 1], cutoff) == before + (if Matches(p, cutoff) then [p] else []);
    if Matches(p, cutoff) {
      assert (before + [p])[..|before|] == before;
    } else {
      assert before + [] == before;
    }
  }

  /**
   * The guarded body for one match: fetch the item and write `<filename>`;
   * `received` tells whether the item counts as downloaded.
   */
  method TransferOne(listing: Listing, photo: Photo) returns (result: Listing, received: bool)
    ensures received <==> photo.transfer.Received?
    ensures result == Save(listing, photo)
    ensures received ==> photo.filename in result && result[photo.filename] == photo.transfer.data
    ensures !Writes(photo) ==> result == listing
  {
    match photo.transfer
    case RequestFailed =>
      result, received := listing, false;
    case StreamFailed =>
      result, received := listing[photo.filename := []], false;
    case Received(data) =>
      result, received := listing[photo.filename := data], true;
  }

  /**
   * The loop of `download_photos` over the enumeration, writing into one
   * directory's listing: unreadable dates are skipped, each match is
   * transferred, and successes are counted.
   */
  method TransferMatches(listing: Listing, photos: seq<Photo>, cutoff: Date)
    returns (result: Listing, count: nat, trace: seq<Event>)
    ensures result == Downloaded(listing, Select(photos, cutoff))
    ensures count == CountReceived(Select(photos, cutoff))
    ensures trace == DownloadTrace(photos, cutoff)
  {
    result := listing;
    count := 0;
    trace := [];
    for i := 0 to |photos|
      invariant result == Downloaded(listing, Select(photos[..i], cutoff))
      invariant count == CountReceived(Select(photos[..i], cutoff))
      invariant trace == DownloadTrace(photos[..i], cutoff)
    {
      var photo := photos[i];
      DownloadExtends(listing, photos, i, cutoff);
      ghost var before := trace;
      trace := trace + [Read(photo)];
      if photo.created.None? {
        assert Step(photo, cutoff) == [Read(photo)];
        continue;
      }
      if OnOrBefore(photo.created.value, cutoff) {
        trace := trace + [Fetch(photo)];
        assert trace == before + Step(photo, cutoff);
        var received;
        result, received := TransferOne(result, photo);
        if received {
          count := count + 1;
        }
      } else {
        assert Step(photo, cutoff) == [Read(photo)];
      }
    }
    assert photos[..|photos|] == photos;
  }

  /** `download_photos`: create the output directory if needed, then run the loop into it. */
  method DownloadPhotos(fs: FileSystem, photos: seq<Photo>, cutoff: Date, outputDir: string)
    returns (result: FileSystem, count: nat, trace: seq<Event>)
    ensures result == AfterDownload(fs, photos, cutoff, outputDir)
    ensures count == CountReceived(Select(photos, cutoff))
    ensures trace == DownloadTrace(photos, cutoff)
  {
    result := fs;
    if outputDir !in result {
      result := result[outputDir := map[]];
    }
    var listing;
    listing, count, trace := TransferMatches(result[outputDir], photos, cutoff);
    result := result[outputDir := listing];
  }
}

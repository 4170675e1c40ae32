/**
 * Remote photo items and the date cutoff that selects them.
 *
 * An item is what the library enumeration yields: a filename, a creation date
 * that may be unreadable, and the outcome its `download()` and `delete()`
 * calls will have in this run (each is called at most once per run).
 */
module Photos {
  import opened Wrappers
  import opened Dates

  type Bytes = seq<bv8>

  /** What `photo.download()` followed by writing `output_dir/<filename>` does. */
  datatype Transfer =
    | RequestFailed        // `download()` or `open(...)` raised: nothing is written
    | StreamFailed         // the file was opened for writing, then reading the stream raised
    | Received(data: Bytes)

  datatype Photo = Photo(
    filename: string,
    created: Option<Date>,  // None: reading `photo.created.date()` raised
    transfer: Transfer,
    removable: bool         // whether the guarded block around `photo.delete()` completes
  )

  /** Observable interactions of a run, in the order they happen. */
  datatype Event =
    | Read(photo: Photo)     // the enumeration yields an item and its date is read
    | Fetch(photo: Photo)    // a download is attempted
    | Prompt(total: nat)     // the match count is reported and the operator is asked to confirm
    | Remove(photo: Photo)   // a delete is attempted

  /** The selection predicate: a readable creation date on or before the cutoff. */
  predicate Matches(p: Photo, cutoff: Date)
  {
    p.created.Some? && OnOrBefore(p.created.value, cutoff)
  }

  /** Every item of `items` matches the cutoff. */
  predicate AllMatch(items: seq<Photo>, cutoff: Date)
  {
    forall x :: x in items ==> Matches(x, cutoff)
  }

  /** The matching items, in enumeration order. */
  function Select(photos: seq<Photo>, cutoff: Date): (r: seq<Photo>)
    ensures |r| <= |photos|
    ensures AllMatch(r, cutoff)
  {
    if photos == [] then []
    else
      var p := photos[|photos| - 1];
      Select(photos[..|photos| - 1], cutoff) + (if Matches(p, cutoff) then [p] else [])
  }

  /** The enumeration positions of the matching items, in increasing order. */
  function Positions(photos: seq<Photo>, cutoff: Date): seq<nat>
  {
    if photos == [] then []
    else
      var n := |photos| - 1;
      Positions(photos[..n], cutoff) + (if Matches(photos[n], cutoff) then [n] else [])
  }

  /** Selection is an order-preserving subsequence holding exactly the items at matching positions. */
  lemma {:induction false} SelectIsMatchingSubsequence(photos: seq<Photo>, cutoff: Date)
    ensures |Positions(photos, cutoff)| == |Select(photos, cutoff)|
    ensures forall k :: 0 <= k < |Positions(photos, cutoff)| ==>
      Positions(photos, cutoff)[k] < |photos| && Select(photos, cutoff)[k] == photos[Positions(photos, cutoff)[k]]
    ensures forall k, l :: 0 <= k < l < |Positions(photos, cutoff)| ==>
      Positions(photos, cutoff)[k] < Positions(photos, cutoff)[l]
    ensures forall i :: 0 <= i < |photos| ==> (i in Positions(photos, cutoff) <==> Matches(photos[i], cutoff))
  {
    if photos != [] {
      var n := |photos| - 1;
      var init := photos[..n];
      SelectIsMatchingSubsequence(init, cutoff);
      var pos0, sel0 := Positions(init, cutoff), Select(init, cutoff);
      var extra := if Matches(photos[n], cutoff) then [n] else [];
      var extraSel := if Matches(photos[n], cutoff) then [photos[n]] else [];
      var pos, sel := pos0 + extra, sel0 + extraSel;
      assert Positions(photos, cutoff) == pos;
      assert Select(photos, cutoff) == sel;
      forall k | 0 <= k < |pos|
        ensures pos[k] < |photos| && sel[k] == photos[pos[k]]
      {
        if k < |pos0| {
          assert pos[k] == pos0[k] && sel[k] == sel0[k];
          assert init[pos0[k]] == photos[pos0[k]];
        }
      }
      forall k, l | 0 <= k < l < |pos|
        ensures pos[k] < pos[l]
      {
        if l < |pos0| {
          assert pos[k] == pos0[k] && pos[l] == pos0[l];
        } else {
          assert pos[k] == pos0[k] && pos0[k] < n;
        }
      }
      forall i | 0 <= i < |photos|
        ensures i in pos <==> Matches(photos[i], cutoff)
      {
        if i < n {
          assert photos[i] == init[i];
          assert i in pos <==> i in pos0;
        }
      }
    }
  }

  /** An item is selected iff it is enumerated and matches. */
  lemma {:induction false} SelectContains(photos: seq<Photo>, cutoff: Date, p: Photo)
    ensures p in Select(photos, cutoff) <==> p in photos && Matches(p, cutoff)
  {
    if photos != [] {
      var n := |photos| - 1;
      SelectContains(photos[..n], cutoff, p);
      assert photos == photos[..n] + [photos[n]];
    }
  }

  /** An item whose creation date cannot be read is never selected, whatever the cutoff. */
  lemma UnreadableNeverSelected(photos: seq<Photo>, cutoff: Date, p: Photo)
    requires p.created == None
    ensures p !in Select(photos, cutoff)
  {
    SelectContains(photos, cutoff, p);
  }

  /** Selection distributes over concatenated enumerations. */
  lemma {:induction false} SelectAppend(xs: seq<Photo>, ys: seq<Photo>, cutoff: Date)
    ensures Select(xs + ys, cutoff) == Select(xs, cutoff) + Select(ys, cutoff)
  {
    if ys == [] {
      assert xs + ys == xs;
    } else {
      var m := |ys| - 1;
      var last := if Matches(ys[m], cutoff) then [ys[m]] else [];
      SelectAppend(xs, ys[..m], cutoff);
      assert (xs + ys)[..|xs + ys| - 1] == xs + ys[..m];
      assert (xs + ys)[|xs + ys| - 1] == ys[m];
      assert Select(xs + ys, cutoff) == Select(xs + ys[..m], cutoff) + last;
      assert Select(ys, cutoff) == Select(ys[..m], cutoff) + last;
    }
  }

  /** One more enumerated item extends the selection by that item exactly when it matches. */
  lemma SelectExtends(photos: seq<Photo>, i: nat, cutoff: Date)
    requires i < |photos|
    ensures Select(photos[..i + 1], cutoff) ==
      Select(photos[..i], cutoff) + (if Matches(photos[i], cutoff) then [photos[i]] else [])
  {
    assert photos[..i + 1][..i] == photos[..i];
  }

  /** An unreadable item is skipped and the enumeration goes on with the next item. */
  lemma SkipUnreadable(before: seq<Photo>, bad: Photo, after: seq<Photo>, cutoff: Date)
    requires bad.created == None
    ensures Select(before + [bad] + after, cutoff) == Select(before, cutoff) + Select(after, cutoff)
  {
    SelectAppend(before + [bad], after, cutoff);
    assert (before + [bad])[..|before|] == before;
  }

  /** Selecting with an earlier cutoff from a later cutoff's selection is selecting with the earlier cutoff. */
  lemma {:induction false} SelectNarrowing(photos: seq<Photo>, early: Date, late: Date)
    requires OnOrBefore(early, late)
    ensures Select(Select(photos, late), early) == Select(photos, early)
  {
    if photos != [] {
      var n := |photos| - 1;
      var p := photos[n];
      SelectNarrowing(photos[..n], early, late);
      SelectAppend(Select(photos[..n], late), if Matches(p, late) then [p] else [], early);
      if Matches(p, early) {
        OnOrBeforeTotalOrder(p.created.value, early, late);
      }
      assert Select([p], early) == (if Matches(p, early) then [p] else []) by {
        assert [p][..0] == [];
      }
    }
  }

  /** The boundary is inclusive: with cutoff 2022-01-01, items of 2021-12-31 and 2022-01-01 are selected and 2022-01-02 is not. */
  lemma InclusiveCutoffScenario(a: Photo, b: Photo, c: Photo)
    requires a.created == Some(Date(2021, 12, 31))
    requires b.created == Some(Date(2022, 1, 1))
    requires c.created == Some(Date(2022, 1, 2))
    ensures Select([a, b, c], Date(2022, 1, 1)) == [a, b]
  {
    var cutoff := Date(2022, 1, 1);
    assert Matches(a, cutoff) && Matches(b, cutoff) && !Matches(c, cutoff);
    assert [a][..0] == [];
    assert Select([a], cutoff) == [a];
    assert [a, b][..1] == [a];
    assert Select([a, b], cutoff) == [a, b];
    assert [a, b, c][..2] == [a, b];
  }
}

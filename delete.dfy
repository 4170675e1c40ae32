/**
 * The delete command: the whole enumeration is filtered into a list first,
 * the operator is asked once to confirm the batch, and only then is each
 * listed item deleted, counting successes and carrying on past failures.
 */
module Delete {
  import opened Dates
  import opened Photos
  import opened Confirm

  /** How a delete run ends: canceled at the prompt, or finished with `deleted` out of `total`. */
  datatype DeleteOutcome =
    | Canceled(total: nat)
    | Finished(deleted: nat, total: nat)

  /** Number of listed items whose `delete()` returned normally. */
  function CountRemoved(matches: seq<Photo>): (r: nat)
    ensures r <= |matches|
  {
    if matches == [] then 0
    else CountRemoved(matches[..|matches| - 1]) + (if matches[|matches| - 1].removable then 1 else 0)
  }

  /** Number of listed items whose `delete()` raised. */
  function FailedRemovals(matches: seq<Photo>): nat
  {
    if matches == [] then 0
    else FailedRemovals(matches[..|matches| - 1]) + (if matches[|matches| - 1].removable then 0 else 1)
  }

  /** The final count is the total minus the failed deletes. */
  lemma {:induction false} RemovedPlusFailed(matches: seq<Photo>)
    ensures CountRemoved(matches) + FailedRemovals(matches) == |matches|
  {
    if matches != [] {
      RemovedPlusFailed(matches[..|matches| - 1]);
    }
  }

  /** The result of a run, given the enumeration, the cutoff and the operator's answer. */
  function Outcome(photos: seq<Photo>, cutoff: Date, answer: string): DeleteOutcome
  {
    var matches := Select(photos, cutoff);
    if Confirmed(answer) then Finished(CountRemoved(matches), |matches|) else Canceled(|matches|)
  }

  /** One read per enumerated item, in order. */
  function ReadAll(photos: seq<Photo>): seq<Event>
  {
    seq(|photos|, i requires 0 <= i < |photos| => Read(photos[i]))
  }

  /** One delete attempt per listed item, in order. */
  function RemoveAll(matches: seq<Photo>): seq<Event>
  {
    seq(|matches|, i requires 0 <= i < |matches| => Remove(matches[i]))
  }

  /** The interactions of a delete run: the full enumeration, one prompt, then the deletes if confirmed. */
  function DeleteTrace(photos: seq<Photo>, cutoff: Date, answer: string): seq<Event>
  {
    var matches := Select(photos, cutoff);
    ReadAll(photos) + [Prompt(|matches|)] + (if Confirmed(answer) then RemoveAll(matches) else [])
  }

  /**
   * The prompt happens exactly once, after every item has been read and
   * before any delete; a declined answer leads to no delete at all, and a
   * confirmed one to exactly one delete attempt per listed item, in order.
   */
  lemma DeleteTraceShape(photos: seq<Photo>, cutoff: Date, answer: string)
    ensures var t, n := DeleteTrace(photos, cutoff, answer), |photos|;
      && n < |t|
      && t[n] == Prompt(|Select(photos, cutoff)|)
      && (forall i :: 0 <= i < |t| ==> (t[i].Prompt? <==> i == n))
      && (forall i :: 0 <= i < n ==> t[i] == Read(photos[i]))
      && (forall i :: n < i < |t| ==> t[i].Remove?)
      && (!Confirmed(answer) ==> |t| == n + 1)
      && (Confirmed(answer) ==> t[n + 1..] == RemoveAll(Select(photos, cutoff)))
  {
    var matches := Select(photos, cutoff);
    var t, n := DeleteTrace(photos, cutoff, answer), |photos|;
    var removals := if Confirmed(answer) then RemoveAll(matches) else [];
    assert t[n + 1..] == removals;
    forall i | n < i < |t|
      ensures t[i].Remove?
    {
      assert t[i] == removals[i - n - 1];
    }
  }

  /** With a confirmed answer, the outcome counts successes over the whole list; otherwise it only reports the total. */
  lemma OutcomeCounts(photos: seq<Photo>, cutoff: Date, answer: string)
    ensures Outcome(photos, cutoff, answer).total == |Select(photos, cutoff)|
    ensures Confirmed(answer) ==>
      Outcome(photos, cutoff, answer).Finished?
      && Outcome(photos, cutoff, answer).deleted + FailedRemovals(Select(photos, cutoff)) == |Select(photos, cutoff)|
    ensures !Confirmed(answer) ==> Outcome(photos, cutoff, answer).Canceled?
  {
    RemovedPlusFailed(Select(photos, cutoff));
  }

  /**
   * The first loop of `delete_photos`: the whole enumeration is read and the
   * matches are appended to the list, skipping unreadable dates.
   */
  method CollectMatches(photos: seq<Photo>, cutoff: Date) returns (toDelete: seq<Photo>, trace: seq<Event>)
    ensures toDelete == Select(photos, cutoff)
    ensures trace == ReadAll(photos)
  {
    toDelete := [];
    trace := [];
    for i := 0 to |photos|
      invariant toDelete == Select(photos[..i], cutoff)
      invariant trace == ReadAll(photos[..i])
    {
      var photo := photos[i];
      SelectExtends(photos, i, cutoff);
      assert ReadAll(photos[..i + 1]) == ReadAll(photos[..i]) + [Read(photo)];
      trace := trace + [Read(photo)];
      if photo.created.None? {
        continue;
      }
      if OnOrBefore(photo.created.value, cutoff) {
        toDelete := toDelete + [photo];
      }
    }
    assert photos[..|photos|] == photos;
  }

  /**
   * `delete_photos`: materialise the matches, report their number, ask once,
   * and on "yes" attempt each delete in list order.
   */
  method DeletePhotos(photos: seq<Photo>, cutoff: Date, answer: string)
    returns (outcome: DeleteOutcome, trace: seq<Event>)
    ensures outcome == Outcome(photos, cutoff, answer)
    ensures trace == DeleteTrace(photos, cutoff, answer)
  {
    var toDelete;
    toDelete, trace := CollectMatches(photos, cutoff);
    var total := |toDelete|;
    trace := trace + [Prompt(total)];
    if Lower(answer) != "yes" {
      return Canceled(total), trace;
    }
    var count := 0;
    ghost var prompted := trace;
    for j := 0 to |toDelete|
      invariant count == CountRemoved(toDelete[..j])
      invariant trace == prompted + RemoveAll(toDelete[..j])
    {
      var photo := toDelete[j];
      assert toDelete[..j + 1][..j] == toDelete[..j];
      assert RemoveAll(toDelete[..j + 1]) == RemoveAll(toDelete[..j]) + [Remove(photo)];
      trace := trace + [Remove(photo)];
      if photo.removable {
        count := count + 1;
      }
    }
    assert toDelete[..|toDelete|] == toDelete;
    outcome := Finished(count, total);
  }
}

/**
 * The split tool's per-range download flags, kept across reruns of the page:
 * one flag per accepted range, set when that range's file was downloaded.
 */
module SplitTracker {

  /** A fresh flag list: nothing downloaded yet. */
  function AllClear(n: nat): (flags: seq<bool>)
    ensures |flags| == n && forall i :: 0 <= i < n ==> !flags[i]
  {
    seq(n, _ => false)
  }

  predicate AllSet(flags: seq<bool>) {
    forall i :: 0 <= i < |flags| ==> flags[i]
  }

  /**
   * Whether the completion message shows for `count` ranges: it shows
   * exactly when there are ranges and none of them is offered any more.
   */
  function Completed(flags: seq<bool>, count: nat): (done: bool)
    ensures done <==> count > 0 && Pending(flags) == []
  {
    AllSetIffNothingPending(flags);
    AllSet(flags) && count > 0
  }

  /** The ranges still offered for download: the indices of clear flags, ascending. */
  function Pending(flags: seq<bool>): seq<nat> {
    if flags == [] then []
    else Pending(flags[..|flags| - 1]) + (if flags[|flags| - 1] then [] else [|flags| - 1])
  }

  /** Sets the flags of the given indices one after another. */
  function MarkAll(flags: seq<bool>, idx: seq<nat>): (r: seq<bool>)
    requires forall k :: 0 <= k < |idx| ==> idx[k] < |flags|
    ensures |r| == |flags|
    decreases |idx|
  {
    if idx == [] then flags else MarkAll(flags[idx[0] := true], idx[1..])
  }

  /**
   * The session's download flags. `count` is the number of ranges the
   * flags were last sized for; the tracker is valid while it holds one
   * flag per range.
   */
  class DownloadTracker {
    var downloaded: seq<bool>
    ghost var count: nat

    ghost predicate Valid()
      reads this
    {
      |downloaded| == count
    }

    /** The flag list starts out empty, sized for no ranges. */
    constructor ()
      ensures Valid() && count == 0
      ensures downloaded == []
    {
      downloaded := [];
      count := 0;
    }

    /**
     * Sizes the flags for `n` ranges: when the number of ranges changed,
     * every flag is cleared; otherwise the flags are kept as they are. It
     * runs only when the input gave at least one range.
     */
    method Sync(n: nat)
      requires n > 0
      modifies this
      ensures Valid() && count == n
      ensures |old(downloaded)| != n ==> downloaded == AllClear(n)
      ensures |old(downloaded)| == n ==> downloaded == old(downloaded)
    {
      if |downloaded| != n {
        downloaded := AllClear(n);
      }
      count := n;
    }

    /** A download of range i sets that range's flag and no other. */
    method MarkDownloaded(i: nat)
      requires Valid() && i < count
      modifies this
      ensures Valid() && count == old(count)
      ensures downloaded == old(downloaded)[i := true]
    {
      downloaded := downloaded[i := true];
    }

    /** The reset button clears every flag, one per range. */
    method Reset()
      requires Valid()
      modifies this
      ensures Valid() && count == old(count)
      ensures downloaded == AllClear(count)
    {
      downloaded := AllClear(|downloaded|);
    }

    /** The ranges that get a download button on this run. */
    method Offered() returns (idx: seq<nat>)
      requires Valid()
      ensures idx == Pending(downloaded)
      ensures forall k :: 0 <= k < |idx| ==> idx[k] < count
    {
      idx := [];
      for i := 0 to |downloaded|
        invariant idx == Pending(downloaded[..i])
      {
        assert downloaded[..i + 1][..i] == downloaded[..i];
        if !downloaded[i] {
          idx := idx + [i];
        }
      }
      assert downloaded[..|downloaded|] == downloaded;
      PendingExactly(downloaded);
    }
  }

  /** A range is offered exactly when its flag is clear, each once and in order. */
  lemma {:induction false} PendingExactly(flags: seq<bool>)
    ensures forall k :: 0 <= k < |Pending(flags)| ==> Pending(flags)[k] < |flags|
    ensures forall i :: i in Pending(flags) <==> 0 <= i < |flags| && !flags[i]
    ensures forall j, k :: 0 <= j < k < |Pending(flags)| ==> Pending(flags)[j] < Pending(flags)[k]
    decreases |flags|
  {
    if flags != [] {
      var init := flags[..|flags| - 1];
      PendingExactly(init);
      assert forall i :: 0 <= i < |init| ==> init[i] == flags[i];
    }
  }

  /** After a reset every range is offered again. */
  lemma {:induction false} ResetOffersAll(n: nat)
    ensures Pending(AllClear(n)) == seq(n, i => i)
    decreases n
  {
    if n > 0 {
      assert AllClear(n)[..n - 1] == AllClear(n - 1);
      ResetOffersAll(n - 1);
    }
  }

  /** After marking indices, a flag is set exactly when it was set before or was marked. */
  lemma {:induction false} MarkAllSets(flags: seq<bool>, idx: seq<nat>)
    requires forall k :: 0 <= k < |idx| ==> idx[k] < |flags|
    ensures forall i :: 0 <= i < |flags| ==> (MarkAll(flags, idx)[i] <==> flags[i] || i in idx)
    decreases |idx|
  {
    if idx != [] {
      MarkAllSets(flags[idx[0] := true], idx[1..]);
      assert forall i :: i in idx <==> i == idx[0] || i in idx[1..];
    }
  }

  /** Every flag is set exactly when no index is pending. */
  lemma AllSetIffNothingPending(flags: seq<bool>)
    ensures AllSet(flags) <==> Pending(flags) == []
  {
    PendingExactly(flags);
    if Pending(flags) != [] {
      assert Pending(flags)[0] in Pending(flags);
    }
  }

  /**
   * Downloading every offered range completes the split: all flags end up
   * set, so the completion message shows.
   */
  lemma DownloadingOfferedCompletes(flags: seq<bool>)
    requires |flags| > 0
    ensures forall k :: 0 <= k < |Pending(flags)| ==> Pending(flags)[k] < |flags|
    ensures Completed(MarkAll(flags, Pending(flags)), |flags|)
  {
    PendingExactly(flags);
    MarkAllSets(flags, Pending(flags));
  }
}

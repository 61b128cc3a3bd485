/**
 * The merge tool: every uploaded file's pages, appended to one writer in
 * upload order. A file that cannot be read aborts the whole merge.
 */
module Merge {
  import opened Outcomes
  import opened Seqs

  /** One uploaded file, as the PDF reader sees it. */
  datatype Upload<P> = Readable(pages: seq<P>) | Unreadable

  /** The pages a file contributes (none when it cannot be read). */
  function PagesOf<P>(u: Upload<P>): seq<P> {
    if u.Readable? then u.pages else []
  }

  predicate AllReadable<P>(us: seq<Upload<P>>) {
    forall i :: 0 <= i < |us| ==> us[i].Readable?
  }

  /** The pages of all files, in upload order. */
  function AllPages<P>(us: seq<Upload<P>>): seq<P> {
    if us == [] then [] else AllPages(us[..|us| - 1]) + PagesOf(us[|us| - 1])
  }

  /** The total page count of the uploads. */
  function PageCount<P>(us: seq<Upload<P>>): nat {
    if us == [] then 0 else PageCount(us[..|us| - 1]) + |PagesOf(us[|us| - 1])|
  }

  /**
   * The merge button's handler: opens each file in turn and appends each of
   * its pages. It runs only when at least one file was uploaded.
   */
  method MergeUploads<P>(uploads: seq<Upload<P>>) returns (r: Option<seq<P>>)
    requires |uploads| > 0
    ensures r.None? <==> !AllReadable(uploads)
    ensures r.Some? ==> r.value == AllPages(uploads)
  {
    var writer: seq<P> := [];
    for i := 0 to |uploads|
      invariant AllReadable(uploads[..i])
      invariant writer == AllPages(uploads[..i])
    {
      if uploads[i].Unreadable? {
        return None;
      }
      var pages := uploads[i].pages;
      for k := 0 to |pages|
        invariant writer == AllPages(uploads[..i]) + pages[..k]
      {
        writer := writer + [pages[k]];
      }
      assert pages[..|pages|] == pages;
      assert uploads[..i + 1][..i] == uploads[..i];
    }
    assert uploads[..|uploads|] == uploads;
    return Some(writer);
  }

  lemma AllPagesSnoc<P>(us: seq<Upload<P>>, u: Upload<P>)
    ensures AllPages(us + [u]) == AllPages(us) + PagesOf(u)
  {
    assert (us + [u])[..|us|] == us;
  }

  /** Merging two batches of files gives the first batch's pages, then the second's. */
  lemma {:induction false} AllPagesAppend<P>(a: seq<Upload<P>>, b: seq<Upload<P>>)
    ensures AllPages(a + b) == AllPages(a) + AllPages(b)
    decreases |b|
  {
    if b == [] {
      assert a + b == a;
    } else {
      var b', last := b[..|b| - 1], b[|b| - 1];
      AllPagesAppend(a, b');
      AllPagesAppendStep(a, b', last);
      assert b' + [last] == b;
    }
  }

  /** One inductive step of AllPagesAppend: appending a file to the second batch. */
  lemma AllPagesAppendStep<P>(a: seq<Upload<P>>, b: seq<Upload<P>>, u: Upload<P>)
    requires AllPages(a + b) == AllPages(a) + AllPages(b)
    ensures AllPages(a + (b + [u])) == AllPages(a) + AllPages(b + [u])
  {
    ConcatAssoc(a, b, [u]);
    AllPagesSnoc(a + b, u);
    AllPagesSnoc(b, u);
    ConcatAssoc(AllPages(a), AllPages(b), PagesOf(u));
  }


  /** The merged document has as many pages as all inputs together. */
  lemma {:induction false} MergedLength<P>(us: seq<Upload<P>>)
    ensures |AllPages(us)| == PageCount(us)
    decreases |us|
  {
    if us != [] {
      MergedLength(us[..|us| - 1]);
    }
  }

  /**
   * Page k of file i lands at position k after all pages of the files
   * uploaded before it.
   */
  lemma MergedPagePosition<P>(us: seq<Upload<P>>, i: nat, k: nat)
    requires i < |us| && k < |PagesOf(us[i])|
    ensures |AllPages(us[..i])| + k < |AllPages(us)|
    ensures AllPages(us)[|AllPages(us[..i])| + k] == PagesOf(us[i])[k]
  {
    assert us == us[..i] + [us[i]] + us[i + 1..];
    AllPagesAppend(us[..i] + [us[i]], us[i + 1..]);
    AllPagesAppend(us[..i], [us[i]]);
    assert AllPages([us[i]]) == PagesOf(us[i]) by {
      assert [us[i]][..0] == [];
    }
  }

  /**
   * Merging is associative: feeding an earlier merge result back in
   * alongside further files gives the same pages as one merge of all files.
   */
  lemma MergeAssociative<P>(xs: seq<Upload<P>>, ys: seq<Upload<P>>)
    ensures AllPages([Readable(AllPages(xs))] + ys) == AllPages(xs + ys)
    ensures AllPages(xs + [Readable(AllPages(ys))]) == AllPages(xs + ys)
  {
    var mx, my := [Readable(AllPages(xs))], [Readable(AllPages(ys))];
    assert AllPages(mx) == AllPages(xs) by { assert mx[..0] == []; }
    assert AllPages(my) == AllPages(ys) by { assert my[..0] == []; }
    AllPagesAppend(mx, ys);
    AllPagesAppend(xs, my);
    AllPagesAppend(xs, ys);
  }
}

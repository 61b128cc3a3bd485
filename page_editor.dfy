/**
 * The page editor: a rotation and a delete mark per page, a default order
 * listing the pages that are kept, and the commit that builds the output
 * page list from the order the user typed.
 */
module PageEditor {
  import opened Outcomes
  import opened PyText
  import opened Seqs

  /** What the user picked for one page in its expander. */
  datatype PageChoice = PageChoice(rotate: int, delete: bool)

  /** One entry of the editor's action list: a 0-based page, its rotation, its delete mark. */
  datatype PageAction = PageAction(page: nat, rotate: int, delete: bool)

  /** One page of the edited document: the source page it shows and its rotation. */
  datatype PlacedPage = PlacedPage(source: nat, rotation: int)

  /** Why a commit produced no document. */
  datatype CommitError =
    | NotAnInteger                  // an order entry that `int()` rejects
    | InvalidPageNumber(number: int) // an entry outside 1..page count, as typed
    | EmptyDocument                 // no page was added, and PyMuPDF refuses to save

  /** Builds the action list, one entry per page, in page order. */
  method CollectActions(choices: seq<PageChoice>) returns (actions: seq<PageAction>)
    ensures |actions| == |choices|
    ensures forall i :: 0 <= i < |actions| ==>
      actions[i] == PageAction(i, choices[i].rotate, choices[i].delete)
  {
    actions := [];
    for i := 0 to |choices|
      invariant |actions| == i
      invariant forall j :: 0 <= j < i ==>
        actions[j] == PageAction(j, choices[j].rotate, choices[j].delete)
    {
      actions := actions + [PageAction(i, choices[i].rotate, choices[i].delete)];
    }
  }

  /** The 0-based positions of the pages not marked for deletion, ascending. */
  function RemainingIndices(actions: seq<PageAction>): seq<nat> {
    if actions == [] then []
    else
      var n := |actions| - 1;
      RemainingIndices(actions[..n]) + (if actions[n].delete then [] else [n])
  }

  /** The kept pages in their original order, each with its rotation. */
  function Surviving(actions: seq<PageAction>): seq<PlacedPage> {
    if actions == [] then []
    else
      var n := |actions| - 1;
      Surviving(actions[..n])
        + (if actions[n].delete then [] else [PlacedPage(actions[n].page, actions[n].rotate)])
  }

  /** The 1-based page numbers of the given positions, as decimal text. */
  function PageNumbers(idx: seq<nat>): (strs: seq<string>)
    ensures |strs| == |idx|
  {
    seq(|idx|, k requires 0 <= k < |idx| => Str(idx[k] + 1))
  }

  /**
   * The order box's initial text: the kept pages' numbers joined by commas.
   * It is empty exactly when every page is marked for deletion, and
   * otherwise holds one comma fewer than there are kept pages.
   */
  function DefaultOrder(actions: seq<PageAction>): (text: string)
    ensures text == [] <==> forall i :: 0 <= i < |actions| ==> actions[i].delete
    ensures text != [] ==> Count(text, ',') + 1 == |RemainingIndices(actions)|
  {
    JoinedNumbersShape(actions);
    Join(PageNumbers(RemainingIndices(actions)), ',')
  }

  lemma JoinedNumbersShape(actions: seq<PageAction>)
    ensures var idx := RemainingIndices(actions);
      var text := Join(PageNumbers(idx), ',');
      && (text == [] <==> idx == [])
      && (idx == [] <==> forall i :: 0 <= i < |actions| ==> actions[i].delete)
      && (idx != [] ==> Count(text, ',') + 1 == |idx|)
  {
    var idx := RemainingIndices(actions);
    var strs := PageNumbers(idx);
    RemainingExactly(actions);
    if idx != [] {
      assert idx[0] in idx;
      assert strs[0] != [];
      assert strs == [strs[0]] + strs[1..];
    } else {
      assert forall i :: 0 <= i < |actions| && !actions[i].delete ==> i in idx;
    }
    forall k | 0 <= k < |strs|
      ensures ',' !in strs[k]
    {
      StrHasNoComma(idx[k] + 1);
    }
  }

  /**
   * The stripped, non-blank pieces of the comma-split order text, in order:
   * none of them is empty or padded, there are at most as many as pieces,
   * and there are none exactly when every piece is blank.
   */
  function OrderEntries(parts: seq<string>): (entries: seq<string>)
    ensures |entries| <= |parts|
    ensures forall k :: 0 <= k < |entries| ==> entries[k] != [] && Strip(entries[k]) == entries[k]
    ensures entries == [] <==> forall k :: 0 <= k < |parts| ==> AllSpace(parts[k])
  {
    if parts == [] then []
    else
      StripIdempotent(parts[0]);
      StripEmptyIff(parts[0]);
      assert forall k :: 1 <= k < |parts| ==> parts[k] == parts[1..][k - 1];
      (if Strip(parts[0]) != [] then [Strip(parts[0])] else []) + OrderEntries(parts[1..])
  }

  /**
   * `int(x) - 1` for every entry; one entry that is not an integer spoils
   * the lot. Otherwise there is one number per entry, in entry order.
   */
  function ParseNumbers(entries: seq<string>): (r: Option<seq<int>>)
    ensures r.None? <==> exists k :: 0 <= k < |entries| && ParseInt(entries[k]).None?
    ensures r.Some? ==> |r.value| == |entries|
    ensures r.Some? ==> forall k :: 0 <= k < |entries| ==> r.value[k] == ParseInt(entries[k]).value - 1
  {
    if entries == [] then Some([])
    else
      assert forall k :: 1 <= k < |entries| ==> entries[k] == entries[1..][k - 1];
      match (ParseInt(entries[0]), ParseNumbers(entries[1..]))
      case (Some(v), Some(vs)) => Some([v - 1] + vs)
      case _ => None
  }

  /**
   * The 0-based page positions the order text asks for, in order: the text
   * parses exactly when every entry is an integer, and then gives one
   * position per entry, `int(x) - 1`.
   */
  function ParseOrder(order: string): (r: Option<seq<int>>)
    ensures r.None? <==>
      exists k :: 0 <= k < |OrderEntries(Split(order, ','))| && ParseInt(OrderEntries(Split(order, ','))[k]).None?
    ensures r.Some? ==> |r.value| == |OrderEntries(Split(order, ','))|
    ensures r.Some? ==> forall k :: 0 <= k < |OrderEntries(Split(order, ','))| ==>
      r.value[k] == ParseInt(OrderEntries(Split(order, ','))[k]).value - 1
  {
    ParseNumbers(OrderEntries(Split(order, ',')))
  }

  predicate InRange(count: nat, n: int) {
    0 <= n < count
  }

  /** The position of the first entry outside the document, or the length when there is none. */
  function FirstInvalid(count: nat, nums: seq<int>): (k: nat)
    ensures k <= |nums|
    ensures forall j :: 0 <= j < k ==> InRange(count, nums[j])
    ensures k < |nums| ==> !InRange(count, nums[k])
  {
    if nums == [] then 0
    else if !InRange(count, nums[0]) then 0
    else 1 + FirstInvalid(count, nums[1..])
  }

  /** What one order entry adds: its page, unless it is out of range or deleted. */
  function Place(actions: seq<PageAction>, n: int): seq<PlacedPage> {
    if InRange(|actions|, n) && !actions[n].delete then [PlacedPage(actions[n].page, actions[n].rotate)]
    else []
  }

  /** The pages the order entries add, in entry order. */
  function Kept(actions: seq<PageAction>, nums: seq<int>): seq<PlacedPage> {
    if nums == [] then [] else Kept(actions, nums[..|nums| - 1]) + Place(actions, nums[|nums| - 1])
  }

  /**
   * The outcome of a commit once the order text has been read: text that
   * did not parse yields no document; otherwise the first entry outside the
   * document aborts with its number as typed; otherwise the pages of the
   * entries that were not deleted, unless there are none, which the PDF
   * library refuses to save.
   */
  function Decide(actions: seq<PageAction>, parsed: Option<seq<int>>): Result<seq<PlacedPage>, CommitError> {
    match parsed
    case None => Failure(NotAnInteger)
    case Some(nums) =>
      var k := FirstInvalid(|actions|, nums);
      if k < |nums| then Failure(InvalidPageNumber(nums[k] + 1))
      else if Kept(actions, nums) == [] then Failure(EmptyDocument)
      else Success(Kept(actions, nums))
  }

  /** The outcome of committing the order text. */
  function CommitResult(actions: seq<PageAction>, order: string): Result<seq<PlacedPage>, CommitError> {
    Decide(actions, ParseOrder(order))
  }

  /** The apply button's handler: reads the order text, then builds the page list. */
  method Commit(actions: seq<PageAction>, order: string) returns (r: Result<seq<PlacedPage>, CommitError>)
    ensures r == CommitResult(actions, order)
  {
    var parsed := ParseOrder(order);
    if parsed.None? {
      return Failure(NotAnInteger);
    }
    r := BuildPages(actions, parsed.value);
  }

  /**
   * The loop over the parsed entries: an entry outside the document raises
   * and ends the commit, a deleted page is skipped, any other page is
   * appended with its rotation. Saving a document without pages raises too.
   */
  method BuildPages(actions: seq<PageAction>, nums: seq<int>) returns (r: Result<seq<PlacedPage>, CommitError>)
    ensures r == Decide(actions, Some(nums))
  {
    var pages: seq<PlacedPage> := [];
    for i := 0 to |nums|
      invariant forall j :: 0 <= j < i ==> InRange(|actions|, nums[j])
      invariant pages == Kept(actions, nums[..i])
    {
      assert nums[..i + 1][..i] == nums[..i];
      var pnum := nums[i];
      if pnum < 0 || pnum >= |actions| {
        FirstInvalidAt(|actions|, nums, i);
        return Failure(InvalidPageNumber(pnum + 1));
      }
      if !actions[pnum].delete {
        pages := pages + [PlacedPage(actions[pnum].page, actions[pnum].rotate)];
      }
    }
    assert nums[..|nums|] == nums;
    FirstInvalidAt(|actions|, nums, |nums|);
    if pages == [] {
      return Failure(EmptyDocument);
    }
    return Success(pages);
  }

  /** The first invalid entry is the one after a run of valid entries. */
  lemma {:induction false} FirstInvalidAt(count: nat, nums: seq<int>, i: nat)
    requires i <= |nums|
    requires forall j :: 0 <= j < i ==> InRange(count, nums[j])
    requires i < |nums| ==> !InRange(count, nums[i])
    ensures FirstInvalid(count, nums) == i
    decreases i
  {
    if i > 0 {
      FirstInvalidAt(count, nums[1..], i - 1);
    }
  }

  // ---------------------------------------------------------------------
  // The kept pages

  lemma {:induction false} KeptAppend(actions: seq<PageAction>, x: seq<int>, y: seq<int>)
    ensures Kept(actions, x + y) == Kept(actions, x) + Kept(actions, y)
    decreases |y|
  {
    if y == [] {
      assert x + y == x;
    } else {
      var y', n := y[..|y| - 1], y[|y| - 1];
      assert y == y' + [n];
      KeptAppend(actions, x, y');
      KeptAppendStep(actions, x, y', n);
    }
  }

  /** One inductive step of KeptAppend: one more entry at the end of the second part. */
  lemma KeptAppendStep(actions: seq<PageAction>, x: seq<int>, y: seq<int>, n: int)
    requires Kept(actions, x + y) == Kept(actions, x) + Kept(actions, y)
    ensures Kept(actions, x + (y + [n])) == Kept(actions, x) + Kept(actions, y + [n])
  {
    ConcatAssoc(x, y, [n]);
    KeptSnoc(actions, x + y, n);
    KeptSnoc(actions, y, n);
    ConcatAssoc(Kept(actions, x), Kept(actions, y), Place(actions, n));
  }

  lemma KeptSnoc(actions: seq<PageAction>, x: seq<int>, n: int)
    ensures Kept(actions, x + [n]) == Kept(actions, x) + Place(actions, n)
  {
    assert (x + [n])[..|x|] == x;
  }

  /** A commit never yields more pages than the order has entries. */
  lemma {:induction false} KeptNoLonger(actions: seq<PageAction>, nums: seq<int>)
    ensures |Kept(actions, nums)| <= |nums|
    decreases |nums|
  {
    if nums != [] {
      KeptNoLonger(actions, nums[..|nums| - 1]);
    }
  }

  lemma KeptSingle(actions: seq<PageAction>, n: int)
    ensures Kept(actions, [n]) == Place(actions, n)
  {
    assert [n][..0] == [];
  }

  /** An entry naming a deleted page is skipped: it adds nothing and moves nothing. */
  lemma DeletedEntrySkipped(actions: seq<PageAction>, x: seq<int>, n: int, y: seq<int>)
    requires InRange(|actions|, n) && actions[n].delete
    ensures Kept(actions, x + [n] + y) == Kept(actions, x + y)
  {
    KeptAppend(actions, x + [n], y);
    KeptAppend(actions, x, [n]);
    KeptAppend(actions, x, y);
    KeptSingle(actions, n);
  }

  /**
   * An entry naming a kept page adds that page with its rotation, between
   * the pages of the entries before and after it; repeating an entry
   * repeats the page.
   */
  lemma LiveEntryPlaced(actions: seq<PageAction>, x: seq<int>, n: int, y: seq<int>)
    requires InRange(|actions|, n) && !actions[n].delete
    ensures Kept(actions, x + [n] + y)
      == Kept(actions, x) + [PlacedPage(actions[n].page, actions[n].rotate)] + Kept(actions, y)
  {
    KeptAppend(actions, x + [n], y);
    KeptAppend(actions, x, [n]);
    KeptSingle(actions, n);
  }

  /** Every committed page is a page that was not deleted, with its chosen rotation. */
  lemma {:induction false} KeptAreLive(actions: seq<PageAction>, nums: seq<int>)
    ensures forall p :: p in Kept(actions, nums) ==>
      exists n :: 0 <= n < |actions| && !actions[n].delete
        && p == PlacedPage(actions[n].page, actions[n].rotate)
    decreases |nums|
  {
    if nums != [] {
      KeptAreLive(actions, nums[..|nums| - 1]);
    }
  }

  /** Once every entry is in range, a commit succeeds with no more pages than entries. */
  lemma CommitNoLonger(actions: seq<PageAction>, order: string)
    ensures CommitResult(actions, order).Success? ==>
      |CommitResult(actions, order).value| <= |OrderEntries(Split(order, ','))|
  {
    var entries := OrderEntries(Split(order, ','));
    if ParseOrder(order).Some? {
      var nums := ParseOrder(order).value;
      KeptNoLonger(actions, nums);
    }
  }

  /** An out-of-range entry aborts the commit, naming it, even after valid entries. */
  lemma InvalidEntryAborts(actions: seq<PageAction>, nums: seq<int>, i: nat)
    requires i < |nums|
    requires forall j :: 0 <= j < i ==> InRange(|actions|, nums[j])
    requires !InRange(|actions|, nums[i])
    ensures Decide(actions, Some(nums)) == Failure(InvalidPageNumber(nums[i] + 1))
  {
    FirstInvalidAt(|actions|, nums, i);
  }

  /**
   * A commit succeeds exactly when every entry is a page of the document and
   * at least one of them names a page that was not deleted.
   */
  lemma SuccessIffAllInRange(actions: seq<PageAction>, nums: seq<int>)
    ensures Decide(actions, Some(nums)).Success? <==>
      (forall j :: 0 <= j < |nums| ==> InRange(|actions|, nums[j]))
      && exists j :: 0 <= j < |nums| && !actions[nums[j]].delete
  {
    if forall j :: 0 <= j < |nums| ==> InRange(|actions|, nums[j]) {
      KeptEmptyIffAllDeleted(actions, nums);
    }
  }

  /** Entries that all name pages of the document add none exactly when every one is deleted. */
  lemma {:induction false} KeptEmptyIffAllDeleted(actions: seq<PageAction>, nums: seq<int>)
    requires forall j :: 0 <= j < |nums| ==> 0 <= nums[j] < |actions|
    ensures Kept(actions, nums) == [] <==> forall j :: 0 <= j < |nums| ==> actions[nums[j]].delete
    decreases |nums|
  {
    if nums != [] {
      var init := nums[..|nums| - 1];
      assert forall j :: 0 <= j < |init| ==> init[j] == nums[j];
      KeptEmptyIffAllDeleted(actions, init);
    }
  }

  /** One entry that is not an integer aborts the commit, wherever it stands. */
  lemma NonIntegerEntryAborts(actions: seq<PageAction>, order: string, k: nat)
    requires k < |OrderEntries(Split(order, ','))|
    requires ParseInt(OrderEntries(Split(order, ','))[k]).None?
    ensures CommitResult(actions, order) == Failure(NotAnInteger)
  {
  }

  // ---------------------------------------------------------------------
  // Parsing the order text

  /** Digit strings pass through the entry filter unchanged. */
  lemma {:induction false} OrderEntriesOfDigits(strs: seq<string>)
    requires forall k :: 0 <= k < |strs| ==> IsDigits(strs[k])
    ensures OrderEntries(strs) == strs
    decreases |strs|
  {
    if strs != [] {
      var s := strs[0];
      assert IsDigits(s);
      assert !IsSpace(s[0]) && !IsSpace(s[|s| - 1]);
      StripUnpadded(s);
      OrderEntriesOfDigits(strs[1..]);
      assert [s] + strs[1..] == strs;
    }
  }

  /** The page numbers of positions parse back to those positions. */
  lemma ParsePageNumbers(idx: seq<nat>)
    requires forall k :: 0 <= k < |idx| ==> |Str(idx[k] + 1)| <= MaxDigits
    ensures ParseNumbers(PageNumbers(idx)) == Some(idx)
  {
    var strs := PageNumbers(idx);
    forall k | 0 <= k < |idx|
      ensures ParseInt(strs[k]) == Some(idx[k] + 1)
    {
      ParseStr(idx[k] + 1);
    }
    var r := ParseNumbers(strs);
    assert r.Some?;
    assert |r.value| == |idx|;
    assert forall k :: 0 <= k < |idx| ==> r.value[k] == idx[k];
    assert r.value == idx;
  }

  /** A comma-joined list of page numbers parses back to its positions. */
  lemma JoinedNumbersParse(idx: seq<nat>)
    requires forall k :: 0 <= k < |idx| ==> |Str(idx[k] + 1)| <= MaxDigits
    ensures ParseOrder(Join(PageNumbers(idx), ',')) == Some(idx)
  {
    var strs := PageNumbers(idx);
    if idx == [] {
      assert Split(Join(strs, ','), ',') == [""];
      assert Strip("") == "";
    } else {
      forall k | 0 <= k < |strs|
        ensures ',' !in strs[k]
      {
        StrHasNoComma(idx[k] + 1);
      }
      SplitJoin(strs, ',');
      OrderEntriesOfDigits(strs);
      ParsePageNumbers(idx);
    }
  }

  /**
   * An order text listing page numbers of the document commits exactly
   * their pages, unless all of them were deleted.
   */
  lemma CommitJoinedNumbers(actions: seq<PageAction>, idx: seq<nat>)
    requires forall k :: 0 <= k < |idx| ==> idx[k] < |actions| && |Str(idx[k] + 1)| <= MaxDigits
    ensures Kept(actions, idx) != [] ==>
      CommitResult(actions, Join(PageNumbers(idx), ',')) == Success(Kept(actions, idx))
    ensures Kept(actions, idx) == [] ==>
      CommitResult(actions, Join(PageNumbers(idx), ',')) == Failure(EmptyDocument)
  {
    JoinedNumbersParse(idx);
    FirstInvalidAt(|actions|, idx, |idx|);
  }

  // ---------------------------------------------------------------------
  // The default order

  /** The kept positions are exactly the pages not marked for deletion, ascending. */
  lemma {:induction false} RemainingExactly(actions: seq<PageAction>)
    ensures forall k :: 0 <= k < |RemainingIndices(actions)| ==> RemainingIndices(actions)[k] < |actions|
    ensures forall i :: i in RemainingIndices(actions) <==> 0 <= i < |actions| && !actions[i].delete
    ensures forall j, k :: 0 <= j < k < |RemainingIndices(actions)| ==>
      RemainingIndices(actions)[j] < RemainingIndices(actions)[k]
    decreases |actions|
  {
    if actions != [] {
      var init := actions[..|actions| - 1];
      RemainingExactly(init);
      assert forall i :: 0 <= i < |init| ==> init[i] == actions[i];
    }
  }

  /** Entries that only name pages of a prefix select the same pages from the whole list. */
  lemma {:induction false} KeptInPrefix(actions: seq<PageAction>, m: nat, nums: seq<int>)
    requires m <= |actions|
    requires forall k :: 0 <= k < |nums| ==> InRange(m, nums[k])
    ensures Kept(actions[..m], nums) == Kept(actions, nums)
    decreases |nums|
  {
    if nums != [] {
      KeptInPrefix(actions, m, nums[..|nums| - 1]);
    }
  }

  /** The default order's entries select exactly the kept pages, in original order. */
  lemma {:induction false} KeptRemaining(actions: seq<PageAction>)
    ensures Kept(actions, RemainingIndices(actions)) == Surviving(actions)
    decreases |actions|
  {
    if actions != [] {
      var n := |actions| - 1;
      var init := actions[..n];
      var r := RemainingIndices(init);
      KeptRemaining(init);
      RemainingExactly(init);
      KeptInPrefix(actions, n, r);
      assert Kept(actions, r) == Surviving(init);
      if !actions[n].delete {
        assert RemainingIndices(actions) == r + [n];
        KeptAppend(actions, r, [n]);
        KeptSingle(actions, n);
      } else {
        assert RemainingIndices(actions) == r;
      }
    }
  }

  /**
   * Committing the default order untouched gives every kept page in its
   * original order with its rotation; when every page is marked for
   * deletion, the empty document is refused. The page count's decimal text
   * must be within `str()`'s digit limit, as line 343 needs.
   */
  lemma DefaultOrderRoundTrip(actions: seq<PageAction>)
    requires |Str(|actions|)| <= MaxDigits
    ensures Surviving(actions) != [] ==> CommitResult(actions, DefaultOrder(actions)) == Success(Surviving(actions))
    ensures Surviving(actions) == [] ==> CommitResult(actions, DefaultOrder(actions)) == Failure(EmptyDocument)
  {
    var idx := RemainingIndices(actions);
    RemainingExactly(actions);
    forall k | 0 <= k < |idx|
      ensures |Str(idx[k] + 1)| <= MaxDigits
    {
      StrLengthMonotone(idx[k] + 1, |actions|);
    }
    CommitJoinedNumbers(actions, idx);
    KeptRemaining(actions);
  }

  // ---------------------------------------------------------------------
  // A three-page document whose last page is marked for deletion

  /** The default order lists the first two pages. */
  lemma ThreePageDefault(actions: seq<PageAction>)
    requires actions == [PageAction(0, 0, false), PageAction(1, 0, false), PageAction(2, 0, true)]
    ensures DefaultOrder(actions) == "1,2"
  {
    assert RemainingIndices(actions[..1]) == [0] by {
      assert actions[..1][..0] == [];
    }
    assert RemainingIndices(actions[..2]) == [0, 1] by {
      assert actions[..2][..1] == actions[..1];
    }
    assert RemainingIndices(actions) == [0, 1];
    assert Str(1) == "1" && Str(2) == "2" by {
      assert DigitChar(1) == '1' && DigitChar(2) == '2';
    }
    assert PageNumbers([0, 1]) == ["1", "2"];
    assert Join(["1", "2"], ',') == "1,2" by {
      assert ["1", "2"][1..] == ["2"];
    }
  }

  /** The order `3,1,2` names the deleted page first, which is skipped. */
  lemma ThreePageReorder(actions: seq<PageAction>, order: string)
    requires actions == [PageAction(0, 0, false), PageAction(1, 0, false), PageAction(2, 0, true)]
    requires order == "3,1,2"
    ensures CommitResult(actions, order) == Success([PlacedPage(0, 0), PlacedPage(1, 0)])
  {
    var idx: seq<nat> := [2, 0, 1];
    ReorderText(idx, order);
    ReorderKept(actions, idx);
    CommitJoinedNumbers(actions, idx);
  }

  lemma ReorderText(idx: seq<nat>, order: string)
    requires idx == [2, 0, 1] && order == "3,1,2"
    ensures Join(PageNumbers(idx), ',') == order
    ensures forall k :: 0 <= k < |idx| ==> |Str(idx[k] + 1)| == 1
  {
    assert Str(3) == "3" && Str(1) == "1" && Str(2) == "2" by {
      assert DigitChar(3) == '3' && DigitChar(1) == '1' && DigitChar(2) == '2';
    }
    var strs := PageNumbers(idx);
    assert strs == ["3", "1", "2"];
    assert strs[1..][1..] == ["2"];
    assert Join(strs[1..], ',') == "1,2";
    assert Join(strs, ',') == "3" + [','] + "1,2";
  }

  lemma ReorderKept(actions: seq<PageAction>, idx: seq<nat>)
    requires actions == [PageAction(0, 0, false), PageAction(1, 0, false), PageAction(2, 0, true)]
    requires idx == [2, 0, 1]
    ensures Kept(actions, idx) == [PlacedPage(0, 0), PlacedPage(1, 0)]
  {
    assert Kept(actions, idx[..1]) == [] by {
      assert idx[..1][..0] == [];
    }
    assert Kept(actions, idx[..2]) == [PlacedPage(0, 0)] by {
      assert idx[..2][..1] == idx[..1];
    }
    assert idx[..3][..2] == idx[..2];
  }

  /**
   * The order `-1` is parsed as `int("-1") - 1`, which lies outside the
   * document: the error names -1, as typed.
   */
  lemma ThreePageNegative(actions: seq<PageAction>, order: string)
    requires actions == [PageAction(0, 0, false), PageAction(1, 0, false), PageAction(2, 0, true)]
    requires order == "-1"
    ensures CommitResult(actions, order) == Failure(InvalidPageNumber(-1))
  {
    assert Split(order, ',') == [order] by {
      SplitWithoutSep(order, ',');
    }
    assert order == "" + "-" + "1" + "";
    StripSignedPadded("", "-", "1", "");
    ParseSignedPadded("", "-", "1", "");
    assert OrderEntries([order]) == [order] by {
      assert [order][1..] == [];
    }
    assert ParseInt(order) == Some(-1) by {
      assert DigitsValue("1") == 1;
    }
    assert ParseNumbers([order]) == Some([-2]) by {
      var entries := [order];
      assert entries[0] == order && entries[1..] == [];
      assert ParseNumbers(entries[1..]) == Some([]);
      assert [-1 - 1] + [] == [-2];
    }
    InvalidEntryAborts(actions, [-2], 0);
  }

  /** The order `1,4` names a page the document lacks: no document, error names 4. */
  lemma ThreePageOutOfRange(actions: seq<PageAction>, order: string)
    requires actions == [PageAction(0, 0, false), PageAction(1, 0, false), PageAction(2, 0, true)]
    requires order == "1,4"
    ensures CommitResult(actions, order) == Failure(InvalidPageNumber(4))
  {
    var idx: seq<nat> := [0, 3];
    assert Str(1) == "1" && Str(4) == "4" by {
      assert DigitChar(1) == '1' && DigitChar(4) == '4';
    }
    assert PageNumbers(idx) == ["1", "4"];
    assert Join(PageNumbers(idx), ',') == order;
    JoinedNumbersParse(idx);
    InvalidEntryAborts(actions, idx, 1);
  }
}

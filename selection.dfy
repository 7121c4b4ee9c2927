/** The photo selection page (client/pages/select.js): the list of chosen
    photo indices, toggled with a cap, pre-filled on mount, gated on an exact
    count, and sorted in place before the chosen photos are sent. */
module Selection {
  import opened Common
  import Templates

  // ---------------------------------------------------------------------
  // Lists of indices
  // ---------------------------------------------------------------------

  predicate NoDup(s: seq<nat>) {
    forall p, q :: 0 <= p < q < |s| ==> s[p] != s[q]
  }

  predicate AllBelow(s: seq<nat>, n: nat) {
    forall k :: 0 <= k < |s| ==> s[k] < n
  }

  predicate Sorted(s: seq<nat>) {
    forall p, q :: 0 <= p < q < |s| ==> s[p] <= s[q]
  }

  /** `prev.filter(i => i !== x)` */
  function Remove(s: seq<nat>, x: nat): (r: seq<nat>)
    ensures |r| <= |s|
    ensures forall y :: y in r <==> y in s && y != x
  {
    if s == [] then []
    else if s[0] == x then Remove(s[1..], x)
    else [s[0]] + Remove(s[1..], x)
  }

  lemma {:induction false} RemoveKeepsNoDup(s: seq<nat>, x: nat)
    requires NoDup(s)
    ensures NoDup(Remove(s, x))
    ensures x in s ==> |Remove(s, x)| == |s| - 1
  {
    if s != [] {
      assert NoDup(s[1..]);
      RemoveKeepsNoDup(s[1..], x);
      if s[0] == x {
        assert x !in s[1..];
        RemoveAbsent(s[1..], x);
      } else {
        var rest := Remove(s[1..], x);
        assert s[0] !in s[1..];
        assert s[0] !in rest;
        var r := [s[0]] + rest;
        forall p, q | 0 <= p < q < |r| ensures r[p] != r[q] {
          if p == 0 { assert r[q] == rest[q - 1]; assert rest[q - 1] in rest; }
          else { assert r[p] == rest[p - 1] && r[q] == rest[q - 1]; }
        }
      }
    }
  }

  lemma {:induction false} RemoveAbsent(s: seq<nat>, x: nat)
    requires x !in s
    ensures Remove(s, x) == s
  {
    if s != [] {
      RemoveAbsent(s[1..], x);
      assert [s[0]] + s[1..] == s;
    }
  }

  lemma {:induction false} RemoveKeepsBound(s: seq<nat>, x: nat, n: nat)
    requires AllBelow(s, n)
    ensures AllBelow(Remove(s, x), n)
  {
    var r := Remove(s, x);
    forall k | 0 <= k < |r| ensures r[k] < n {
      assert r[k] in r;
      var j :| 0 <= j < |s| && s[j] == r[k];
    }
  }

  /** Distinct indices below n are at most n of them. */
  lemma {:induction false} DistinctBelowBound(s: seq<nat>, n: nat)
    requires NoDup(s) && AllBelow(s, n)
    ensures |s| <= n
    decreases n
  {
    if s != [] {
      assert s[0] < n;
      var r := Remove(s, n - 1);
      RemoveKeepsNoDup(s, n - 1);
      forall k | 0 <= k < |r| ensures r[k] < n - 1 {
        assert r[k] in r;
        var j :| 0 <= j < |s| && s[j] == r[k];
      }
      if n - 1 !in s {
        RemoveAbsent(s, n - 1);
      }
      DistinctBelowBound(r, n - 1);
    }
  }

  // ---------------------------------------------------------------------
  // Toggling
  // ---------------------------------------------------------------------

  /** `togglePhotoSelection`'s state update: remove a chosen index; append a
      new one unless the list is already at the cap. */
  function Toggle(prev: seq<nat>, index: nat, maxPhotos: nat): seq<nat> {
    if index in prev then Remove(prev, index)
    else if |prev| >= maxPhotos then prev
    else prev + [index]
  }

  /** Toggling a chosen index removes it and keeps every other one. */
  lemma ToggleRemoves(prev: seq<nat>, index: nat, maxPhotos: nat)
    requires index in prev
    ensures index !in Toggle(prev, index, maxPhotos)
    ensures forall y :: y != index ==> (y in Toggle(prev, index, maxPhotos) <==> y in prev)
  {
  }

  /** Toggling a new index appends it at the end, or, at the cap, changes nothing. */
  lemma ToggleAdds(prev: seq<nat>, index: nat, maxPhotos: nat)
    requires index !in prev
    ensures |prev| >= maxPhotos ==> Toggle(prev, index, maxPhotos) == prev
    ensures |prev| < maxPhotos ==> Toggle(prev, index, maxPhotos) == prev + [index]
  {
  }

  /** Toggling keeps the list free of duplicates and within the grid, never
      lengthens a list already at or over the cap, and keeps one within it. */
  lemma TogglePreserves(prev: seq<nat>, index: nat, maxPhotos: nat, photoCount: nat)
    requires NoDup(prev) && AllBelow(prev, photoCount)
    requires index < photoCount
    ensures var r := Toggle(prev, index, maxPhotos);
            && NoDup(r) && AllBelow(r, photoCount)
            && (|prev| >= maxPhotos ==> |r| <= |prev|)
            && (|prev| <= maxPhotos ==> |r| <= maxPhotos)
  {
    RemoveKeepsNoDup(prev, index);
    RemoveKeepsBound(prev, index, photoCount);
  }

  /** Choosing a new index and then un-choosing it restores the list. */
  lemma ToggleTwice(prev: seq<nat>, index: nat, maxPhotos: nat)
    requires index !in prev && |prev| < maxPhotos
    ensures Toggle(Toggle(prev, index, maxPhotos), index, maxPhotos) == prev
  {
    RemoveAbsent(prev, index);
    RemoveAppended(prev, index);
  }

  lemma {:induction false} RemoveAppended(s: seq<nat>, x: nat)
    requires x !in s
    ensures Remove(s + [x], x) == s
  {
    if s == [] {
      assert [] + [x] == [x];
      assert [x][1..] == [];
    } else {
      assert (s + [x])[1..] == s[1..] + [x];
      RemoveAppended(s[1..], x);
      assert [s[0]] + s[1..] == s;
    }
  }

  // ---------------------------------------------------------------------
  // Badges
  // ---------------------------------------------------------------------

  /** `selectedPhotos.indexOf(index) + 1` where `indexOf` gives -1 when absent. */
  function Badge(selected: seq<nat>, index: nat): (b: nat)
    ensures b == 0 <==> index !in selected
    ensures b > 0 ==> b <= |selected| && selected[b - 1] == index &&
                      forall k :: 0 <= k < b - 1 ==> selected[k] != index
  {
    if selected == [] then 0
    else if selected[0] == index then 1
    else
      var rest := Badge(selected[1..], index);
      if rest == 0 then 0 else rest + 1
  }

  /** Without duplicates, the badge on the k-th chosen photo is k + 1. */
  lemma BadgeIsPosition(selected: seq<nat>, k: nat)
    requires NoDup(selected) && k < |selected|
    ensures Badge(selected, selected[k]) == k + 1
  {
  }

  // ---------------------------------------------------------------------
  // Auto-select and the gate
  // ---------------------------------------------------------------------

  /** `parsedTemplate.selectCount || 6` */
  function SelectCountOrDefault(selectCount: Option<nat>): (n: nat)
    ensures n > 0
  {
    if selectCount.None? || selectCount.value == 0 then 6 else selectCount.value
  }

  /** The first `n` indices, `photos.slice(0, n).map((_, i) => i)`. */
  function FirstIndices(n: nat): (r: seq<nat>)
    ensures |r| == n && forall k :: 0 <= k < n ==> r[k] == k
  {
    seq(n, k requires 0 <= k < n => k)
  }

  lemma FirstIndicesWellFormed(n: nat, photoCount: nat)
    requires n <= photoCount
    ensures NoDup(FirstIndices(n)) && Sorted(FirstIndices(n)) && AllBelow(FirstIndices(n), photoCount)
  {
  }

  /** The exact-count gate on the process button and handler. */
  predicate GateOpen(selected: seq<nat>, requiredPhotos: nat) {
    |selected| == requiredPhotos
  }

  /** `requiredPhotos` as written: `useState(6)`, never updated. */
  const RequiredAsWritten: nat := 6

  /** `requiredPhotos` (and `maxPhotos`) as the comment beside them intends:
      taken from the template's select count. */
  function RequiredFor(selectCount: Option<nat>): nat {
    SelectCountOrDefault(selectCount)
  }

  /** As written, a `horizontal-single` session (five captured photos) can
      never open the gate: any duplicate-free choice among five photos has at
      most five entries, and the gate wants six. */
  lemma HorizontalSingleGateNeverOpensAsWritten(selected: seq<nat>)
    requires NoDup(selected)
    requires AllBelow(selected, Templates.HorizontalSingle.captureCount)
    ensures !GateOpen(selected, RequiredAsWritten)
  {
    DistinctBelowBound(selected, Templates.HorizontalSingle.captureCount);
  }

  /** With the count taken from the template, the pre-filled choice opens the
      gate whenever enough photos were captured; for `horizontal-single` that
      is the first of its five photos. */
  lemma AutoSelectOpensCorrectedGate(photoCount: nat, selectCount: Option<nat>)
    requires photoCount >= SelectCountOrDefault(selectCount)
    ensures GateOpen(FirstIndices(SelectCountOrDefault(selectCount)), RequiredFor(selectCount))
    ensures selectCount == Some(Templates.HorizontalSingle.selectCount) ==>
              FirstIndices(SelectCountOrDefault(selectCount)) == [0]
  {
  }

  /** The photos sent: `photos[k]` for each chosen index, in list order. */
  function Pick(photos: seq<string>, selected: seq<nat>): (r: seq<string>)
    requires AllBelow(selected, |photos|)
    ensures |r| == |selected| && forall k :: 0 <= k < |selected| ==> r[k] == photos[selected[k]]
  {
    seq(|selected|, k requires 0 <= k < |selected| && AllBelow(selected, |photos|) => photos[selected[k]])
  }

  lemma SortedHeadIsLeast(s: seq<nat>, x: nat)
    requires Sorted(s) && x in multiset(s)
    ensures |s| > 0 && s[0] <= x
  {
    var i :| 0 <= i < |s| && s[i] == x;
    if i > 0 {
      assert s[0] <= s[i];
    }
  }

  lemma SplitHead(s: seq<nat>)
    requires |s| > 0
    ensures multiset(s) == multiset{s[0]} + multiset(s[1..])
    ensures Sorted(s) ==> Sorted(s[1..])
  {
    assert s == [s[0]] + s[1..];
  }

  /** Two sorted lists with the same elements are the same list. */
  lemma {:induction false} SortedPermutationsEqual(a: seq<nat>, b: seq<nat>)
    requires Sorted(a) && Sorted(b) && multiset(a) == multiset(b)
    ensures a == b
    decreases |a|
  {
    if a == [] {
      assert |b| == |multiset(b)| == |multiset(a)| == 0;
    } else {
      assert a[0] in multiset(a);
      SortedHeadIsLeast(b, a[0]);
      assert b[0] in multiset(b);
      SortedHeadIsLeast(a, b[0]);
      SplitHead(a);
      SplitHead(b);
      assert a[0] == b[0];
      assert multiset(a[1..]) == multiset(a) - multiset{a[0]};
      assert multiset(b[1..]) == multiset(b) - multiset{b[0]};
      SortedPermutationsEqual(a[1..], b[1..]);
      assert a == [a[0]] + a[1..] && b == [b[0]] + b[1..];
    }
  }

  /** However the photos were clicked, the same chosen set sends the same photos. */
  lemma SentPhotosIgnoreClickOrder(photos: seq<string>, a: seq<nat>, b: seq<nat>)
    requires Sorted(a) && Sorted(b) && multiset(a) == multiset(b)
    requires AllBelow(a, |photos|)
    ensures AllBelow(b, |photos|) && Pick(photos, a) == Pick(photos, b)
  {
    SortedPermutationsEqual(a, b);
  }

  // ---------------------------------------------------------------------
  // Sorting in place: `selectedPhotos.sort((a, b) => a - b)`
  // ---------------------------------------------------------------------

  method SortAscending(a: array<nat>)
    modifies a
    ensures Sorted(a[..])
    ensures multiset(a[..]) == multiset(old(a[..]))
  {
    var i := 0;
    while i < a.Length
      invariant 0 <= i <= a.Length
      invariant forall p, q :: 0 <= p < q < i ==> a[p] <= a[q]
      invariant multiset(a[..]) == multiset(old(a[..]))
    {
      var j := i;
      while j > 0 && a[j - 1] > a[j]
        invariant 0 <= j <= i
        invariant forall p, q :: 0 <= p < q <= i && q != j ==> a[p] <= a[q]
        invariant multiset(a[..]) == multiset(old(a[..]))
      {
        a[j - 1], a[j] := a[j], a[j - 1];
        j := j - 1;
      }
      i := i + 1;
    }
  }

  // ---------------------------------------------------------------------
  // The page
  // ---------------------------------------------------------------------

  class SelectPage {
    var photos: seq<string>
    var selected: seq<nat>
    var requiredPhotos: nat
    var maxPhotos: nat
    var isProcessing: bool

    /** The chosen indices are distinct photos of the grid.  The cap is not
        part of it: the auto-selection may exceed `maxPhotos`. */
    ghost predicate Valid()
      reads this
    {
      NoDup(selected) && AllBelow(selected, |photos|)
    }

    /** The initial state: nothing loaded, nothing chosen, both counts 6. */
    constructor ()
      ensures Valid()
      ensures photos == [] && selected == [] && !isProcessing
      ensures requiredPhotos == RequiredAsWritten && maxPhotos == RequiredAsWritten
    {
      photos, selected, isProcessing := [], [], false;
      requiredPhotos, maxPhotos := RequiredAsWritten, RequiredAsWritten;
    }

    /** The mount effect, given what session storage holds (None when the
        photos or the template are missing; the page then redirects).  It
        loads the photos and pre-selects the first `selectCount` photos when
        there are enough; `requiredPhotos` and `maxPhotos` are left as they
        were, since their setters are never called. */
    method Mount(captured: Option<seq<string>>, selectCount: Option<nat>)
      requires selected == []
      modifies this`photos, this`selected
      ensures Valid()
      ensures requiredPhotos == old(requiredPhotos) && maxPhotos == old(maxPhotos)
      ensures captured.None? ==> photos == old(photos) && selected == []
      ensures captured.Some? ==>
                && photos == captured.value
                && selected == (if |captured.value| >= SelectCountOrDefault(selectCount)
                                then FirstIndices(SelectCountOrDefault(selectCount)) else [])
    {
      if captured.None? {
        return;
      }
      photos := captured.value;
      var n := SelectCountOrDefault(selectCount);
      if |photos| >= n {
        FirstIndicesWellFormed(n, |photos|);
        selected := FirstIndices(n);
      }
    }

    /** The mount effect as the comment beside the two counts intends: the
        same, but with `requiredPhotos` and `maxPhotos` taken from the
        template's select count. */
    method MountCorrected(captured: Option<seq<string>>, selectCount: Option<nat>)
      requires selected == []
      modifies this`photos, this`selected, this`requiredPhotos, this`maxPhotos
      ensures Valid()
      ensures captured.None? ==> photos == old(photos) && selected == []
                                 && requiredPhotos == old(requiredPhotos) && maxPhotos == old(maxPhotos)
      ensures captured.Some? ==>
                && photos == captured.value
                && requiredPhotos == maxPhotos == RequiredFor(selectCount)
                && selected == (if |captured.value| >= SelectCountOrDefault(selectCount)
                                then FirstIndices(SelectCountOrDefault(selectCount)) else [])
    {
      Mount(captured, selectCount);
      if captured.Some? {
        requiredPhotos, maxPhotos := RequiredFor(selectCount), RequiredFor(selectCount);
      }
    }

    /** A click on photo `index` of the grid. */
    method TogglePhotoSelection(index: nat)
      requires Valid() && index < |photos|
      modifies this`selected
      ensures Valid()
      ensures selected == Toggle(old(selected), index, maxPhotos)
      ensures |old(selected)| <= maxPhotos ==> |selected| <= maxPhotos
    {
      TogglePreserves(selected, index, maxPhotos, |photos|);
      selected := Toggle(selected, index, maxPhotos);
    }

    /** The process button's handler, up to the request: nothing unless exactly
        `requiredPhotos` are chosen; otherwise the list is sorted in place and
        the chosen photos, in index order, are what is sent. */
    method ProcessPhotos() returns (sent: Option<seq<string>>)
      requires Valid()
      modifies this`selected, this`isProcessing
      ensures Valid()
      ensures !GateOpen(old(selected), requiredPhotos) ==>
                sent.None? && selected == old(selected) && isProcessing == old(isProcessing)
      ensures GateOpen(old(selected), requiredPhotos) ==>
                && isProcessing
                && Sorted(selected) && multiset(selected) == multiset(old(selected))
                && sent == Some(Pick(photos, selected))
    {
      if !GateOpen(selected, requiredPhotos) {
        return None;
      }
      isProcessing := true;
      var a := new nat[|selected|](k requires 0 <= k < |selected| reads this => selected[k]);
      assert a[..] == selected;
      SortAscending(a);
      SortedKeepsInvariant(selected, a[..], |photos|);
      selected := a[..];
      sent := Some(Pick(photos, selected));
    }
  }

  /** As written, a `horizontal-single` session goes nowhere: after the mount
      and any clicks on the five photos, the process handler sends nothing. */
  method HorizontalSingleSessionNeverSends(captured: seq<string>, clicks: seq<nat>)
    returns (sent: Option<seq<string>>)
    requires |captured| == Templates.HorizontalSingle.captureCount
    requires forall k :: 0 <= k < |clicks| ==> clicks[k] < |captured|
    ensures sent.None?
  {
    var page := new SelectPage();
    page.Mount(Some(captured), Some(Templates.HorizontalSingle.selectCount));
    var i := 0;
    while i < |clicks|
      invariant 0 <= i <= |clicks|
      invariant page.Valid() && page.photos == captured && page.requiredPhotos == RequiredAsWritten
    {
      page.TogglePhotoSelection(clicks[i]);
      i := i + 1;
    }
    HorizontalSingleGateNeverOpensAsWritten(page.selected);
    sent := page.ProcessPhotos();
  }

  /** With the corrected mount, the same session sends its first photo at once. */
  method HorizontalSingleSessionSendsCorrected(captured: seq<string>) returns (sent: Option<seq<string>>)
    requires |captured| == Templates.HorizontalSingle.captureCount
    ensures sent == Some([captured[0]])
  {
    var page := new SelectPage();
    page.MountCorrected(Some(captured), Some(Templates.HorizontalSingle.selectCount));
    AutoSelectOpensCorrectedGate(|captured|, Some(Templates.HorizontalSingle.selectCount));
    assert page.selected == [0] && page.requiredPhotos == 1;
    sent := page.ProcessPhotos();
    SortedPermutationsEqual(page.selected, [0]);
    assert Pick(page.photos, [0]) == [captured[0]];
  }

  /** A rearrangement of a valid list is still valid. */
  lemma SortedKeepsInvariant(before: seq<nat>, after: seq<nat>, n: nat)
    requires multiset(after) == multiset(before)
    requires NoDup(before) && AllBelow(before, n)
    ensures |after| == |before| && AllBelow(after, n) && NoDup(after)
  {
    assert |after| == |multiset(after)| == |multiset(before)| == |before|;
    forall k | 0 <= k < |after| ensures after[k] < n {
      assert after[k] in multiset(before);
    }
    forall p, q | 0 <= p < q < |after| ensures after[p] != after[q] {
      var x := after[p];
      assert after == after[..p] + [x] + after[p + 1..q] + [after[q]] + after[q + 1..];
      assert multiset(after)[x] >= 1 + multiset([after[q]])[x];
      NoDupCountsOne(before, x);
    }
  }

  lemma {:induction false} NoDupCountsOne(s: seq<nat>, x: nat)
    requires NoDup(s)
    ensures multiset(s)[x] <= 1
  {
    if s != [] {
      assert s == [s[0]] + s[1..];
      assert NoDup(s[1..]);
      NoDupCountsOne(s[1..], x);
      if s[0] == x {
        assert x !in s[1..];
      }
    }
  }
}

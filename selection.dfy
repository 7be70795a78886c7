/** The selection store of the logo-annotation page: pure transformations of the
    list of loaded logos and their `selected` flags. The reference logo is the one
    whose id is the `logo_id` search parameter; `None` stands for an empty parameter,
    which matches no logo. */
module Selection {
  import opened LogoTypes

  /** The page compares a logo's id with the `logo_id` search parameter. */
  predicate IsReference(reference: Option<int>, id: int) {
    reference == Some(id)
  }

  /** `k` is the position of the first entry carrying `id`. */
  predicate IsFirst(logos: seq<LogoEntry>, k: int, id: int) {
    0 <= k < |logos| && logos[k].logo.id == id &&
    forall j :: 0 <= j < k ==> logos[j].logo.id != id
  }

  /** `findIndex` on the id: the position of the first entry with that id, if any. */
  function FirstIndex(logos: seq<LogoEntry>, id: int): (r: Option<nat>)
    ensures r.Some? ==> IsFirst(logos, r.value, id)
    ensures r.None? <==> forall j :: 0 <= j < |logos| ==> logos[j].logo.id != id
  {
    if |logos| == 0 then None
    else if logos[0].logo.id == id then Some(0)
    else match FirstIndex(logos[1..], id)
      case None => None
      case Some(k) => Some(k + 1)
  }

  /** The entry with its selection flipped. */
  function Flip(e: LogoEntry): LogoEntry {
    e.(selected := !e.selected)
  }

  /** `toggleSelection(id)`: refused for the reference logo, a no-op for an id that
      is not loaded, and otherwise flips the flag of the first entry with that id. */
  function ToggleSelection(logos: seq<LogoEntry>, reference: Option<int>, id: int): (r: seq<LogoEntry>)
    ensures |r| == |logos|
    ensures IsReference(reference, id) ==> r == logos
    ensures (forall j :: 0 <= j < |logos| ==> logos[j].logo.id != id) ==> r == logos
    ensures forall k :: IsFirst(logos, k, id) && !IsReference(reference, id) ==>
              r[k] == Flip(logos[k]) &&
              forall j :: 0 <= j < |logos| && j != k ==> r[j] == logos[j]
  {
    if IsReference(reference, id) then logos
    else match FirstIndex(logos, id)
      case None => logos
      case Some(k) => logos[..k] + [Flip(logos[k])] + logos[k + 1..]
  }

  /** `selectAll`: every entry becomes selected. */
  function SelectAll(logos: seq<LogoEntry>): (r: seq<LogoEntry>)
    ensures SameLogos(r, logos)
    ensures forall i :: 0 <= i < |r| ==> r[i].selected
  {
    seq(|logos|, i requires 0 <= i < |logos| => logos[i].(selected := true))
  }

  /** `unselectAll`, also the reset after a submit: exactly the reference logo stays selected. */
  function UnselectAll(logos: seq<LogoEntry>, reference: Option<int>): (r: seq<LogoEntry>)
    ensures SameLogos(r, logos)
    ensures forall i :: 0 <= i < |r| ==> (r[i].selected <==> IsReference(reference, logos[i].logo.id))
    ensures reference.None? ==> forall i :: 0 <= i < |r| ==> !r[i].selected
  {
    seq(|logos|, i requires 0 <= i < |logos| =>
      logos[i].(selected := IsReference(reference, logos[i].logo.id)))
  }

  /** The entries of a fresh load or a refresh: only the reference logo is selected. */
  function InitialSelection(data: seq<Logo>, reference: Option<int>): (r: seq<LogoEntry>)
    ensures |r| == |data|
    ensures forall i :: 0 <= i < |r| ==> r[i].logo == data[i] && (r[i].selected <==> IsReference(reference, data[i].id))
  {
    seq(|data|, i requires 0 <= i < |data| => LogoEntry(data[i], IsReference(reference, data[i].id)))
  }

  /** The `referenceLogo` of a fresh load: the first loaded logo whose id is the reference, or none. */
  function ReferenceLogo(data: seq<Logo>, reference: Option<int>): (r: Option<Logo>)
    ensures r.Some? ==> exists k :: 0 <= k < |data| && data[k] == r.value &&
                          IsReference(reference, data[k].id) &&
                          forall j :: 0 <= j < k ==> !IsReference(reference, data[j].id)
    ensures r.None? <==> forall j :: 0 <= j < |data| ==> !IsReference(reference, data[j].id)
  {
    if |data| == 0 then None
    else if IsReference(reference, data[0].id) then Some(data[0])
    else
      var rest := ReferenceLogo(data[1..], reference);
      assert rest.Some? ==> exists k :: 0 < k < |data| && data[k] == rest.value &&
                              IsReference(reference, data[k].id) &&
                              forall j :: 0 <= j < k ==> !IsReference(reference, data[j].id)
      by {
        if rest.Some? {
          var k :| 0 <= k < |data| - 1 && data[1..][k] == rest.value &&
                   IsReference(reference, data[1..][k].id) &&
                   forall j :: 0 <= j < k ==> !IsReference(reference, data[1..][j].id);
          assert forall j :: 0 <= j < k + 1 ==> !IsReference(reference, data[j].id) by {
            forall j | 0 <= j < k + 1 ensures !IsReference(reference, data[j].id) {
              if j > 0 { assert data[j] == data[1..][j - 1]; }
            }
          }
        }
      }
      rest
  }

  /** `selectedIds`: the ids of the selected entries, in list order. */
  function SelectedIds(logos: seq<LogoEntry>): (ids: seq<int>)
    ensures |ids| <= |logos|
    ensures forall x :: x in ids <==> exists i :: 0 <= i < |logos| && logos[i].selected && logos[i].logo.id == x
  {
    if |logos| == 0 then []
    else
      var rest := SelectedIds(logos[1..]);
      assert forall x :: x in rest <==> exists i :: 1 <= i < |logos| && logos[i].selected && logos[i].logo.id == x by {
        forall x ensures x in rest <==> exists i :: 1 <= i < |logos| && logos[i].selected && logos[i].logo.id == x {
          if x in rest {
            var i :| 0 <= i < |logos| - 1 && logos[1..][i].selected && logos[1..][i].logo.id == x;
            assert logos[i + 1] == logos[1..][i];
          }
          if exists i :: 1 <= i < |logos| && logos[i].selected && logos[i].logo.id == x {
            var i :| 1 <= i < |logos| && logos[i].selected && logos[i].logo.id == x;
            assert logos[1..][i - 1] == logos[i];
          }
        }
      }
      (if logos[0].selected then [logos[0].logo.id] else []) + rest
  }

  /** The "unselect all" button is disabled when nothing is selected, or when the only
      selected id is the reference. */
  predicate UnselectAllDisabled(selectedIds: seq<int>, reference: Option<int>): (r: bool)
    ensures r <==> |selectedIds| <= 1 && forall i :: 0 <= i < |selectedIds| ==> IsReference(reference, selectedIds[i])
  {
    |selectedIds| == 0 || (|selectedIds| == 1 && IsReference(reference, selectedIds[0]))
  }

  /** Every loaded entry that is the reference logo is selected. */
  predicate ReferenceLocked(logos: seq<LogoEntry>, reference: Option<int>) {
    forall i :: 0 <= i < |logos| && IsReference(reference, logos[i].logo.id) ==> logos[i].selected
  }

  // ---------------------------------------------------------------------------
  // Properties of the selection store

  /** Toggling changes no entry's logo, only at most one flag. */
  lemma ToggleKeepsLogos(logos: seq<LogoEntry>, reference: Option<int>, id: int)
    ensures SameLogos(ToggleSelection(logos, reference, id), logos)
  {
  }

  /** The first position of an id depends only on the ids of the entries. */
  lemma FirstIndexFollowsIds(a: seq<LogoEntry>, b: seq<LogoEntry>, id: int)
    requires SameLogos(a, b)
    ensures FirstIndex(a, id) == FirstIndex(b, id)
  {
  }

  /** Toggling the same id twice restores the list. */
  lemma ToggleTwice(logos: seq<LogoEntry>, reference: Option<int>, id: int)
    ensures ToggleSelection(ToggleSelection(logos, reference, id), reference, id) == logos
  {
  }

  /** No selection operation can clear the reference logo once it is selected. */
  lemma SelectionKeepsReferenceLocked(logos: seq<LogoEntry>, reference: Option<int>, id: int)
    requires ReferenceLocked(logos, reference)
    ensures ReferenceLocked(ToggleSelection(logos, reference, id), reference)
    ensures ReferenceLocked(SelectAll(logos), reference)
    ensures ReferenceLocked(UnselectAll(logos, reference), reference)
  {
  }

  /** "Unselect all" forgets every earlier selection: it depends only on the logos. */
  lemma UnselectAllForgetsSelection(a: seq<LogoEntry>, b: seq<LogoEntry>, reference: Option<int>)
    requires SameLogos(a, b)
    ensures UnselectAll(a, reference) == UnselectAll(b, reference)
  {
  }

  /** A fresh load selects what "unselect all" would, and so does "unselect all"
      after any toggle or "select all". */
  lemma PristineSelection(logos: seq<LogoEntry>, data: seq<Logo>, reference: Option<int>, id: int)
    requires |logos| == |data| && forall i :: 0 <= i < |data| ==> logos[i].logo == data[i]
    ensures InitialSelection(data, reference) == UnselectAll(logos, reference)
    ensures UnselectAll(ToggleSelection(logos, reference, id), reference) == UnselectAll(logos, reference)
    ensures UnselectAll(SelectAll(logos), reference) == UnselectAll(logos, reference)
  {
  }

  /** `selectedIds` keeps list order: it distributes over concatenation. */
  lemma {:induction false} SelectedIdsAppend(a: seq<LogoEntry>, b: seq<LogoEntry>)
    ensures SelectedIds(a + b) == SelectedIds(a) + SelectedIds(b)
  {
    if |a| > 0 {
      assert (a + b)[1..] == a[1..] + b;
      SelectedIdsAppend(a[1..], b);
    } else {
      assert a + b == b;
    }
  }

  /** After "select all" the selected ids are all the ids, in order. */
  lemma {:induction false} SelectedIdsOfSelectAll(logos: seq<LogoEntry>)
    ensures SelectedIds(SelectAll(logos)) == Ids(logos)
  {
    if |logos| > 0 {
      assert SelectAll(logos)[1..] == SelectAll(logos[1..]);
      SelectedIdsOfSelectAll(logos[1..]);
      assert Ids(logos) == [logos[0].logo.id] + Ids(logos[1..]);
    }
  }

  /** With no entry selected there are no selected ids. */
  lemma NoSelectedIds(logos: seq<LogoEntry>)
    requires forall i :: 0 <= i < |logos| ==> !logos[i].selected
    ensures SelectedIds(logos) == []
  {
  }

  /** When exactly the entries with id `x` are selected and ids are unique, the
      selected ids are `[x]` if `x` is loaded and empty otherwise. */
  lemma {:induction false} SelectedIdsOfSingle(logos: seq<LogoEntry>, x: int)
    requires UniqueIds(logos)
    requires forall i :: 0 <= i < |logos| ==> (logos[i].selected <==> logos[i].logo.id == x)
    ensures SelectedIds(logos) == if x in IdSet(logos) then [x] else []
  {
    if |logos| == 0 {
      return;
    }
    var tail := logos[1..];
    assert UniqueIds(tail) by {
      forall i, j | 0 <= i < j < |tail| ensures tail[i].logo.id != tail[j].logo.id {
        assert tail[i] == logos[i + 1] && tail[j] == logos[j + 1];
      }
    }
    assert IdSet(logos) == {logos[0].logo.id} + IdSet(tail) by {
      forall y ensures y in IdSet(logos) <==> y in {logos[0].logo.id} + IdSet(tail) {
        if y in IdSet(logos) {
          var i :| 0 <= i < |logos| && logos[i].logo.id == y;
          if i > 0 { assert tail[i - 1] == logos[i]; }
        }
        if y in IdSet(tail) {
          var i :| 0 <= i < |tail| && tail[i].logo.id == y;
          assert logos[i + 1] == tail[i];
        }
      }
    }
    if logos[0].logo.id == x {
      assert forall i :: 0 <= i < |tail| ==> !tail[i].selected by {
        forall i | 0 <= i < |tail| ensures !tail[i].selected {
          assert tail[i] == logos[i + 1];
        }
      }
      NoSelectedIds(tail);
    } else {
      SelectedIdsOfSingle(tail, x);
    }
  }

  /** With unique ids and the reference locked, the "unselect all" button is disabled
      exactly when pressing it would change nothing. */
  lemma UnselectAllDisabledIffNoop(logos: seq<LogoEntry>, reference: Option<int>)
    requires UniqueIds(logos)
    requires ReferenceLocked(logos, reference)
    ensures UnselectAllDisabled(SelectedIds(logos), reference) <==> UnselectAll(logos, reference) == logos
  {
    var ids := SelectedIds(logos);
    var reset := UnselectAll(logos, reference);
    if UnselectAllDisabled(ids, reference) {
      forall i | 0 <= i < |logos| ensures reset[i] == logos[i] {
        if logos[i].selected {
          assert logos[i].logo.id in ids;
        }
      }
    }
    if reset == logos {
      assert forall i :: 0 <= i < |logos| ==> (logos[i].selected <==> IsReference(reference, logos[i].logo.id));
      match reference
      case None =>
        NoSelectedIds(logos);
      case Some(x) =>
        SelectedIdsOfSingle(logos, x);
    }
  }
}

/** The studio's rundown: playlists of items, each item with its attached graphics, and the
    edits the operator makes to them (reordering by button or by drag, deleting, updating an
    item or its graphics list), every one of them refused on a locked playlist. Each edit
    copies the playlists and changes only what it names. */
module Rundown {
  import opened JsCore

  /** A graphic attached to an item. `channel` 0 stands for "no channel of its own" (the
      item's channel is used); `delay` and `duration` are whole seconds. */
  datatype Gfx = Gfx(
    id: nat, template: string, channel: nat, layer: nat, mode: string,
    duration: int, delay: int, loop: bool, data: seq<(string, string)>)

  /** An item of a playlist. `id` is the clip or template the playout server knows it by,
      `kind` its `type` text (empty when the item has none) and `duration` the text that
      `parseInt` reads (a number renders as its decimal digits). */
  datatype Item = Item(
    uniqId: string, id: string, kind: string,
    channel: nat, layer: nat, duration: string,
    loop: bool, autoNext: bool, data: seq<(string, string)>, gfxItems: seq<Gfx>)

  datatype Playlist = Playlist(id: string, locked: bool, items: seq<Item>)

  // ---------------------------------------------------------------------------
  // list edits

  /** `[s[i], s[j]] = [s[j], s[i]]` on a copy. */
  function Swap<T>(s: seq<T>, i: nat, j: nat): (r: seq<T>)
    requires i < |s| && j < |s|
    ensures |r| == |s|
  {
    s[i := s[j]][j := s[i]]
  }

  /** The adjacent swap behind the up and down buttons: direction -1 swaps the entry with
      the one before it when there is one, direction 1 with the one after it when there is
      one, and anything else leaves the list as it is. */
  function SwapAdjacent<T>(s: seq<T>, index: int, direction: int): (r: seq<T>)
    ensures |r| == |s|
  {
    if direction == -1 && 0 < index < |s| then Swap(s, index, index - 1)
    else if direction == 1 && 0 <= index < |s| - 1 then Swap(s, index, index + 1)
    else s
  }

  function RemoveAt<T>(s: seq<T>, i: nat): (r: seq<T>)
    requires i < |s|
    ensures |r| == |s| - 1
  {
    s[..i] + s[i + 1..]
  }

  function InsertAt<T>(s: seq<T>, i: nat, x: T): (r: seq<T>)
    requires i <= |s|
    ensures |r| == |s| + 1
  {
    s[..i] + [x] + s[i..]
  }

  /** The two `splice` calls of a drop: the entry at `from` is taken out and put back in at
      `to` (past the end it goes last, as `splice` clamps). */
  function MoveTo<T>(s: seq<T>, from: int, to: int): (r: seq<T>)
    ensures |r| == |s|
  {
    if 0 <= from < |s| && 0 <= to then
      var rest := RemoveAt(s, from);
      InsertAt(rest, if to <= |rest| then to else |rest|, s[from])
    else s
  }

  lemma SwapPermutes<T>(s: seq<T>, i: nat, j: nat)
    requires i < |s| && j < |s|
    ensures multiset(Swap(s, i, j)) == multiset(s)
    ensures Swap(s, i, j)[i] == s[j] && Swap(s, i, j)[j] == s[i]
    ensures forall k :: 0 <= k < |s| && k != i && k != j ==> Swap(s, i, j)[k] == s[k]
  {
  }

  /** An adjacent swap reorders the list and nothing else: the two entries trade places
      when the neighbour exists, and out of bounds (or for any other direction) nothing
      moves. */
  lemma SwapAdjacentSpec<T>(s: seq<T>, index: int, direction: int)
    ensures multiset(SwapAdjacent(s, index, direction)) == multiset(s)
    ensures direction == -1 && 0 < index < |s| ==>
      SwapAdjacent(s, index, direction)[index - 1] == s[index] &&
      SwapAdjacent(s, index, direction)[index] == s[index - 1]
    ensures direction == 1 && 0 <= index < |s| - 1 ==>
      SwapAdjacent(s, index, direction)[index + 1] == s[index] &&
      SwapAdjacent(s, index, direction)[index] == s[index + 1]
    ensures forall k :: 0 <= k < |s| && k != index && k != index + direction ==>
      SwapAdjacent(s, index, direction)[k] == s[k]
    ensures !(direction == -1 && 0 < index < |s|) && !(direction == 1 && 0 <= index < |s| - 1) ==>
      SwapAdjacent(s, index, direction) == s
  {
    if direction == -1 && 0 < index < |s| {
      SwapPermutes(s, index, index - 1);
    } else if direction == 1 && 0 <= index < |s| - 1 {
      SwapPermutes(s, index, index + 1);
    }
  }

  lemma RemoveInsert<T>(rest: seq<T>, to: nat, x: T)
    requires to <= |rest|
    ensures RemoveAt(InsertAt(rest, to, x), to) == rest
    ensures InsertAt(rest, to, x)[to] == x
    ensures multiset(InsertAt(rest, to, x)) == multiset(rest) + multiset{x}
  {
    var r := InsertAt(rest, to, x);
    assert r[..to] == rest[..to];
    assert r[to + 1..] == rest[to..];
    assert rest == rest[..to] + rest[to..];
  }

  /** A drag-move keeps every entry (the result is a permutation), puts the moved entry at
      the drop position, and leaves the others in their order. */
  lemma {:induction false} MoveToSpec<T>(s: seq<T>, from: int, to: int)
    ensures multiset(MoveTo(s, from, to)) == multiset(s)
    ensures 0 <= from < |s| && 0 <= to < |s| ==>
      MoveTo(s, from, to)[to] == s[from] && RemoveAt(MoveTo(s, from, to), to) == RemoveAt(s, from)
    ensures !(0 <= from < |s|) || to < 0 ==> MoveTo(s, from, to) == s
  {
    if 0 <= from < |s| && 0 <= to {
      var rest := RemoveAt(s, from);
      var at := if to <= |rest| then to else |rest|;
      RemoveInsert(rest, at, s[from]);
      assert s == s[..from] + [s[from]] + s[from + 1..];
      assert multiset(s) == multiset(s[..from]) + multiset{s[from]} + multiset(s[from + 1..]);
    }
  }

  // ---------------------------------------------------------------------------
  // lookups

  /** `items.findIndex(i => i.uniqId === uniqId)`. */
  function FindIndex(items: seq<Item>, uniqId: string): (i: int)
    ensures -1 <= i < |items|
    ensures i >= 0 ==> items[i].uniqId == uniqId
    ensures i >= 0 ==> forall k :: 0 <= k < i ==> items[k].uniqId != uniqId
    ensures i < 0 ==> forall k :: 0 <= k < |items| ==> items[k].uniqId != uniqId
  {
    if items == [] then -1
    else if items[0].uniqId == uniqId then 0
    else
      var j := FindIndex(items[1..], uniqId);
      if j < 0 then -1 else j + 1
  }

  predicate Holds(pl: Playlist, uniqId: string) {
    exists k :: 0 <= k < |pl.items| && pl.items[k].uniqId == uniqId
  }

  /** `playlists.find(p => p.id === plId)`. */
  function FindPlaylist(pls: seq<Playlist>, plId: string): (r: Option<Playlist>)
    ensures r.Some? ==> r.value in pls && r.value.id == plId
    ensures r.None? ==> forall i :: 0 <= i < |pls| ==> pls[i].id != plId
  {
    if pls == [] then None
    else if pls[0].id == plId then Some(pls[0])
    else FindPlaylist(pls[1..], plId)
  }

  /** `playlists.find(p => p.items.some(i => i.uniqId === uniqId))`: the first playlist
      holding the item. */
  function Holder(pls: seq<Playlist>, uniqId: string): (r: Option<Playlist>)
    ensures r.Some? ==> r.value in pls && Holds(r.value, uniqId)
    ensures r.None? ==> forall i :: 0 <= i < |pls| ==> !Holds(pls[i], uniqId)
  {
    if pls == [] then None
    else if FindIndex(pls[0].items, uniqId) >= 0 then Some(pls[0])
    else Holder(pls[1..], uniqId)
  }

  /** The item after the first one with `refId` in one playlist, when that one is not last. */
  function NextIn(items: seq<Item>, refId: string): Option<Item> {
    var idx := FindIndex(items, refId);
    if idx != -1 && idx < |items| - 1 then Some(items[idx + 1]) else None
  }

  /** The last entry that is present: a `forEach` that overwrites its result on every hit. */
  function LastSome<T>(s: seq<Option<T>>): Option<T>
    decreases |s|
  {
    if s == [] then None
    else if s[|s| - 1].Some? then s[|s| - 1]
    else LastSome(s[..|s| - 1])
  }

  /** The item after `refId`, judged in the LAST playlist that has one (a later playlist
      overwrites what an earlier one found), or none. */
  function NextAfter(pls: seq<Playlist>, refId: string): Option<Item> {
    LastSome(seq(|pls|, i requires 0 <= i < |pls| => NextIn(pls[i].items, refId)))
  }

  /** `items.find(i => i.uniqId === uniqId)`. */
  function FindIn(items: seq<Item>, uniqId: string): Option<Item> {
    var idx := FindIndex(items, uniqId);
    if idx >= 0 then Some(items[idx]) else None
  }

  /** The item a take from preview plays: the first item with that id in the LAST playlist
      that has one. */
  function FindItem(pls: seq<Playlist>, uniqId: string): Option<Item> {
    LastSome(seq(|pls|, i requires 0 <= i < |pls| => FindIn(pls[i].items, uniqId)))
  }

  /** One more entry overrides the result when it is present. */
  lemma LastSomeStep<T>(s: seq<Option<T>>, i: nat)
    requires i < |s|
    ensures LastSome(s[..i + 1]) == if s[i].Some? then s[i] else LastSome(s[..i])
  {
    assert s[..i + 1][..i] == s[..i];
  }

  /** No entry is present exactly when the result is absent. */
  lemma {:induction false} LastSomeNone<T>(s: seq<Option<T>>)
    ensures LastSome(s).None? <==> forall i :: 0 <= i < |s| ==> s[i].None?
    decreases |s|
  {
    if s != [] {
      var init := s[..|s| - 1];
      LastSomeNone(init);
      assert forall i :: 0 <= i < |init| ==> init[i] == s[i];
    }
  }

  /** A present result is the last present entry. */
  lemma {:induction false} LastSomeLast<T>(s: seq<Option<T>>)
    requires LastSome(s).Some?
    ensures exists i :: 0 <= i < |s| && s[i] == LastSome(s) && forall j :: i < j < |s| ==> s[j].None?
    decreases |s|
  {
    var n := |s| - 1;
    if s[n].None? {
      var init := s[..n];
      assert LastSome(s) == LastSome(init);
      LastSomeLast(init);
      var i :| 0 <= i < |init| && init[i] == LastSome(init) && forall j :: i < j < |init| ==> init[j].None?;
      assert init[i] == s[i];
      assert forall j :: i < j < |s| ==> s[j].None? by {
        forall j | i < j < |s| ensures s[j].None? {
          if j < n { assert init[j] == s[j]; }
        }
      }
    }
  }

  /** The next item is the one right after the first occurrence of `refId` in a playlist;
      the item at the end of a playlist has none there. */
  lemma NextInSpec(items: seq<Item>, refId: string)
    ensures NextIn(items, refId).Some? <==>
      exists k :: 0 <= k < |items| - 1 && items[k].uniqId == refId
              && forall j :: 0 <= j < k ==> items[j].uniqId != refId
    ensures forall k ::
      (0 <= k < |items| - 1 && items[k].uniqId == refId && (forall j :: 0 <= j < k ==> items[j].uniqId != refId)) ==>
      NextIn(items, refId) == Some(items[k + 1])
  {
    var idx := FindIndex(items, refId);
    forall k | 0 <= k < |items| - 1 && items[k].uniqId == refId
              && (forall j :: 0 <= j < k ==> items[j].uniqId != refId)
      ensures idx == k
    {
    }
  }

  /** Across playlists: there is a next item exactly when some playlist has one, and then
      it is the one found in the last playlist that has one. */
  lemma NextAfterSpec(pls: seq<Playlist>, refId: string)
    ensures NextAfter(pls, refId).None? <==> forall i :: 0 <= i < |pls| ==> NextIn(pls[i].items, refId).None?
    ensures NextAfter(pls, refId).Some? ==>
      exists i :: 0 <= i < |pls| && NextIn(pls[i].items, refId) == NextAfter(pls, refId)
              && forall j :: i < j < |pls| ==> NextIn(pls[j].items, refId).None?
  {
    var finds := seq(|pls|, i requires 0 <= i < |pls| => NextIn(pls[i].items, refId));
    assert NextAfter(pls, refId) == LastSome(finds);
    assert forall i :: 0 <= i < |pls| ==> finds[i] == NextIn(pls[i].items, refId);
    LastSomeNone(finds);
    if NextAfter(pls, refId).Some? {
      LastSomeLast(finds);
      var i :| 0 <= i < |finds| && finds[i] == LastSome(finds) && forall j :: i < j < |finds| ==> finds[j].None?;
      assert NextIn(pls[i].items, refId) == NextAfter(pls, refId);
    }
  }

  /** A take from preview plays the item with that id from the last playlist holding one. */
  lemma FindItemSpec(pls: seq<Playlist>, uniqId: string)
    ensures FindItem(pls, uniqId).None? <==> forall i :: 0 <= i < |pls| ==> !Holds(pls[i], uniqId)
    ensures FindItem(pls, uniqId).Some? ==> FindItem(pls, uniqId).value.uniqId == uniqId
    ensures FindItem(pls, uniqId).Some? ==>
      exists i :: 0 <= i < |pls| && FindIn(pls[i].items, uniqId) == FindItem(pls, uniqId)
              && forall j :: i < j < |pls| ==> !Holds(pls[j], uniqId)
  {
    var finds := seq(|pls|, i requires 0 <= i < |pls| => FindIn(pls[i].items, uniqId));
    LastSomeNone(finds);
    assert FindItem(pls, uniqId) == LastSome(finds);
    assert forall i :: 0 <= i < |pls| ==> (finds[i].None? <==> !Holds(pls[i], uniqId));
    if FindItem(pls, uniqId).Some? {
      LastSomeLast(finds);
      var i :| 0 <= i < |finds| && finds[i] == LastSome(finds) && forall j :: i < j < |finds| ==> finds[j].None?;
      assert FindIn(pls[i].items, uniqId) == FindItem(pls, uniqId);
    }
  }

  // ---------------------------------------------------------------------------
  // the playlist edits

  /** `playlists.map(f)`. */
  function Each(pls: seq<Playlist>, f: Playlist -> Playlist): seq<Playlist>
  {
    seq(|pls|, i requires 0 <= i < |pls| => f(pls[i]))
  }

  /** `movePlaylistItem`: in the unlocked playlists with that id, swap the entry at `index`
      with its neighbour in `direction`. */
  function MoveItem(pls: seq<Playlist>, plId: string, index: int, direction: int): seq<Playlist> {
    Each(pls, (pl: Playlist) => if pl.id != plId || pl.locked then pl else pl.(items := SwapAdjacent(pl.items, index, direction)))
  }

  /** `handleDrop`: a drag from one playlist to another, or onto its own place, does
      nothing; otherwise, in the unlocked playlists with that id, the dragged entry moves
      to the drop position. */
  function Drop(pls: seq<Playlist>, sourcePlId: string, sourceIndex: int, targetPlId: string, targetIndex: int): seq<Playlist> {
    if sourcePlId != targetPlId || sourceIndex == targetIndex then pls
    else Each(pls, (pl: Playlist) => if pl.id != targetPlId || pl.locked then pl else pl.(items := MoveTo(pl.items, sourceIndex, targetIndex)))
  }

  /** `items.filter(i => i.uniqId !== uniqId)`. */
  function Without(items: seq<Item>, uniqId: string): (r: seq<Item>)
    ensures |r| <= |items|
  {
    if items == [] then []
    else (if items[0].uniqId == uniqId then [] else [items[0]]) + Without(items[1..], uniqId)
  }

  /** `deleteItem`'s guard: the first playlist with that id is locked. */
  predicate DeleteRefused(pls: seq<Playlist>, plId: string) {
    var pl := FindPlaylist(pls, plId);
    pl.Some? && pl.value.locked
  }

  /** `deleteItem`: unless refused, the playlists with that id lose every item with that
      unique id. */
  function DeleteItem(pls: seq<Playlist>, plId: string, uniqId: string): seq<Playlist> {
    if DeleteRefused(pls, plId) then pls
    else Each(pls, (pl: Playlist) => if pl.id != plId then pl else pl.(items := Without(pl.items, uniqId)))
  }

  /** `updateItem`'s guard: the first playlist holding the item is locked. */
  predicate UpdateRefused(pls: seq<Playlist>, uniqId: string) {
    var pl := Holder(pls, uniqId);
    pl.Some? && pl.value.locked
  }

  /** Every item with that unique id replaced by `f` of it (`{...i, ...updates}`, the
      merge written into `f`). */
  function Patch(items: seq<Item>, uniqId: string, f: Item -> Item): (r: seq<Item>)
    ensures |r| == |items|
  {
    seq(|items|, j requires 0 <= j < |items| => if items[j].uniqId == uniqId then f(items[j]) else items[j])
  }

  /** `updateItem`: unless refused, every item with that unique id, in every playlist, is
      replaced by `f` of it. */
  function UpdateItem(pls: seq<Playlist>, uniqId: string, f: Item -> Item): seq<Playlist> {
    if UpdateRefused(pls, uniqId) then pls
    else Each(pls, (pl: Playlist) => pl.(items := Patch(pl.items, uniqId, f)))
  }

  /** `moveGfxItem`: the adjacent swap applied to the graphics list of an item. */
  function MoveGfx(pls: seq<Playlist>, parent: string, gfxIndex: int, direction: int): seq<Playlist> {
    UpdateItem(pls, parent, (i: Item) => i.(gfxItems := SwapAdjacent(i.gfxItems, gfxIndex, direction)))
  }

  /** `gfxItems.filter(g => g.id !== gfxId)`. */
  function WithoutGfx(gs: seq<Gfx>, gfxId: nat): (r: seq<Gfx>)
    ensures |r| <= |gs|
  {
    if gs == [] then []
    else (if gs[0].id == gfxId then [] else [gs[0]]) + WithoutGfx(gs[1..], gfxId)
  }

  /** `deleteGfxItem`: the graphics with that id leave the item's list. */
  function DeleteGfx(pls: seq<Playlist>, parent: string, gfxId: nat): seq<Playlist> {
    UpdateItem(pls, parent, (i: Item) => i.(gfxItems := WithoutGfx(i.gfxItems, gfxId)))
  }

  // ---------------------------------------------------------------------------
  // what the edits promise

  /** The up and down buttons: every playlist keeps its id, its lock and its entries (a
      permutation); a locked playlist, another playlist or an index without the neighbour
      changes nothing; otherwise the entry and its neighbour trade places and every other
      position keeps its entry. */
  lemma MoveItemSpec(pls: seq<Playlist>, plId: string, index: int, direction: int, i: nat)
    requires i < |pls|
    ensures var r := MoveItem(pls, plId, index, direction);
      && |r| == |pls|
      && r[i].id == pls[i].id && r[i].locked == pls[i].locked
      && multiset(r[i].items) == multiset(pls[i].items)
      && (pls[i].id != plId || pls[i].locked ==> r[i] == pls[i])
      && (pls[i].id == plId && !pls[i].locked ==> r[i].items == SwapAdjacent(pls[i].items, index, direction))
      && (!(direction == -1 && 0 < index < |pls[i].items|) && !(direction == 1 && 0 <= index < |pls[i].items| - 1) ==> r[i] == pls[i])
      && (pls[i].id == plId && !pls[i].locked && 0 <= index + direction < |pls[i].items| && 0 <= index < |pls[i].items| && (direction == -1 || direction == 1) ==>
            && r[i].items[index] == pls[i].items[index + direction]
            && r[i].items[index + direction] == pls[i].items[index]
            && forall k :: 0 <= k < |pls[i].items| && k != index && k != index + direction ==> r[i].items[k] == pls[i].items[k])
  {
    SwapAdjacentSpec(pls[i].items, index, direction);
  }

  /** A drag: across playlists or onto its own place nothing changes; otherwise every
      playlist keeps its id, its lock and its entries (a permutation), locked and other
      playlists are untouched, and in the target the dragged entry lands at the drop
      position with the others in their old order. */
  lemma DropSpec(pls: seq<Playlist>, sourcePlId: string, sourceIndex: int, targetPlId: string, targetIndex: int, i: nat)
    requires i < |pls|
    ensures sourcePlId != targetPlId || sourceIndex == targetIndex ==> Drop(pls, sourcePlId, sourceIndex, targetPlId, targetIndex) == pls
    ensures var r := Drop(pls, sourcePlId, sourceIndex, targetPlId, targetIndex);
      && |r| == |pls|
      && r[i].id == pls[i].id && r[i].locked == pls[i].locked
      && multiset(r[i].items) == multiset(pls[i].items)
      && (pls[i].id != targetPlId || pls[i].locked ==> r[i] == pls[i])
      && (sourcePlId == targetPlId && pls[i].id == targetPlId && !pls[i].locked
          && 0 <= sourceIndex < |pls[i].items| && 0 <= targetIndex < |pls[i].items| ==>
            r[i].items[targetIndex] == pls[i].items[sourceIndex]
            && RemoveAt(r[i].items, targetIndex) == RemoveAt(pls[i].items, sourceIndex))
  {
    MoveToSpec(pls[i].items, sourceIndex, targetIndex);
  }

  lemma {:induction false} WithoutSpec(items: seq<Item>, uniqId: string)
    ensures forall x :: x in Without(items, uniqId) <==> x in items && x.uniqId != uniqId
    ensures (forall k :: 0 <= k < |items| ==> items[k].uniqId != uniqId) ==> Without(items, uniqId) == items
  {
    if items != [] {
      WithoutSpec(items[1..], uniqId);
      assert items == [items[0]] + items[1..];
    }
  }

  /** The filter works entry by entry: filtering a concatenation filters each part and
      joins the results, so the kept items stay in their order with their repetitions. */
  lemma {:induction false} WithoutAppend(a: seq<Item>, b: seq<Item>, uniqId: string)
    ensures Without(a + b, uniqId) == Without(a, uniqId) + Without(b, uniqId)
    decreases |a|
  {
    if a == [] {
      assert a + b == b;
    } else {
      var t := a + b;
      var head := if a[0].uniqId == uniqId then [] else [a[0]];
      assert t[0] == a[0] && t[1..] == a[1..] + b;
      WithoutAppend(a[1..], b, uniqId);
      assert Without(t, uniqId) == head + Without(a[1..] + b, uniqId);
      assert Without(a, uniqId) == head + Without(a[1..], uniqId);
    }
  }

  /** A delete: refused on a locked playlist; otherwise only the playlists with that id
      change, and each keeps exactly its items with another unique id, in their order. */
  lemma DeleteItemSpec(pls: seq<Playlist>, plId: string, uniqId: string, i: nat)
    requires i < |pls|
    ensures DeleteRefused(pls, plId) ==> DeleteItem(pls, plId, uniqId) == pls
    ensures var r := DeleteItem(pls, plId, uniqId);
      && |r| == |pls|
      && r[i].id == pls[i].id && r[i].locked == pls[i].locked
      && (pls[i].id != plId ==> r[i] == pls[i])
      && (!DeleteRefused(pls, plId) && pls[i].id == plId ==>
            && r[i].items == Without(pls[i].items, uniqId)
            && forall x :: x in r[i].items <==> x in pls[i].items && x.uniqId != uniqId)
  {
    WithoutSpec(pls[i].items, uniqId);
  }

  /** A delete is refused exactly when the first playlist with that id is locked. */
  lemma DeleteRefusedSpec(pls: seq<Playlist>, plId: string)
    ensures DeleteRefused(pls, plId) <==>
      exists j :: 0 <= j < |pls| && pls[j].id == plId && pls[j].locked && forall k :: 0 <= k < j ==> pls[k].id != plId
  {
    FirstPlaylist(pls, plId);
    if DeleteRefused(pls, plId) {
      var j0 :| 0 <= j0 < |pls| && pls[j0].id == plId;
      FirstWithExists(pls, plId, j0);
      var j :| 0 <= j < |pls| && pls[j].id == plId && forall k :: 0 <= k < j ==> pls[k].id != plId;
      assert FindPlaylist(pls, plId) == Some(pls[j]);
    }
  }

  /** The index of the first playlist with an id, when there is one. */
  lemma {:induction false} FirstWithExists(pls: seq<Playlist>, plId: string, j0: nat)
    requires j0 < |pls| && pls[j0].id == plId
    ensures exists j :: 0 <= j < |pls| && pls[j].id == plId && forall k :: 0 <= k < j ==> pls[k].id != plId
  {
    if pls[0].id != plId {
      FirstWithExists(pls[1..], plId, j0 - 1);
      var j :| 0 <= j < |pls[1..]| && pls[1..][j].id == plId && forall k :: 0 <= k < j ==> pls[1..][k].id != plId;
      assert forall k :: 0 < k <= j ==> pls[k] == pls[1..][k - 1];
      assert pls[j + 1].id == plId;
    }
  }

  /** The first playlist with an id is the one `find` returns. */
  lemma {:induction false} FirstPlaylist(pls: seq<Playlist>, plId: string)
    ensures FindPlaylist(pls, plId).Some? <==> exists j :: 0 <= j < |pls| && pls[j].id == plId
    ensures forall j :: 0 <= j < |pls| && pls[j].id == plId && (forall k :: 0 <= k < j ==> pls[k].id != plId) ==>
      FindPlaylist(pls, plId) == Some(pls[j])
  {
    if pls != [] {
      FirstPlaylist(pls[1..], plId);
      forall j | 0 <= j < |pls| && pls[j].id == plId && (forall k :: 0 <= k < j ==> pls[k].id != plId)
        ensures FindPlaylist(pls, plId) == Some(pls[j])
      {
        if j > 0 {
          assert pls[1..][j - 1] == pls[j];
          assert forall k :: 0 <= k < j - 1 ==> pls[1..][k] == pls[k + 1];
        }
      }
      if FindPlaylist(pls, plId).Some? && pls[0].id != plId {
        var j :| 0 <= j < |pls[1..]| && pls[1..][j].id == plId;
        assert pls[j + 1].id == plId;
      }
    }
  }

  /** The playlist `find` returns is the first one holding the item. */
  lemma {:induction false} HolderFirst(pls: seq<Playlist>, uniqId: string)
    ensures forall j :: 0 <= j < |pls| && Holds(pls[j], uniqId) && (forall k :: 0 <= k < j ==> !Holds(pls[k], uniqId)) ==>
      Holder(pls, uniqId) == Some(pls[j])
  {
    if pls != [] {
      HolderFirst(pls[1..], uniqId);
      forall j | 0 <= j < |pls| && Holds(pls[j], uniqId) && (forall k :: 0 <= k < j ==> !Holds(pls[k], uniqId))
        ensures Holder(pls, uniqId) == Some(pls[j])
      {
        if j > 0 {
          assert !Holds(pls[0], uniqId);
          assert pls[1..][j - 1] == pls[j];
          assert forall k :: 0 <= k < j - 1 ==> pls[1..][k] == pls[k + 1];
        } else {
          var k :| 0 <= k < |pls[0].items| && pls[0].items[k].uniqId == uniqId;
          assert FindIndex(pls[0].items, uniqId) >= 0;
        }
      }
    }
  }

  /** An update is refused exactly when the first playlist holding the item is locked. */
  lemma UpdateRefusedSpec(pls: seq<Playlist>, uniqId: string)
    ensures UpdateRefused(pls, uniqId) <==>
      exists j :: 0 <= j < |pls| && Holds(pls[j], uniqId) && pls[j].locked
        && forall k :: 0 <= k < j ==> !Holds(pls[k], uniqId)
  {
    HolderFirst(pls, uniqId);
    if UpdateRefused(pls, uniqId) {
      var h := Holder(pls, uniqId).value;
      var j0 :| 0 <= j0 < |pls| && pls[j0] == h;
      FirstHolderExists(pls, uniqId, j0);
    }
  }

  /** The index of the first playlist holding an item, when one holds it. */
  lemma {:induction false} FirstHolderExists(pls: seq<Playlist>, uniqId: string, j0: nat)
    requires j0 < |pls| && Holds(pls[j0], uniqId)
    ensures exists j :: 0 <= j < |pls| && Holds(pls[j], uniqId) && forall k :: 0 <= k < j ==> !Holds(pls[k], uniqId)
  {
    if !Holds(pls[0], uniqId) {
      var rest := pls[1..];
      assert rest[j0 - 1] == pls[j0];
      FirstHolderExists(rest, uniqId, j0 - 1);
      var j :| 0 <= j < |rest| && Holds(rest[j], uniqId) && forall k :: 0 <= k < j ==> !Holds(rest[k], uniqId);
      assert pls[j + 1] == rest[j];
      forall k | 0 <= k < j + 1 ensures !Holds(pls[k], uniqId) {
        if k > 0 {
          assert pls[k] == rest[k - 1];
        }
      }
    }
  }

  /** An update: refused when the first playlist holding the item is locked; otherwise
      every playlist keeps its id, lock and length, an item with another unique id stays
      as it was and an item with that unique id becomes `f` of it. */
  lemma UpdateItemSpec(pls: seq<Playlist>, uniqId: string, f: Item -> Item, i: nat, j: nat)
    requires i < |pls| && j < |pls[i].items|
    ensures UpdateRefused(pls, uniqId) ==> UpdateItem(pls, uniqId, f) == pls
    ensures var r := UpdateItem(pls, uniqId, f);
      && |r| == |pls|
      && r[i].id == pls[i].id && r[i].locked == pls[i].locked && |r[i].items| == |pls[i].items|
      && (pls[i].items[j].uniqId != uniqId ==> r[i].items[j] == pls[i].items[j])
      && (!UpdateRefused(pls, uniqId) && pls[i].items[j].uniqId == uniqId ==> r[i].items[j] == f(pls[i].items[j]))
  {
  }

  /** Reordering an item's graphics: the rest of the item stays as it was; when the update
      is refused or the item is another one its graphics stay as they were; otherwise its
      graphics list becomes the adjacent swap, the same graphics with the entry and its
      neighbour trading places and every other position keeping its graphic. */
  lemma MoveGfxSpec(pls: seq<Playlist>, parent: string, gfxIndex: int, direction: int, i: nat, j: nat)
    requires i < |pls| && j < |pls[i].items|
    ensures var r := MoveGfx(pls, parent, gfxIndex, direction);
      var gs := pls[i].items[j].gfxItems;
      && |r| == |pls| && |r[i].items| == |pls[i].items|
      && r[i].id == pls[i].id && r[i].locked == pls[i].locked
      && multiset(r[i].items[j].gfxItems) == multiset(gs)
      && r[i].items[j].(gfxItems := gs) == pls[i].items[j]
      && (UpdateRefused(pls, parent) || pls[i].items[j].uniqId != parent ==> r[i].items[j] == pls[i].items[j])
      && (!UpdateRefused(pls, parent) && pls[i].items[j].uniqId == parent ==>
            && r[i].items[j].gfxItems == SwapAdjacent(gs, gfxIndex, direction)
            && (0 <= gfxIndex < |gs| && 0 <= gfxIndex + direction < |gs| && (direction == -1 || direction == 1) ==>
                  r[i].items[j].gfxItems[gfxIndex] == gs[gfxIndex + direction]
                  && r[i].items[j].gfxItems[gfxIndex + direction] == gs[gfxIndex])
            && forall k :: 0 <= k < |gs| && k != gfxIndex && k != gfxIndex + direction ==> r[i].items[j].gfxItems[k] == gs[k])
  {
    SwapAdjacentSpec(pls[i].items[j].gfxItems, gfxIndex, direction);
  }

  lemma {:induction false} WithoutGfxSpec(gs: seq<Gfx>, gfxId: nat)
    ensures forall g :: g in WithoutGfx(gs, gfxId) <==> g in gs && g.id != gfxId
  {
    if gs != [] {
      WithoutGfxSpec(gs[1..], gfxId);
      assert gs == [gs[0]] + gs[1..];
    }
  }

  /** The graphics filter works entry by entry, keeping order and repetitions. */
  lemma {:induction false} WithoutGfxAppend(a: seq<Gfx>, b: seq<Gfx>, gfxId: nat)
    ensures WithoutGfx(a + b, gfxId) == WithoutGfx(a, gfxId) + WithoutGfx(b, gfxId)
    decreases |a|
  {
    if a == [] {
      assert a + b == b;
    } else {
      var t := a + b;
      var head := if a[0].id == gfxId then [] else [a[0]];
      assert t[0] == a[0] && t[1..] == a[1..] + b;
      WithoutGfxAppend(a[1..], b, gfxId);
      assert WithoutGfx(t, gfxId) == head + WithoutGfx(a[1..] + b, gfxId);
      assert WithoutGfx(a, gfxId) == head + WithoutGfx(a[1..], gfxId);
    }
  }

  /** Deleting a graphic: the rest of the item stays as it was; when the update is refused
      or the item is another one nothing changes; otherwise the item keeps exactly its
      graphics with another id, in their order. */
  lemma DeleteGfxSpec(pls: seq<Playlist>, parent: string, gfxId: nat, i: nat, j: nat)
    requires i < |pls| && j < |pls[i].items|
    ensures var r := DeleteGfx(pls, parent, gfxId);
      && |r| == |pls| && |r[i].items| == |pls[i].items|
      && r[i].id == pls[i].id && r[i].locked == pls[i].locked
      && r[i].items[j].(gfxItems := pls[i].items[j].gfxItems) == pls[i].items[j]
      && (UpdateRefused(pls, parent) || pls[i].items[j].uniqId != parent ==> r[i].items[j] == pls[i].items[j])
      && (!UpdateRefused(pls, parent) && pls[i].items[j].uniqId == parent ==>
            && r[i].items[j].gfxItems == WithoutGfx(pls[i].items[j].gfxItems, gfxId)
            && forall g :: g in r[i].items[j].gfxItems <==> g in pls[i].items[j].gfxItems && g.id != gfxId)
  {
    WithoutGfxSpec(pls[i].items[j].gfxItems, gfxId);
  }
}

/** The show-control manager's rundown console: the rundown fetched from the show controller,
    the cued (preview) and on-air (program) items, the on-air countdown, and the edits the
    operator makes to rundown items and their graphics. The controller's HTTP answers are
    parameters; the calls the console issues are recorded in order. */
module Manager {
  import opened JsCore

  /** What `duration || 30` falls back to. */
  const DefaultDuration: int := 30
  /** The graphic `addGfxToItem` attaches. */
  const DefaultGfxTemplate: string := "L3_DEFAULT.ft"
  const DefaultGfxLayer: int := 20
  /** What an imported part is given. */
  const ImportedLabel: string := "Untitled"
  const ImportedVideoFile: string := "No Media"
  const ImportedSource: string := "superconductor"
  const ImportedLayer: string := "10"
  const LocalIdPrefix: string := "local_"

  /** A graphic attached to a rundown item. */
  datatype Gfx = Gfx(id: string, template: string, layer: int, data: seq<(string, string)>)

  /** A rundown item. */
  datatype Entry = Entry(id: string, labelText: string, videoFile: string, duration: Number, source: string,
                         layer: string, playing: bool, gfxItems: seq<Gfx>)

  /** A field `updateItemField` writes, with its new value (every field but the id). */
  datatype FieldValue =
    | Label(text: string)
    | VideoFile(videoFile: string)
    | Duration(duration: Number)
    | Source(source: string)
    | Layer(layer: string)
    | Playing(playing: bool)
    | GfxItems(gfxItems: seq<Gfx>)

  /** A part of the show controller's rundown; an absent field is `None`. */
  datatype Part = Part(uuid: Option<string>, name: Option<string>, slug: Option<string>, duration: Option<Number>)

  /** The answer to `/rundowns/`: an object that may carry a `rundownIds` array, or a bare
      array of rundown references. */
  datatype RundownRef = RundownRef(uuid: Option<string>, id: Option<string>)
  datatype RundownsReply = IdsObject(rundownIds: Option<seq<string>>) | RefArray(refs: seq<RundownRef>)

  /** The answer to `/rundown/?uuid=…`, which may carry a `parts` array. */
  datatype RundownDetail = RundownDetail(parts: Option<seq<Part>>)

  /** A call to the show controller. */
  datatype ScCall = ListRundowns | GetRundown(uuid: string) | GetProject | PlayPart(uuid: string) | StopPart

  // ---------------------------------------------------------------------------
  // take and stop

  /** `duration || 30`. */
  function DurationOr30(d: Number): (r: int)
    ensures r != 0
    ensures Truthy(d) ==> r == d.value
    ensures !Truthy(d) ==> r == DefaultDuration
  {
    if Truthy(d) then d.value else DefaultDuration
  }

  /** Two items that differ at most in their `playing` flag. */
  predicate SameButPlaying(a: Entry, b: Entry) {
    a.(playing := b.playing) == b
  }

  /** `findIndex(i => i.id === id)`: the first position holding the id, or -1. */
  function IndexOfId(r: seq<Entry>, id: string): (k: int)
    ensures -1 <= k < |r|
    ensures k >= 0 ==> r[k].id == id && forall j :: 0 <= j < k ==> r[j].id != id
    ensures k < 0 ==> forall j :: 0 <= j < |r| ==> r[j].id != id
    decreases |r|
  {
    if r == [] then -1
    else if r[0].id == id then 0
    else
      var k := IndexOfId(r[1..], id);
      if k < 0 then -1 else k + 1
  }

  /** The position the contract of `IndexOfId` describes is determined by the ids alone. */
  lemma IndexOfIdByIds(r: seq<Entry>, s: seq<Entry>, id: string)
    requires |r| == |s| && forall i :: 0 <= i < |r| ==> r[i].id == s[i].id
    ensures IndexOfId(r, id) == IndexOfId(s, id)
  {
    var a, b := IndexOfId(r, id), IndexOfId(s, id);
    if a >= 0 {
      assert s[a].id == id;
    }
    if b >= 0 {
      assert r[b].id == id;
    }
  }

  /** `map(i => ({...i, playing: false}))`. */
  function AllStopped(r: seq<Entry>): (s: seq<Entry>)
    ensures |s| == |r|
  {
    seq(|r|, i requires 0 <= i < |r| => r[i].(playing := false))
  }

  /** Stopping clears every flag and nothing else. */
  lemma AllStoppedSpec(r: seq<Entry>)
    ensures forall i :: 0 <= i < |r| ==> !AllStopped(r)[i].playing && SameButPlaying(AllStopped(r)[i], r[i])
    ensures AllStopped(AllStopped(r)) == AllStopped(r)
  {
  }

  /** The rundown after a take of position `k`: every flag cleared, then `k`'s set. */
  function Taken(r: seq<Entry>, k: nat): (s: seq<Entry>)
    requires k < |r|
    ensures |s| == |r|
  {
    var cleared := AllStopped(r);
    cleared[k := cleared[k].(playing := true)]
  }

  /** After a take exactly the taken item is playing, and only flags change. */
  lemma TakenSpec(r: seq<Entry>, k: nat)
    requires k < |r|
    ensures forall i :: 0 <= i < |r| ==> (Taken(r, k)[i].playing <==> i == k)
    ensures forall i :: 0 <= i < |r| ==> SameButPlaying(Taken(r, k)[i], r[i])
    ensures forall i :: 0 <= i < |r| && i != k ==> Taken(r, k)[i] == AllStopped(r)[i]
  {
    AllStoppedSpec(r);
  }

  /** Stopping everything after a take leaves the rundown as stopping it before would. */
  lemma StopAfterTake(r: seq<Entry>, k: nat)
    requires k < |r|
    ensures AllStopped(Taken(r, k)) == AllStopped(r)
  {
    var s := Taken(r, k);
    forall i | 0 <= i < |r| ensures AllStopped(s)[i] == AllStopped(r)[i] {
      if i == k { assert s[i] == r[i].(playing := true); }
    }
  }

  /** Taking the item found by its id keeps the rundown's ids, so the id still leads to it. */
  lemma TakenKeepsIds(r: seq<Entry>, k: nat, id: string)
    requires k < |r|
    ensures IndexOfId(Taken(r, k), id) == IndexOfId(r, id)
    ensures IndexOfId(AllStopped(r), id) == IndexOfId(r, id)
  {
    TakenSpec(r, k);
    AllStoppedSpec(r);
    IndexOfIdByIds(Taken(r, k), r, id);
    IndexOfIdByIds(AllStopped(r), r, id);
  }

  // ---------------------------------------------------------------------------
  // item edits

  /** `{...item, [field]: value}`. */
  function WithField(e: Entry, v: FieldValue): Entry {
    match v
    case Label(x) => e.(labelText := x)
    case VideoFile(x) => e.(videoFile := x)
    case Duration(x) => e.(duration := x)
    case Source(x) => e.(source := x)
    case Layer(x) => e.(layer := x)
    case Playing(x) => e.(playing := x)
    case GfxItems(x) => e.(gfxItems := x)
  }

  /** Writing a field twice is writing it once, and no write changes the id. */
  lemma WithFieldSpec(e: Entry, v: FieldValue)
    ensures WithField(e, v).id == e.id
    ensures WithField(WithField(e, v), v) == WithField(e, v)
  {
  }

  /** The rundown after `updateItemField(id, field, value)`. */
  function UpdateEntries(r: seq<Entry>, id: string, v: FieldValue): (s: seq<Entry>)
    ensures |s| == |r|
  {
    seq(|r|, i requires 0 <= i < |r| => if r[i].id == id then WithField(r[i], v) else r[i])
  }

  /** Only the items with that id change, and the ids, order and length are kept; doing the
      same edit again changes nothing more. */
  lemma UpdateEntriesSpec(r: seq<Entry>, id: string, v: FieldValue)
    ensures forall i :: 0 <= i < |r| ==> UpdateEntries(r, id, v)[i].id == r[i].id
    ensures forall i :: 0 <= i < |r| && r[i].id != id ==> UpdateEntries(r, id, v)[i] == r[i]
    ensures forall i :: 0 <= i < |r| && r[i].id == id ==> UpdateEntries(r, id, v)[i] == WithField(r[i], v)
    ensures UpdateEntries(UpdateEntries(r, id, v), id, v) == UpdateEntries(r, id, v)
  {
    var s := UpdateEntries(r, id, v);
    forall i | 0 <= i < |r| ensures UpdateEntries(s, id, v)[i] == s[i] {
      WithFieldSpec(r[i], v);
    }
  }

  /** Edits of two different items do not interfere: either order gives the same rundown. */
  lemma UpdateEntriesCommute(r: seq<Entry>, id1: string, v1: FieldValue, id2: string, v2: FieldValue)
    requires id1 != id2
    ensures UpdateEntries(UpdateEntries(r, id1, v1), id2, v2) == UpdateEntries(UpdateEntries(r, id2, v2), id1, v1)
  {
    var a := UpdateEntries(UpdateEntries(r, id1, v1), id2, v2);
    var b := UpdateEntries(UpdateEntries(r, id2, v2), id1, v1);
    forall i | 0 <= i < |r| ensures a[i] == b[i] {
      WithFieldSpec(r[i], v1);
      WithFieldSpec(r[i], v2);
    }
  }

  /** The graphic `addGfxToItem` creates at time `now` (in ms): its id is `Date.now()` as text. */
  function NewGfx(now: nat): Gfx
  {
    Gfx(NatToString(now), DefaultGfxTemplate, DefaultGfxLayer, [("_NOM", ""), ("_FONCTION", "")])
  }

  /** `({...item, gfxItems: [...item.gfxItems, g]})`. */
  function WithGfx(e: Entry, g: Gfx): Entry {
    e.(gfxItems := e.gfxItems + [g])
  }

  /** `item.gfxItems.filter(g => g.id !== gfxId)`. */
  function WithoutGfx(gs: seq<Gfx>, gfxId: string): (r: seq<Gfx>)
    ensures |r| <= |gs|
    ensures forall g :: g in r <==> g in gs && g.id != gfxId
    ensures (forall g :: g in gs ==> g.id != gfxId) ==> r == gs
    decreases |gs|
  {
    if gs == [] then []
    else if gs[0].id == gfxId then WithoutGfx(gs[1..], gfxId)
    else [gs[0]] + WithoutGfx(gs[1..], gfxId)
  }

  /** Filtering keeps the order of what it keeps: filtering a list with one more graphic
      at its end filters the list and then that graphic. */
  lemma {:induction false} WithoutGfxAppend(gs: seq<Gfx>, g: Gfx, gfxId: string)
    ensures WithoutGfx(gs + [g], gfxId) == WithoutGfx(gs, gfxId) + WithoutGfx([g], gfxId)
    decreases |gs|
  {
    if gs != [] {
      var t := gs + [g];
      assert t[0] == gs[0] && t[1..] == gs[1..] + [g];
      WithoutGfxAppend(gs[1..], g, gfxId);
      if gs[0].id != gfxId {
        assert WithoutGfx(t, gfxId) == [gs[0]] + (WithoutGfx(gs[1..], gfxId) + WithoutGfx([g], gfxId));
      }
    } else {
      assert gs + [g] == [g];
    }
  }

  /** The rundown after `addGfxToItem(itemId)`. */
  function AddGfxTo(r: seq<Entry>, itemId: string, g: Gfx): (s: seq<Entry>)
    ensures |s| == |r|
  {
    seq(|r|, i requires 0 <= i < |r| => if r[i].id == itemId then WithGfx(r[i], g) else r[i])
  }

  /** The rundown after `removeGfxFromItem(itemId, gfxId)`. */
  function RemoveGfxFrom(r: seq<Entry>, itemId: string, gfxId: string): (s: seq<Entry>)
    ensures |s| == |r|
  {
    seq(|r|, i requires 0 <= i < |r| =>
      if r[i].id == itemId then r[i].(gfxItems := WithoutGfx(r[i].gfxItems, gfxId)) else r[i])
  }

  /** Adding gives each target item exactly one more graphic, at the end, and changes
      nothing else; other items are untouched. */
  lemma AddGfxSpec(r: seq<Entry>, itemId: string, g: Gfx)
    ensures forall i :: 0 <= i < |r| && r[i].id == itemId ==>
      AddGfxTo(r, itemId, g)[i].gfxItems == r[i].gfxItems + [g]
      && AddGfxTo(r, itemId, g)[i].(gfxItems := r[i].gfxItems) == r[i]
    ensures forall i :: 0 <= i < |r| && r[i].id != itemId ==> AddGfxTo(r, itemId, g)[i] == r[i]
  {
  }

  /** Removing leaves no graphic with that id in the target items and keeps every other
      graphic there, in its order (the list becomes its filter), and leaves other items and
      other fields untouched. */
  lemma RemoveGfxSpec(r: seq<Entry>, itemId: string, gfxId: string)
    ensures forall i :: 0 <= i < |r| && r[i].id == itemId ==>
      RemoveGfxFrom(r, itemId, gfxId)[i].gfxItems == WithoutGfx(r[i].gfxItems, gfxId)
    ensures forall i, h :: 0 <= i < |r| && r[i].id == itemId ==>
      (h in RemoveGfxFrom(r, itemId, gfxId)[i].gfxItems <==> h in r[i].gfxItems && h.id != gfxId)
    ensures forall i :: 0 <= i < |r| ==> RemoveGfxFrom(r, itemId, gfxId)[i].(gfxItems := r[i].gfxItems) == r[i]
    ensures forall i :: 0 <= i < |r| && r[i].id != itemId ==> RemoveGfxFrom(r, itemId, gfxId)[i] == r[i]
  {
    forall i | 0 <= i < |r| && r[i].id == itemId
      ensures RemoveGfxFrom(r, itemId, gfxId)[i].gfxItems == WithoutGfx(r[i].gfxItems, gfxId)
    {
    }
  }

  /** Removing a graphic right after adding it under the same id is removing it alone: the
      added graphic leaves no trace. */
  lemma AddThenRemove(r: seq<Entry>, itemId: string, g: Gfx)
    ensures RemoveGfxFrom(AddGfxTo(r, itemId, g), itemId, g.id) == RemoveGfxFrom(r, itemId, g.id)
  {
    var a := RemoveGfxFrom(AddGfxTo(r, itemId, g), itemId, g.id);
    var b := RemoveGfxFrom(r, itemId, g.id);
    forall i | 0 <= i < |r| ensures a[i] == b[i] {
      if r[i].id == itemId {
        WithoutGfxAppend(r[i].gfxItems, g, g.id);
        assert WithoutGfx([g], g.id) == [];
      }
    }
  }

  /** Graphics created at different times get different ids. */
  lemma NewGfxIds(a: nat, b: nat)
    ensures NewGfx(a).id == NewGfx(b).id <==> a == b
  {
    NatToStringInjective(a, b);
  }

  /** Removing the graphic just created, when no graphic of the target items has its id,
      gives the rundown back. */
  lemma AddNewThenRemove(r: seq<Entry>, itemId: string, now: nat)
    requires forall i, h :: 0 <= i < |r| && r[i].id == itemId && h in r[i].gfxItems ==> h.id != NatToString(now)
    ensures RemoveGfxFrom(AddGfxTo(r, itemId, NewGfx(now)), itemId, NewGfx(now).id) == r
  {
    AddThenRemove(r, itemId, NewGfx(now));
    var b := RemoveGfxFrom(r, itemId, NewGfx(now).id);
    forall i | 0 <= i < |r| ensures b[i] == r[i] {
    }
  }

  // ---------------------------------------------------------------------------
  // importing the show controller's rundown

  /** The item part `idx` becomes. */
  function PartEntry(p: Part, idx: nat): Entry {
    Entry(TextOr(p.uuid, LocalIdPrefix + NatToString(idx)),
          TextOr(p.name, ImportedLabel),
          TextOr(p.slug, ImportedVideoFile),
          if p.duration.Some? && Truthy(p.duration.value) then p.duration.value else Num(DefaultDuration),
          ImportedSource, ImportedLayer, false, [])
  }

  /** `parts.map((part, idx) => …)`. */
  function MapParts(parts: seq<Part>): (r: seq<Entry>)
    ensures |r| == |parts|
  {
    seq(|parts|, i requires 0 <= i < |parts| => PartEntry(parts[i], i))
  }

  /** Each part becomes one item, in order: its uuid or `local_<index>`, its name or
      `Untitled`, its slug or `No Media`, its duration or 30, on layer `10`, not playing and
      with no graphics. */
  lemma MapPartsSpec(parts: seq<Part>)
    ensures forall i :: 0 <= i < |parts| ==>
      var e := MapParts(parts)[i];
      && e.id == (if TruthyText(parts[i].uuid) then parts[i].uuid.value else LocalIdPrefix + NatToString(i))
      && e.labelText == TextOr(parts[i].name, ImportedLabel)
      && e.videoFile == TextOr(parts[i].slug, ImportedVideoFile)
      && Truthy(e.duration)
      && (parts[i].duration.Some? && Truthy(parts[i].duration.value) ==> e.duration == parts[i].duration.value)
      && (parts[i].duration.None? || !Truthy(parts[i].duration.value) ==> e.duration == Num(DefaultDuration))
      && e.source == ImportedSource && e.layer == ImportedLayer && !e.playing && e.gfxItems == []
  {
  }

  /** Parts without a uuid get distinct local ids, so no two of them collide. */
  lemma LocalIdsDistinct(parts: seq<Part>, i: nat, j: nat)
    requires i < j < |parts|
    requires !TruthyText(parts[i].uuid) && !TruthyText(parts[j].uuid)
    ensures MapParts(parts)[i].id != MapParts(parts)[j].id
  {
    var a, b := MapParts(parts)[i].id, MapParts(parts)[j].id;
    assert a == LocalIdPrefix + NatToString(i) && b == LocalIdPrefix + NatToString(j);
    if a == b {
      assert a[|LocalIdPrefix|..] == NatToString(i);
      assert b[|LocalIdPrefix|..] == NatToString(j);
      NatToStringInjective(i, j);
    }
  }

  /** The rundown `fetchScState` opens: the first of `rundownIds` when the reply lists any,
      otherwise the first listed rundown's uuid, or else its id. An empty id is no choice. */
  function ChooseRundownId(reply: Option<RundownsReply>): (t: Option<string>)
    ensures t.Some? ==> t.value != ""
    ensures t.Some? ==> reply.Some?
  {
    if reply.None? then None
    else match reply.value
      case IdsObject(ids) =>
        if ids.Some? && |ids.value| > 0 && ids.value[0] != "" then Some(ids.value[0]) else None
      case RefArray(refs) =>
        if |refs| == 0 then None
        else if TruthyText(refs[0].uuid) then refs[0].uuid
        else if TruthyText(refs[0].id) then refs[0].id
        else None
  }

  /** A chosen rundown is always the first one the reply names, and a reply that names none
      (null, no ids, an empty list) opens nothing. */
  lemma ChooseRundownIdSpec(reply: Option<RundownsReply>)
    ensures reply.None? ==> ChooseRundownId(reply).None?
    ensures reply.Some? && reply.value.IdsObject? ==>
      var ids := reply.value.rundownIds;
      (ChooseRundownId(reply).Some? <==> ids.Some? && |ids.value| > 0 && ids.value[0] != "")
      && (ChooseRundownId(reply).Some? ==> ChooseRundownId(reply).value == ids.value[0])
    ensures reply.Some? && reply.value.RefArray? ==>
      var refs := reply.value.refs;
      (ChooseRundownId(reply).Some? <==> |refs| > 0 && (TruthyText(refs[0].uuid) || TruthyText(refs[0].id)))
      && (ChooseRundownId(reply).Some? ==>
            ChooseRundownId(reply).value == (if TruthyText(refs[0].uuid) then refs[0].uuid.value else refs[0].id.value))
  {
  }

  // ---------------------------------------------------------------------------
  // the console

  class Console {
    /** `rundown`. */
    var rundown: seq<Entry>
    /** `pvwItem` and `pgmItem`. */
    var preview: Option<Entry>
    var program: Option<Entry>
    /** The on-air countdown in seconds. */
    var timer: int
    var activeRundownId: Option<string>
    /** The calls made to the show controller, in order. */
    var calls: seq<ScCall>

    constructor ()
      ensures rundown == [] && preview == None && program == None && timer == 0
      ensures activeRundownId == None && calls == []
    {
      rundown, preview, program, timer := [], None, None, 0;
      activeRundownId, calls := None, [];
    }

    /** `handleCue`: the item (a copy of it) becomes the preview. */
    method Cue(e: Entry)
      modifies this`preview
      ensures preview == Some(e)
    {
      preview := Some(e);
    }

    /** `handleTake`. With nothing cued nothing happens. Otherwise `/playPart/` is called
        with the cued id; then, when the rundown holds that id, the first item with it is
        the only one playing, the cued item goes on air with its duration (or 30) on the
        countdown, and the item after it, if any, is cued. When the rundown does not hold
        the id, only the call is made. */
    method Take()
      modifies this`rundown, this`preview, this`program, this`timer, this`calls
      ensures old(preview).None? ==>
        rundown == old(rundown) && preview == old(preview) && program == old(program)
        && timer == old(timer) && calls == old(calls)
      ensures old(preview).Some? ==> calls == old(calls) + [PlayPart(old(preview).value.id)]
      ensures old(preview).Some? && IndexOfId(old(rundown), old(preview).value.id) < 0 ==>
        rundown == old(rundown) && preview == old(preview) && program == old(program) && timer == old(timer)
      ensures old(preview).Some? && IndexOfId(old(rundown), old(preview).value.id) >= 0 ==>
        var k := IndexOfId(old(rundown), old(preview).value.id);
        && rundown == Taken(old(rundown), k)
        && program == old(preview)
        && timer == DurationOr30(old(preview).value.duration)
        && preview == (if k + 1 < |rundown| then Some(rundown[k + 1]) else None)
    {
      if preview.None? {
        return;
      }
      var cued := preview.value;
      calls := calls + [PlayPart(cued.id)];
      var k := IndexOfId(rundown, cued.id);
      if k >= 0 {
        var next := Taken(rundown, k);
        rundown, program, timer := next, Some(cued), DurationOr30(cued.duration);
        preview := None;
        if k + 1 < |next| {
          preview := Some(next[k + 1]);
        }
      }
    }

    /** `stopAll`: `/stopPart/` is called, nothing is on air, the countdown is 0 and no item
        is playing; the preview stays. */
    method StopAll()
      modifies this`rundown, this`program, this`timer, this`calls
      ensures calls == old(calls) + [StopPart]
      ensures program == None && timer == 0
      ensures rundown == AllStopped(old(rundown))
    {
      calls := calls + [StopPart];
      program, timer := None, 0;
      rundown := AllStopped(rundown);
    }

    /** One second of the countdown: it runs while something is on air and it is above 0. */
    method CountDown()
      modifies this`timer
      ensures program.Some? && old(timer) > 0 ==> timer == old(timer) - 1
      ensures program.None? || old(timer) <= 0 ==> timer == old(timer)
    {
      if program.Some? && timer > 0 {
        timer := timer - 1;
      }
    }

    /** `updateItemField`: every item with the id gets the field, and so do the preview and
        program copies when they carry that id. */
    method UpdateItemField(id: string, v: FieldValue)
      modifies this`rundown, this`preview, this`program
      ensures rundown == UpdateEntries(old(rundown), id, v)
      ensures old(preview).Some? && old(preview).value.id == id ==> preview == Some(WithField(old(preview).value, v))
      ensures old(preview).None? || old(preview).value.id != id ==> preview == old(preview)
      ensures old(program).Some? && old(program).value.id == id ==> program == Some(WithField(old(program).value, v))
      ensures old(program).None? || old(program).value.id != id ==> program == old(program)
    {
      rundown := UpdateEntries(rundown, id, v);
      if preview.Some? && preview.value.id == id {
        preview := Some(WithField(preview.value, v));
      }
      if program.Some? && program.value.id == id {
        program := Some(WithField(program.value, v));
      }
    }

    /** `addGfxToItem` at time `now`: the default graphic is appended to every item with the
        id, and to the preview when it carries that id; the program copy is not updated. */
    method AddGfx(itemId: string, now: nat)
      modifies this`rundown, this`preview
      ensures rundown == AddGfxTo(old(rundown), itemId, NewGfx(now))
      ensures old(preview).Some? && old(preview).value.id == itemId ==> preview == Some(WithGfx(old(preview).value, NewGfx(now)))
      ensures old(preview).None? || old(preview).value.id != itemId ==> preview == old(preview)
    {
      var g := NewGfx(now);
      rundown := AddGfxTo(rundown, itemId, g);
      if preview.Some? && preview.value.id == itemId {
        preview := Some(WithGfx(preview.value, g));
      }
    }

    /** `removeGfxFromItem`: the graphics with that id leave every item with the item id, and
        the preview when it carries that id; the program copy is not updated. */
    method RemoveGfx(itemId: string, gfxId: string)
      modifies this`rundown, this`preview
      ensures rundown == RemoveGfxFrom(old(rundown), itemId, gfxId)
      ensures old(preview).Some? && old(preview).value.id == itemId ==>
        preview == Some(old(preview).value.(gfxItems := WithoutGfx(old(preview).value.gfxItems, gfxId)))
      ensures old(preview).None? || old(preview).value.id != itemId ==> preview == old(preview)
    {
      rundown := RemoveGfxFrom(rundown, itemId, gfxId);
      if preview.Some? && preview.value.id == itemId {
        preview := Some(preview.value.(gfxItems := WithoutGfx(preview.value.gfxItems, gfxId)));
      }
    }

    /** The rundown part of `fetchScState`, given the answer to `/rundowns/` and, when a
        rundown is chosen, the answer to its detail request: the chosen id becomes active and
        its parts, when the answer has them, become the rundown. The project request that
        follows is made either way. */
    method Sync(reply: Option<RundownsReply>, detail: Option<RundownDetail>)
      modifies this`activeRundownId, this`rundown, this`calls
      ensures ChooseRundownId(reply).None? ==>
        activeRundownId == old(activeRundownId) && rundown == old(rundown)
        && calls == old(calls) + [ListRundowns, GetProject]
      ensures ChooseRundownId(reply).Some? ==>
        var t := ChooseRundownId(reply).value;
        && activeRundownId == Some(t)
        && calls == old(calls) + [ListRundowns, GetRundown(t), GetProject]
        && rundown == (if detail.Some? && detail.value.parts.Some? then MapParts(detail.value.parts.value) else old(rundown))
    {
      calls := calls + [ListRundowns];
      var target := ChooseRundownId(reply);
      if target.Some? {
        activeRundownId := target;
        calls := calls + [GetRundown(target.value)];
        if detail.Some? && detail.value.parts.Some? {
          rundown := MapParts(detail.value.parts.value);
        }
      }
      calls := calls + [GetProject];
    }
  }
}

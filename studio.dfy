/** The studio's live engine: the state behind the transport buttons and the 1 Hz timer.
    It keeps the rundown, the cued and selected items, the layer map of what is on air,
    the registry of graphics expiry timers, the timers that are still pending, and the
    control requests posted to the gateway. Time is explicit: each pending timer is an
    event that the environment fires (`Tick`, `TimerFired`, `GraceExpired`,
    `DelayedGfxDue`, `DeferredTakeDue`). */
module Studio {
  import opened JsCore
  import opened AmcpCommands
  import opened AmcpBridge
  import opened Rundown
  import opened Layers

  /** How long `cgStop` waits before it removes the layer from the map. */
  const GraceMs: nat := 2000
  /** How long a take found by auto-next, or the first take of a playlist, waits. */
  const DeferredTakeMs: nat := 200

  /** An armed graphics expiry timer: the key it acts on and the mode it was armed in. */
  datatype Expiry = Expiry(key: string, mode: string)

  /** The item a take plays: the one given, or else the cued one looked up in the rundown. */
  function TakeTarget(givenItem: Option<Item>, preview: Option<string>, pls: seq<Playlist>): Option<Item>
  {
    if givenItem.Some? then givenItem
    else if TruthyText(preview) then FindItem(pls, preview.value)
    else None
  }

  /** A take plays the item it is given; with none given, the first item with the cued
      unique id in the last playlist holding one; and nothing when nothing is cued or no
      playlist holds the cued item. */
  lemma TakeTargetSpec(givenItem: Option<Item>, preview: Option<string>, pls: seq<Playlist>)
    ensures givenItem.Some? ==> TakeTarget(givenItem, preview, pls) == givenItem
    ensures givenItem.None? ==> (TakeTarget(givenItem, preview, pls).None? <==>
      !TruthyText(preview) || forall i :: 0 <= i < |pls| ==> !Holds(pls[i], preview.value))
    ensures givenItem.None? && TakeTarget(givenItem, preview, pls).Some? ==>
      exists i, k :: 0 <= i < |pls| && 0 <= k < |pls[i].items|
        && pls[i].items[k] == TakeTarget(givenItem, preview, pls).value
        && pls[i].items[k].uniqId == preview.value
        && (forall m :: 0 <= m < k ==> pls[i].items[m].uniqId != preview.value)
        && (forall j :: i < j < |pls| ==> !Holds(pls[j], preview.value))
  {
    if givenItem.None? && TruthyText(preview) {
      FindItemSpec(pls, preview.value);
      if FindItem(pls, preview.value).Some? {
        var i :| 0 <= i < |pls| && FindIn(pls[i].items, preview.value) == FindItem(pls, preview.value)
              && forall j :: i < j < |pls| ==> !Holds(pls[j], preview.value);
        var k := FindIndex(pls[i].items, preview.value);
        assert pls[i].items[k] == TakeTarget(givenItem, preview, pls).value;
      }
    }
  }

  /** A key whose record is a video or a template clip. */
  predicate PlayingAt(k: string, entries: map<string, Layer>) {
    k in entries && (entries[k].kind == Video || entries[k].kind == TemplateClip)
  }

  /** `Object.values(activeLayers).find(l => l.type is VIDEO or TEMPLATE_CLIP)?.uniqId`. */
  function FirstPlaying(keys: seq<string>, entries: map<string, Layer>): (r: Option<string>)
    ensures r.Some? ==> exists k :: k in keys && PlayingAt(k, entries) && entries[k].uniqId == r.value
    ensures r.None? ==> forall k :: k in keys ==> !PlayingAt(k, entries)
  {
    if keys == [] then None
    else if PlayingAt(keys[0], entries) then Some(entries[keys[0]].uniqId)
    else FirstPlaying(keys[1..], entries)
  }

  /** The reference is the first playing record in key order. */
  lemma {:induction false} FirstPlayingFirst(keys: seq<string>, entries: map<string, Layer>)
    ensures forall j :: 0 <= j < |keys| && PlayingAt(keys[j], entries) && (forall k :: 0 <= k < j ==> !PlayingAt(keys[k], entries)) ==>
      FirstPlaying(keys, entries) == Some(entries[keys[j]].uniqId)
  {
    if keys != [] {
      FirstPlayingFirst(keys[1..], entries);
      forall j | 0 <= j < |keys| && PlayingAt(keys[j], entries) && (forall k :: 0 <= k < j ==> !PlayingAt(keys[k], entries))
        ensures FirstPlaying(keys, entries) == Some(entries[keys[j]].uniqId)
      {
        if j > 0 {
          assert !PlayingAt(keys[0], entries);
          assert keys[1..][j - 1] == keys[j];
          assert forall k :: 0 <= k < j - 1 ==> keys[1..][k] == keys[k + 1];
        }
      }
    }
  }

  /** The item `handleNext` cues: the one after the cued item, or, with nothing cued, after
      the first playing clip; none when that reference is empty or has nothing after it. */
  function NextTarget(preview: Option<string>, active: LayerMap, pls: seq<Playlist>): (r: Option<Item>)
    ensures TruthyText(preview) ==> r == NextAfter(pls, preview.value)
    ensures !TruthyText(preview) && (forall k :: k in active.keys ==> !PlayingAt(k, active.entries)) ==> r.None?
    ensures !TruthyText(preview) ==> forall j ::
      (0 <= j < |active.keys| && PlayingAt(active.keys[j], active.entries)
       && forall k :: 0 <= k < j ==> !PlayingAt(active.keys[k], active.entries)) ==>
        r == (var id := active.entries[active.keys[j]].uniqId; if id != "" then NextAfter(pls, id) else None)
  {
    FirstPlayingFirst(active.keys, active.entries);
    var refId := if TruthyText(preview) then preview else FirstPlaying(active.keys, active.entries);
    if TruthyText(refId) then NextAfter(pls, refId.value) else None
  }

  /** What `handleCue` posts: a `load` of the item, except for a template clip. */
  function CueCommands(item: Item, online: bool): seq<ControlRequest>
  {
    if item.kind == TemplateClip then []
    else Posted(online, Load(NatToString(item.channel), NatToString(item.layer), item.id, item.loop))
  }

  /** Online, a cue preloads with the very `load` the take sends again (same file, layer and
      loop flag), so a take after a cue restarts nothing else; a template clip is not
      preloaded, its take alone adds it. Offline a cue sends nothing. */
  lemma CueMatchesTake(item: Item)
    ensures item.kind != TemplateClip ==> CueCommands(item, true) == [TakeCommand(item)]
    ensures item.kind == TemplateClip ==> CueCommands(item, true) == [] && TakeCommand(item).CgAdd?
    ensures CueCommands(item, false) == []
  {
  }

  /** The delayed graphics a take schedules: none for a template clip. */
  function TakeSchedules(item: Item): seq<(Gfx, nat)> {
    if item.kind == TemplateClip then [] else Scheduled(item)
  }

  /** Every timer id in use is positive and below the next one handed out. */
  ghost predicate TimerIds(registry: map<string, nat>, armed: map<nat, Expiry>, nextTimer: nat) {
    && nextTimer >= 1
    && (forall k :: k in registry ==> 1 <= registry[k] < nextTimer)
    && (forall id :: id in armed ==> 1 <= id < nextTimer)
  }

  /** One record's turn in a tick: its new record, and, when it ends, the end command it
      posts (a `pause` for a video, `cgStop` of its key for a template clip) and the
      removal that `cgStop` schedules. */
  method TickRecord(layer: Layer, online: bool) returns (ticked: Layer, posts: seq<ControlRequest>, drops: seq<string>)
    ensures ticked == TickLayer(layer)
    ensures posts == if Ends(layer) then Posted(online, EndCommand(layer)) else []
    ensures drops == if Ends(layer) && layer.kind == TemplateClip then [LayerKey(layer.channel, layer.layer)] else []
  {
    posts, drops := [], [];
    if Infinite(layer) {
      ticked := layer;
    } else if layer.remaining > 0 {
      ticked := layer.(remaining := if layer.remaining - 1 > 0 then layer.remaining - 1 else 0);
    } else if layer.remaining == 0 && (layer.kind == Video || layer.kind == TemplateClip) && !layer.finished {
      ticked := layer.(remaining := 0, finished := true);
      if layer.kind == Video {
        posts := Posted(online, Pause(NatToString(layer.channel), NatToString(layer.layer)));
      } else {
        var key := LayerKey(layer.channel, layer.layer);
        KeyCommands(layer.channel, layer.layer);
        posts, drops := Posted(online, StopCommand(key)), [key];
      }
    } else {
      ticked := layer;
    }
  }

  /** The `forEach` callback for the `i`-th key: the walk so far extends by that key's
      ticked record, its end command and removal, and what it asks for. */
  method TickKey(prev: LayerMap, i: nat, next: LayerMap, posts: seq<ControlRequest>, drops: seq<string>,
                 triggerNext: Option<Item>, online: bool, chain: bool, pls: seq<Playlist>)
    returns (next': LayerMap, posts': seq<ControlRequest>, drops': seq<string>, triggerNext': Option<Item>)
    requires KeysListed(prev) && i < |prev.keys| && TickedPrefix(prev, next, i)
    requires posts == TickCommands(prev.keys[..i], prev.entries, online)
    requires drops == TickRemovals(prev.keys[..i], prev.entries)
    requires triggerNext == LastSome(TickAsks(prev.keys, prev.entries, chain, pls)[..i])
    ensures TickedPrefix(prev, next', i + 1)
    ensures posts' == TickCommands(prev.keys[..i + 1], prev.entries, online)
    ensures drops' == TickRemovals(prev.keys[..i + 1], prev.entries)
    ensures triggerNext' == LastSome(TickAsks(prev.keys, prev.entries, chain, pls)[..i + 1])
  {
    var key := prev.keys[i];
    TickedPrefixStep(prev, next, i);
    TickStep(prev.keys, i, prev.entries, online);
    TickNextStep(prev.keys, i, prev.entries, chain, pls);
    var layer := prev.entries[key];
    var ticked, post, drop := TickRecord(layer, online);
    next', posts', drops' := Put(next, key, ticked), posts + post, drops + drop;
    triggerNext' := triggerNext;
    var found := AutoNextOf(layer, chain, pls);
    if found.Some? {
      triggerNext' := found;
    }
  }

  /** The walk over the keys inside the state update: ticks every record in key order,
      collects the end commands and removals of the clips that end, and remembers the
      last item auto-next asks for. */
  method TickWalk(prev: LayerMap, online: bool, chain: bool, pls: seq<Playlist>)
    returns (next: LayerMap, posts: seq<ControlRequest>, drops: seq<string>, triggerNext: Option<Item>)
    requires KeysListed(prev)
    ensures next == TickMap(prev)
    ensures posts == TickCommands(prev.keys, prev.entries, online)
    ensures drops == TickRemovals(prev.keys, prev.entries)
    ensures triggerNext == TickNext(prev.keys, prev.entries, chain, pls)
  {
    var keys := prev.keys;
    next, posts, drops, triggerNext := NoLayers, [], [], None;
    ghost var asks := TickAsks(keys, prev.entries, chain, pls);
    var i := 0;
    while i < |keys|
      invariant 0 <= i <= |keys|
      invariant TickedPrefix(prev, next, i)
      invariant posts == TickCommands(keys[..i], prev.entries, online)
      invariant drops == TickRemovals(keys[..i], prev.entries)
      invariant triggerNext == LastSome(asks[..i])
    {
      next, posts, drops, triggerNext := TickKey(prev, i, next, posts, drops, triggerNext, online, chain, pls);
      i := i + 1;
    }
    TickedPrefixAll(prev, next);
    assert keys[..i] == keys;
    assert asks[..i] == asks;
  }

  class LiveEngine {
    /** The studio's own view of the connection, from the `/health` poll. */
    var online: bool
    /** The auto-chain master switch. */
    var autoChain: bool
    var playlists: seq<Playlist>
    /** The cued item (`previewItemId`) and the selected one. */
    var preview: Option<string>
    var selected: Option<string>
    /** `activeLayers`. */
    var active: LayerMap
    /** `playingTimers`: the graphics expiry timer last armed at each key. */
    var registry: map<string, nat>
    /** The expiry timers that are armed and not yet fired or cleared, by id. */
    var armed: map<nat, Expiry>
    /** The id the next timer gets (browser timer ids are positive). */
    var nextTimer: nat
    /** The pending removals scheduled by `cgStop`, which nothing cancels. */
    var removals: seq<string>
    /** The pending delayed graphics of takes, each with its default channel. */
    var delayed: seq<(Gfx, nat)>
    /** The pending deferred takes. */
    var takes: seq<Item>
    /** Every control request posted to the gateway, in order. */
    var sent: seq<ControlRequest>

    ghost predicate Valid()
      reads this`active, this`registry, this`armed, this`nextTimer
    {
      WellKeyed(active) && TimerIds(registry, armed, nextTimer)
    }

    constructor (pls: seq<Playlist>)
      ensures Valid()
      ensures !online && !autoChain && playlists == pls && preview == None && selected == None
      ensures active == NoLayers && registry == map[] && armed == map[] && nextTimer == 1
      ensures removals == [] && delayed == [] && takes == [] && sent == []
    {
      online, autoChain, playlists := false, false, pls;
      preview, selected := None, None;
      active := NoLayers;
      registry, armed, nextTimer := map[], map[], 1;
      removals, delayed, takes, sent := [], [], [], [];
    }

    // -------------------------------------------------------------------------
    // connection, switches and rundown edits

    /** A `/health` poll: the flag follows `casparConnection`, and a failed poll clears it. */
    method OnHealth(reply: Option<HealthReply>)
      modifies this`online
      ensures online == (reply.Some? && reply.value.casparConnection)
    {
      online := reply.Some? && reply.value.casparConnection;
    }

    method SetAutoChain(on: bool)
      modifies this`autoChain
      ensures autoChain == on
    {
      autoChain := on;
    }

    /** `sendCasparCommand`: posts only while the studio sees the gateway online. */
    method Send(c: ControlRequest)
      modifies this`sent
      ensures sent == old(sent) + Posted(online, c)
    {
      if online {
        sent := sent + [c];
      }
    }

    method MoveItem(plId: string, index: int, direction: int)
      modifies this`playlists
      ensures playlists == Rundown.MoveItem(old(playlists), plId, index, direction)
    {
      playlists := Rundown.MoveItem(playlists, plId, index, direction);
    }

    method Drop(sourcePlId: string, sourceIndex: int, targetPlId: string, targetIndex: int)
      modifies this`playlists
      ensures playlists == Rundown.Drop(old(playlists), sourcePlId, sourceIndex, targetPlId, targetIndex)
    {
      playlists := Rundown.Drop(playlists, sourcePlId, sourceIndex, targetPlId, targetIndex);
    }

    method UpdateItem(uniqId: string, f: Item -> Item)
      modifies this`playlists
      ensures playlists == Rundown.UpdateItem(old(playlists), uniqId, f)
    {
      playlists := Rundown.UpdateItem(playlists, uniqId, f);
    }

    /** `deleteItem`: refused on a locked playlist; otherwise the item goes, and so does the
        selection when it was that item. */
    method DeleteItem(plId: string, uniqId: string)
      modifies this`playlists, this`selected
      ensures playlists == Rundown.DeleteItem(old(playlists), plId, uniqId)
      ensures DeleteRefused(old(playlists), plId) ==> selected == old(selected)
      ensures !DeleteRefused(old(playlists), plId) ==>
        selected == if old(selected) == Some(uniqId) then None else old(selected)
    {
      if DeleteRefused(playlists, plId) {
        return;
      }
      playlists := Rundown.DeleteItem(playlists, plId, uniqId);
      if selected == Some(uniqId) {
        selected := None;
      }
    }

    /** Sets one key of the layer map, keeping it well keyed. */
    method SetLayer(key: string, v: Layer)
      requires Valid() && key == LayerKey(v.channel, v.layer)
      modifies this`active
      ensures Valid()
      ensures active == Put(old(active), key, v)
    {
      PutSpec(active, key, v);
      active := Put(active, key, v);
    }

    /** The end of a tick: the walked records replace the layer map, and what the walk
        posted, removed and asked for is appended to what was sent, scheduled and taken. */
    method CommitTick(next: LayerMap, posts: seq<ControlRequest>, drops: seq<string>, triggerNext: Option<Item>)
      requires Valid() && WellKeyed(next)
      modifies this`active, this`sent, this`removals, this`takes
      ensures Valid() && active == next
      ensures sent == old(sent) + posts && removals == old(removals) + drops
      ensures takes == old(takes) + Listed(triggerNext)
    {
      active, sent, removals, takes := next, sent + posts, removals + drops, takes + Listed(triggerNext);
    }

    // -------------------------------------------------------------------------
    // cue, next, take

    /** `handleCue`: the item becomes cued and selected, and is loaded unless it is a
        template clip. */
    method Cue(item: Item)
      modifies this`preview, this`selected, this`sent
      ensures preview == Some(item.uniqId) && selected == Some(item.uniqId)
      ensures sent == old(sent) + CueCommands(item, online)
    {
      preview := Some(item.uniqId);
      selected := Some(item.uniqId);
      if item.kind != TemplateClip {
        Send(Load(NatToString(item.channel), NatToString(item.layer), item.id, item.loop));
      }
    }

    /** `handlePlayPlaylist`: the first item of a non-empty playlist is cued, and taken
        200 ms later. */
    method PlayPlaylist(plId: string)
      modifies this`preview, this`selected, this`sent, this`takes
      ensures var pl := FindPlaylist(old(playlists), plId);
        if pl.Some? && |pl.value.items| > 0 then
          preview == Some(pl.value.items[0].uniqId) && selected == preview
          && sent == old(sent) + CueCommands(pl.value.items[0], online)
          && takes == old(takes) + [pl.value.items[0]]
        else
          preview == old(preview) && selected == old(selected) && sent == old(sent) && takes == old(takes)
    {
      var pl := FindPlaylist(playlists, plId);
      if pl.Some? && |pl.value.items| > 0 {
        Cue(pl.value.items[0]);
        takes := takes + [pl.value.items[0]];
      }
    }

    /** `handleNext`: cues the item after the reference item, if there is one. */
    method Next()
      modifies this`preview, this`selected, this`sent
      ensures var target := NextTarget(old(preview), active, playlists);
        if target.Some? then
          preview == Some(target.value.uniqId) && selected == preview
          && sent == old(sent) + CueCommands(target.value, online)
        else
          preview == old(preview) && selected == old(selected) && sent == old(sent)
    {
      var target := NextTarget(preview, active, playlists);
      if target.Some? {
        Cue(target.value);
      }
    }

    /** `handleTake`: with no item to play nothing happens; otherwise the item is taken. */
    method Take(givenItem: Option<Item>)
      requires Valid()
      modifies this`active, this`preview, this`sent, this`delayed
      ensures Valid()
      ensures var target := TakeTarget(givenItem, old(preview), playlists);
        if target.None? then
          active == old(active) && preview == old(preview) && sent == old(sent) && delayed == old(delayed)
        else
          && preview == None
          && active == Put(old(active), LayerKey(target.value.channel, target.value.layer), TakeLayer(target.value))
          && sent == old(sent) + Posted(online, TakeCommand(target.value))
          && delayed == old(delayed) + TakeSchedules(target.value)
    {
      var target := TakeTarget(givenItem, preview, playlists);
      if target.Some? {
        TakeItem(target.value);
      }
    }

    /** Taking an item: the cue is cleared, only the item's key is set (to a fresh
        countdown), the take command is posted and, except for a template clip, the item's
        graphics with a delay of 0 or more are scheduled. Timers are neither armed nor
        cancelled. */
    method TakeItem(item: Item)
      requires Valid()
      modifies this`active, this`preview, this`sent, this`delayed
      ensures Valid()
      ensures preview == None
      ensures active == Put(old(active), LayerKey(item.channel, item.layer), TakeLayer(item))
      ensures sent == old(sent) + Posted(online, TakeCommand(item))
      ensures delayed == old(delayed) + TakeSchedules(item)
    {
      var key := LayerKey(item.channel, item.layer);
      preview := None;
      if item.kind == TemplateClip {
        Send(CgAdd(NatToString(item.channel), NatToString(item.layer), item.id, item.data));
      } else {
        Send(Load(NatToString(item.channel), NatToString(item.layer), item.id, item.loop));
        delayed := delayed + Scheduled(item);
      }
      // the record is set in the same event, before the commands leave
      SetLayer(key, TakeLayer(item));
    }

    // -------------------------------------------------------------------------
    // graphics and stops

    /** `playGfx`: sets the graphic's key, posts its `cg-add`, and, when the graphic has a
        positive duration and no loop, arms a fresh expiry timer and records it at the key,
        overwriting the key's previous handle WITHOUT cancelling that timer. */
    method PlayGfx(g: Gfx, defaultChannel: nat)
      requires Valid()
      modifies this`active, this`sent, this`registry, this`armed, this`nextTimer
      ensures Valid()
      ensures var ch := GfxChannel(g, defaultChannel);
        && active == Put(old(active), LayerKey(ch, g.layer), GfxLayer(g, ch))
        && sent == old(sent) + Posted(online, CgAdd(NatToString(ch), NatToString(g.layer), g.template, g.data))
      ensures !ExpiryArmed(g) ==> registry == old(registry) && armed == old(armed) && nextTimer == old(nextTimer)
      ensures ExpiryArmed(g) ==>
        var key := LayerKey(GfxChannel(g, defaultChannel), g.layer);
        && old(nextTimer) !in old(armed)
        && armed == old(armed)[old(nextTimer) := Expiry(key, g.mode)]
        && registry == old(registry)[key := old(nextTimer)]
        && nextTimer == old(nextTimer) + 1
    {
      var ch := GfxChannel(g, defaultChannel);
      var key := LayerKey(ch, g.layer);
      SetLayer(key, GfxLayer(g, ch));
      Send(CgAdd(NatToString(ch), NatToString(g.layer), g.template, g.data));
      if g.duration > 0 && !g.loop {
        var id := nextTimer;
        nextTimer := nextTimer + 1;
        armed := armed[id := Expiry(key, g.mode)];
        registry := registry[key := id];
      }
    }

    /** `cgStop`: posts the stop at once and schedules the key's removal 2000 ms later. */
    method CgStopLayer(key: string)
      modifies this`sent, this`removals
      ensures sent == old(sent) + Posted(online, StopCommand(key))
      ensures removals == old(removals) + [key]
    {
      Send(StopCommand(key));
      removals := removals + [key];
    }

    /** `stopLayer`: cancels and forgets the key's registered timer, removes only that key,
        and posts a `clear` of it. */
    method StopLayer(key: string)
      requires Valid()
      modifies this`registry, this`armed, this`active, this`sent
      ensures Valid()
      ensures key in old(registry) ==> armed == old(armed) - {old(registry)[key]} && registry == old(registry) - {key}
      ensures key !in old(registry) ==> armed == old(armed) && registry == old(registry)
      ensures active == Remove(old(active), key)
      ensures sent == old(sent) + Posted(online, ClearCommand(key))
    {
      if key in registry {
        armed := armed - {registry[key]};
        registry := registry - {key};
      }
      RemoveSpec(active, key);
      active := Remove(active, key);
      Send(ClearCommand(key));
    }

    /** `handlePanicChannel`: one whole-channel `clear`, and every layer on that channel
        leaves the map. Timers are not touched. */
    method PanicChannel(channel: nat)
      requires Valid()
      modifies this`active, this`sent
      ensures Valid()
      ensures active == PanicMap(old(active), channel)
      ensures sent == old(sent) + Posted(online, Clear(NatToString(channel), None))
    {
      Send(Clear(NatToString(channel), None));
      PanicSpec(active, channel);
      active := PanicMap(active, channel);
    }

    // -------------------------------------------------------------------------
    // the 1 Hz tick

    /** One tick of the 1 s interval: the walk's records become the layer map, and the
        item auto-next asked for, if any, is taken 200 ms later. */
    method Tick()
      requires Valid()
      modifies this`active, this`sent, this`removals, this`takes
      ensures Valid()
      ensures active == TickMap(old(active))
      ensures sent == old(sent) + TickCommands(old(active).keys, old(active).entries, online)
      ensures removals == old(removals) + TickRemovals(old(active).keys, old(active).entries)
      ensures takes == old(takes) + Listed(TickNext(old(active).keys, old(active).entries, autoChain, playlists))
    {
      TickMapWellKeyed(active);
      var next, posts, drops, triggerNext := TickWalk(active, online, autoChain, playlists);
      CommitTick(next, posts, drops, triggerNext);
    }

    // -------------------------------------------------------------------------
    // pending timers firing

    /** An armed expiry timer fires: in `AUTO_FINISH` mode it stops the graphic with
        `cgStop`, in `TIMER` mode with `stopLayer`, in any other mode it does nothing. The
        key's registry entry is left in place except by `stopLayer`. */
    method TimerFired(id: nat)
      requires Valid() && id in armed
      modifies this`armed, this`registry, this`active, this`sent, this`removals
      ensures Valid()
      ensures var e := old(armed)[id];
        if e.mode == AutoFinish then
          && armed == old(armed) - {id} && registry == old(registry) && active == old(active)
          && sent == old(sent) + Posted(online, StopCommand(e.key)) && removals == old(removals) + [e.key]
        else if e.mode == TimerMode then
          && (e.key in old(registry) ==> armed == old(armed) - {id} - {old(registry)[e.key]} && registry == old(registry) - {e.key})
          && (e.key !in old(registry) ==> armed == old(armed) - {id} && registry == old(registry))
          && active == Remove(old(active), e.key)
          && sent == old(sent) + Posted(online, ClearCommand(e.key)) && removals == old(removals)
        else
          && armed == old(armed) - {id} && registry == old(registry) && active == old(active)
          && sent == old(sent) && removals == old(removals)
    {
      var e := armed[id];
      armed := armed - {id};
      if e.mode == AutoFinish {
        CgStopLayer(e.key);
      } else if e.mode == TimerMode {
        StopLayer(e.key);
      }
    }

    /** The 2000 ms after a `cgStop` have passed: the key leaves the map, whatever it holds
        by then. */
    method GraceExpired(i: nat)
      requires Valid() && i < |removals|
      modifies this`removals, this`active
      ensures Valid()
      ensures removals == RemoveAt(old(removals), i)
      ensures active == Remove(old(active), old(removals)[i])
    {
      var key := removals[i];
      removals := RemoveAt(removals, i);
      RemoveSpec(active, key);
      active := Remove(active, key);
    }

    /** A take's delayed graphic is due: it plays on its default channel. */
    method DelayedGfxDue(i: nat)
      requires Valid() && i < |delayed|
      modifies this`delayed, this`active, this`sent, this`registry, this`armed, this`nextTimer
      ensures Valid()
      ensures delayed == RemoveAt(old(delayed), i)
      ensures var (g, ch0) := old(delayed)[i]; var ch := GfxChannel(g, ch0);
        && active == Put(old(active), LayerKey(ch, g.layer), GfxLayer(g, ch))
        && sent == old(sent) + Posted(online, CgAdd(NatToString(ch), NatToString(g.layer), g.template, g.data))
        && (ExpiryArmed(g) ==> armed == old(armed)[old(nextTimer) := Expiry(LayerKey(ch, g.layer), g.mode)]
                               && registry == old(registry)[LayerKey(ch, g.layer) := old(nextTimer)])
        && (!ExpiryArmed(g) ==> armed == old(armed) && registry == old(registry))
    {
      var (g, ch) := delayed[i];
      delayed := RemoveAt(delayed, i);
      PlayGfx(g, ch);
    }

    /** A deferred take is due: the item is taken as given. */
    method DeferredTakeDue(i: nat)
      requires Valid() && i < |takes|
      modifies this`takes, this`active, this`preview, this`sent, this`delayed
      ensures Valid()
      ensures takes == RemoveAt(old(takes), i)
      ensures var item := old(takes)[i];
        && preview == None
        && active == Put(old(active), LayerKey(item.channel, item.layer), TakeLayer(item))
        && sent == old(sent) + Posted(online, TakeCommand(item))
        && delayed == old(delayed) + TakeSchedules(item)
    {
      var item := takes[i];
      takes := RemoveAt(takes, i);
      TakeItem(item);
    }
  }

  // ---------------------------------------------------------------------------
  // what the engine's events promise together

  /** A take followed by `remaining` ticks: the end of a taken clip is handled on exactly
      one tick, and a graphic's or a looping clip's never. */
  lemma TakenClipEndsOnce(item: Item, n: nat)
    requires !item.loop && (item.kind == "" || item.kind == Video || item.kind == TemplateClip)
    requires TakeRemaining(item.duration) >= 0
    ensures Ends(Ticks(TakeLayer(item), n)) <==> n == TakeRemaining(item.duration)
  {
    EndsExactlyOnce(TakeLayer(item), n);
  }

  /** A `MANUAL` graphic stays on air through any number of ticks until something stops it. */
  lemma ManualGraphicStays(g: Gfx, ch: nat, n: nat)
    requires g.mode == Manual
    ensures Ticks(GfxLayer(g, ch), n) == GfxLayer(g, ch)
  {
    TicksFixed(GfxLayer(g, ch), n);
  }
}

/** The studio's view of what is on air: one layer record per `channel-layer` key, kept in
    the order the keys were first set (the order in which JavaScript walks an object's
    keys). This module holds the records, how a take or a graphic builds one, what one
    tick of the 1 Hz timer does to a record, and the map edits the live engine makes. */
module Layers {
  import opened JsCore
  import opened AmcpCommands
  import opened Rundown

  const Video: string := "VIDEO"
  const TemplateClip: string := "TEMPLATE_CLIP"
  const GfxKind: string := "GFX"
  const Manual: string := "MANUAL"
  const TimerMode: string := "TIMER"
  const AutoFinish: string := "AUTO_FINISH"

  /** What a take counts down from when the item's duration reads as 0 or as no number. */
  const DefaultRemaining: int := 30

  /** `${channel}-${layer}`. */
  function LayerKey(channel: nat, layer: nat): string {
    NatToString(channel) + "-" + NatToString(layer)
  }

  /** A layer on air. A take copies the item's fields (`uniqId`, `loop`, `autoNext`; it
      has no `mode`, so that is empty); a graphic has no `uniqId` and no `autoNext`.
      `remaining` is the count of seconds left, `finished` marks a clip whose end was
      handled. */
  datatype Layer = Layer(
    uniqId: string, channel: nat, layer: nat, kind: string, mode: string,
    loop: bool, autoNext: bool, remaining: int, finished: bool)

  // ---------------------------------------------------------------------------
  // keys and the commands built from them

  lemma DigitsNoDash(s: string)
    requires AllDigits(s)
    ensures '-' !in s
  {
    forall i | 0 <= i < |s| ensures s[i] != '-' {
      assert IsDigit(s[i]);
    }
  }

  /** `key.split('-')` of a key built from a channel and a layer gives them back. */
  lemma KeySplit(channel: nat, layer: nat)
    ensures SplitOn(LayerKey(channel, layer), '-') == [NatToString(channel), NatToString(layer)]
  {
    var a, b := NatToString(channel), NatToString(layer);
    NatToStringShape(channel);
    NatToStringShape(layer);
    DigitsNoDash(a);
    DigitsNoDash(b);
    assert JoinWith([a, b], '-') == a + "-" + b by {
      assert [a, b][1..] == [b];
    }
    JoinSplitOn([a, b], '-');
  }

  /** Distinct channel-layer pairs have distinct keys. */
  lemma KeyInjective(c1: nat, l1: nat, c2: nat, l2: nat)
    ensures LayerKey(c1, l1) == LayerKey(c2, l2) ==> c1 == c2 && l1 == l2
  {
    KeySplit(c1, l1);
    KeySplit(c2, l2);
    NatToStringInjective(c1, c2);
    NatToStringInjective(l1, l2);
  }

  /** `parseInt(key.split('-')[0])`: the channel a key names, as panic reads it. */
  function KeyChannel(key: string): Number {
    ParseInt(SplitOn(key, '-')[0])
  }

  /** `cgStop(key)`: `const [channel, layer] = key.split('-')`, and a missing layer renders
      as `undefined` in the gateway's command line. */
  function StopCommand(key: string): ControlRequest {
    var parts := SplitOn(key, '-');
    CgStop(parts[0], if |parts| > 1 then parts[1] else "undefined")
  }

  /** `stopLayer(key)`'s `clear`: a missing layer is dropped from the request body, which
      makes it a whole-channel clear. */
  function ClearCommand(key: string): ControlRequest {
    var parts := SplitOn(key, '-');
    Clear(parts[0], if |parts| > 1 then Some(parts[1]) else None)
  }

  /** A well-formed key names its own channel and layer in every command built from it. */
  lemma KeyCommands(channel: nat, layer: nat)
    ensures KeyChannel(LayerKey(channel, layer)) == Num(channel)
    ensures StopCommand(LayerKey(channel, layer)) == CgStop(NatToString(channel), NatToString(layer))
    ensures ClearCommand(LayerKey(channel, layer)) == Clear(NatToString(channel), Some(NatToString(layer)))
  {
    KeySplit(channel, layer);
    ParseIntOfNat(channel);
  }

  // ---------------------------------------------------------------------------
  // the records a take and a graphic put on air

  /** `parseInt(duration) || 30`. */
  function TakeRemaining(duration: string): (r: int)
    ensures r != 0
    ensures ParseInt(duration).NaN? || ParseInt(duration) == Num(0) ==> r == DefaultRemaining
    ensures ParseInt(duration).Num? && ParseInt(duration).value != 0 ==> r == ParseInt(duration).value
  {
    match ParseInt(duration)
    case NaN => DefaultRemaining
    case Num(v) => if v == 0 then DefaultRemaining else v
  }

  /** A duration written as a whole number of seconds counts down from that number, and
      from 30 when it is 0. */
  lemma TakeRemainingOfNat(n: nat)
    ensures TakeRemaining(NatToString(n)) == if n == 0 then DefaultRemaining else n
  {
    ParseIntOfNat(n);
  }

  /** The record a take puts at the item's key: the item's fields, its countdown, its type
      (`VIDEO` when it has none) and not finished. */
  function TakeLayer(item: Item): Layer
  {
    Layer(item.uniqId, item.channel, item.layer, if item.kind == "" then Video else item.kind, "",
          item.loop, item.autoNext, TakeRemaining(item.duration), false)
  }

  /** `gfx.channel || defaultChannel`. */
  function GfxChannel(g: Gfx, defaultChannel: nat): nat
  {
    if g.channel != 0 then g.channel else defaultChannel
  }

  /** The record a graphic puts at its key: a `GFX` layer that counts down its duration in
      `TIMER` and `AUTO_FINISH` modes and shows 0 in any other mode. */
  function GfxLayer(g: Gfx, channel: nat): Layer
  {
    Layer("", channel, g.layer, GfxKind, g.mode, g.loop, false,
          if g.mode == TimerMode || g.mode == AutoFinish then g.duration else 0, false)
  }

  /** The command a take sends addresses, as `channel-layer`, the very key its record is
      kept under, and stopping that key at the clip's end stops the same layer. */
  lemma TakeAddressesKey(item: Item)
    ensures var c := TakeCommand(item);
      var key := LayerKey(TakeLayer(item).channel, TakeLayer(item).layer);
      && Target(c.channel, c.layer) == key
      && StopCommand(key) == CgStop(c.channel, c.layer)
      && ClearCommand(key) == Clear(c.channel, Some(c.layer))
  {
    KeyCommands(item.channel, item.layer);
  }

  /** A graphic's record is never ended by the tick (its expiry timer stops it): every tick
      leaves it a `GFX` record with its other fields as they were, and a counting graphic
      with no loop loses one second per tick down to 0. */
  lemma {:induction false} GraphicTicks(g: Gfx, channel: nat, n: nat)
    ensures var l := GfxLayer(g, channel);
      var t := Ticks(l, n);
      && !Ends(t)
      && t.(remaining := l.remaining) == l
      && ((g.mode == TimerMode || g.mode == AutoFinish) && !g.loop && n <= g.duration ==> t.remaining == g.duration - n)
      && ((g.mode == TimerMode || g.mode == AutoFinish) && !g.loop && 0 <= g.duration <= n ==> t.remaining == 0)
      && (g.mode == Manual || g.loop ==> t == l)
    decreases n
  {
    var l := GfxLayer(g, channel);
    if n > 0 {
      GraphicTicks(g, channel, n - 1);
      var u := Ticks(l, n - 1);
      TicksAdd(l, n - 1, 1);
      assert Ticks(l, n) == TickLayer(u) by {
        assert Ticks(u, 1) == Ticks(TickLayer(u), 0);
      }
      assert Infinite(u) == Infinite(l);
    }
  }

  /** A graphic arms its expiry timer only with a positive duration and no loop. */
  predicate ExpiryArmed(g: Gfx) {
    g.duration > 0 && !g.loop
  }

  /** What a take sends: `cg-add` with the item's data for a template clip, otherwise a
      `load` carrying the item's loop flag. */
  function TakeCommand(item: Item): ControlRequest
  {
    if item.kind == TemplateClip then CgAdd(NatToString(item.channel), NatToString(item.layer), item.id, item.data)
    else Load(NatToString(item.channel), NatToString(item.layer), item.id, item.loop)
  }

  /** The graphics a take (of anything but a template clip) schedules, each with the
      channel it defaults to: those whose delay is 0 or more, in list order. */
  function Scheduled(item: Item): seq<(Gfx, nat)> {
    ScheduledFrom(item.gfxItems, item.channel)
  }

  function ScheduledFrom(gs: seq<Gfx>, channel: nat): seq<(Gfx, nat)> {
    if gs == [] then []
    else (if gs[0].delay >= 0 then [(gs[0], GfxChannel(gs[0], channel))] else []) + ScheduledFrom(gs[1..], channel)
  }

  /** A take schedules exactly the item's graphics with a delay of 0 or more, each on its
      own channel or else the item's. */
  lemma {:induction false} ScheduledFromSpec(gs: seq<Gfx>, channel: nat)
    ensures forall p :: p in ScheduledFrom(gs, channel) ==> p.0 in gs && p.0.delay >= 0 && p.1 == GfxChannel(p.0, channel)
    ensures forall g :: g in gs && g.delay >= 0 ==> (g, GfxChannel(g, channel)) in ScheduledFrom(gs, channel)
  {
    if gs != [] {
      ScheduledFromSpec(gs[1..], channel);
      assert forall g :: g in gs ==> g == gs[0] || g in gs[1..];
    }
  }

  // ---------------------------------------------------------------------------
  // one tick of the 1 Hz timer, for one record

  /** A looping layer, and a `GFX` layer in `MANUAL` mode, never count down. */
  predicate Infinite(l: Layer) {
    l.loop || (l.kind == GfxKind && l.mode == Manual) || (l.kind == TemplateClip && l.loop)
  }

  /** The tick that handles the end of a clip: a video or template clip at 0 not yet
      finished. */
  predicate Ends(l: Layer) {
    !Infinite(l) && l.remaining == 0 && (l.kind == Video || l.kind == TemplateClip) && !l.finished
  }

  /** What one tick does to a record. */
  function TickLayer(l: Layer): (r: Layer)
    ensures r.(remaining := l.remaining, finished := l.finished) == l
    ensures Infinite(l) || l.remaining < 0 ==> r == l
    ensures !Infinite(l) && l.remaining > 0 ==> r.remaining == l.remaining - 1 && r.finished == l.finished
    ensures l.remaining >= 0 ==> r.remaining >= 0
    ensures Ends(l) ==> r.remaining == 0 && r.finished
    ensures !Ends(l) && !(l.remaining > 0 && !Infinite(l)) ==> r == l
  {
    if Infinite(l) then l
    else if l.remaining > 0 then l.(remaining := if l.remaining - 1 > 0 then l.remaining - 1 else 0)
    else if Ends(l) then l.(remaining := 0, finished := true)
    else l
  }

  /** `n` ticks in a row. */
  function Ticks(l: Layer, n: nat): Layer
    decreases n
  {
    if n == 0 then l else Ticks(TickLayer(l), n - 1)
  }

  /** Ticks compose. */
  lemma {:induction false} TicksAdd(l: Layer, a: nat, b: nat)
    ensures Ticks(l, a + b) == Ticks(Ticks(l, a), b)
    decreases a
  {
    if a > 0 {
      TicksAdd(TickLayer(l), a - 1, b);
    }
  }

  /** A record one tick leaves alone is left alone by any number of ticks. */
  lemma {:induction false} TicksFixed(l: Layer, n: nat)
    requires TickLayer(l) == l
    ensures Ticks(l, n) == l
    decreases n
  {
    if n > 0 {
      TicksFixed(l, n - 1);
    }
  }

  /** A clip whose end was handled stays as it is on every later tick, so its end is
      never handled again. */
  lemma FinishedStays(l: Layer, n: nat)
    requires Ends(l)
    ensures Ticks(TickLayer(l), n) == TickLayer(l)
    ensures !Ends(Ticks(TickLayer(l), n))
  {
    TicksFixed(TickLayer(l), n);
  }

  /** A counting record loses exactly one second per tick until it reaches 0. */
  lemma {:induction false} Countdown(l: Layer, n: nat)
    requires !Infinite(l) && n <= l.remaining
    ensures Ticks(l, n) == l.(remaining := l.remaining - n)
    decreases n
  {
    if n > 0 {
      Countdown(TickLayer(l), n - 1);
      assert TickLayer(l).(remaining := TickLayer(l).remaining - (n - 1)) == l.(remaining := l.remaining - n);
    }
  }

  /** A video or template clip taken with `remaining` seconds has its end handled on
      exactly one tick: the one that finds it at 0, after `remaining` ticks. */
  lemma EndsExactlyOnce(l: Layer, n: nat)
    requires !Infinite(l) && (l.kind == Video || l.kind == TemplateClip) && !l.finished && l.remaining >= 0
    ensures Ends(Ticks(l, n)) <==> n == l.remaining
  {
    if n <= l.remaining {
      Countdown(l, n);
    } else {
      var r: nat := l.remaining;
      Countdown(l, r);
      TicksAdd(l, r, n - r);
      FinishedStays(Ticks(l, r), n - r - 1);
    }
  }

  /** A record with a negative countdown is never touched by a tick, so a clip taken with
      a negative duration never has its end handled. */
  lemma NegativeNeverEnds(l: Layer, n: nat)
    requires l.remaining < 0
    ensures Ticks(l, n) == l && !Ends(Ticks(l, n))
  {
    TicksFixed(l, n);
  }

  // ---------------------------------------------------------------------------
  // the layer map

  /** The layer map and its keys in insertion order. */
  datatype LayerMap = LayerMap(entries: map<string, Layer>, keys: seq<string>)

  const NoLayers: LayerMap := LayerMap(map[], [])

  predicate Distinct(keys: seq<string>) {
    forall i, j :: 0 <= i < j < |keys| ==> keys[i] != keys[j]
  }

  /** Every key is listed once, and every record sits at the key of its own channel and
      layer. */
  ghost predicate WellKeyed(m: LayerMap) {
    KeysListed(m) && AtOwnKeys(m)
  }

  /** Every key is listed once. */
  ghost predicate KeysListed(m: LayerMap) {
    && (forall k :: k in m.entries <==> k in m.keys)
    && Distinct(m.keys)
  }

  /** Every record sits at the key of its own channel and layer. */
  ghost predicate AtOwnKeys(m: LayerMap) {
    forall k :: KeyedAt(m, k)
  }

  ghost predicate KeyedAt(m: LayerMap, k: string) {
    k in m.entries ==> k == LayerKey(m.entries[k].channel, m.entries[k].layer)
  }

  /** `{...prev, [k]: v}`: a new key goes last, an existing one keeps its place. */
  function Put(m: LayerMap, k: string, v: Layer): LayerMap {
    LayerMap(m.entries[k := v], if k in m.entries then m.keys else m.keys + [k])
  }

  /** `keys.filter(keep)`. */
  function Filter(keys: seq<string>, keep: string -> bool): (r: seq<string>)
    ensures |r| <= |keys|
  {
    if keys == [] then []
    else (if keep(keys[0]) then [keys[0]] else []) + Filter(keys[1..], keep)
  }

  /** `delete next[k]`. */
  function Remove(m: LayerMap, k: string): LayerMap {
    LayerMap(m.entries - {k}, Filter(m.keys, x => x != k))
  }

  /** A panic on channel `c` keeps the entries whose key does not read as channel `c`. */
  predicate KeepOnPanic(key: string, c: nat) {
    KeyChannel(key) != Num(c)
  }

  /** The map a panic leaves: the entries kept, in their order. */
  function PanicMap(m: LayerMap, c: nat): LayerMap {
    LayerMap(map k | k in m.entries && KeepOnPanic(k, c) :: m.entries[k], Filter(m.keys, k => KeepOnPanic(k, c)))
  }

  /** The map a tick leaves: every record ticked, same keys, same order. */
  function TickMap(m: LayerMap): LayerMap {
    LayerMap(map k | k in m.entries :: TickLayer(m.entries[k]), m.keys)
  }

  lemma {:induction false} FilterSpec(keys: seq<string>, keep: string -> bool)
    ensures forall x :: x in Filter(keys, keep) <==> x in keys && keep(x)
    ensures Distinct(keys) ==> Distinct(Filter(keys, keep))
  {
    if keys != [] {
      FilterSpec(keys[1..], keep);
      assert keys == [keys[0]] + keys[1..];
      var rest := Filter(keys[1..], keep);
      if Distinct(keys) && keep(keys[0]) {
        assert keys[0] !in keys[1..] by {
          forall j | 0 <= j < |keys[1..]| ensures keys[1..][j] != keys[0] {
            assert keys[1..][j] == keys[j + 1];
          }
        }
        assert keys[0] !in rest;
        var r := [keys[0]] + rest;
        forall i, j | 0 <= i < j < |r| ensures r[i] != r[j] {
          if i == 0 { assert r[j] == rest[j - 1]; assert r[j] in rest; }
          else { assert r[i] == rest[i - 1] && r[j] == rest[j - 1]; }
        }
      }
      if Distinct(keys) {
        forall i, j | 0 <= i < j < |keys[1..]| ensures keys[1..][i] != keys[1..][j] {
          assert keys[1..][i] == keys[i + 1] && keys[1..][j] == keys[j + 1];
        }
      }
    }
  }

  /** A take or a graphic sets only its own key: the new record is there, every other
      entry is as it was, an existing key keeps its place and a new one goes last. */
  lemma PutSpec(m: LayerMap, k: string, v: Layer)
    requires WellKeyed(m) && k == LayerKey(v.channel, v.layer)
    ensures WellKeyed(Put(m, k, v))
    ensures Put(m, k, v).entries[k] == v
    ensures forall j :: j != k ==> (j in Put(m, k, v).entries <==> j in m.entries)
    ensures forall j :: j != k && j in m.entries ==> Put(m, k, v).entries[j] == m.entries[j]
    ensures k in m.entries ==> Put(m, k, v).keys == m.keys
    ensures k !in m.entries ==> Put(m, k, v).keys == m.keys + [k]
  {
    var r := Put(m, k, v);
    forall j ensures KeyedAt(r, j) {
      assert KeyedAt(m, j);
    }
    if k !in m.entries {
      forall i, j | 0 <= i < j < |r.keys| ensures r.keys[i] != r.keys[j] {
        if j == |m.keys| { assert r.keys[i] == m.keys[i]; assert m.keys[i] in m.entries; }
      }
    }
  }

  /** `stopLayer` and the end of a grace period remove only their own key. */
  lemma RemoveSpec(m: LayerMap, k: string)
    requires WellKeyed(m)
    ensures WellKeyed(Remove(m, k))
    ensures k !in Remove(m, k).entries
    ensures forall j :: j != k ==> (j in Remove(m, k).entries <==> j in m.entries)
    ensures forall j :: j != k && j in m.entries ==> Remove(m, k).entries[j] == m.entries[j]
    ensures k !in m.entries ==> Remove(m, k) == m
  {
    FilterSpec(m.keys, x => x != k);
    forall j ensures KeyedAt(Remove(m, k), j) {
      assert KeyedAt(m, j);
    }
    if k !in m.entries {
      FilterAll(m.keys, x => x != k);
      assert m.entries - {k} == m.entries;
    }
  }

  /** Filtering with a test every key passes changes nothing. */
  lemma {:induction false} FilterAll(keys: seq<string>, keep: string -> bool)
    requires forall x :: x in keys ==> keep(x)
    ensures Filter(keys, keep) == keys
  {
    if keys != [] {
      FilterAll(keys[1..], keep);
      assert keys == [keys[0]] + keys[1..];
    }
  }

  /** A panic on channel `c` removes exactly the layers on channel `c` and keeps every
      other entry as it was, in its order. */
  lemma PanicSpec(m: LayerMap, c: nat)
    requires WellKeyed(m)
    ensures WellKeyed(PanicMap(m, c))
    ensures forall k :: k in PanicMap(m, c).entries <==> k in m.entries && m.entries[k].channel != c
    ensures forall k :: k in PanicMap(m, c).entries ==> PanicMap(m, c).entries[k] == m.entries[k]
  {
    FilterSpec(m.keys, k => KeepOnPanic(k, c));
    forall k | k in m.entries
      ensures KeepOnPanic(k, c) <==> m.entries[k].channel != c
    {
      assert KeyedAt(m, k);
      KeyCommands(m.entries[k].channel, m.entries[k].layer);
    }
    forall k ensures KeyedAt(PanicMap(m, c), k) {
      assert KeyedAt(m, k);
    }
  }

  /** A tick never adds or removes a key, and keeps the order. */
  lemma TickMapSpec(m: LayerMap)
    requires WellKeyed(m)
    ensures WellKeyed(TickMap(m))
    ensures TickMap(m).keys == m.keys && TickMap(m).entries.Keys == m.entries.Keys
    ensures forall k :: k in m.entries ==> TickMap(m).entries[k] == TickLayer(m.entries[k])
  {
    TickMapWellKeyed(m);
  }

  lemma TickMapWellKeyed(m: LayerMap)
    requires WellKeyed(m)
    ensures WellKeyed(TickMap(m))
  {
    forall k ensures KeyedAt(TickMap(m), k) {
      assert KeyedAt(m, k);
    }
  }

  // ---------------------------------------------------------------------------
  // what a tick sends and schedules, walking the keys in order

  /** The end of a clip: a `pause` for a video, `cgStop` of its key for a template clip. */
  function EndCommand(l: Layer): ControlRequest {
    if l.kind == Video then Pause(NatToString(l.channel), NatToString(l.layer))
    else CgStop(NatToString(l.channel), NatToString(l.layer))
  }

  /** What `sendCasparCommand` posts: nothing while the studio sees the gateway offline. */
  function Posted(online: bool, c: ControlRequest): seq<ControlRequest> {
    if online then [c] else []
  }

  /** The commands a tick sends, one per ending record, in key order. */
  function TickCommands(keys: seq<string>, entries: map<string, Layer>, online: bool): seq<ControlRequest>
    decreases |keys|
  {
    if keys == [] then []
    else
      var k := keys[|keys| - 1];
      TickCommands(keys[..|keys| - 1], entries, online)
        + (if k in entries && Ends(entries[k]) then Posted(online, EndCommand(entries[k])) else [])
  }

  /** The keys whose removal a tick schedules (`cgStop` of ending template clips). */
  function TickRemovals(keys: seq<string>, entries: map<string, Layer>): seq<string>
    decreases |keys|
  {
    if keys == [] then []
    else
      var k := keys[|keys| - 1];
      TickRemovals(keys[..|keys| - 1], entries)
        + (if k in entries && Ends(entries[k]) && entries[k].kind == TemplateClip
           then [LayerKey(entries[k].channel, entries[k].layer)] else [])
  }

  /** The map a tick has built after walking the first `i` keys of `prev`. */
  ghost predicate TickedPrefix(prev: LayerMap, next: LayerMap, i: nat)
    requires i <= |prev.keys|
  {
    && next.keys == prev.keys[..i]
    && (forall k :: k in next.entries <==> k in prev.keys[..i])
    && (forall k :: k in next.entries ==> k in prev.entries && next.entries[k] == TickLayer(prev.entries[k]))
  }

  /** Putting the next key's ticked record extends the prefix by one key; the whole walk
      builds exactly the ticked map. */
  lemma TickedPrefixStep(prev: LayerMap, next: LayerMap, i: nat)
    requires KeysListed(prev) && i < |prev.keys| && TickedPrefix(prev, next, i)
    ensures prev.keys[i] in prev.entries && prev.keys[i] !in next.entries
    ensures TickedPrefix(prev, Put(next, prev.keys[i], TickLayer(prev.entries[prev.keys[i]])), i + 1)
  {
    var keys, key := prev.keys, prev.keys[i];
    assert key in prev.entries;
    assert key !in next.entries by {
      forall j | 0 <= j < i ensures keys[..i][j] != key { assert keys[j] != keys[i]; }
    }
    assert keys[..i + 1] == keys[..i] + [key];
  }

  lemma TickedPrefixAll(prev: LayerMap, next: LayerMap)
    requires KeysListed(prev) && TickedPrefix(prev, next, |prev.keys|)
    ensures next == TickMap(prev)
  {
    assert prev.keys[..|prev.keys|] == prev.keys;
    assert next.entries == TickMap(prev).entries;
  }

  /** Walking one more key adds that key's command and removal. */
  lemma TickStep(keys: seq<string>, i: nat, entries: map<string, Layer>, online: bool)
    requires i < |keys|
    ensures TickCommands(keys[..i + 1], entries, online) == TickCommands(keys[..i], entries, online)
      + (if keys[i] in entries && Ends(entries[keys[i]]) then Posted(online, EndCommand(entries[keys[i]])) else [])
    ensures TickRemovals(keys[..i + 1], entries) == TickRemovals(keys[..i], entries)
      + (if keys[i] in entries && Ends(entries[keys[i]]) && entries[keys[i]].kind == TemplateClip
         then [LayerKey(entries[keys[i]].channel, entries[keys[i]].layer)] else [])
  {
    assert keys[..i + 1][..i] == keys[..i];
  }

  /** How many records end on this tick. */
  function EndCount(keys: seq<string>, entries: map<string, Layer>): nat
    decreases |keys|
  {
    if keys == [] then 0
    else
      var k := keys[|keys| - 1];
      EndCount(keys[..|keys| - 1], entries) + (if k in entries && Ends(entries[k]) then 1 else 0)
  }

  /** The item one ending record asks to take next, if any. */
  function AutoNextOf(l: Layer, autoChain: bool, pls: seq<Playlist>): Option<Item> {
    if Ends(l) && autoChain && l.autoNext then NextAfter(pls, l.uniqId) else None
  }

  /** `triggerNext`: the last item any ending record asks for, in key order. */
  function TickNext(keys: seq<string>, entries: map<string, Layer>, autoChain: bool, pls: seq<Playlist>): Option<Item> {
    LastSome(TickAsks(keys, entries, autoChain, pls))
  }

  /** What each key's record asks for, in key order. */
  function TickAsks(keys: seq<string>, entries: map<string, Layer>, autoChain: bool, pls: seq<Playlist>): (r: seq<Option<Item>>)
    ensures |r| == |keys|
  {
    seq(|keys|, i requires 0 <= i < |keys| =>
      if keys[i] in entries then AutoNextOf(entries[keys[i]], autoChain, pls) else None)
  }

  /** Walking one more key asks for what that key's record asks for, if anything. */
  lemma TickNextStep(keys: seq<string>, i: nat, entries: map<string, Layer>, autoChain: bool, pls: seq<Playlist>)
    requires i < |keys| && keys[i] in entries
    ensures var asks := TickAsks(keys, entries, autoChain, pls);
      var ask := AutoNextOf(entries[keys[i]], autoChain, pls);
      LastSome(asks[..i + 1]) == if ask.Some? then ask else LastSome(asks[..i])
  {
    var asks := TickAsks(keys, entries, autoChain, pls);
    LastSomeStep(asks, i);
  }

  /** Online, a tick sends exactly one command per ending record; offline it sends none. */
  lemma {:induction false} TickCommandsCount(keys: seq<string>, entries: map<string, Layer>, online: bool)
    ensures |TickCommands(keys, entries, online)| == if online then EndCount(keys, entries) else 0
    decreases |keys|
  {
    if keys != [] {
      TickCommandsCount(keys[..|keys| - 1], entries, online);
    }
  }

  /** Every command a tick sends is the end command of a record ending on that tick. */
  lemma {:induction false} TickCommandsFrom(keys: seq<string>, entries: map<string, Layer>, online: bool)
    ensures forall c :: c in TickCommands(keys, entries, online) ==>
      exists k :: k in keys && k in entries && Ends(entries[k]) && c == EndCommand(entries[k])
    decreases |keys|
  {
    if keys != [] {
      var init := keys[..|keys| - 1];
      TickCommandsFrom(init, entries, online);
      assert forall k :: k in init ==> k in keys;
    }
  }

  /** On the tick after, every record that ended is quiet: nothing ends twice. */
  lemma TickQuietAfterEnd(m: LayerMap, k: string, n: nat)
    requires k in m.entries && Ends(m.entries[k])
    ensures !Ends(Ticks(TickMap(m).entries[k], n))
  {
    FinishedStays(m.entries[k], n);
  }

  /** Auto-next: nothing is taken unless the master switch is on; what is taken is the
      item after an ending record's item with `autoNext` set, from the last such record in
      key order; an ending last item asks for nothing. */
  lemma TickNextSpec(keys: seq<string>, entries: map<string, Layer>, autoChain: bool, pls: seq<Playlist>)
    ensures !autoChain ==> TickNext(keys, entries, autoChain, pls).None?
    ensures TickNext(keys, entries, autoChain, pls).Some? ==>
      exists i :: 0 <= i < |keys| && keys[i] in entries
        && Ends(entries[keys[i]]) && entries[keys[i]].autoNext
        && NextAfter(pls, entries[keys[i]].uniqId) == TickNext(keys, entries, autoChain, pls)
        && forall j :: i < j < |keys| && keys[j] in entries ==> AutoNextOf(entries[keys[j]], autoChain, pls).None?
    ensures (forall k :: k in keys && k in entries && Ends(entries[k]) && entries[k].autoNext ==>
              NextAfter(pls, entries[k].uniqId).None?) ==> TickNext(keys, entries, autoChain, pls).None?
  {
    var asks := TickAsks(keys, entries, autoChain, pls);
    LastSomeNone(asks);
    if LastSome(asks).Some? {
      LastSomeLast(asks);
      var i :| 0 <= i < |asks| && asks[i] == LastSome(asks) && forall j :: i < j < |asks| ==> asks[j].None?;
      assert keys[i] in entries;
      assert forall j :: i < j < |keys| && keys[j] in entries ==> asks[j] == AutoNextOf(entries[keys[j]], autoChain, pls);
    }
  }
}
